# Product catalog importer — Dafny model

This project models the core of a small FastAPI + Celery product-catalog service:

- **CSV import task** (`import_products`). Every CSV record is normalised: the sku is stripped and
  lower-cased, the name and description are stripped, a missing description becomes `""`, and
  `active` is forced to true. Records go into a buffer. The buffer is flushed as one
  `INSERT … ON CONFLICT (sku) DO UPDATE` batch when it holds `BATCH_SIZE` (2000) rows or when the
  last row has been buffered. A `PROGRESS` update is emitted at every 500th row and at the last row.
  The task returns `current = total`. A record without a `sku` or `name` field aborts the run.
  Batches already committed stay, and no failure state is written.
- **Webhook fan-out** (`trigger_event`). The enabled webhooks subscribed to an event are read once.
  Each one gets exactly one POST of the same `{event, timestamp, data}` payload. A failed POST is
  swallowed and the loop goes on.
- **HTTP handlers' table operations**:
  - the task-status lookup (`PENDING` when no row exists)
  - the product listing: ILIKE filter on `q`, `active` filter, `ORDER BY sku LIMIT/OFFSET`
  - insert-if-absent product creation
  - delete by sku and delete-all
  - the webhook `enabled` toggle
  - the webhook test call
- **ORM helpers** (`crud.py`): product lookup, create, full replacement and delete by sku, bulk
  delete, and webhook create, partial update and delete by id.

Modules, one per file:

- `Wrappers` — Option / Result.
- `Text` — Python `str.strip` over the Python whitespace set, ASCII `lower`, substring tests, and
  the code-point order that `ORDER BY sku` uses.
- `Ordering` — the ascending key sequence of a set, and ranks.
- `Catalog` — product rows, and the upsert executed once per row.
- `Store` — the database: the products table, the webhooks table with its id sequence, and the
  `task_progress` table.
- `Tasks` — `app/tasks.py`.
- `Webhooks` — `app/webhooks.py`.
- `Api` — `app/main.py`.
- `Crud` — `app/crud.py`.

The import is an imperative method whose loop keeps this invariant (`Tasks.Buffered`): the table
equals the original table with the committed prefix upserted, the buffer is the rest of the rows
read so far, and the flush log is `Batches` of the committed prefix. The method's postcondition
ties its result, flushes, progress log and final table to the functions `Scan`, `Batches`,
`ProgressEvents` and `ApplyRows`. The lemmas state what the source promises about those functions.

The HTTP client, the clock and the `update_state` backend are parameters or logs:

- `post` is an oracle from (url, payload) to a response status or an exception.
- `timestamp` is an opaque string.
- progress updates are returned as a sequence.

Where the code and its documentation disagree, the model follows the code:

- The task writes no STARTED, SUCCESS or FAILED state. It calls `update_state` with `PROGRESS` only.
- Nothing writes the `task_progress` table that `get_task` reads, so it is an abstract table here.
- There is no non-empty check on sku or name: an empty value is accepted, and only a missing field
  aborts the run.

## Model

| member | source | states |
|---|---|---|
| Tasks.NormalizeRow | app/tasks.py:29-34 | the record is accepted iff it has both `sku` and `name`; a missing sku is reported first, then a missing name |
| Tasks.NormalizeRowShape | app/tasks.py:29-34 | a normalised row's sku is the stripped, lower-cased sku (either order) with no upper-case letter and no surrounding blanks; the name is stripped; the description is the stripped value or "" when absent; active is true |
| Tasks.SkuKeyIgnoresCase | app/tasks.py:30 | two records get the same catalog key iff their skus agree after lower-casing and stripping ("ABC-1" and " abc-1" collapse) |
| Tasks.NormalizeAll | app/tasks.py:28-34 | one outcome per record |
| Tasks.NormalizeAllAt | app/tasks.py:28-34 | the j-th outcome is the normalisation of the j-th record |
| Tasks.Scan | app/tasks.py:28-34 | the rows processed before the run stops are exactly the leading successes; the run stops iff some record fails, and the failure names that record's number as the reader's enumeration counts it (from 1, the header excluded) and its field |
| Tasks.ScanAllOk | app/tasks.py:28-34 | when every record normalises, all of them are accepted and there is no failure |
| Tasks.ScanStopsAt | app/tasks.py:28-31 | the first failing record stops the run with the successes before it |
| Tasks.ScanFailurePersists | app/tasks.py:28-31 | once a prefix of the file fails, the whole run fails the same way (later records are never read) |
| Tasks.Batches | app/tasks.py:37-50 | how the committed rows are cut into flushes: whole batches of BATCH_SIZE, then the rest; every flush holds 1..BATCH_SIZE rows |
| Tasks.BatchesAppend | app/tasks.py:37-50 | buffering a final partial batch after whole batches adds exactly one flush holding it |
| Tasks.BatchesFlatten | app/tasks.py:28-50 | the concatenation of all flushes is the normalised rows in input order, so each row is flushed exactly once |
| Tasks.BatchesShape | app/tasks.py:25-50 | there are ceil(n / BATCH_SIZE) flushes; every flush but the last holds BATCH_SIZE rows and the last holds 1..BATCH_SIZE |
| Tasks.ProgressEvents | app/tasks.py:53-57 | the updates emitted after k rows, one per row i <= k with i % 500 == 0 or i == total; there are at most k of them |
| Tasks.ProgressStep | app/tasks.py:53-57 | row n+1 appends its PROGRESS update, if it has one, after those of the first n rows |
| Tasks.ProgressEventsAt | app/tasks.py:53-57 | an update is emitted for row i exactly when i % 500 == 0 or i == total, always with state PROGRESS and the run's total |
| Tasks.ProgressEventsIncreasing | app/tasks.py:53-57 | the reported `current` values strictly increase |
| Tasks.ProgressEventsCount | app/tasks.py:53-57 | floor(k/500) updates, plus one at the last row unless it is a multiple of 500 (then a single update); a completed run's last update is (total, total) |
| Tasks.BufferStep | app/tasks.py:37-50 | the buffer becomes full exactly when the row count reaches a multiple of BATCH_SIZE, and it never holds BATCH_SIZE rows between steps |
| Tasks.OkStep | app/tasks.py:28-34 | one more accepted row extends the row-by-row agreement with the outcomes |
| Tasks.Committed | app/tasks.py:37-50 | the committed prefix is a multiple of BATCH_SIZE or everything; fewer than BATCH_SIZE rows stay buffered; after the last row it is all of them, so the buffer is empty |
| Tasks.HoldKeeps | app/tasks.py:29-37 | buffering a row that neither fills the buffer nor is the last leaves the table and flush log as they were, with the row added to the buffer |
| Tasks.FlushKeeps | app/tasks.py:29-50 | buffering a row that fills the buffer or is the last, then flushing, commits every row read so far: the table gains the buffer's upserts, the flush log gains the buffer, the buffer is empty |
| Tasks.BufferRow | app/tasks.py:29-50 | appending one row to the buffer, and flushing it at BATCH_SIZE or at the last row, keeps the invariant: table = original + committed rows upserted, buffer = uncommitted rows, flush log = Batches(committed rows) |
| Tasks.ImportProducts | app/tasks.py:16-62 | the result is `Completed` with current = total = number of records, or the first missing field; the flush log is Batches of the committed rows; the progress log is ProgressEvents up to where the run stopped; only the products table changes, by upserting the committed rows in order |
| Tasks.ImportLastOccurrenceWins | app/tasks.py:28-47 | after a completed run, each normalised sku of the file holds the values of its last occurrence in the file |
| Catalog.ApplyRows | app/tasks.py:38-47 | the flush statement executed once per row, first to last: every existing sku stays, and every row's sku is present afterwards |
| Catalog.LastVals | app/tasks.py:38-47 | no value exactly when no row carries that sku |
| Catalog.LastValsOfLast | app/tasks.py:38-47 | the value picked for a sku is that of the row no later row overrides |
| Catalog.ApplyRowsLastWins | app/tasks.py:38-47 | after the upserts, a sku named by some row holds its last row's values; every other sku is present and valued exactly as before |
| Catalog.ApplyRowsAppend | app/tasks.py:37-50 | executing consecutive batches is executing their concatenation |
| Catalog.ApplyRowsIdempotent | app/tasks.py:41-46 | applying the same batch twice leaves the catalog as applying it once |
| Store.Database.UpsertBatch | app/tasks.py:38-49 | a flush upserts the batch rows in order and changes nothing else |
| Store.Database.constructor | app/models.py:5-24 | empty tables, and the webhook ids are unique and below the id sequence |
| Store.FindWebhook | app/crud.py:40 | the first row with that id, or none exactly when no row has it |
| Webhooks.Listeners | app/webhooks.py:15 | the selected rows are exactly the table rows with that event and enabled set |
| Webhooks.ListenersCount | app/webhooks.py:15 | each selected row appears as often as in the table; every other row appears not at all |
| Webhooks.ListenersUnique | app/webhooks.py:15 | with unique primary keys, no webhook is selected twice |
| Webhooks.TriggerEvent | app/webhooks.py:7-22 | one attempt per selected listener, in the order the listeners are read, each to its url with the same payload {event, timestamp, data}; each outcome is that POST's own and does not stop later attempts; nothing is written |
| Api.GetTask | app/main.py:28-47 | an unknown id gives PENDING with no meta; a known id gives the row's state and its current/total |
| Api.Matches | app/main.py:61-71 | the WHERE clause: with empty `q` and `active` every row passes; with a non-empty `active`, a row whose flag differs from `active.lower() == "true"` is dropped |
| Api.Matching | app/main.py:61-71 | the kept skus are rows of the table |
| Api.NoFilter | app/main.py:61-71 | empty `q` and empty `active` keep every row |
| Api.FiltersAnd | app/main.py:61-71 | the two filters combine with AND |
| Api.RowsAt | app/main.py:74-77 | the rows at the given skus, in that order |
| Api.Window | app/main.py:72 | LIMIT: at most `size` rows |
| Api.WindowAt | app/main.py:72 | row j of the page is row offset + j of the listing, and the page length is min(size, rows left after offset) |
| Api.WindowRanks | app/main.py:72 | over an ascending listing, row j has offset + j kept skus before it, and a sku is on the page iff offset <= its rank < offset + size |
| Api.WindowSorted | app/main.py:72 | a page of an ascending listing is ascending |
| Api.ListProducts | app/main.py:54-77 | list_products: offset (page-1)*size; a successful page holds at most `size` rows, each a row of the table (the page itself is characterised by ListProductsWindow) |
| Api.ListProductsErrors | app/main.py:59-72 | the listing fails iff OFFSET or LIMIT is outside bigint (reported first), or (page-1)*size < 0 (negative OFFSET, checked next), or size < 0 (negative LIMIT) |
| Api.ListProductsWindow | app/main.py:54-77 | a page holds at most `size` rows; each is a table row passing the filters; the rows are strictly ascending by sku; the j-th has offset + j kept rows before it; a kept row is on the page iff its rank is in [offset, offset + size) |
| Api.InsertIfAbsent | app/main.py:83-87 | the sku is added with the row as given (not lower-cased) when new; an existing row and all other rows are unchanged |
| Api.InsertIfAbsentIdempotent | app/main.py:80-90 | posting the same product twice is posting it once |
| Api.InsertIfAbsentVersusUpsert | app/main.py:86 | the handler's DO NOTHING and the import's DO UPDATE agree iff the sku is new or already holds those values |
| Api.CreateProduct | app/main.py:80-90 | the table becomes InsertIfAbsent of the row; the status is "created" either way |
| Api.DeleteProduct | app/main.py:93-99 | exactly the row with that sku is removed; the status is "deleted" either way |
| Api.DeleteUndoesInsert | app/main.py:80-99 | deleting a product just posted under a new sku restores the table |
| Api.DeleteAll | app/main.py:102-108 | the products table is empty; the status is "all deleted" |
| Api.SetEnabled | app/main.py:138-140 | only the `enabled` column of the rows with that id changes, to the sent value |
| Api.ToggleIsEnabledPatch | app/main.py:135-143 | with unique ids the toggle is update_webhook with only `enabled` sent: an unknown id changes nothing |
| Api.ToggleWebhook | app/main.py:135-143 | a body without "enabled" fails before any write; otherwise the table becomes SetEnabled and the status is "updated", matched or not; ids stay unique |
| Api.TestWebhook | app/main.py:155-169 | an unknown id answers NOT_FOUND and posts nothing; a known id gets one POST to its url, answered with the status code, or FAILED on an exception |
| Crud.RowOf | app/schemas.py:4-8 | the row carries the body's sku, name and description (None when omitted); active is false only when sent as false |
| Crud.GetProductBySku | app/crud.py:5-6 | the row whose sku equals the argument exactly (no case folding), none exactly when absent |
| Crud.Replace | app/crud.py:16-17 | every column, sku included, is overwritten; the old key disappears when the sku moves; other rows are unchanged; moving onto another row's sku is a unique-index error |
| Crud.ReplaceBySelf | app/crud.py:13-18 | replacing a row by its own values changes nothing |
| Crud.ReplaceIdempotent | app/crud.py:13-18 | repeating an update against the row's new sku changes nothing more |
| Crud.CreateProduct | app/crud.py:8-11 | a new sku adds the row with schema defaults; an existing one is a unique-index error and nothing changes |
| Crud.UpdateProduct | app/crud.py:13-18 | an absent sku gives none and nothing changes; otherwise the table becomes Replace's result, or the unique-index error leaves it unchanged |
| Crud.DeleteProduct | app/crud.py:20-24 | exactly that sku's row is removed and returned; an absent sku gives none and no change |
| Crud.DeleteUndoesCreate | app/crud.py:8-24 | deleting a row just created under a new sku restores the table |
| Crud.BulkDelete | app/crud.py:26-27 | the products table is empty |
| Crud.CreateWebhook | app/crud.py:29-34 | one row is appended with the next sequence id, unused before, with the given url and event and enabled defaulting to true; other rows are unchanged; ids stay unique |
| Crud.Patch | app/crud.py:44-45 | exactly the fields sent are overwritten; the id and unsent fields are kept |
| Crud.PatchNothing | app/crud.py:44-45 | an update sending no field changes nothing |
| Crud.PatchCompose | app/crud.py:44-45 | two updates in a row act as one carrying, per field, the later value if it was sent |
| Crud.PatchIdempotent | app/crud.py:39-48 | sending the same update twice is sending it once |
| Crud.UniqueIdsAfterUpdate | app/crud.py:44-47 | rewriting one row without its id keeps the primary keys unique |
| Crud.UpdateWebhook | app/crud.py:39-48 | an unknown id gives none and nothing changes; otherwise that row alone becomes Patch of it and is returned |
| Crud.UniqueIdsAfterRemove | app/crud.py:52-54 | removing a row keeps the ids unique and leaves no row with its id |
| Crud.DeleteWebhook | app/crud.py:50-56 | no row with that id is left; the removed row is returned, other rows keep their order; an unknown id gives none and no change |
| Crud.DeleteUndoesCreateWebhook | app/crud.py:29-56 | deleting the webhook just created, by its id, restores the table |
| Text.Strip | app/tasks.py:30-32 | `str.strip()`: never longer than its input (what it keeps and drops is StripShape and StripEnds) |
| Text.TrimStartShape | app/tasks.py:30-32 | stripping the front drops only whitespace and stops at the first non-whitespace character |
| Text.TrimEndShape | app/tasks.py:30-32 | stripping the back drops only whitespace and stops at the last non-whitespace character |
| Text.StripShape | app/tasks.py:30-32 | strip keeps a contiguous middle slice and drops only whitespace on either side |
| Text.StripEnds | app/tasks.py:30-32 | strip's result has no whitespace at either end, and an already-stripped string is kept |
| Text.StripIdempotent | app/tasks.py:30-32 | stripping twice is stripping once |
| Text.Lower | app/tasks.py:30 | lower-casing keeps the length |
| Text.LowerAt | app/tasks.py:30 | each character is lower-cased on its own, and the result has no upper-case letter |
| Text.LowerIdempotent | app/tasks.py:30 | lower-casing twice is lower-casing once |
| Text.LowerStripCommute | app/tasks.py:30 | lower-casing and stripping commute |
| Text.LessIrreflexive | app/main.py:72 | no sku sorts before itself |
| Text.LessTransitive | app/main.py:72 | the sku order is transitive |
| Text.LessTotal | app/main.py:72 | any two distinct skus are ordered |
| Ordering.SortedKeys | app/main.py:72 | the listing holds every kept sku once |
| Ordering.SortedKeysSorted | app/main.py:72 | the listing is strictly ascending |
| Ordering.RankIsPosition | app/main.py:72 | in a strictly ascending listing a sku's position is its rank |

## Left out

- Celery plumbing is not modelled: the broker and backend, task binding, `.delay` and `worker_main`.
  `update_state` is the returned progress log. The progress log and the flush log are separate
  sequences, so their interleaving is not recorded.
- File I/O and CSV tokenising are not modelled. The task starts from the records the reader produced
  (header → value maps). A key the record lacks stands for both a missing column and the `None` a
  short row leaves, since the code treats the two the same way.
- The upload handler passes base64 text where the task expects a file path. Neither the upload
  handler nor base64 is modelled.
- Tasks.ImportProducts: the session close in `finally` is not modelled. An exception other than a
  missing sku/name field is not modelled either: database errors, and a non-string value reaching
  `.strip()`.
- Text.Lower: only ASCII letters are lower-cased. Unicode case mapping is not modelled. `strip`
  uses the Python whitespace set.
- Api.Matching: ILIKE is modelled as an ASCII case-insensitive substring test. The `%` and `_`
  wildcards inside a user's `q` are not modelled.
- Ordering.SortedKeys: `ORDER BY sku` is taken as code-point order. Database collations are not
  modelled.
- Api.ListProducts is a ghost function, because choosing the least key of a set is not compilable.
  The product id column is not modelled, so listed rows carry sku and values only.
- Webhooks.TriggerEvent: the SELECT has no ORDER BY, so the database may return the listeners in any order. The model fixes storage order, which is one of the orders the SELECT may return; attempts are matched to listeners in that order.
- Api.CreateProduct: the model takes a typed row. A raw dict with missing keys, which the SQL driver
  would reject, is not modelled.
- Api.ToggleWebhook: the model takes a map from field name to boolean. A non-boolean or null
  `enabled` is not modelled.
- Crud.UpdateWebhook: a field explicitly sent as null is treated as not sent. `exclude_unset` would
  write the null into the column.
- Crud.CreateProduct and Crud.UpdateProduct report the unique-index violation at once. The real
  session raises it at the next flush or commit.
- `main.create_webhook`, `main.delete_webhook`, `main.list_webhooks` and `crud.get_webhooks` are
  not modelled. They are plain reads or writes with no added logic.
- HTTP delivery is not modelled: `requests.post`, its timeouts and `datetime.utcnow`. They are the
  `post` oracle and the `timestamp` parameter.
- FastAPI routing, templates and the home page are not modelled. This includes the route order:
  `DELETE /products/{sku}` is declared before `DELETE /products/delete-all` and captures that path.
- Sessions, transactions and concurrent workers are not modelled. Each operation is one atomic
  change to the tables.
- Pydantic `HttpUrl` validation is not modelled.
