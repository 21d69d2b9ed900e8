/**
 * The table operations behind the HTTP handlers: the task-status lookup,
 * the product listing (filter, ORDER BY sku, LIMIT/OFFSET), insert-if-absent
 * product creation, deletion by sku and of everything, the webhook enabled
 * toggle, and the webhook test call.
 */
module Api {
  import opened Wrappers
  import opened Text
  import opened Ordering
  import opened Catalog
  import opened Store
  import Crud
  import Webhooks

  // ---------------------------------------------------------------- get_task

  datatype TaskMeta = TaskMeta(current: int, total: int)

  /** The response body: {"state"} alone, or {"state", "meta": {"current", "total"}}. */
  datatype TaskStatus = TaskStatus(state: string, meta: Option<TaskMeta>)

  /** get_task: an id without a task_progress row is PENDING with no meta; otherwise the row is reported. */
  function GetTask(db: Database, taskId: string): (r: TaskStatus)
    reads db
    ensures r.meta.None? <==> taskId !in db.taskProgress
    ensures r.meta.None? ==> r.state == "PENDING"
    ensures r.meta.Some? ==> var row := db.taskProgress[taskId];
      r.state == row.state && r.meta.value.current == row.current && r.meta.value.total == row.total
  {
    if taskId !in db.taskProgress then TaskStatus("PENDING", None)
    else
      var row := db.taskProgress[taskId];
      TaskStatus(row.state, Some(TaskMeta(row.current, row.total)))
  }

  // ----------------------------------------------------------- list_products

  /**
   * The errors the database raises for the LIMIT/OFFSET parameters: a value
   * outside bigint fails when the statement is analysed, before either
   * count is checked for sign; then OFFSET is checked before LIMIT.
   */
  datatype ListError = OutOfRange | NegativeOffset | NegativeLimit

  const BIGINT_MIN: int := -0x8000_0000_0000_0000
  const BIGINT_MAX: int := 0x7FFF_FFFF_FFFF_FFFF

  predicate IsBigint(v: int) {
    BIGINT_MIN <= v <= BIGINT_MAX
  }

  /**
   * The WHERE clause: a non-empty `q` keeps rows whose name or sku contains
   * it ignoring case (ILIKE '%q%'); a non-empty `active` keeps rows whose
   * flag is `active.lower() == "true"`; both together are ANDed; empty
   * parameters add no condition.
   */
  predicate Matches(row: ProductRow, q: string, active: string)
    ensures q == "" && active == "" ==> Matches(row, q, active)
    ensures active != "" && row.vals.active != (Lower(active) == "true") ==> !Matches(row, q, active)
  {
    && (q == "" || ContainsIgnoreCase(row.vals.name, q) || ContainsIgnoreCase(row.sku, q))
    && (active == "" || row.vals.active == (Lower(active) == "true"))
  }

  /** The skus of the rows the WHERE clause keeps. */
  ghost function Matching(t: Table, q: string, active: string): (m: set<string>)
    ensures m <= t.Keys
  {
    set s | s in t && Matches(ProductRow(s, t[s]), q, active)
  }

  /** Without `q` and `active` every row is kept. */
  lemma NoFilter(t: Table)
    ensures Matching(t, "", "") == t.Keys
  {
  }

  /** The two filters combine with AND. */
  lemma FiltersAnd(t: Table, q: string, active: string)
    ensures Matching(t, q, active) == Matching(t, q, "") * Matching(t, "", active)
  {
  }

  /** The rows of `t` at the given keys, in that order. */
  function RowsAt(t: Table, keys: seq<string>): (r: seq<ProductRow>)
    requires forall k :: k in keys ==> k in t
    ensures |r| == |keys|
    ensures forall j :: 0 <= j < |r| ==> r[j].sku == keys[j] && r[j].vals == t[keys[j]]
    decreases |keys|
  {
    if keys == [] then [] else [ProductRow(keys[0], t[keys[0]])] + RowsAt(t, keys[1..])
  }

  /** LIMIT size OFFSET offset over the rows of `t` at `keys`, in that order. */
  function Window(t: Table, keys: seq<string>, offset: nat, size: nat): (r: seq<ProductRow>)
    requires forall k :: k in keys ==> k in t
    ensures |r| <= size
  {
    var from := if offset < |keys| then offset else |keys|;
    var to := if offset + size < |keys| then offset + size else |keys|;
    assert forall k :: k in keys[from..to] ==> k in keys;
    RowsAt(t, keys[from..to])
  }

  /**
   * list_products: the kept rows in ascending sku order, skipping
   * (page-1)*size of them and returning at most `size`.
   */
  ghost function ListProducts(t: Table, page: int, size: int, q: string, active: string)
    : (r: Result<seq<ProductRow>, ListError>)
    ensures r.Ok? ==> 0 <= size && |r.value| <= size
    ensures r.Ok? ==> forall j :: 0 <= j < |r.value| ==> r.value[j].sku in t
  {
    var offset := (page - 1) * size;
    if !IsBigint(offset) || !IsBigint(size) then Err(OutOfRange)
    else if offset < 0 then Err(NegativeOffset)
    else if size < 0 then Err(NegativeLimit)
    else Ok(Window(t, SortedKeys(Matching(t, q, active)), offset, size))
  }

  /**
   * The listing fails exactly when OFFSET or LIMIT is outside bigint or
   * negative: range first, then a negative OFFSET, then a negative LIMIT.
   */
  lemma ListProductsErrors(t: Table, page: int, size: int, q: string, active: string)
    ensures ListProducts(t, page, size, q, active).Err? <==>
      !IsBigint((page - 1) * size) || !IsBigint(size) || (page - 1) * size < 0 || size < 0
    ensures !IsBigint((page - 1) * size) || !IsBigint(size) ==>
      ListProducts(t, page, size, q, active) == Err(OutOfRange)
    ensures IsBigint((page - 1) * size) && IsBigint(size) && (page - 1) * size < 0 ==>
      ListProducts(t, page, size, q, active) == Err(NegativeOffset)
    ensures IsBigint((page - 1) * size) && IsBigint(size) && (page - 1) * size >= 0 && size < 0 ==>
      ListProducts(t, page, size, q, active) == Err(NegativeLimit)
  {
  }

  /** Row j of the window is row offset + j of the listing. */
  lemma WindowAt(t: Table, keys: seq<string>, offset: nat, size: nat)
    requires forall k :: k in keys ==> k in t
    ensures var r := Window(t, keys, offset, size);
      forall j :: 0 <= j < |r| ==>
        offset + j < |keys| && r[j].sku == keys[offset + j] && r[j].vals == t[keys[offset + j]]
    ensures offset <= |keys| ==>
      |Window(t, keys, offset, size)| == (if offset + size < |keys| then size else |keys| - offset)
  {
    var r := Window(t, keys, offset, size);
    if offset < |keys| {
      var to := if offset + size < |keys| then offset + size else |keys|;
      var sub := keys[offset..to];
      assert forall k :: k in sub ==> k in keys;
      assert r == RowsAt(t, sub);
      forall j | 0 <= j < |r|
        ensures offset + j < |keys| && r[j].sku == keys[offset + j] && r[j].vals == t[keys[offset + j]]
      {
        assert sub[j] == keys[offset + j];
      }
    } else {
      assert r == RowsAt(t, keys[|keys|..|keys|]);
    }
  }

  /**
   * Over a strictly ascending listing of exactly the keys `m`, the window's
   * j-th row has offset + j keys of `m` before it, and a key of `m` is in the
   * window exactly when offset <= its rank < offset + size.
   */
  lemma WindowRanks(t: Table, m: set<string>, keys: seq<string>, offset: nat, size: nat)
    requires m <= t.Keys && StrictlySorted(keys) && forall x :: x in keys <==> x in m
    ensures var r := Window(t, keys, offset, size);
      && (forall j :: 0 <= j < |r| ==> r[j].sku in m && Rank(m, r[j].sku) == offset + j)
      && (forall s :: s in m ==>
            ((exists j :: 0 <= j < |r| && r[j].sku == s) <==> offset <= Rank(m, s) < offset + size))
  {
    var r := Window(t, keys, offset, size);
    WindowAt(t, keys, offset, size);
    forall j | 0 <= j < |r| ensures Rank(m, r[j].sku) == offset + j {
      RankIsPosition(m, keys, offset + j);
    }
    forall s | s in m
      ensures (exists j :: 0 <= j < |r| && r[j].sku == s) <==> offset <= Rank(m, s) < offset + size
    {
      var i :| 0 <= i < |keys| && keys[i] == s;
      RankIsPosition(m, keys, i);
      if offset <= i < offset + size {
        assert r[i - offset].sku == s;
      }
    }
  }

  /** A window of a strictly ascending listing is strictly ascending. */
  lemma WindowSorted(t: Table, keys: seq<string>, offset: nat, size: nat)
    requires StrictlySorted(keys) && forall k :: k in keys ==> k in t
    ensures var r := Window(t, keys, offset, size);
      forall i, j :: 0 <= i < j < |r| ==> Less(r[i].sku, r[j].sku)
  {
    WindowAt(t, keys, offset, size);
  }

  /**
   * A successful page is the window of the kept rows in sku order: at most
   * `size` rows, each a kept row of the table, strictly ascending by sku,
   * the j-th row with offset + j kept skus before it, and a kept sku is on
   * the page exactly when offset <= its rank < offset + size.
   */
  lemma ListProductsWindow(t: Table, page: int, size: int, q: string, active: string)
    requires ListProducts(t, page, size, q, active).Ok?
    ensures var r := ListProducts(t, page, size, q, active).value;
      var m := Matching(t, q, active);
      var offset := (page - 1) * size;
      && |r| <= size
      && (forall j :: 0 <= j < |r| ==>
            r[j].sku in t && r[j].vals == t[r[j].sku] && Matches(r[j], q, active)
            && Rank(m, r[j].sku) == offset + j)
      && (forall i, j :: 0 <= i < j < |r| ==> Less(r[i].sku, r[j].sku))
      && (forall s :: s in m ==>
            ((exists j :: 0 <= j < |r| && r[j].sku == s) <==> offset <= Rank(m, s) < offset + size))
  {
    var m := Matching(t, q, active);
    SortedKeysSorted(m);
    WindowAt(t, SortedKeys(m), (page - 1) * size, size);
    WindowRanks(t, m, SortedKeys(m), (page - 1) * size, size);
    WindowSorted(t, SortedKeys(m), (page - 1) * size, size);
    var r := ListProducts(t, page, size, q, active).value;
    forall j | 0 <= j < |r| ensures Matches(r[j], q, active) {
      assert r[j] == ProductRow(r[j].sku, t[r[j].sku]);
    }
  }

  // ---------------------------------------------------------- create_product

  /**
   * INSERT ... ON CONFLICT (sku) DO NOTHING: the row is added under its sku
   * exactly as given when that sku is new; an existing row is left as it is.
   */
  function InsertIfAbsent(t: Table, row: ProductRow): (r: Table)
    ensures r.Keys == t.Keys + {row.sku}
    ensures r[row.sku] == if row.sku in t then t[row.sku] else row.vals
    ensures forall k :: k in t && k != row.sku ==> r[k] == t[k]
  {
    if row.sku in t then t else t[row.sku := row.vals]
  }

  /** Posting the same product twice is posting it once. */
  lemma InsertIfAbsentIdempotent(t: Table, row: ProductRow)
    ensures InsertIfAbsent(InsertIfAbsent(t, row), row) == InsertIfAbsent(t, row)
  {
  }

  /**
   * The handler's DO NOTHING and the import's DO UPDATE agree exactly when
   * the sku is new or already holds the posted values.
   */
  lemma InsertIfAbsentVersusUpsert(t: Table, row: ProductRow)
    ensures InsertIfAbsent(t, row) == ApplyRows(t, [row]) <==> row.sku !in t || t[row.sku] == row.vals
  {
    assert [row][..0] == [];
    if row.sku in t && t[row.sku] != row.vals {
      assert InsertIfAbsent(t, row)[row.sku] != ApplyRows(t, [row])[row.sku];
    }
  }

  /** create_product: always reports "created", whether or not a row was added. */
  method CreateProduct(db: Database, row: ProductRow) returns (status: string)
    modifies db`products
    ensures db.products == InsertIfAbsent(old(db.products), row)
    ensures status == "created"
  {
    db.products := InsertIfAbsent(db.products, row);
    status := "created";
  }

  // ------------------------------------------------ delete_product, delete_all

  /** delete_product: DELETE ... WHERE sku = :s, reported as "deleted" whether or not a row matched. */
  method DeleteProduct(db: Database, sku: string) returns (status: string)
    modifies db`products
    ensures db.products == old(db.products) - {sku}
    ensures status == "deleted"
  {
    db.products := db.products - {sku};
    status := "deleted";
  }

  /** Deleting a product posted under a new sku gives back the table as it was. */
  lemma DeleteUndoesInsert(t: Table, row: ProductRow)
    requires row.sku !in t
    ensures InsertIfAbsent(t, row) - {row.sku} == t
  {
    Crud.DeleteUndoesCreate(t, row);
  }

  /** delete_all: DELETE FROM products. */
  method DeleteAll(db: Database) returns (status: string)
    modifies db`products
    ensures db.products == map[]
    ensures status == "all deleted"
  {
    db.products := map[];
    status := "all deleted";
  }

  // ---------------------------------------------------------- toggle_webhook

  /** UPDATE webhooks SET enabled = :enabled WHERE id = :id: only that column of the matching rows changes. */
  function SetEnabled(hooks: seq<Webhook>, id: int, enabled: bool): (r: seq<Webhook>)
    ensures |r| == |hooks|
    ensures forall k :: 0 <= k < |r| ==>
      r[k].id == hooks[k].id && r[k].url == hooks[k].url && r[k].event == hooks[k].event
      && r[k].enabled == (if hooks[k].id == id then enabled else hooks[k].enabled)
  {
    seq(|hooks|, k requires 0 <= k < |hooks| => if hooks[k].id == id then hooks[k].(enabled := enabled) else hooks[k])
  }

  /**
   * With unique ids the toggle is update_webhook with only `enabled` sent:
   * an unknown id changes nothing, a known one patches that row alone.
   */
  lemma ToggleIsEnabledPatch(hooks: seq<Webhook>, id: int, enabled: bool)
    requires UniqueIds(hooks)
    ensures FindWebhook(hooks, id).None? ==> SetEnabled(hooks, id, enabled) == hooks
    ensures FindWebhook(hooks, id).Some? ==> var k := FindWebhook(hooks, id).value;
      SetEnabled(hooks, id, enabled) == hooks[k := Crud.Patch(hooks[k], Crud.WebhookUpdate(None, None, Some(enabled)))]
  {
    var r := SetEnabled(hooks, id, enabled);
    var found := FindWebhook(hooks, id);
    if found.Some? {
      var k := found.value;
      var patched := hooks[k := Crud.Patch(hooks[k], Crud.WebhookUpdate(None, None, Some(enabled)))];
      assert forall i :: 0 <= i < |r| ==> r[i] == patched[i];
    } else {
      assert forall i :: 0 <= i < |r| ==> r[i] == hooks[i];
    }
  }

  /**
   * toggle_webhook: a body without "enabled" fails on the lookup before the
   * UPDATE runs; otherwise the enabled flag of the rows with that id is set
   * and "updated" is reported, whether or not a row matched.
   */
  method ToggleWebhook(db: Database, id: int, data: map<string, bool>) returns (r: Result<string, string>)
    requires db.Valid()
    modifies db`webhooks
    ensures db.Valid()
    ensures "enabled" !in data ==> r == Err("enabled") && db.webhooks == old(db.webhooks)
    ensures "enabled" in data ==>
      r == Ok("updated") && db.webhooks == SetEnabled(old(db.webhooks), id, data["enabled"])
  {
    if "enabled" !in data {
      return Err("enabled");
    }
    var before := db.webhooks;
    db.webhooks := SetEnabled(db.webhooks, id, data["enabled"]);
    forall h | h in db.webhooks ensures h.id < db.nextWebhookId {
      var k :| 0 <= k < |db.webhooks| && db.webhooks[k] == h;
      assert before[k] in before;
    }
    r := Ok("updated");
  }

  // ------------------------------------------------------------ test_webhook

  /** The "code" of the response: NOT_FOUND, the status of the test POST, or FAILED. */
  datatype TestCode = NotFound | Status(code: int) | Failed

  /**
   * test_webhook: an unknown id answers NOT_FOUND and posts nothing;
   * otherwise the row's url gets one test POST, whose status (or failure)
   * is the answer. `attempted` is the url posted to, if any.
   */
  method TestWebhook(db: Database, id: int, post: string -> Webhooks.PostResult)
    returns (code: TestCode, attempted: Option<string>)
    ensures FindWebhook(db.webhooks, id).None? <==> code == NotFound
    ensures FindWebhook(db.webhooks, id).None? ==> attempted.None?
    ensures FindWebhook(db.webhooks, id).Some? ==>
      var url := db.webhooks[FindWebhook(db.webhooks, id).value].url;
      && attempted == Some(url)
      && code == (match post(url) case Responded(s) => Status(s) case Raised => Failed)
  {
    var found := FindWebhook(db.webhooks, id);
    if found.None? {
      return NotFound, None;
    }
    var url := db.webhooks[found.value].url;
    attempted := Some(url);
    var outcome := post(url);
    match outcome
    case Responded(s) => code := Status(s);
    case Raised => code := Failed;
  }
}
