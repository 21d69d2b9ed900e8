/**
 * The CSV import task: every row is normalised, buffered, and the buffer is
 * flushed as one upsert batch when it holds BATCH_SIZE rows or when the last
 * row has been buffered; a PROGRESS update is emitted at every 500th row and
 * at the last row. A row without a sku or a name aborts the run: batches
 * already flushed stay committed and no failure state is written.
 */
module Tasks {
  import opened Wrappers
  import opened Text
  import opened Catalog
  import Store

  const BATCH_SIZE: nat := 2000
  const PROGRESS_EVERY: nat := 500

  /** A record of the CSV reader: header -> value. An absent key also stands for a field a short row leaves unset. */
  type CsvRow = map<string, string>

  /** The record number as the reader's enumeration counts it (from 1, header excluded) and the field whose lookup failed. */
  datatype ImportError = MissingField(field: string, record: nat)

  datatype ImportSummary = ImportSummary(current: nat, total: nat, status: string)

  /** One call of the task's update_state. */
  datatype ProgressUpdate = ProgressUpdate(state: string, current: nat, total: nat)

  /**
   * One CSV record as the task writes it. Only a missing sku or name is an
   * error (the sku is looked up first); empty values pass.
   */
  function NormalizeRow(r: CsvRow): (res: Result<ProductRow, string>)
    ensures res.Ok? <==> "sku" in r && "name" in r
    ensures "sku" !in r ==> res == Err("sku")
    ensures "sku" in r && "name" !in r ==> res == Err("name")
  {
    if "sku" !in r then Err("sku")
    else if "name" !in r then Err("name")
    else
      var description := if "description" in r then r["description"] else "";
      Ok(ProductRow(Lower(Strip(r["sku"])), ProductVals(Strip(r["name"]), Some(Strip(description)), true)))
  }

  /**
   * A normalised row has a stripped, lower-case sku (the same whether it is
   * lower-cased before or after stripping), a stripped name, the stripped
   * description or "" when the field is missing, and active set.
   */
  lemma NormalizeRowShape(r: CsvRow)
    requires NormalizeRow(r).Ok?
    ensures var p := NormalizeRow(r).value;
      && p.sku == Strip(Lower(r["sku"])) && HasNoUpper(p.sku) && IsStripped(p.sku)
      && p.vals.name == Strip(r["name"]) && IsStripped(p.vals.name)
      && p.vals.description == Some(if "description" in r then Strip(r["description"]) else "")
      && p.vals.active
  {
    LowerStripCommute(r["sku"]);
    LowerAt(Strip(r["sku"]));
    StripEnds(r["sku"]);
    StripEnds(Lower(r["sku"]));
    StripEnds(r["name"]);
  }

  /** What normalising each record gives, in file order. */
  function NormalizeAll(rows: seq<CsvRow>): (r: seq<Result<ProductRow, string>>)
    ensures |r| == |rows|
    decreases |rows|
  {
    if rows == [] then [] else [NormalizeRow(rows[0])] + NormalizeAll(rows[1..])
  }

  lemma {:induction false} NormalizeAllAt(rows: seq<CsvRow>, j: nat)
    requires j < |rows|
    ensures NormalizeAll(rows)[j] == NormalizeRow(rows[j])
    decreases j
  {
    if j > 0 {
      NormalizeAllAt(rows[1..], j - 1);
    }
  }

  /** The rows normalised before the run stopped, and why it stopped early, if it did. */
  datatype Scanned = Scanned(accepted: seq<ProductRow>, failure: Option<ImportError>)

  /**
   * Walks the per-row outcomes front to back up to the first failure: the
   * accepted rows are exactly the successes before it, and the failure names
   * that record's number (counting from 1) and its field.
   */
  function Scan(outs: seq<Result<ProductRow, string>>): (r: Scanned)
    ensures |r.accepted| <= |outs|
    ensures forall j :: 0 <= j < |r.accepted| ==> outs[j] == Ok(r.accepted[j])
    ensures r.failure.None? <==> |r.accepted| == |outs|
    ensures r.failure.Some? ==>
      r.failure.value.record == |r.accepted| + 1 && outs[|r.accepted|] == Err(r.failure.value.field)
    decreases |outs|
  {
    if outs == [] then Scanned([], None)
    else
      var n := |outs|;
      var before := Scan(outs[..n - 1]);
      assert forall j :: 0 <= j < n - 1 ==> outs[..n - 1][j] == outs[j];
      if before.failure.Some? then before
      else if outs[n - 1].Ok? then Scanned(before.accepted + [outs[n - 1].value], None)
      else Scanned(before.accepted, Some(MissingField(outs[n - 1].error, n)))
  }

  /** A run of successes is accepted in full. */
  lemma {:induction false} ScanAllOk(outs: seq<Result<ProductRow, string>>, done: seq<ProductRow>)
    requires |done| == |outs|
    requires forall j :: 0 <= j < |outs| ==> outs[j] == Ok(done[j])
    ensures Scan(outs) == Scanned(done, None)
    decreases |outs|
  {
    if outs != [] {
      var n := |outs|;
      ScanAllOk(outs[..n - 1], done[..n - 1]);
      assert done == done[..n - 1] + [done[n - 1]];
    }
  }

  /** The first failure stops the run: the successes before it are accepted and it is reported. */
  lemma ScanStopsAt(outs: seq<Result<ProductRow, string>>, k: nat, done: seq<ProductRow>)
    requires k < |outs| && |done| == k && outs[k].Err?
    requires forall j :: 0 <= j < k ==> outs[j] == Ok(done[j])
    ensures Scan(outs) == Scanned(done, Some(MissingField(outs[k].error, k + 1)))
  {
    ScanAllOk(outs[..k], done);
    assert outs[..k + 1][..k] == outs[..k];
    ScanFailurePersists(outs, k + 1);
  }

  /** Once some prefix of the outcomes fails, the whole run fails the same way. */
  lemma {:induction false} ScanFailurePersists(outs: seq<Result<ProductRow, string>>, k: nat)
    requires k <= |outs| && Scan(outs[..k]).failure.Some?
    ensures Scan(outs) == Scan(outs[..k])
    decreases |outs| - k
  {
    if k < |outs| {
      assert outs[..k + 1][..k] == outs[..k];
      ScanFailurePersists(outs, k + 1);
    } else {
      assert outs[..k] == outs;
    }
  }

  /** Splits rows into the successive flushes: full batches, then a last batch of 1..BATCH_SIZE rows. */
  function Batches(s: seq<ProductRow>): (r: seq<seq<ProductRow>>)
    ensures r == [] <==> s == []
    ensures |r| <= |s|
    decreases |s|
  {
    if |s| == 0 then []
    else if |s| <= BATCH_SIZE then [s]
    else [s[..BATCH_SIZE]] + Batches(s[BATCH_SIZE..])
  }

  function Flatten(bs: seq<seq<ProductRow>>): seq<ProductRow>
    decreases |bs|
  {
    if bs == [] then [] else bs[0] + Flatten(bs[1..])
  }

  /** Buffering a final partial batch after whole batches adds exactly one flush. */
  lemma {:induction false} BatchesAppend(s: seq<ProductRow>, t: seq<ProductRow>)
    requires |s| % BATCH_SIZE == 0 && 1 <= |t| <= BATCH_SIZE
    ensures Batches(s + t) == Batches(s) + [t]
    decreases |s|
  {
    if s == [] {
      assert s + t == t;
    } else {
      assert (s + t)[..BATCH_SIZE] == s[..BATCH_SIZE];
      assert (s + t)[BATCH_SIZE..] == s[BATCH_SIZE..] + t;
      if |s| > BATCH_SIZE {
        BatchesAppend(s[BATCH_SIZE..], t);
      } else {
        assert s[BATCH_SIZE..] == [];
        assert s[..BATCH_SIZE] == s;
      }
    }
  }

  /** Every row is flushed exactly once, in input order. */
  lemma {:induction false} BatchesFlatten(s: seq<ProductRow>)
    ensures Flatten(Batches(s)) == s
    decreases |s|
  {
    if |s| > BATCH_SIZE {
      BatchesFlatten(s[BATCH_SIZE..]);
      assert s == s[..BATCH_SIZE] + s[BATCH_SIZE..];
    } else if |s| > 0 {
      assert Flatten([s]) == s + Flatten([]);
    }
  }

  /**
   * Every flush but the last holds BATCH_SIZE rows, the last 1..BATCH_SIZE,
   * and there are ceil(|s| / BATCH_SIZE) flushes.
   */
  lemma {:induction false} BatchesShape(s: seq<ProductRow>)
    ensures |Batches(s)| == (|s| + BATCH_SIZE - 1) / BATCH_SIZE
    ensures forall j :: 0 <= j < |Batches(s)| - 1 ==> |Batches(s)[j]| == BATCH_SIZE
    ensures Batches(s) != [] ==> 1 <= |Batches(s)[|Batches(s)| - 1]| <= BATCH_SIZE
    decreases |s|
  {
    if |s| > BATCH_SIZE {
      BatchesShape(s[BATCH_SIZE..]);
      var rest := Batches(s[BATCH_SIZE..]);
      assert Batches(s) == [s[..BATCH_SIZE]] + rest;
      assert forall j :: 1 <= j < |Batches(s)| ==> Batches(s)[j] == rest[j - 1];
    }
  }

  /** The updates emitted after `k` rows of a `total`-row run. */
  function ProgressEvents(k: nat, total: nat): (r: seq<ProgressUpdate>)
    ensures |r| <= k
    decreases k
  {
    if k == 0 then []
    else
      ProgressEvents(k - 1, total)
      + (if k % PROGRESS_EVERY == 0 || k == total then [ProgressUpdate("PROGRESS", k, total)] else [])
  }

  /** Row n + 1 adds its update, if it has one, after those of the first n rows. */
  lemma ProgressStep(n: nat, total: nat)
    ensures ProgressEvents(n + 1, total) == ProgressEvents(n, total)
      + (if (n + 1) % PROGRESS_EVERY == 0 || n + 1 == total then [ProgressUpdate("PROGRESS", n + 1, total)] else [])
  {
  }

  /**
   * Updates are emitted exactly at the rows i <= k with i % 500 == 0 or
   * i == total, always with state PROGRESS and the run's total.
   */
  lemma {:induction false} ProgressEventsAt(k: nat, total: nat)
    ensures forall e :: e in ProgressEvents(k, total) ==>
      e.state == "PROGRESS" && e.total == total && 1 <= e.current <= k
      && (e.current % PROGRESS_EVERY == 0 || e.current == total)
    ensures forall i :: 1 <= i <= k && (i % PROGRESS_EVERY == 0 || i == total) ==>
      ProgressUpdate("PROGRESS", i, total) in ProgressEvents(k, total)
    decreases k
  {
    if k > 0 {
      ProgressEventsAt(k - 1, total);
      ProgressStep(k - 1, total);
    }
  }

  /** The reported counts strictly increase. */
  lemma {:induction false} ProgressEventsIncreasing(k: nat, total: nat)
    ensures forall i, j :: 0 <= i < j < |ProgressEvents(k, total)| ==>
      ProgressEvents(k, total)[i].current < ProgressEvents(k, total)[j].current
    decreases k
  {
    if k > 0 {
      ProgressEventsIncreasing(k - 1, total);
      ProgressEventsAt(k - 1, total);
      var prev := ProgressEvents(k - 1, total);
      assert forall i :: 0 <= i < |prev| ==> prev[i] in prev && prev[i].current < k;
    }
  }

  /**
   * Before the last row there is one update per 500 rows; the last row adds
   * one more unless it falls on a multiple of 500, where a single update is
   * emitted. A completed run's last update reports `total`.
   */
  lemma {:induction false} ProgressEventsCount(k: nat, total: nat)
    requires k <= total
    ensures |ProgressEvents(k, total)| ==
      k / PROGRESS_EVERY + (if k == total && k % PROGRESS_EVERY != 0 then 1 else 0)
    ensures k == total && total > 0 ==>
      ProgressEvents(k, total)[|ProgressEvents(k, total)| - 1] == ProgressUpdate("PROGRESS", total, total)
    decreases k
  {
    if k > 0 {
      ProgressEventsCount(k - 1, total);
    }
  }

  /**
   * Buffering one more row before the last: the buffer becomes full exactly
   * when the row count reaches a multiple of BATCH_SIZE, and otherwise the
   * committed count stays where it was.
   */
  lemma BufferStep(n: nat, total: nat)
    requires n < total
    ensures n - Committed(n, total) + 1 == BATCH_SIZE <==> (n + 1) % BATCH_SIZE == 0
    ensures n + 1 < total && (n + 1) % BATCH_SIZE != 0 ==> Committed(n + 1, total) == Committed(n, total)
    ensures (n + 1) % BATCH_SIZE == 0 ==> Committed(n + 1, total) == n + 1
    ensures Committed(n, total) % BATCH_SIZE == 0
    ensures n - Committed(n, total) < BATCH_SIZE
  {
  }

  /** One more accepted row extends the row-by-row match with the outcomes. */
  lemma OkStep(outs: seq<Result<ProductRow, string>>, done: seq<ProductRow>, x: ProductRow)
    requires |done| < |outs| && outs[|done|] == Ok(x)
    requires forall j :: 0 <= j < |done| ==> outs[j] == Ok(done[j])
    ensures forall j :: 0 <= j < |done| + 1 ==> outs[j] == Ok((done + [x])[j])
  {
  }

  /** How many of the first `done` normalised rows are committed when the run stops there. */
  function Committed(done: nat, total: nat): (c: nat)
    requires done <= total
    ensures c <= done && (c % BATCH_SIZE == 0 || c == total)
    ensures done == total ==> c == total
    ensures done - c < BATCH_SIZE
  {
    if done == total then total else done - done % BATCH_SIZE
  }

  /**
   * The state of the run after `done` rows were buffered, `c` of them in
   * flushed batches: the buffer holds the rest, the flushes are those rows
   * in batches, and the table has them upserted after its original content.
   */
  ghost predicate Buffered(t0: Table, products: Table, total: nat, done: seq<ProductRow>, c: nat,
                           batch: seq<ProductRow>, flushes: seq<seq<ProductRow>>)
  {
    && |done| <= total && c == Committed(|done|, total) && batch == done[c..]
    && flushes == Batches(done[..c]) && products == ApplyRows(t0, done[..c])
  }

  /** Buffering a row that does not fill the buffer and is not the last keeps the run's state. */
  lemma HoldKeeps(t0: Table, products: Table, total: nat, done: seq<ProductRow>, c: nat,
                  batch: seq<ProductRow>, flushes: seq<seq<ProductRow>>, row: ProductRow)
    requires |done| + 1 < total && Buffered(t0, products, total, done, c, batch, flushes)
    requires |batch| + 1 != BATCH_SIZE
    ensures Buffered(t0, products, total, done + [row], c, batch + [row], flushes)
  {
    BufferStep(|done|, total);
    assert (done + [row])[..c] == done[..c];
  }

  /**
   * Buffering a row that fills the buffer or is the last one, then flushing
   * the buffer, commits every row read so far.
   */
  lemma FlushKeeps(t0: Table, products: Table, total: nat, done: seq<ProductRow>, c: nat,
                   batch: seq<ProductRow>, flushes: seq<seq<ProductRow>>, row: ProductRow)
    requires |done| + 1 <= total && Buffered(t0, products, total, done, c, batch, flushes)
    requires |batch| + 1 == BATCH_SIZE || |done| + 1 == total
    ensures Buffered(t0, ApplyRows(products, batch + [row]), total, done + [row], |done| + 1, [],
                     flushes + [batch + [row]])
  {
    var done' := done + [row];
    var full := batch + [row];
    BufferStep(|done|, total);
    assert done' == done[..c] + full;
    BatchesAppend(done[..c], full);
    ApplyRowsAppend(t0, done[..c], full);
    assert done'[..|done'|] == done' && done'[|done'|..] == [];
  }

  /**
   * One normalised row into the buffer: when the buffer reaches BATCH_SIZE
   * rows, or the row is the file's last, the buffer is upserted as one
   * batch and emptied.
   */
  method BufferRow(db: Store.Database, row: ProductRow, i: nat, total: nat, batch: seq<ProductRow>,
                   flushes: seq<seq<ProductRow>>, ghost t0: Table, ghost done: seq<ProductRow>, ghost c: nat)
    returns (batch': seq<ProductRow>, flushes': seq<seq<ProductRow>>, ghost c': nat)
    requires i == |done| + 1 <= total && Buffered(t0, db.products, total, done, c, batch, flushes)
    modifies db`products
    ensures Buffered(t0, db.products, total, done + [row], c', batch', flushes')
  {
    batch' := batch + [row];
    if |batch'| == BATCH_SIZE || i == total {
      FlushKeeps(t0, db.products, total, done, c, batch, flushes, row);
      db.UpsertBatch(batch');
      flushes' := flushes + [batch'];
      batch' := [];
      c' := i;
    } else {
      HoldKeeps(t0, db.products, total, done, c, batch, flushes, row);
      flushes' := flushes;
      c' := c;
    }
  }

  /**
   * import_products over the rows the CSV reader produced. On success it
   * returns current = total; on a missing field it stops at that row with
   * the flushes and updates made so far. Only the products table changes:
   * by the committed rows, upserted in order.
   */
  method ImportProducts(db: Store.Database, rows: seq<CsvRow>)
    returns (result: Result<ImportSummary, ImportError>, flushes: seq<seq<ProductRow>>, events: seq<ProgressUpdate>)
    modifies db`products
    ensures var sc := Scan(NormalizeAll(rows));
      var written := sc.accepted[..Committed(|sc.accepted|, |rows|)];
      && result == (if sc.failure.None? then Ok(ImportSummary(|rows|, |rows|, "Completed")) else Err(sc.failure.value))
      && flushes == Batches(written)
      && events == ProgressEvents(|sc.accepted|, |rows|)
      && db.products == ApplyRows(old(db.products), written)
  {
    var total := |rows|;
    var batch: seq<ProductRow> := [];
    flushes, events := [], [];
    ghost var outs := NormalizeAll(rows);
    ghost var done: seq<ProductRow> := [];
    ghost var c := 0;
    var n := 0;
    while n < total
      invariant n <= total && |done| == n
      invariant forall j :: 0 <= j < n ==> outs[j] == Ok(done[j])
      invariant Buffered(old(db.products), db.products, total, done, c, batch, flushes)
      invariant events == ProgressEvents(n, total)
    {
      var i := n + 1;
      var row := NormalizeRow(rows[n]);
      NormalizeAllAt(rows, n);
      if row.Err? {
        ScanStopsAt(outs, n, done);
        result := Err(MissingField(row.error, i));
        return;
      }
      OkStep(outs, done, row.value);
      batch, flushes, c := BufferRow(db, row.value, i, total, batch, flushes, old(db.products), done, c);
      done := done + [row.value];
      ProgressStep(n, total);
      if i % PROGRESS_EVERY == 0 || i == total {
        events := events + [ProgressUpdate("PROGRESS", i, total)];
      }
      n := i;
    }
    ScanAllOk(outs, done);
    result := Ok(ImportSummary(total, total, "Completed"));
  }

  /**
   * Two records land on the same catalog key exactly when their skus agree
   * after lower-casing and stripping, so "ABC-1" and " abc-1" collapse.
   */
  lemma SkuKeyIgnoresCase(a: CsvRow, b: CsvRow)
    requires NormalizeRow(a).Ok? && NormalizeRow(b).Ok?
    ensures NormalizeRow(a).value.sku == NormalizeRow(b).value.sku
      <==> Strip(Lower(a["sku"])) == Strip(Lower(b["sku"]))
  {
    NormalizeRowShape(a);
    NormalizeRowShape(b);
  }

  /**
   * After a completed run, the key of every row holds the values of the last
   * row of the file with that (case-folded) key.
   */
  lemma ImportLastOccurrenceWins(t: Table, rows: seq<CsvRow>, j: nat)
    requires forall k :: 0 <= k < |rows| ==> NormalizeRow(rows[k]).Ok?
    requires j < |rows|
    requires forall k :: j < k < |rows| ==> NormalizeRow(rows[k]).value.sku != NormalizeRow(rows[j]).value.sku
    ensures var p := NormalizeRow(rows[j]).value;
      var acc := Scan(NormalizeAll(rows)).accepted;
      p.sku in ApplyRows(t, acc) && ApplyRows(t, acc)[p.sku] == p.vals
  {
    var outs := NormalizeAll(rows);
    var acc := Scan(outs).accepted;
    forall k | 0 <= k < |rows| ensures outs[k] == NormalizeRow(rows[k]) {
      NormalizeAllAt(rows, k);
    }
    assert |acc| == |rows|;
    LastValsOfLast(acc, j);
    ApplyRowsLastWins(t, acc, acc[j].sku);
  }
}
