/**
 * The products table keyed by sku, and the meaning of the import's upsert
 * statement (INSERT ... ON CONFLICT (sku) DO UPDATE SET name, description,
 * active) executed once per row, in order.
 */
module Catalog {
  import opened Wrappers

  /** The non-key columns of a product; `description` is nullable. */
  datatype ProductVals = ProductVals(name: string, description: Option<string>, active: bool)

  datatype ProductRow = ProductRow(sku: string, vals: ProductVals)

  type Table = map<string, ProductVals>

  /** The table after executing the upsert once for each row of `rows`, first to last. */
  function ApplyRows(t: Table, rows: seq<ProductRow>): (r: Table)
    ensures t.Keys <= r.Keys
    ensures |r| <= |t| + |rows|
    decreases |rows|
  {
    if rows == [] then t
    else
      var last := rows[|rows| - 1];
      ApplyRows(t, rows[..|rows| - 1])[last.sku := last.vals]
  }

  /** The values of the last row of `rows` carrying `sku`, if any row does. */
  function LastVals(rows: seq<ProductRow>, sku: string): (r: Option<ProductVals>)
    ensures r.None? <==> forall j :: 0 <= j < |rows| ==> rows[j].sku != sku
    decreases |rows|
  {
    if rows == [] then None
    else if rows[|rows| - 1].sku == sku then Some(rows[|rows| - 1].vals)
    else LastVals(rows[..|rows| - 1], sku)
  }

  /** LastVals picks the row with that sku that no later row overrides. */
  lemma {:induction false} LastValsOfLast(rows: seq<ProductRow>, j: nat)
    requires j < |rows|
    requires forall k :: j < k < |rows| ==> rows[k].sku != rows[j].sku
    ensures LastVals(rows, rows[j].sku) == Some(rows[j].vals)
    decreases |rows|
  {
    if j < |rows| - 1 {
      LastValsOfLast(rows[..|rows| - 1], j);
    }
  }

  /**
   * Last write wins: a sku named by some row holds the values of its last
   * row; every other sku is exactly as it was.
   */
  lemma {:induction false} ApplyRowsLastWins(t: Table, rows: seq<ProductRow>, sku: string)
    ensures sku in ApplyRows(t, rows) <==> sku in t || LastVals(rows, sku).Some?
    ensures LastVals(rows, sku).Some? ==> ApplyRows(t, rows)[sku] == LastVals(rows, sku).value
    ensures LastVals(rows, sku).None? && sku in t ==> ApplyRows(t, rows)[sku] == t[sku]
    decreases |rows|
  {
    if rows != [] {
      ApplyRowsLastWins(t, rows[..|rows| - 1], sku);
    }
  }

  /** Executing two consecutive runs of rows is executing their concatenation. */
  lemma {:induction false} ApplyRowsAppend(t: Table, a: seq<ProductRow>, b: seq<ProductRow>)
    ensures ApplyRows(t, a + b) == ApplyRows(ApplyRows(t, a), b)
    decreases |b|
  {
    if b == [] {
      assert a + b == a;
    } else {
      assert (a + b)[..|a + b| - 1] == a + b[..|b| - 1];
      ApplyRowsAppend(t, a, b[..|b| - 1]);
    }
  }

  /** Replaying the same rows a second time changes nothing. */
  lemma ApplyRowsIdempotent(t: Table, rows: seq<ProductRow>)
    ensures ApplyRows(ApplyRows(t, rows), rows) == ApplyRows(t, rows)
  {
    var once := ApplyRows(t, rows);
    var twice := ApplyRows(once, rows);
    forall sku
      ensures sku in twice <==> sku in once
      ensures sku in once ==> twice[sku] == once[sku]
    {
      ApplyRowsLastWins(t, rows, sku);
      ApplyRowsLastWins(once, rows, sku);
    }
  }
}
