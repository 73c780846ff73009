/** app.py's `combine_files`: the submitted tables are combined only when every
    one of them has the first one's column labels and column types, in order;
    the rows are then stacked in submission order. */
module Combine {
  import opened Wrappers
  import opened Tables

  /** `dataframes[0]` on an empty submission raises. A schema mismatch carries
      the index of the first table whose schema differs from the first one's,
      the point at which the check loop returns; the application itself only
      flashes a fixed message there. */
  datatype CombineError = NoTables | SchemaMismatch(table: nat)

  /** `list(a.columns) == list(b.columns)` and `list(a.dtypes) == list(b.dtypes)`. */
  predicate SameSchema(a: Table, b: Table)
  {
    a.names == b.names && a.types == b.types
  }

  /** The rows of `pd.concat`, table after table. */
  function ConcatRows(ts: seq<Table>): (r: seq<Row>)
  {
    if ts == [] then []
    else ConcatRows(ts[..|ts| - 1]) + ts[|ts| - 1].rows
  }

  /** The number of rows of all the tables together. */
  function TotalRows(ts: seq<Table>): nat
  {
    if ts == [] then 0 else TotalRows(ts[..|ts| - 1]) + |ts[|ts| - 1].rows|
  }

  /** The stacked table has as many rows as the inputs together. */
  lemma {:induction false} ConcatRowCount(ts: seq<Table>)
    ensures |ConcatRows(ts)| == TotalRows(ts)
  {
    if ts != [] {
      ConcatRowCount(ts[..|ts| - 1]);
    }
  }

  /** A row is in the stacked table exactly when some input table holds it. */
  lemma {:induction false} ConcatRowsMembership(ts: seq<Table>, row: Row)
    ensures row in ConcatRows(ts) <==> exists k :: 0 <= k < |ts| && row in ts[k].rows
  {
    if ts != [] {
      var n := |ts| - 1;
      ConcatRowsMembership(ts[..n], row);
      if row in ConcatRows(ts[..n]) {
        var k :| 0 <= k < n && row in ts[..n][k].rows;
        assert row in ts[k].rows;
      }
      if exists k :: 0 <= k < |ts| && row in ts[k].rows {
        var k :| 0 <= k < |ts| && row in ts[k].rows;
        if k < n {
          assert row in ts[..n][k].rows;
        }
      }
    }
  }

  /** Two tables stack as the rows of the first followed by the rows of the second. */
  lemma ConcatTwo(a: Table, b: Table)
    ensures ConcatRows([a, b]) == a.rows + b.rows
  {
    assert [a, b][..1] == [a];
    assert [a][..0] == [];
    assert ConcatRows([a]) == [] + a.rows;
  }

  /** Stacking tables whose rows all have width `w` gives rows of width `w`. */
  lemma {:induction false} ConcatKeepsWidth(ts: seq<Table>, w: nat)
    requires forall k, i :: 0 <= k < |ts| && 0 <= i < |ts[k].rows| ==> |ts[k].rows[i]| == w
    ensures forall i :: 0 <= i < |ConcatRows(ts)| ==> |ConcatRows(ts)[i]| == w
  {
    if ts != [] {
      var n := |ts| - 1;
      assert forall k :: 0 <= k < n ==> ts[..n][k] == ts[k];
      ConcatKeepsWidth(ts[..n], w);
      var front := ConcatRows(ts[..n]);
      forall i | 0 <= i < |ConcatRows(ts)| ensures |ConcatRows(ts)[i]| == w {
        if i >= |front| {
          assert ConcatRows(ts)[i] == ts[n].rows[i - |front|];
        }
      }
    }
  }

  /** The schema check of app.py's loop followed by the concatenation. */
  method CombineFiles(ts: seq<Table>) returns (r: Result<Table, CombineError>)
    requires forall k :: 0 <= k < |ts| ==> Wf(ts[k])
    ensures ts == [] ==> r == Err(NoTables)
    ensures ts != [] ==> (r.Ok? <==> forall k :: 0 < k < |ts| ==> SameSchema(ts[k], ts[0]))
    ensures ts != [] && r.Err? ==>
      && r.error.SchemaMismatch?
      && 0 < r.error.table < |ts|
      && !SameSchema(ts[r.error.table], ts[0])
      && forall k :: 0 < k < r.error.table ==> SameSchema(ts[k], ts[0])
    ensures r.Ok? ==> r.value == Table(ts[0].names, ts[0].types, ConcatRows(ts))
    ensures r.Ok? ==> Wf(r.value) && |r.value.rows| == TotalRows(ts)
  {
    if ts == [] {
      return Err(NoTables);
    }
    var first := ts[0];
    var k := 1;
    while k < |ts|
      invariant 1 <= k <= |ts|
      invariant forall j :: 0 < j < k ==> SameSchema(ts[j], first)
    {
      if ts[k].names != first.names || ts[k].types != first.types {
        return Err(SchemaMismatch(k));
      }
      k := k + 1;
    }
    ConcatKeepsWidth(ts, |first.names|);
    ConcatRowCount(ts);
    r := Ok(Table(first.names, first.types, ConcatRows(ts)));
  }
}
