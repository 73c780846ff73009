/** The pandas DataFrame operations the pipeline calls, on the abstract table:
    `dropna()`, `drop_duplicates()`, `drop(columns=...)` and the per-column
    casts of the retype pass. */
module Frames {
  import opened Wrappers
  import opened Seqs
  import opened Tables

  /** `drop(columns=...)` raises KeyError; `named` is the list of labels its
      message names. */
  datatype FrameError = KeyError(named: seq<string>)

  /** `dropna()`: the rows without a missing value, in order. A row of a table
      with no columns has no missing value, so such a table keeps every row. */
  function DropNa(t: Table): (r: Table)
    requires Wf(t)
    ensures Wf(r) && r.names == t.names && r.types == t.types
    ensures forall row :: row in r.rows <==> row in t.rows && NoNull(row)
    ensures IsSubseq(r.rows, t.rows)
    ensures forall row :: multiset(r.rows)[row] == if NoNull(row) then multiset(t.rows)[row] else 0
    ensures |t.names| == 0 ==> r == t
  {
    KeepsWidth(t, Filter(NoNull, t.rows));
    FilterIsSubseq(NoNull, t.rows);
    FilterCounts(NoNull, t.rows);
    NoColumnsNoNull(t);
    t.(rows := Filter(NoNull, t.rows))
  }

  /** Every row of a table without columns is empty, so none has a missing value. */
  lemma NoColumnsNoNull(t: Table)
    requires Wf(t)
    ensures |t.names| == 0 ==> Filter(NoNull, t.rows) == t.rows
  {
    if |t.names| == 0 {
      forall row | row in t.rows ensures NoNull(row) {
        assert |row| == 0;
      }
      FilterAllKept(NoNull, t.rows);
    }
  }

  /** `drop_duplicates()`: the first occurrence of every distinct row, in order.
      Two missing values compare equal here, as they do in pandas. pandas
      returns an empty frame unchanged, and a frame with no columns counts as
      empty, so a table without columns keeps all of its (empty) rows. */
  function DropDuplicates(t: Table): (r: Table)
    requires Wf(t)
    ensures Wf(r) && r.names == t.names && r.types == t.types
    ensures |t.names| > 0 ==> Distinct(r.rows)
    ensures |t.names| == 0 ==> r == t
    ensures forall row :: row in r.rows <==> row in t.rows
    ensures IsSubseq(r.rows, t.rows)
    ensures |t.names| > 0 ==> OrderedByFirstOccurrence(r.rows, t.rows)
  {
    if |t.names| == 0 then
      SubseqReflexive(t.rows);
      t
    else
      KeepsWidth(t, Dedup(t.rows));
      DedupIsSubseq(t.rows);
      DedupKeepsFirstOccurrences(t.rows);
      t.(rows := Dedup(t.rows))
  }

  /** Rows taken from a well-formed table have its width. */
  lemma KeepsWidth(t: Table, rows: seq<Row>)
    requires Wf(t)
    requires forall row :: row in rows ==> row in t.rows
    ensures Wf(t.(rows := rows))
  {
    forall i | 0 <= i < |rows| ensures |rows[i]| == |t.names| {
      assert rows[i] in t.rows;
    }
  }

  /** The positions whose name is not listed, in increasing order. */
  function KeptPositions(names: seq<string>, labels: seq<string>): (p: seq<nat>)
    ensures |p| <= |names|
    ensures forall k :: 0 <= k < |p| ==> p[k] < |names| && names[p[k]] !in labels
    ensures forall j :: 0 <= j < |names| && names[j] !in labels ==> j in p
    ensures forall a, b :: 0 <= a < b < |p| ==> p[a] < p[b]
  {
    if names == [] then []
    else
      var n := |names| - 1;
      var q := KeptPositions(names[..n], labels);
      if names[n] in labels then q else q + [n]
  }

  /** The columns at positions `keep`, in that order, with every row projected alike. */
  function Select(t: Table, keep: seq<nat>): (r: Table)
    requires Wf(t)
    requires forall k :: 0 <= k < |keep| ==> keep[k] < |t.names|
    ensures Wf(r) && |r.names| == |keep| && |r.rows| == |t.rows|
    ensures forall k :: 0 <= k < |keep| ==> r.names[k] == t.names[keep[k]] && r.types[k] == t.types[keep[k]]
    ensures forall i, k :: 0 <= i < |t.rows| && 0 <= k < |keep| ==> r.rows[i][k] == t.rows[i][keep[k]]
  {
    Table(
      seq(|keep|, k requires 0 <= k < |keep| => t.names[keep[k]]),
      seq(|keep|, k requires 0 <= k < |keep| => t.types[keep[k]]),
      seq(|t.rows|, i requires 0 <= i < |t.rows| =>
        seq(|keep|, k requires 0 <= k < |keep| => t.rows[i][keep[k]])))
  }

  /** `drop(columns=labels)`: every column carrying a listed name goes; a listed
      name that no column carries raises. With unique column labels the error
      names the absent labels only; with a repeated label pandas takes another
      path, whose error names the whole list. */
  function Drop(t: Table, labels: seq<string>): (r: Result<Table, FrameError>)
    requires Wf(t)
    ensures r.Err? <==> exists l :: l in labels && l !in t.names
    ensures r.Err? && Distinct(t.names) ==> forall l :: l in r.error.named <==> l in labels && l !in t.names
    ensures r.Err? && !Distinct(t.names) ==> r.error.named == labels
    ensures r.Ok? ==> Wf(r.value) && |r.value.rows| == |t.rows|
    ensures r.Ok? ==> forall x :: x in r.value.names <==> x in t.names && x !in labels
  {
    var missing := Filter(l => l !in t.names, labels);
    if missing != [] then
      assert missing[0] in missing;
      Err(KeyError(if Distinct(t.names) then missing else labels))
    else
      var r := Select(t, KeptPositions(t.names, labels));
      assert forall x :: x in r.names ==> x in t.names && x !in labels by {
        forall x | x in r.names ensures x in t.names && x !in labels {
          var k :| 0 <= k < |r.names| && r.names[k] == x;
        }
      }
      assert forall x :: x in t.names && x !in labels ==> x in r.names by {
        forall x | x in t.names && x !in labels ensures x in r.names {
          var j :| 0 <= j < |t.names| && t.names[j] == x;
          var p := KeptPositions(t.names, labels);
          var k :| 0 <= k < |p| && p[k] == j;
          assert r.names[k] == x;
        }
      }
      Ok(r)
  }

  /** A successful drop keeps exactly the unlisted columns, in their original
      order, and projects every row the same way. */
  lemma DropKeepsUnlistedInOrder(t: Table, labels: seq<string>)
    requires Wf(t) && Drop(t, labels).Ok?
    ensures var r := Drop(t, labels).value; var p := KeptPositions(t.names, labels);
      && |r.names| == |p| && |r.rows| == |t.rows|
      && (forall a, b :: 0 <= a < b < |p| ==> p[a] < p[b])
      && (forall j :: 0 <= j < |t.names| ==> (j in p <==> t.names[j] !in labels))
      && (forall k :: 0 <= k < |p| ==> r.names[k] == t.names[p[k]] && r.types[k] == t.types[p[k]])
      && (forall i, k :: 0 <= i < |t.rows| && 0 <= k < |p| ==> r.rows[i][k] == t.rows[i][p[k]])
  {
  }

  /** The positions `0 .. n-1` without `i`, in order. */
  function AllBut(n: nat, i: nat): (p: seq<nat>)
    requires i < n
    ensures |p| == n - 1
  {
    seq(n - 1, k requires 0 <= k < n - 1 => if k < i then k else k + 1)
  }

  lemma {:induction false} KeptAll(names: seq<string>, labels: seq<string>)
    requires forall j :: 0 <= j < |names| ==> names[j] !in labels
    ensures KeptPositions(names, labels) == seq(|names|, k requires 0 <= k < |names| => k)
  {
    if names != [] {
      var n := |names| - 1;
      KeptAll(names[..n], labels);
    }
  }

  /** When the listed labels hit exactly position `i`, every other position is kept. */
  lemma {:induction false} KeptAllBut(names: seq<string>, labels: seq<string>, i: nat)
    requires i < |names|
    requires forall j :: 0 <= j < |names| ==> (names[j] in labels <==> j == i)
    ensures KeptPositions(names, labels) == AllBut(|names|, i)
  {
    var n := |names| - 1;
    if n == i {
      KeptAll(names[..n], labels);
    } else {
      KeptAllBut(names[..n], labels, i);
      AllButExtend(n, i);
    }
  }

  lemma AllButExtend(n: nat, i: nat)
    requires i < n
    ensures AllBut(n + 1, i) == AllBut(n, i) + [n]
  {
    assert |AllBut(n + 1, i)| == |AllBut(n, i) + [n]|;
  }

  /** Dropping the labels that hit exactly position `i` removes that column alone. */
  lemma DropOneColumn(t: Table, labels: seq<string>, i: nat)
    requires Wf(t) && i < |t.names|
    requires forall j :: 0 <= j < |t.names| ==> (t.names[j] in labels <==> j == i)
    requires forall l :: l in labels ==> l in t.names
    ensures Drop(t, labels).Ok?
    ensures Drop(t, labels).value ==
      Table(RemoveAt(t.names, i), RemoveAt(t.types, i),
            seq(|t.rows|, r requires 0 <= r < |t.rows| => RemoveAt(t.rows[r], i)))
  {
    KeptAllBut(t.names, labels, i);
    assert Drop(t, labels).Ok?;
    assert Drop(t, labels).value == Select(t, AllBut(|t.names|, i));
    SelectAllBut(t, i);
  }

  lemma SelectAllBut(t: Table, i: nat)
    requires Wf(t) && i < |t.names|
    ensures Select(t, AllBut(|t.names|, i)) ==
      Table(RemoveAt(t.names, i), RemoveAt(t.types, i),
            seq(|t.rows|, r requires 0 <= r < |t.rows| => RemoveAt(t.rows[r], i)))
  {
    var d := Select(t, AllBut(|t.names|, i));
    var rows := seq(|t.rows|, r requires 0 <= r < |t.rows| => RemoveAt(t.rows[r], i));
    assert d.names == RemoveAt(t.names, i);
    assert d.types == RemoveAt(t.types, i);
    forall r | 0 <= r < |t.rows| ensures d.rows[r] == rows[r] {
      assert |d.rows[r]| == |rows[r]|;
    }
  }

  /** The target of one entry of the retype pass. */
  datatype Cast = ToInt | ToFloat | ToStr

  function CastType(c: Cast): DType
  {
    match c
    case ToInt => Int64
    case ToFloat => Float64
    case ToStr => Object
  }

  /** `pd.to_numeric(..., errors='coerce')` on one cell: a missing value stays
      missing (None), every other cell is left to the library. */
  function ParseCell(conv: Conversions, v: Value): Option<Value>
  {
    if v == Null then None else conv.parse(v)
  }

  /** One cell under a cast; None when the library call raises.
      int: `to_numeric(coerce).fillna(0).astype(int)`;
      float: `to_numeric(coerce).astype(float)`; str: `astype(str)`. */
  function CastCell(conv: Conversions, c: Cast, v: Value): (r: Option<Value>)
    ensures c == ToInt && r.Some? ==> r.value.Int?
    ensures c == ToInt && ParseCell(conv, v).None? ==> r == Some(Int(0))
    ensures c == ToInt && ParseCell(conv, v).Some? ==>
      && (r.Some? <==> conv.toInt(ParseCell(conv, v).value).Some?)
      && (r.Some? ==> conv.toInt(ParseCell(conv, v).value) == Some(r.value.i))
    ensures c == ToFloat && r.Some? ==> (r.value == Null <==> ParseCell(conv, v).None?)
    ensures c == ToFloat && ParseCell(conv, v).None? ==> r == Some(Null)
    ensures c == ToFloat && ParseCell(conv, v).Some? ==>
      && (r.Some? <==> conv.toFloat(ParseCell(conv, v).value).Some?)
      && (r.Some? ==> r.value.Float? && conv.toFloat(ParseCell(conv, v).value) == Some(r.value.x))
    ensures c == ToStr ==> r == Some(Str(conv.show(v)))
  {
    match c
    case ToInt =>
      (match ParseCell(conv, v)
       case None => Some(Int(0))
       case Some(n) => (match conv.toInt(n) case Some(k) => Some(Int(k)) case None => None))
    case ToFloat =>
      (match ParseCell(conv, v)
       case None => Some(Null)
       case Some(n) => (match conv.toFloat(n) case Some(x) => Some(Float(x)) case None => None))
    case ToStr => Some(Str(conv.show(v)))
  }

  /** No other column carries the name at position `j`. */
  predicate UniqueLabel(names: seq<string>, j: nat)
    requires j < |names|
  {
    forall k :: 0 <= k < |names| && names[k] == names[j] ==> k == j
  }

  /** Some cell of a column carrying the label at position `j` fails the cast. */
  predicate SomeCellFails(t: Table, j: nat, c: Cast, conv: Conversions)
    requires Wf(t) && j < |t.names|
  {
    exists i, k :: 0 <= i < |t.rows| && 0 <= k < |t.names| && t.names[k] == t.names[j]
                   && CastCell(conv, c, t.rows[i][k]).None?
  }

  /** Under a label no other column carries, a cell fails exactly in that column. */
  lemma UniqueLabelCellFails(t: Table, j: nat, c: Cast, conv: Conversions)
    requires Wf(t) && j < |t.names| && UniqueLabel(t.names, j)
    ensures SomeCellFails(t, j, c, conv) <==> exists i :: 0 <= i < |t.rows| && CastCell(conv, c, t.rows[i][j]).None?
  {
    if SomeCellFails(t, j, c, conv) {
      var i, k :| 0 <= i < |t.rows| && 0 <= k < |t.names| && t.names[k] == t.names[j]
                  && CastCell(conv, c, t.rows[i][k]).None?;
      assert k == j;
    }
    if exists i :: 0 <= i < |t.rows| && CastCell(conv, c, t.rows[i][j]).None? {
      var i :| 0 <= i < |t.rows| && CastCell(conv, c, t.rows[i][j]).None?;
      assert |t.rows[i]| == |t.names|;
      assert 0 <= j < |t.names| && t.names[j] == t.names[j] && CastCell(conv, c, t.rows[i][j]).None?;
    }
  }

  /** `data[name] = cast(data[name])` for the name at position `j`. Selecting
      by name takes every column carrying it: `to_numeric` refuses such a
      multi-column selection (TypeError), while `astype(str)` converts all of
      them and the assignment writes them back in place. None: the cast raised
      and nothing was assigned. */
  function CastColumn(t: Table, j: nat, c: Cast, conv: Conversions): (r: Option<Table>)
    requires Wf(t) && j < |t.names|
    ensures r.Some? ==> Wf(r.value) && r.value.names == t.names && |r.value.rows| == |t.rows|
  {
    var name := t.names[j];
    if (c != ToStr && !UniqueLabel(t.names, j)) || SomeCellFails(t, j, c, conv) then None
    else
      Some(Table(
        t.names,
        seq(|t.types|, k requires 0 <= k < |t.types| => if t.names[k] == name then CastType(c) else t.types[k]),
        seq(|t.rows|, i requires 0 <= i < |t.rows| =>
          seq(|t.names|, k requires 0 <= k < |t.names| =>
            if t.names[k] == name then CastCell(conv, c, t.rows[i][k]).value else t.rows[i][k]))))
  }

  /** The cast fails exactly when it is numeric and the label is shared, or
      some cell under the label fails; on success every column carrying the
      label gets the target type and its cast cells, and every other column
      is left as it was. */
  lemma CastColumnSpec(t: Table, j: nat, c: Cast, conv: Conversions)
    requires Wf(t) && j < |t.names|
    ensures var r := CastColumn(t, j, c, conv);
      && (r.None? <==> (c != ToStr && !UniqueLabel(t.names, j)) || SomeCellFails(t, j, c, conv))
      && (r.Some? ==> forall k :: 0 <= k < |t.names| ==>
            r.value.types[k] == if t.names[k] == t.names[j] then CastType(c) else t.types[k])
      && (r.Some? ==> forall i, k :: 0 <= i < |t.rows| && 0 <= k < |t.names| ==>
            if t.names[k] == t.names[j] then CastCell(conv, c, t.rows[i][k]) == Some(r.value.rows[i][k])
            else r.value.rows[i][k] == t.rows[i][k])
  {
  }
}
