/** app.py's `edit_file`: for every file, a rename pass done in place on the
    column labels and on the delete list, a drop pass, a positional retype pass
    over the table left by the drop, and an optional row cleaner. */
module Edit {
  import opened Wrappers
  import opened Seqs
  import opened Tables
  import opened Frames

  /** The edit options read from the form: `columns_to_delete`, `new_names`,
      `new_types` and the `eliminar_nulos` flag. */
  datatype EditForm = EditForm(
    toDelete: seq<string>,
    newNames: seq<string>,
    newTypes: seq<string>,
    cleanRows: bool)

  // ---------------------------------------------------------------------------
  // Rename pass

  /** The column labels and the delete list as the rename pass leaves them. */
  datatype Renaming = Renaming(names: seq<string>, toDelete: seq<string>)

  /** One iteration: a non-empty name at a position inside the table replaces the
      label there, and the first entry of the delete list equal to the old label
      is overwritten with the new one. */
  function RenameStep(st: Renaming, idx: nat, newName: string): (r: Renaming)
    ensures |r.names| == |st.names| && |r.toDelete| == |st.toDelete|
  {
    if newName != "" && idx < |st.names| then
      var previous := st.names[idx];
      Renaming(
        st.names[idx := newName],
        if previous in st.toDelete then st.toDelete[IndexOf(st.toDelete, previous) := newName]
        else st.toDelete)
    else st
  }

  /** The rename pass over `newNames`, position by position. */
  function Rename(names: seq<string>, toDelete: seq<string>, newNames: seq<string>): (r: Renaming)
    ensures |r.names| == |names| && |r.toDelete| == |toDelete|
  {
    if newNames == [] then Renaming(names, toDelete)
    else
      var n := |newNames| - 1;
      RenameStep(Rename(names, toDelete, newNames[..n]), n, newNames[n])
  }

  /** The labels after the rename pass: position `j` carries `newNames[j]` when
      that is given and non-empty, and its old label otherwise. */
  lemma {:induction false} RenameSetsLabels(names: seq<string>, toDelete: seq<string>, newNames: seq<string>)
    ensures forall j :: 0 <= j < |names| ==>
      Rename(names, toDelete, newNames).names[j] ==
        if j < |newNames| && newNames[j] != "" then newNames[j] else names[j]
  {
    if newNames != [] {
      var n := |newNames| - 1;
      RenameSetsLabels(names, toDelete, newNames[..n]);
    }
  }

  /** The delete-list patch of one iteration touches only the first entry equal
      to the old label, and only when there is one. */
  lemma RenameStepPatchesFirstMatch(st: Renaming, idx: nat, newName: string)
    requires newName != "" && idx < |st.names|
    ensures st.names[idx] !in st.toDelete ==> RenameStep(st, idx, newName).toDelete == st.toDelete
    ensures st.names[idx] in st.toDelete ==>
      var p := IndexOf(st.toDelete, st.names[idx]);
      && st.names[idx] !in st.toDelete[..p]
      && RenameStep(st, idx, newName).toDelete[p] == newName
      && forall q :: 0 <= q < |st.toDelete| && q != p ==> RenameStep(st, idx, newName).toDelete[q] == st.toDelete[q]
  {
    if st.names[idx] in st.toDelete {
      IndexOfIsFirst(st.toDelete, st.names[idx]);
    }
  }

  /** The loop of app.py's rename pass, writing the label buffer and the delete
      list in place. */
  method RenameColumns(columns: array<string>, columnsToDelete: array<string>, newNames: seq<string>)
    requires columns != columnsToDelete
    modifies columns, columnsToDelete
    ensures Renaming(columns[..], columnsToDelete[..]) == Rename(old(columns[..]), old(columnsToDelete[..]), newNames)
  {
    var idx := 0;
    while idx < |newNames|
      invariant 0 <= idx <= |newNames|
      invariant Renaming(columns[..], columnsToDelete[..])
                == Rename(old(columns[..]), old(columnsToDelete[..]), newNames[..idx])
    {
      var newName := newNames[idx];
      assert newNames[..idx + 1][..idx] == newNames[..idx];
      if newName != "" && idx < columns.Length {
        if columns[idx] in columnsToDelete[..] {
          var indexNum := IndexOf(columnsToDelete[..], columns[idx]);
          columnsToDelete[indexNum] := newName;
        }
        columns[idx] := newName;
      }
      idx := idx + 1;
    }
    assert newNames[..idx] == newNames;
  }

  // ---------------------------------------------------------------------------
  // Retype pass

  /** A column that could not be converted: its label and the requested type. */
  datatype CastWarning = CastWarning(column: string, target: string)

  datatype Retyped = Retyped(table: Table, warnings: seq<CastWarning>)

  /** The three type names the form may send; anything else is ignored. */
  function CastOf(newType: string): Option<Cast>
  {
    if newType == "int" then Some(ToInt)
    else if newType == "float" then Some(ToFloat)
    else if newType == "str" then Some(ToStr)
    else None
  }

  /** One iteration: a non-empty type at a position inside the current table
      converts the column selected by the label there; a conversion that raises
      leaves the table as it was and reports a warning. */
  function RetypeStep(t: Table, idx: nat, newType: string, conv: Conversions): (r: Retyped)
    requires Wf(t)
    ensures Wf(r.table) && r.table.names == t.names && |r.table.rows| == |t.rows|
    ensures |r.warnings| <= 1 && (r.warnings != [] ==> r.table == t)
  {
    if newType != "" && idx < |t.names| && CastOf(newType).Some? then
      match CastColumn(t, idx, CastOf(newType).value, conv)
      case Some(cast) => Retyped(cast, [])
      case None => Retyped(t, [CastWarning(t.names[idx], newType)])
    else Retyped(t, [])
  }

  /** The retype pass over `newTypes`, position by position. */
  function Retype(t: Table, newTypes: seq<string>, conv: Conversions): (r: Retyped)
    requires Wf(t)
    ensures Wf(r.table) && r.table.names == t.names && |r.table.rows| == |t.rows|
    ensures |r.warnings| <= |newTypes|
  {
    if newTypes == [] then Retyped(t, [])
    else
      var n := |newTypes| - 1;
      var before := Retype(t, newTypes[..n], conv);
      var step := RetypeStep(before.table, n, newTypes[n], conv);
      Retyped(step.table, before.warnings + step.warnings)
  }

  /** The loop of app.py's retype pass; each assignment to a column rebinds the table. */
  method RetypeColumns(data: Table, newTypes: seq<string>, conv: Conversions) returns (r: Retyped)
    requires Wf(data)
    ensures r == Retype(data, newTypes, conv)
  {
    var t := data;
    var warnings: seq<CastWarning> := [];
    var idx := 0;
    while idx < |newTypes|
      invariant 0 <= idx <= |newTypes|
      invariant Retyped(t, warnings) == Retype(data, newTypes[..idx], conv)
    {
      var newType := newTypes[idx];
      assert newTypes[..idx + 1] == newTypes[..idx] + [newType];
      RetypeAppend(data, newTypes[..idx], newType, conv);
      if newType != "" && idx < |t.names| {
        match CastOf(newType)
        case Some(c) =>
          var cast := CastColumn(t, idx, c, conv);
          if cast.Some? {
            t := cast.value;
          } else {
            warnings := warnings + [CastWarning(t.names[idx], newType)];
          }
        case None =>
      }
      idx := idx + 1;
    }
    assert newTypes[..idx] == newTypes;
    r := Retyped(t, warnings);
  }

  /** Positions at or beyond the column count change nothing. */
  lemma {:induction false} RetypeIgnoresPositionsPastWidth(t: Table, newTypes: seq<string>, conv: Conversions)
    requires Wf(t) && |newTypes| > |t.names|
    ensures Retype(t, newTypes, conv) == Retype(t, newTypes[..|t.names|], conv)
  {
    var n := |newTypes| - 1;
    if n > |t.names| {
      RetypeIgnoresPositionsPastWidth(t, newTypes[..n], conv);
      assert newTypes[..n][..|t.names|] == newTypes[..|t.names|];
    } else {
      assert newTypes[..n] == newTypes[..|t.names|];
    }
  }

  /** `int`: the conversion fails exactly when the label is shared or some cell
      parses to a number that `astype(int)` refuses. On success the column holds
      integers only, with 0 for every cell that does not parse, and every column
      with another label keeps its type and cells; on failure nothing changes and
      a warning names the column. */
  lemma IntRetype(t: Table, idx: nat, conv: Conversions)
    requires Wf(t) && idx < |t.names|
    ensures var r := RetypeStep(t, idx, "int", conv);
      && (r.warnings != [] <==>
            || !UniqueLabel(t.names, idx)
            || exists i :: 0 <= i < |t.rows| && IntCellFails(conv, t.rows[i][idx]))
      && (r.warnings == [] ==>
            && r.table.types[idx] == Int64
            && forall i :: 0 <= i < |t.rows| ==>
                 && r.table.rows[i][idx].Int?
                 && (ParseCell(conv, t.rows[i][idx]).None? ==> r.table.rows[i][idx] == Int(0))
                 && (ParseCell(conv, t.rows[i][idx]).Some? ==>
                       conv.toInt(ParseCell(conv, t.rows[i][idx]).value) == Some(r.table.rows[i][idx].i)))
      && (r.warnings == [] ==> OtherColumnsKept(t, r.table, idx))
      && (r.warnings != [] ==> r.table == t && r.warnings == [CastWarning(t.names[idx], "int")])
  {
    var r := RetypeStep(t, idx, "int", conv);
    CastColumnSpec(t, idx, ToInt, conv);
    if UniqueLabel(t.names, idx) {
      UniqueLabelCellFails(t, idx, ToInt, conv);
      CellFailureIsIntFailure(t, idx, conv);
    }
    if r.warnings == [] {
      forall i | 0 <= i < |t.rows|
        ensures r.table.rows[i][idx].Int?
        ensures ParseCell(conv, t.rows[i][idx]).None? ==> r.table.rows[i][idx] == Int(0)
        ensures ParseCell(conv, t.rows[i][idx]).Some? ==>
          conv.toInt(ParseCell(conv, t.rows[i][idx]).value) == Some(r.table.rows[i][idx].i)
      {
        assert CastCell(conv, ToInt, t.rows[i][idx]) == Some(r.table.rows[i][idx]);
      }
    }
  }

  /** `astype(int)` raises on this cell: it parses, but the cast refuses the parsed
      value (an infinite float). `toInt` is otherwise unconstrained, so any integer
      the cast yields for an out-of-range float is allowed. */
  predicate IntCellFails(conv: Conversions, v: Value)
  {
    ParseCell(conv, v).Some? && conv.toInt(ParseCell(conv, v).value).None?
  }

  /** `astype(float)` raises on this cell. */
  predicate FloatCellFails(conv: Conversions, v: Value)
  {
    ParseCell(conv, v).Some? && conv.toFloat(ParseCell(conv, v).value).None?
  }

  lemma CellFailureIsIntFailure(t: Table, idx: nat, conv: Conversions)
    requires Wf(t) && idx < |t.names|
    ensures (exists i :: 0 <= i < |t.rows| && CastCell(conv, ToInt, t.rows[i][idx]).None?) <==>
            (exists i :: 0 <= i < |t.rows| && IntCellFails(conv, t.rows[i][idx]))
  {
    forall i | 0 <= i < |t.rows|
      ensures CastCell(conv, ToInt, t.rows[i][idx]).None? <==> IntCellFails(conv, t.rows[i][idx])
    {
    }
  }

  lemma CellFailureIsFloatFailure(t: Table, idx: nat, conv: Conversions)
    requires Wf(t) && idx < |t.names|
    ensures (exists i :: 0 <= i < |t.rows| && CastCell(conv, ToFloat, t.rows[i][idx]).None?) <==>
            (exists i :: 0 <= i < |t.rows| && FloatCellFails(conv, t.rows[i][idx]))
  {
    forall i | 0 <= i < |t.rows|
      ensures CastCell(conv, ToFloat, t.rows[i][idx]).None? <==> FloatCellFails(conv, t.rows[i][idx])
    {
    }
  }

  /** Every column whose label differs from the one at `idx` has the same type and cells in `after`. */
  ghost predicate OtherColumnsKept(before: Table, after: Table, idx: nat)
    requires Wf(before) && Wf(after) && idx < |before.names| && after.names == before.names
    requires |after.rows| == |before.rows|
  {
    forall i, k :: 0 <= i < |before.rows| && 0 <= k < |before.names| && before.names[k] != before.names[idx] ==>
      after.types[k] == before.types[k] && after.rows[i][k] == before.rows[i][k]
  }

  /** `float`: the conversion fails exactly when the label is shared or some cell
      parses to a number that `astype(float)` refuses. On success a cell of the
      column is missing exactly when the original cell does not parse, and every
      column with another label keeps its type and cells. */
  lemma FloatRetype(t: Table, idx: nat, conv: Conversions)
    requires Wf(t) && idx < |t.names|
    ensures var r := RetypeStep(t, idx, "float", conv);
      && (r.warnings != [] <==>
            || !UniqueLabel(t.names, idx)
            || exists i :: 0 <= i < |t.rows| && FloatCellFails(conv, t.rows[i][idx]))
      && (r.warnings == [] ==>
            && r.table.types[idx] == Float64
            && forall i :: 0 <= i < |t.rows| ==>
                 && (r.table.rows[i][idx] == Null <==> ParseCell(conv, t.rows[i][idx]).None?)
                 && (ParseCell(conv, t.rows[i][idx]).Some? ==>
                       && r.table.rows[i][idx].Float?
                       && conv.toFloat(ParseCell(conv, t.rows[i][idx]).value) == Some(r.table.rows[i][idx].x)))
      && (r.warnings == [] ==> OtherColumnsKept(t, r.table, idx))
      && (r.warnings != [] ==> r.table == t && r.warnings == [CastWarning(t.names[idx], "float")])
  {
    var r := RetypeStep(t, idx, "float", conv);
    CastColumnSpec(t, idx, ToFloat, conv);
    if UniqueLabel(t.names, idx) {
      UniqueLabelCellFails(t, idx, ToFloat, conv);
      CellFailureIsFloatFailure(t, idx, conv);
    }
    if r.warnings == [] {
      forall i | 0 <= i < |t.rows|
        ensures r.table.rows[i][idx] == Null <==> ParseCell(conv, t.rows[i][idx]).None?
        ensures ParseCell(conv, t.rows[i][idx]).Some? ==>
          && r.table.rows[i][idx].Float?
          && conv.toFloat(ParseCell(conv, t.rows[i][idx]).value) == Some(r.table.rows[i][idx].x)
      {
        assert CastCell(conv, ToFloat, t.rows[i][idx]) == Some(r.table.rows[i][idx]);
      }
    }
  }

  /** `str`: never fails; every column carrying the label becomes strings,
      missing cells included, and every other column keeps its type and cells. */
  lemma StrRetype(t: Table, idx: nat, conv: Conversions)
    requires Wf(t) && idx < |t.names|
    ensures var r := RetypeStep(t, idx, "str", conv);
      && r.warnings == []
      && (forall i, k :: 0 <= i < |t.rows| && 0 <= k < |t.names| && t.names[k] == t.names[idx] ==>
           r.table.rows[i][k] == Str(conv.show(t.rows[i][k])) && r.table.types[k] == Object)
      && OtherColumnsKept(t, r.table, idx)
  {
    var r := RetypeStep(t, idx, "str", conv);
    CastColumnSpec(t, idx, ToStr, conv);
    forall i, k | 0 <= i < |t.rows| && 0 <= k < |t.names| && t.names[k] == t.names[idx]
      ensures r.table.rows[i][k] == Str(conv.show(t.rows[i][k]))
    {
      assert CastCell(conv, ToStr, t.rows[i][k]) == Some(r.table.rows[i][k]);
    }
  }

  /** A numeric cast of a label that several columns carry always fails. */
  lemma NumericRetypeOfSharedLabelFails(t: Table, idx: nat, other: nat, newType: string, conv: Conversions)
    requires Wf(t) && idx < |t.names| && other < |t.names| && other != idx
    requires t.names[other] == t.names[idx]
    requires newType == "int" || newType == "float"
    ensures RetypeStep(t, idx, newType, conv) == Retyped(t, [CastWarning(t.names[idx], newType)])
  {
    assert !UniqueLabel(t.names, idx);
  }

  /** A cast that fails at `k` acts as if no type had been asked for there:
      the table comes out the same, with one more warning. */
  lemma FailedCastSkipsColumn(t: Table, newTypes: seq<string>, k: nat, conv: Conversions)
    requires Wf(t) && k < |newTypes|
    requires RetypeStep(Retype(t, newTypes[..k], conv).table, k, newTypes[k], conv).warnings != []
    ensures Retype(t, newTypes, conv).table == Retype(t, newTypes[k := ""], conv).table
    ensures |Retype(t, newTypes, conv).warnings| == |Retype(t, newTypes[k := ""], conv).warnings| + 1
  {
    var pre, post := newTypes[..k], newTypes[k + 1..];
    assert newTypes == pre + [newTypes[k]] + post;
    assert newTypes[k := ""] == pre + [""] + post;
    SkippedCastSameTable(t, pre, newTypes[k], post, conv);
  }

  /** The same statement with the request split around the failing position. */
  lemma {:induction false} SkippedCastSameTable(t: Table, pre: seq<string>, newType: string, post: seq<string>, conv: Conversions)
    requires Wf(t) && RetypeStep(Retype(t, pre, conv).table, |pre|, newType, conv).warnings != []
    ensures Retype(t, pre + [newType] + post, conv).table == Retype(t, pre + [""] + post, conv).table
    ensures |Retype(t, pre + [newType] + post, conv).warnings| == |Retype(t, pre + [""] + post, conv).warnings| + 1
    decreases |post|
  {
    if post == [] {
      assert pre + [newType] + post == pre + [newType];
      assert pre + [""] + post == pre + [""];
      SkippedCastLast(t, pre, newType, conv);
    } else {
      var front, last := post[..|post| - 1], post[|post| - 1];
      SkippedCastSameTable(t, pre, newType, front, conv);
      SplitLast(pre + [newType], post);
      SplitLast(pre + [""], post);
      SameLastStep(t, pre + [newType] + front, pre + [""] + front, last, conv);
    }
  }

  /** A request list regrouped around its last entry. */
  lemma SplitLast(front: seq<string>, post: seq<string>)
    requires post != []
    ensures front + post == (front + post[..|post| - 1]) + [post[|post| - 1]]
  {
    assert post == post[..|post| - 1] + [post[|post| - 1]];
  }

  /** The failing step itself: one warning more, the same table. */
  lemma SkippedCastLast(t: Table, front: seq<string>, newType: string, conv: Conversions)
    requires Wf(t) && RetypeStep(Retype(t, front, conv).table, |front|, newType, conv).warnings != []
    ensures Retype(t, front + [newType], conv).table == Retype(t, front + [""], conv).table
    ensures |Retype(t, front + [newType], conv).warnings| == |Retype(t, front + [""], conv).warnings| + 1
  {
    RetypeAppend(t, front, newType, conv);
    RetypeAppend(t, front, "", conv);
    StepSkip(Retype(t, front, conv).table, |front|, newType, conv);
  }

  /** The step for a position appended to the request, on the result of the earlier ones. */
  lemma RetypeAppend(t: Table, front: seq<string>, newType: string, conv: Conversions)
    requires Wf(t)
    ensures var before := Retype(t, front, conv);
      var step := RetypeStep(before.table, |front|, newType, conv);
      Retype(t, front + [newType], conv) == Retyped(step.table, before.warnings + step.warnings)
  {
    assert (front + [newType])[..|front|] == front;
  }

  lemma StepSkip(x: Table, n: nat, newType: string, conv: Conversions)
    requires Wf(x) && RetypeStep(x, n, newType, conv).warnings != []
    ensures RetypeStep(x, n, newType, conv).table == RetypeStep(x, n, "", conv).table
    ensures |RetypeStep(x, n, newType, conv).warnings| == |RetypeStep(x, n, "", conv).warnings| + 1
  {
  }

  /** Equal requests at an appended position preserve what the earlier steps agree on. */
  lemma SameLastStep(t: Table, asked: seq<string>, skipped: seq<string>, newType: string, conv: Conversions)
    requires Wf(t) && |asked| == |skipped|
    requires Retype(t, asked, conv).table == Retype(t, skipped, conv).table
    requires |Retype(t, asked, conv).warnings| == |Retype(t, skipped, conv).warnings| + 1
    ensures Retype(t, asked + [newType], conv).table == Retype(t, skipped + [newType], conv).table
    ensures |Retype(t, asked + [newType], conv).warnings| == |Retype(t, skipped + [newType], conv).warnings| + 1
  {
    RetypeAppend(t, asked, newType, conv);
    RetypeAppend(t, skipped, newType, conv);
  }

  // ---------------------------------------------------------------------------
  // Row cleaner and the whole edit

  /** `drop_duplicates().dropna()`. */
  function CleanRows(t: Table): (r: Table)
    requires Wf(t)
    ensures Wf(r) && r.names == t.names && r.types == t.types
    ensures IsSubseq(r.rows, t.rows)
    ensures forall i :: 0 <= i < |r.rows| ==> NoNull(r.rows[i])
    ensures |t.names| > 0 ==> Distinct(r.rows)
    ensures |t.names| == 0 ==> r == t
    ensures forall row :: row in t.rows && NoNull(row) ==> row in r.rows
  {
    var d := DropDuplicates(t);
    SubseqTransitive(DropNa(d).rows, d.rows, t.rows);
    if |t.names| > 0 then
      FilterKeepsDistinct(NoNull, d.rows);
      DropNa(d)
    else DropNa(d)
  }

  /** Cleaning keeps the first occurrence of every surviving row, in the order
      of first occurrence in the input. */
  lemma CleanKeepsFirstOccurrences(t: Table)
    requires Wf(t)
    ensures |t.names| > 0 ==> OrderedByFirstOccurrence(CleanRows(t).rows, t.rows)
    ensures |t.names| == 0 ==> CleanRows(t).rows == t.rows
  {
    if |t.names| > 0 {
      DedupKeepsFirstOccurrences(t.rows);
      FilterKeepsOrder(NoNull, Dedup(t.rows), t.rows);
    }
  }

  /** Cleaning twice is cleaning once. */
  lemma CleanIdempotent(t: Table)
    requires Wf(t)
    ensures CleanRows(CleanRows(t)) == CleanRows(t)
  {
    var c := CleanRows(t);
    if |t.names| > 0 {
      DedupOfDistinct(c.rows);
      FilterAllKept(NoNull, c.rows);
    }
  }

  /** The edit a single file undergoes. */
  datatype Edited = Edited(table: Table, warnings: seq<CastWarning>)

  /** The edit fails exactly when the patched delete list names a label that no
      column carries after renaming. It then reports exactly those labels when
      the renamed labels are unique, and the whole patched list otherwise;
      on success the surviving labels are the renamed ones not listed, and the
      cleaner leaves no missing cell and, when some column survives, no
      repeated row. */
  function Edit(t: Table, form: EditForm, conv: Conversions): (r: Result<Edited, FrameError>)
    requires Wf(t)
    ensures var renamed := Rename(t.names, form.toDelete, form.newNames);
      && (r.Err? <==> exists l :: l in renamed.toDelete && l !in renamed.names)
      && (r.Err? && Distinct(renamed.names) ==>
            forall l :: l in r.error.named <==> l in renamed.toDelete && l !in renamed.names)
      && (r.Err? && !Distinct(renamed.names) ==> r.error.named == renamed.toDelete)
      && (r.Ok? ==> forall x :: x in r.value.table.names <==> x in renamed.names && x !in renamed.toDelete)
    ensures r.Ok? ==> Wf(r.value.table) && |r.value.warnings| <= |form.newTypes|
    ensures r.Ok? && form.cleanRows ==>
      && (|r.value.table.names| > 0 ==> Distinct(r.value.table.rows))
      && (forall i :: 0 <= i < |r.value.table.rows| ==> NoNull(r.value.table.rows[i]))
      && (|r.value.table.names| == 0 ==> |r.value.table.rows| == |t.rows|)
  {
    var renamed := Rename(t.names, form.toDelete, form.newNames);
    var labelled := Table(renamed.names, t.types, t.rows);
    var dropped := if renamed.toDelete != [] then Drop(labelled, renamed.toDelete) else Ok(labelled);
    match dropped
    case Err(e) =>
      assert renamed.toDelete != [] && Drop(labelled, renamed.toDelete) == Err(e);
      assert renamed == Rename(t.names, form.toDelete, form.newNames);
      Err(e)
    case Ok(kept) =>
      var retyped := Retype(kept, form.newTypes, conv);
      Ok(Edited(if form.cleanRows then CleanRows(retyped.table) else retyped.table, retyped.warnings))
  }

  /** The body of app.py's per-file loop: rename in place, drop, retype, clean. */
  method EditFile(data: Table, form: EditForm, conv: Conversions) returns (r: Result<Edited, FrameError>)
    requires Wf(data)
    ensures r == Edit(data, form, conv)
  {
    var columns := new string[|data.names|](i requires 0 <= i < |data.names| => data.names[i]);
    var columnsToDelete := new string[|form.toDelete|](i requires 0 <= i < |form.toDelete| => form.toDelete[i]);
    assert columns[..] == data.names;
    assert columnsToDelete[..] == form.toDelete;
    RenameColumns(columns, columnsToDelete, form.newNames);
    var t := Table(columns[..], data.types, data.rows);
    if columnsToDelete.Length > 0 {
      var dropped := Drop(t, columnsToDelete[..]);
      if dropped.Err? {
        return Err(dropped.error);
      }
      t := dropped.value;
    }
    var retyped := RetypeColumns(t, form.newTypes, conv);
    t := retyped.table;
    if form.cleanRows {
      t := CleanRows(t);
    }
    r := Ok(Edited(t, retyped.warnings));
  }

  /** `e` is what the edit of `t` saves. */
  ghost predicate SavedAs(t: Table, form: EditForm, conv: Conversions, e: Edited)
    requires Wf(t)
  {
    Edit(t, form, conv) == Ok(e)
  }

  /** One more file edited: the saved list grows by its edit. */
  lemma SavedExtends(tables: seq<Table>, form: EditForm, conv: Conversions, saved: seq<Edited>, e: Edited)
    requires |saved| < |tables| && forall k :: 0 <= k < |tables| ==> Wf(tables[k])
    requires forall j :: 0 <= j < |saved| ==> SavedAs(tables[j], form, conv, saved[j])
    requires Edit(tables[|saved|], form, conv) == Ok(e)
    ensures forall j :: 0 <= j < |saved| + 1 ==> SavedAs(tables[j], form, conv, (saved + [e])[j])
  {
    forall j | 0 <= j < |saved| + 1
      ensures SavedAs(tables[j], form, conv, (saved + [e])[j])
    {
      if j < |saved| {
        assert (saved + [e])[j] == saved[j];
      }
    }
  }

  /** app.py's loop over the submitted files: each file is edited with the same
      form; an uncaught error ends the request, after the files before it have
      already been written back. */
  method EditFiles(tables: seq<Table>, form: EditForm, conv: Conversions)
    returns (saved: seq<Edited>, failure: Option<FrameError>)
    requires forall k :: 0 <= k < |tables| ==> Wf(tables[k])
    ensures |saved| <= |tables|
    ensures forall k :: 0 <= k < |saved| ==> Edit(tables[k], form, conv) == Ok(saved[k])
    ensures failure.None? ==> |saved| == |tables|
    ensures failure.Some? ==> |saved| < |tables| && Edit(tables[|saved|], form, conv) == Err(failure.value)
  {
    saved := [];
    var k := 0;
    while k < |tables|
      invariant 0 <= k <= |tables| && |saved| == k
      invariant forall j :: 0 <= j < k ==> SavedAs(tables[j], form, conv, saved[j])
    {
      var r := EditFile(tables[k], form, conv);
      if r.Err? {
        return saved, Some(r.error);
      }
      SavedExtends(tables, form, conv, saved, r.value);
      saved := saved + [r.value];
      k := k + 1;
    }
    failure := None;
  }

  // ---------------------------------------------------------------------------
  // What an edit does, end to end

  /** Renaming with empty entries only changes nothing. */
  lemma {:induction false} RenameAllEmpty(names: seq<string>, toDelete: seq<string>, newNames: seq<string>)
    requires forall j :: 0 <= j < |newNames| ==> newNames[j] == ""
    ensures Rename(names, toDelete, newNames) == Renaming(names, toDelete)
  {
    if newNames != [] {
      RenameAllEmpty(names, toDelete, newNames[..|newNames| - 1]);
    }
  }

  /** With a single non-empty entry, the rename pass is that one step. */
  lemma {:induction false} RenameOnlyAt(names: seq<string>, toDelete: seq<string>, newNames: seq<string>, i: nat)
    requires i < |newNames|
    requires forall j :: 0 <= j < |newNames| && j != i ==> newNames[j] == ""
    ensures Rename(names, toDelete, newNames) == RenameStep(Renaming(names, toDelete), i, newNames[i])
  {
    var n := |newNames| - 1;
    if n == i {
      RenameAllEmpty(names, toDelete, newNames[..n]);
    } else {
      RenameOnlyAt(names, toDelete, newNames[..n], i);
    }
  }

  /** Renaming column `i` to a fresh label and asking to delete it, by its old
      label or by its new one, removes that column and nothing else. */
  lemma RenameThenDrop(t: Table, i: nat, newName: string, newNames: seq<string>, toDelete: seq<string>, conv: Conversions)
    requires Wf(t) && i < |t.names| && i < |newNames|
    requires newNames[i] == newName && newName != "" && newName !in t.names
    requires forall j :: 0 <= j < |newNames| && j != i ==> newNames[j] == ""
    requires toDelete == [t.names[i]] || toDelete == [newName]
    ensures Edit(t, EditForm(toDelete, newNames, [], false), conv) ==
      Ok(Edited(Table(RemoveAt(t.names, i), RemoveAt(t.types, i),
                      seq(|t.rows|, r requires 0 <= r < |t.rows| => RemoveAt(t.rows[r], i))), []))
  {
    RenameOnlyAt(t.names, toDelete, newNames, i);
    var names := t.names[i := newName];
    assert Rename(t.names, toDelete, newNames) == Renaming(names, [newName]);
    var labelled := Table(names, t.types, t.rows);
    assert names[i] == newName;
    DropOneColumn(labelled, [newName], i);
    assert RemoveAt(names, i) == RemoveAt(t.names, i);
  }

  /** Deleting every column and cleaning keeps every row: the rows left are
      empty, none has a missing value, and duplicate removal returns a table
      without columns unchanged. */
  lemma CleanWithoutColumnsKeepsRows(conv: Conversions)
    ensures Edit(Table(["a"], [Int64], [[Int(1)], [Int(2)]]), EditForm(["a"], [], [], true), conv) ==
      Ok(Edited(Table([], [], [[], []]), []))
  {
    var t := Table(["a"], [Int64], [[Int(1)], [Int(2)]]);
    var kept := DropOnlyColumn(t);
    assert Rename(t.names, ["a"], []) == Renaming(t.names, ["a"]);
    assert Retype(kept, [], conv) == Retyped(kept, []);
    assert CleanRows(kept) == kept;
  }

  /** Deleting the only column of the example leaves its two rows, now empty. */
  lemma DropOnlyColumn(t: Table) returns (kept: Table)
    requires t == Table(["a"], [Int64], [[Int(1)], [Int(2)]])
    ensures Drop(t, ["a"]) == Ok(kept) && kept == Table([], [], [[], []])
  {
    DropOneColumn(t, ["a"], 0);
    kept := Drop(t, ["a"]).value;
    assert RemoveAt(t.rows[0], 0) == [] && RemoveAt(t.rows[1], 0) == [];
    assert kept.rows == [[], []];
  }

  /** The delete-list patch cascades. With labels `a`, `b`, new names `b`, `c`
      and `a` listed for deletion, the first iteration patches the list to `b`
      and the second, renaming the column that was `b`, patches it again to `c`.
      The column that was `b` is deleted, and the column that was `a` survives
      under the label `b`. */
  lemma RenameCascade(t: Table, conv: Conversions)
    requires Wf(t) && t.names == ["a", "b"]
    ensures Rename(t.names, ["a"], ["b", "c"]) == Renaming(["b", "c"], ["c"])
    ensures Edit(t, EditForm(["a"], ["b", "c"], [], false), conv) ==
      Ok(Edited(Table(["b"], [t.types[0]], seq(|t.rows|, r requires 0 <= r < |t.rows| => [t.rows[r][0]])), []))
  {
    CascadeRename();
    var kept := DropSecondOfTwo(Table(["b", "c"], t.types, t.rows));
    assert Retype(kept, [], conv) == Retyped(kept, []);
  }

  /** Renaming can repeat a label, and then a failing drop names the whole
      delete list: with labels `a`, `b`, new names `b` and `b`, `x` listed for
      deletion, the labels become `b`, `b` and the error names `b` and `x`. */
  lemma RepeatedLabelDropNamesWholeList(t: Table, conv: Conversions)
    requires Wf(t) && t.names == ["a", "b"]
    ensures Edit(t, EditForm(["b", "x"], ["b"], [], false), conv) == Err(KeyError(["b", "x"]))
  {
    assert ["b"][..0] == [];
    assert Rename(t.names, ["b", "x"], ["b"]) == Renaming(["b", "b"], ["b", "x"]);
    assert !Distinct(["b", "b"]) by {
      assert ["b", "b"][0] == ["b", "b"][1];
    }
    assert "x" in ["b", "x"] && "x" !in ["b", "b"];
  }

  /** The rename pass of the cascade example on its own. */
  lemma CascadeRename()
    ensures Rename(["a", "b"], ["a"], ["b", "c"]) == Renaming(["b", "c"], ["c"])
  {
    var first := RenameStep(Renaming(["a", "b"], ["a"]), 0, "b");
    assert IndexOf(["a"], "a") == 0;
    assert first == Renaming(["b", "b"], ["b"]);
    assert ["b", "c"][..1] == ["b"] && ["b"][..0] == [];
    assert Rename(["a", "b"], ["a"], ["b"]) == first;
    assert IndexOf(["b"], "b") == 0;
    assert RenameStep(first, 1, "c") == Renaming(["b", "c"], ["c"]);
  }

  lemma DropSecondOfTwo(t: Table) returns (kept: Table)
    requires Wf(t) && t.names == ["b", "c"]
    ensures Drop(t, ["c"]) == Ok(kept)
    ensures kept == Table(["b"], [t.types[0]], seq(|t.rows|, r requires 0 <= r < |t.rows| => [t.rows[r][0]]))
  {
    DropOneColumn(t, ["c"], 1);
    kept := Drop(t, ["c"]).value;
    assert RemoveAt(t.names, 1) == ["b"];
    assert RemoveAt(t.types, 1) == [t.types[0]];
    var want := seq(|t.rows|, r requires 0 <= r < |t.rows| => [t.rows[r][0]]);
    forall r | 0 <= r < |t.rows| ensures kept.rows[r] == want[r] {
      assert kept.rows[r] == RemoveAt(t.rows[r], 1);
    }
    assert kept.rows == want;
  }

  /** The retype pass addresses the table left by the drop: after deleting the
      first of two columns, position 0 is the column that was second. */
  lemma RetypeUsesPositionsAfterDrop(t: Table, conv: Conversions)
    requires Wf(t) && t.names == ["a", "b"]
    ensures Edit(t, EditForm(["a"], [], ["str"], false), conv) ==
      Ok(Edited(Table(["b"], [Object],
                      seq(|t.rows|, r requires 0 <= r < |t.rows| => [Str(conv.show(t.rows[r][1]))])), []))
  {
    assert Rename(t.names, ["a"], []) == Renaming(t.names, ["a"]);
    DropThenStr(t, conv);
  }

  lemma DropThenStr(t: Table, conv: Conversions)
    requires Wf(t) && t.names == ["a", "b"]
    ensures Drop(t, ["a"]).Ok?
    ensures Retype(Drop(t, ["a"]).value, ["str"], conv) ==
      Retyped(Table(["b"], [Object],
                    seq(|t.rows|, r requires 0 <= r < |t.rows| => [Str(conv.show(t.rows[r][1]))])), [])
  {
    var kept := DropFirstOfTwo(t);
    StrOnSingleColumn(kept, conv);
    var got := seq(|kept.rows|, r requires 0 <= r < |kept.rows| => [Str(conv.show(kept.rows[r][0]))]);
    var want := seq(|t.rows|, r requires 0 <= r < |t.rows| => [Str(conv.show(t.rows[r][1]))]);
    forall r | 0 <= r < |t.rows| ensures got[r] == want[r] {
      assert kept.rows[r][0] == t.rows[r][1];
    }
    assert got == want;
  }

  lemma DropFirstOfTwo(t: Table) returns (kept: Table)
    requires Wf(t) && t.names == ["a", "b"]
    ensures Drop(t, ["a"]) == Ok(kept)
    ensures Wf(kept) && kept.names == ["b"] && |kept.rows| == |t.rows|
    ensures forall r :: 0 <= r < |t.rows| ==> kept.rows[r][0] == t.rows[r][1]
  {
    DropOneColumn(t, ["a"], 0);
    kept := Drop(t, ["a"]).value;
    assert RemoveAt(t.names, 0) == ["b"];
    forall r | 0 <= r < |t.rows| ensures kept.rows[r][0] == t.rows[r][1] {
      assert kept.rows[r] == RemoveAt(t.rows[r], 0);
    }
  }

  lemma StrOnSingleColumn(t: Table, conv: Conversions)
    requires Wf(t) && |t.names| == 1
    ensures Retype(t, ["str"], conv) ==
      Retyped(Table(t.names, [Object], seq(|t.rows|, r requires 0 <= r < |t.rows| => [Str(conv.show(t.rows[r][0]))])), [])
  {
    assert ["str"][..0] == [];
    StrRetype(t, 0, conv);
    var cast := RetypeStep(t, 0, "str", conv).table;
    assert Retype(t, ["str"], conv) == Retyped(cast, []);
    var want := seq(|t.rows|, r requires 0 <= r < |t.rows| => [Str(conv.show(t.rows[r][0]))]);
    forall r | 0 <= r < |t.rows| ensures cast.rows[r] == want[r] {
    }
  }
}
