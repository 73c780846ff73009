# Tabular file editor: a Dafny model of its data pipeline

The repository is a small web tool for tabular files (CSV, Excel, text). It
has two Flask applications:

- `app.py` accepts files by extension and loads them with a reader chosen by
  that extension. Its edit route runs four steps on every submitted file:
  1. a rename pass;
  2. the deletion of the chosen columns;
  3. a per-position type conversion;
  4. an optional pass that removes repeated rows and rows with a missing cell.

  Its combine route stacks several files once their column labels and column
  types all agree.
- `main.py` also stores uploads. It remembers one uploaded path per extension
  in a cookie and cleans the text table according to two flags. It also
  defines a reader dispatcher, `process_file`, but no route or function in
  main.py calls it. The running application reads files in `clean_data`
  (main.py:33, 39, 45) and in the `/preview` route (main.py:88, csv only),
  with the same reader calls as app.py's `load_file`.

The model represents a table as a value with these parts:

- `Tables.Table`: column labels, column types and rows;
- `Tables.Value`: a cell, which is an integer, a real, a string or missing.

The pandas operations the pipeline calls are functions on such tables: they
are in module `Frames`. Each application step is then modelled in the form the
code has:

- The rename pass writes the label buffer and the delete list in place, so
  `Edit.RenameColumns` works on two arrays.
- The conversion loop, the per-file loop, the schema check of the combiner and
  the upload loop are methods with loops.
- `Edit.RenameColumns` and `Edit.RetypeColumns` are proved equal to
  prefix-recursive specification functions, and the properties are proved as
  lemmas about those functions. `Edit.EditFiles`, `Combine.CombineFiles` and
  `MainApp.UploadFiles` are specified point by point in their postconditions.

Modules:

| module | file | models |
|---|---|---|
| `Wrappers` | wrappers.dfy | `Option`, `Result` |
| `Text` | text.dfy | `str.lower()` and `rsplit('.', 1)[1]` on file names |
| `Seqs` | seqs.dfy | `list.index`, order-keeping filtering and duplicate removal |
| `Tables` | tables.dfy | cells, column types, tables, reader formats, the conversion primitives |
| `Frames` | frames.dfy | `dropna`, `drop_duplicates`, `drop(columns=…)`, the per-column casts |
| `AppLoad` | load.dfy | `allowed_file` and `load_file` of app.py |
| `Edit` | edit.dfy | `edit_file` of app.py |
| `Combine` | combine.dfy | `combine_files` of app.py |
| `MainApp` | mainapp.dfy | `allowed_file`, `process_file`, `upload_file` and `clean_data` of main.py |

Points where the code's behaviour is easy to misread:

- **Renaming a column that is also listed for deletion.** Each iteration of
  the rename pass rewrites the first delete-list entry equal to the old label
  to the new label. When a single column gets a new label that no column has,
  and the delete list holds that one column's old or new label, the column is
  deleted and nothing else is (`Edit.RenameThenDrop`). In general the patch
  cascades, because a later iteration can rewrite an entry that an earlier one
  wrote. With labels `a`, `b`, new names `b`, `c` and `a` listed for deletion,
  the list becomes `b` and then `c`. The column that was `b` is deleted, and
  the column that was `a` survives under the label `b` (`Edit.RenameCascade`).
- **Positions in the conversion list.** They index the table left after the
  deletion, not the original one (`Edit.RetypeUsesPositionsAfterDrop`).
- **Order of the two cleaning passes.** Removing missing-value rows and then
  repeated rows gives exactly the same rows as the opposite order
  (`Seqs.DedupFilterCommute`, `MainApp.CleanBothIsEditClean`). The order in which
  the two applications apply them therefore does not change the result.
- **A table whose columns are all deleted.** Its rows are empty but still
  there. `drop_duplicates` returns an empty frame unchanged, and a frame
  without columns counts as empty, so cleaning keeps every one of those rows
  (`Edit.CleanWithoutColumnsKeepsRows`). The distinctness guarantees of the
  cleaner therefore hold only for tables that keep at least one column.
- **Delimiter for `.txt` files.**
  - `load_file` in app.py reads them `|`-delimited.
  - `clean_data` in main.py, the only place main.py reads a txt file, also
    reads them `|`-delimited, although its comment says tabs do the splitting.
  - `process_file` in main.py would read them tab-delimited, but nothing in
    main.py calls it, so no txt file is ever read with tabs.

  The tab-versus-`|` difference is therefore between app.py's `load_file` and
  a main.py function that has no caller. `MainApp.ReadersDifferOnTxtOnly`
  proves that, among the names both accept, txt is the only one for which the
  two dispatchers choose different readers.
  They also differ on refused extensions: `load_file` returns no table
  (app.py:29), while `process_file` raises the unsupported-type error
  (main.py:168).

## Model

| member | source | states |
|---|---|---|
| `Text.Lower` | app.py:17 | the result has the input's length and holds the ASCII-lowered character at every position |
| `Text.Extension` | app.py:17 | the result is the text after the last dot: a dot stands right before it, it ends the name, and it contains no dot |
| `Text.ExtensionOfSplit` | main.py:156 | for any stem and any dot-free suffix, the suffix is the extension of `stem.suffix` |
| `Seqs.IndexOf` | app.py:97 | `list.index` returns a position inside the list that holds the element |
| `Seqs.IndexOfIsFirst` | app.py:97 | no earlier position holds the element: the first match is patched |
| `Seqs.Filter` | app.py:121 | the rows of `dropna` are the input rows meeting the condition, no more and no fewer, and never more of them |
| `Seqs.FilterCounts` | app.py:121 | filtering keeps every copy of a row that meets the condition and no copy of one that fails it |
| `Seqs.SubseqReflexive` | main.py:53-57 | a sequence is a subsequence of itself, so a pass that is skipped keeps the order |
| `Seqs.Dedup` | app.py:121 | the rows of `drop_duplicates` are pairwise distinct and are the same set of rows as the input |
| `Seqs.FilterIsSubseq` | app.py:121 | filtering keeps the rows in their original order (a subsequence of the input) |
| `Seqs.DedupIsSubseq` | app.py:121 | duplicate removal keeps the rows in their original order (a subsequence of the input) |
| `Seqs.DedupKeepsFirstOccurrences` | app.py:121 | the surviving rows are ordered by the position of their first occurrence in the input |
| `Seqs.DedupFilterCommute` | main.py:53-57 | removing missing-value rows before or after removing repeated rows yields the same rows |
| `Seqs.SubseqTransitive` | app.py:121 | a subsequence of a subsequence is a subsequence, so chained passes keep the original order |
| `Seqs.DedupOfDistinct` | app.py:121 | duplicate removal leaves rows that are already distinct unchanged |
| `Seqs.FilterAllKept` | app.py:121 | filtering rows that all pass changes nothing |
| `Frames.DropNa` | app.py:121 | the result keeps labels and types; its rows are the input rows without a missing cell, in their original order, each with as many copies as in the input |
| `Frames.DropDuplicates` | app.py:121 | the result keeps labels and types, keeps the input order and holds exactly the input's rows as a set; a table with columns comes out with distinct rows in the order of their first occurrence, and a table without columns (an empty frame) comes out unchanged |
| `Frames.KeptPositions` | app.py:103 | the kept positions are increasing, in range, and are exactly the positions whose label is not listed |
| `Frames.Drop` | app.py:102-103 | fails exactly when some listed label is absent, reporting exactly the absent ones when the column labels are unique and the whole list when a label repeats; otherwise the surviving labels are exactly the unlisted ones and the row count is kept |
| `Frames.DropKeepsUnlistedInOrder` | app.py:103 | a successful drop projects labels, types and every row onto the unlisted positions, in order |
| `Frames.DropOneColumn` | app.py:103 | listing labels that only column `i` carries removes that column, its type and its cell in every row, and nothing else |
| `Frames.CastCell` | app.py:109-114 | int gives an integer, and 0 for an unparseable or missing cell; float succeeds with a missing cell for every unparseable or missing cell, and a successful float cast gives a missing cell only there; str always succeeds with the cell's text |
| `Frames.CastColumn` | app.py:108-116 | a successful cast keeps the labels, the row count and well-formedness |
| `AppLoad.ReaderFor` | app.py:21-29 | a reader exists exactly for csv, xlsx and txt: comma CSV, Excel and `\|`-delimited CSV respectively |
| `AppLoad.LoadFile` | app.py:20-29 | a name without a dot raises; otherwise a reader is chosen exactly for allowed names: comma CSV for csv, Excel for xlsx, pipe-delimited CSV for txt, and none for any other extension |
| `AppLoad.AllowedFileOfSplit` | app.py:16-17 | `AppLoad.AllowedFile` accepts a name exactly when its lowered last suffix is csv, xlsx or txt |
| `AppLoad.TrailingDotRefused` | app.py:17 | a name ending in a dot has an empty extension and is refused |
| `AppLoad.LastExtensionDecides` | app.py:17-21 | only the lowered text after the last dot counts: `a.txt.CSV` is accepted and read as comma CSV, not as a txt file |
| `AppLoad.InnerExtensionIgnored` | app.py:17 | an allowed extension before the last dot does not help: `a.csv.gz` is refused |
| `Edit.RenameStep` | app.py:95-99 | one iteration keeps the lengths of the label buffer and of the delete list |
| `Edit.Rename` | app.py:94-99 | the whole rename pass keeps the lengths of the label buffer and of the delete list |
| `Edit.RenameSetsLabels` | app.py:94-99 | after the pass, position `j` has `new_names[j]` when that entry exists and is non-empty, and its old label otherwise |
| `Edit.RenameStepPatchesFirstMatch` | app.py:96-98 | an iteration rewrites only the first delete-list entry equal to the old label, and no entry when there is none |
| `Edit.RenameColumns` | app.py:94-99 | the in-place loop leaves the two arrays equal to the rename pass of their initial contents |
| `Edit.RetypeStep` | app.py:107-116 | an iteration keeps labels, well-formedness and the row count; a warning is emitted only when the table is unchanged |
| `Edit.Retype` | app.py:106-116 | the whole conversion loop keeps labels, well-formedness and the row count, with at most one warning per requested type |
| `Edit.RetypeColumns` | app.py:106-116 | the loop computes the conversion pass's table and warnings |
| `Edit.RetypeIgnoresPositionsPastWidth` | app.py:107 | requests past the column count change nothing |
| `Edit.IntRetype` | app.py:108-116 | an int conversion fails exactly when the label is shared or some cell parses to a number `astype(int)` refuses; on success the column is typed int64 and holds integers only: 0 where a cell does not parse and the integer conversion of the parsed number elsewhere; every column with another label keeps its type and cells; a failure leaves the table unchanged and reports the label |
| `Edit.FloatRetype` | app.py:108-116 | a float conversion fails exactly when the label is shared or some cell parses to a number `astype(float)` refuses; on success the column is typed float64, has a missing cell exactly where the cell does not parse and the float conversion of the parsed number elsewhere, and every column with another label keeps its type and cells; a failure leaves the table unchanged and reports the label |
| `Edit.StrRetype` | app.py:113-114 | a str conversion never fails, turns every column with that label into text, missing cells included, and leaves every column with another label as it was |
| `Edit.NumericRetypeOfSharedLabelFails` | app.py:108-116 | an int or float conversion of a label that two columns share always fails and changes nothing |
| `Edit.FailedCastSkipsColumn` | app.py:115-116 | a failing conversion at one position gives the same final table as asking for no conversion there, with one more warning |
| `Edit.CleanRows` | app.py:120-121 | cleaning keeps labels and types and the original order; it leaves no row with a missing cell and keeps every complete row; on a table with columns it leaves no repeated row, and a table without columns is returned unchanged |
| `Edit.CleanKeepsFirstOccurrences` | app.py:121 | on a table with columns the cleaned rows appear in the order of their first occurrence; on a table without columns every row is kept |
| `Edit.CleanIdempotent` | app.py:121 | cleaning twice gives the same result as cleaning once |
| `Edit.Edit` | app.py:93-121 | the edit fails exactly when the patched delete list names a label absent after renaming, and reports exactly those labels when the renamed labels are unique, the whole patched list when one repeats; on success the surviving labels are the renamed unlisted ones, at most one warning arises per type, and cleaning leaves complete rows, distinct when some column survives and all of the input's rows when none does |
| `Edit.EditFile` | app.py:81-121 | the body of the per-file loop computes the edit of that file |
| `Edit.EditFiles` | app.py:80-130 | every file before the first failing one is saved with its edit; the loop stops at a failing file and reports its error |
| `Edit.RenameAllEmpty` | app.py:95 | an all-empty name list renames nothing |
| `Edit.RenameOnlyAt` | app.py:94-99 | with a single non-empty name, the rename pass is that one iteration |
| `Edit.RenameThenDrop` | app.py:94-103 | when only column `i` gets a non-empty new name, that name is carried by no column, and the delete list is the single old or new label of `i`, the edit removes that column and nothing else |
| `Edit.CleanWithoutColumnsKeepsRows` | app.py:102-121 | deleting the only column of a two-row table and cleaning keeps both (now empty) rows, because duplicate removal returns a frame without columns unchanged |
| `Edit.RepeatedLabelDropNamesWholeList` | app.py:94-103 | with labels `a`, `b`, new names `b` and `b`, `x` to delete, renaming repeats the label `b` and the failing drop names the whole list `b`, `x` |
| `Edit.RenameCascade` | app.py:94-103 | with labels `a`, `b`, new names `b`, `c` and `a` to delete, the patched delete list is `c`, and the column that was `a` survives under the label `b` |
| `Edit.StrOnSingleColumn` | app.py:113-114 | a str request on a one-column table turns every cell into its text, with no warning |
| `Edit.DropThenStr` | app.py:102-114 | deleting `a` from a table labelled `a`, `b` leaves `b`, and a str request at position 0 then converts `b` |
| `Edit.RetypeUsesPositionsAfterDrop` | app.py:102-114 | after deleting the first of two columns, conversion position 0 converts the column that was second |
| `Combine.ConcatRowCount` | app.py:149 | the combined table has as many rows as the inputs together |
| `Combine.ConcatRowsMembership` | app.py:149 | a row is in `Combine.ConcatRows` of the tables exactly when some input table holds it |
| `Combine.ConcatTwo` | app.py:149 | two tables combine to the first one's rows followed by the second one's |
| `Combine.ConcatKeepsWidth` | app.py:149 | stacking rows of one width keeps that width |
| `Combine.CombineFiles` | app.py:136-149 | an empty submission fails at the first table; otherwise the combination succeeds exactly when every table has the first one's labels and types, and the error carries the index of the first table that differs, the position at which the check loop (app.py:143-146) returns, while the application itself flashes a fixed message (app.py:145); success gives the first table's schema over all rows in order, well formed |
| `MainApp.SameFilterAsApp` | main.py:154-156 | `MainApp.AllowedFile` accepts exactly the names `AppLoad.AllowedFile` accepts |
| `MainApp.ReaderFor` | main.py:160-168 | a reader exists exactly for csv, txt and xlsx: comma CSV, tab-delimited CSV and Excel respectively; every other extension raises the unsupported-type error |
| `MainApp.ProcessFile` | main.py:158-170 | a name without a dot raises; csv is read with commas, txt tab-delimited, xlsx as Excel; any other extension is refused, so success holds exactly for allowed names; main.py defines this dispatcher but never calls it |
| `MainApp.ReadersDifferOnTxtOnly` | main.py:158-168 | the two dispatchers accept the same names and choose the same reader for every one but txt; on a refused extension `load_file` returns no reader while `process_file` raises the unsupported-type error |
| `MainApp.CookieKey` | main.py:144 | an accepted file's cookie key is `file_path_csv` exactly for a csv extension, `file_path_txt` exactly for txt and `file_path_xlsx` exactly for xlsx, case ignored |
| `MainApp.CookieKeyPerExtension` | main.py:144 | two names get the same cookie key exactly when their lowered extensions agree |
| `MainApp.Accepted` | main.py:138-145 | never more names are uploaded than were submitted |
| `MainApp.AcceptedExactly` | main.py:138-145 | the uploaded names are exactly the submitted names that pass the filter, in submission order, each name as often as it was submitted |
| `MainApp.EmptyNameRefused` | main.py:139 | a file with an empty name is refused by the filter too, so the falsiness test adds nothing |
| `MainApp.UploadFiles` | main.py:119-152 | an empty submission or an empty first name redirects to `/` and sets nothing; otherwise every accepted file is saved in order and the cookies are those of the accepted files, with the notice listing them or saying that none was valid |
| `MainApp.CookieKeys` | main.py:144 | `MainApp.Cookies` sets a cookie exactly for the keys of the accepted files |
| `MainApp.CookieFromLastFile` | main.py:144 | each cookie holds the path of the last accepted file with that key |
| `MainApp.CookieKeysBounded` | main.py:144 | at most the three keys `file_path_csv`, `file_path_txt` and `file_path_xlsx` are ever set |
| `MainApp.CookiePointsToSavedFile` | main.py:140-144 | the cookie value is the saved path exactly when the name is not absolute |
| `MainApp.CleanData` | main.py:43-57 | without a text table the route fails; otherwise labels and types are kept and the rows are a subsequence of the input; the null flag leaves no missing cell and, alone, keeps every copy of each complete row; on a table with columns the duplicate flag leaves distinct rows and, alone, keeps them in first-occurrence order; a table without columns and a call with neither flag leave the table unchanged |
| `MainApp.CleanKeepsOrder` | main.py:53-57 | the cleaned rows are a subsequence of the input, in first-occurrence order when only duplicates are removed |
| `MainApp.CleanBothIsEditClean` | main.py:53-57 | with both flags the cleaned table equals the one the app.py edit produces |

## Left out

- The web layer is not modelled: routes, templates, flashed text, redirects
  built with `url_for`, and form parsing. Form fields are passed in as values.
  A request without a `files` field acts as one with an empty list, since both
  produce the same notice and redirect.
- File contents are not modelled. The readers (`read_csv`, `read_excel`), the
  writers (`to_csv`, `file.save`) and parsing are out of scope:
  - a reader is reduced to its `Tables.Format`;
  - the loaded tables are parameters;
  - a file that fails to load or parse is outside the model: `EditFiles`,
    `CombineFiles` and `CleanData` receive tables that were already loaded.
- The HTML previews are not modelled: `head().to_html`, `describe`,
  `isnull().sum()`, the unused `data_info` of `clean_data`, and the
  `preview` routes. The upload route of app.py is not modelled either: it
  only saves, loads and previews.
- Numeric parsing is not modelled. Parsing (`to_numeric(errors='coerce')`), integer and float
  conversion, and `astype(str)` rendering are uninterpreted functions held in
  `Tables.Conversions`.
- `toInt` is unconstrained, so any integer the cast yields for an out-of-range
  float is allowed; None stands for the error `astype(int)` raises on an
  infinite value.
- `Tables.Conversions.parse` may return a missing value as a parsed result,
  which `to_numeric` never does; the model puts no constraint on it.
- `Text.Lower` lowers ASCII letters only; Unicode case mapping is not modelled.
- pandas bookkeeping is not modelled:
  - the row index that `concat` and `drop_duplicates` keep;
  - dtype inference after a concat.

  Cells compare structurally, so `Int(1)` and `Float(1.0)` count as
  different rows, while two missing cells compare equal, as they do in
  `drop_duplicates`.
- `Edit.RetypeColumns` rebinds a table value at each assignment
  `data[label] = …`. It does not model the in-place column write.
- The rename pass writes `columns.values` in place (app.py:99). The model
  assumes a pandas without copy-on-write (the default before pandas 3), in
  which that write succeeds and later label lookups see the new labels. Under
  copy-on-write the array is read-only and the write would raise. The cache of
  the pandas label index is not modelled.
- The per-file loop of app.py uses one fresh copy of the form lists for every
  file, as the code reads them inside the loop.
