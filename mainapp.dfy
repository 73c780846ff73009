/** main.py: the upload handler that stores the accepted files and remembers
    one path per extension in a cookie, the reader dispatch of `process_file`,
    and the two cleaning flags of `clean_data`. */
module MainApp {
  import opened Wrappers
  import opened Text
  import opened Seqs
  import opened Tables
  import opened Frames
  import AppLoad
  import Edit

  const ALLOWED_EXTENSIONS: set<string> := {"csv", "txt", "xlsx"}

  /** The folder the upload handler saves into, and the prefix of cookie values. */
  const UPLOAD_FOLDER: string := "uploads/"

  /** A file is accepted when it has a '.' and its lowercased last extension is allowed. */
  predicate AllowedFile(filename: string)
  {
    '.' in filename && Lower(Extension(filename)) in ALLOWED_EXTENSIONS
  }

  /** The two applications accept exactly the same names. */
  lemma SameFilterAsApp(filename: string)
    ensures AllowedFile(filename) <==> AppLoad.AllowedFile(filename)
  {
  }

  // ---------------------------------------------------------------------------
  // Reader dispatch

  /** The split of a name without a '.' raises IndexError; any other extension
      raises ValueError. */
  datatype ProcessError = NoExtension | UnsupportedType

  /** `process_file`: csv and xlsx as in app.py, but txt is read tab-delimited.
      main.py defines it but never calls it; its routes read files in
      `clean_data`, with the '|' delimiter for txt, and in `/preview`, csv only. */
  function ProcessFile(filename: string): (r: Result<Format, ProcessError>)
    ensures r == Err(NoExtension) <==> '.' !in filename
    ensures r.Ok? <==> AllowedFile(filename)
    ensures r == Ok(Csv(',')) <==> '.' in filename && Lower(Extension(filename)) == "csv"
    ensures r == Ok(Csv('\t')) <==> '.' in filename && Lower(Extension(filename)) == "txt"
    ensures r == Ok(Excel) <==> '.' in filename && Lower(Extension(filename)) == "xlsx"
  {
    if '.' !in filename then Err(NoExtension) else ReaderFor(Lower(Extension(filename)))
  }

  /** The reader `process_file` picks for a lowercased extension. */
  function ReaderFor(ext: string): (r: Result<Format, ProcessError>)
    ensures r.Ok? <==> ext in ALLOWED_EXTENSIONS
    ensures r.Err? ==> r.error == UnsupportedType
    ensures r == Ok(Csv(',')) <==> ext == "csv"
    ensures r == Ok(Csv('\t')) <==> ext == "txt"
    ensures r == Ok(Excel) <==> ext == "xlsx"
  {
    if ext == "csv" then Ok(Csv(','))
    else if ext == "txt" then Ok(Csv('\t'))
    else if ext == "xlsx" then Ok(Excel)
    else Err(UnsupportedType)
  }

  /** The two dispatchers choose the same reader for every accepted extension
      but txt, which app.py reads '|'-delimited and `process_file`
      tab-delimited. On a refused extension app.py returns no reader, while
      `process_file` raises. */
  lemma ReadersDifferOnTxtOnly(filename: string)
    requires '.' in filename
    ensures ProcessFile(filename).Ok? <==> AppLoad.LoadFile(filename).Ok? && AppLoad.LoadFile(filename).value.Some?
    ensures ProcessFile(filename).Ok? && Lower(Extension(filename)) != "txt" ==>
      AppLoad.LoadFile(filename) == Ok(Some(ProcessFile(filename).value))
    ensures Lower(Extension(filename)) == "txt" ==>
      ProcessFile(filename) == Ok(Csv('\t')) && AppLoad.LoadFile(filename) == Ok(Some(Csv('|')))
    ensures !AllowedFile(filename) ==>
      ProcessFile(filename) == Err(UnsupportedType) && AppLoad.LoadFile(filename) == Ok(None)
  {
  }

  // ---------------------------------------------------------------------------
  // Upload handler

  /** The cookie that remembers an accepted file: one name per lowercased extension. */
  function CookieKey(filename: string): (k: string)
    requires '.' in filename
    ensures AllowedFile(filename) ==> k in {"file_path_csv", "file_path_txt", "file_path_xlsx"}
    ensures AllowedFile(filename) ==>
      && (k == "file_path_csv" <==> Lower(Extension(filename)) == "csv")
      && (k == "file_path_txt" <==> Lower(Extension(filename)) == "txt")
      && (k == "file_path_xlsx" <==> Lower(Extension(filename)) == "xlsx")
  {
    var ext := Lower(Extension(filename));
    KeyLiteral("csv");
    KeyLiteral("txt");
    KeyLiteral("xlsx");
    KeyPrefixCancels(ext, "csv");
    KeyPrefixCancels(ext, "txt");
    KeyPrefixCancels(ext, "xlsx");
    COOKIE_PREFIX + ext
  }

  /** The prefix of every cookie key. */
  const COOKIE_PREFIX := "file_path_"

  lemma KeyLiteral(ext: string)
    requires ext in ALLOWED_EXTENSIONS
    ensures COOKIE_PREFIX + ext ==
      if ext == "csv" then "file_path_csv" else if ext == "txt" then "file_path_txt" else "file_path_xlsx"
  {
  }

  /** Keys built from different extensions differ. */
  lemma KeyPrefixCancels(a: string, b: string)
    ensures COOKIE_PREFIX + a == COOKIE_PREFIX + b <==> a == b
  {
    if COOKIE_PREFIX + a == COOKIE_PREFIX + b {
      assert (COOKIE_PREFIX + a)[|COOKIE_PREFIX|..] == a;
      assert (COOKIE_PREFIX + b)[|COOKIE_PREFIX|..] == b;
    }
  }

  /** Two names share a cookie exactly when their lowered extensions agree. */
  lemma CookieKeyPerExtension(f: string, g: string)
    requires '.' in f && '.' in g
    ensures CookieKey(f) == CookieKey(g) <==> Lower(Extension(f)) == Lower(Extension(g))
  {
    KeyPrefixCancels(Lower(Extension(f)), Lower(Extension(g)));
  }

  /** The cookie value: the upload folder and the name as sent. */
  function CookieValue(filename: string): string
  {
    UPLOAD_FOLDER + filename
  }

  /** Where `os.path.join` puts the file: an absolute name discards the folder. */
  function SavePath(filename: string): string
  {
    if |filename| > 0 && filename[0] == '/' then filename else UPLOAD_FOLDER + filename
  }

  /** Where each of `names` is saved. */
  function SavedPaths(names: seq<string>): seq<string>
  {
    seq(|names|, k requires 0 <= k < |names| => SavePath(names[k]))
  }

  lemma SavedPathsAppend(names: seq<string>, name: string)
    ensures SavedPaths(names + [name]) == SavedPaths(names) + [SavePath(name)]
  {
  }

  /** The accepted files, in order. */
  function Accepted(files: seq<string>): (r: seq<string>)
    ensures |r| <= |files|
  {
    Filter(AllowedFile, files)
  }

  /** The accepted files are exactly the submitted names that pass the filter,
      in submission order. */
  lemma AcceptedExactly(files: seq<string>)
    ensures forall f :: f in Accepted(files) <==> f in files && AllowedFile(f)
    ensures IsSubseq(Accepted(files), files)
    ensures forall f :: multiset(Accepted(files))[f] == if AllowedFile(f) then multiset(files)[f] else 0
  {
    FilterIsSubseq(AllowedFile, files);
    FilterCounts(AllowedFile, files);
  }

  /** The cookies as the browser holds them after the response. The response
      carries one `Set-Cookie` per accepted file; for each key the last accepted
      file of that extension wins. */
  function Cookies(files: seq<string>): (c: map<string, string>)
  {
    if files == [] then map[]
    else
      var n := |files| - 1;
      var c := Cookies(files[..n]);
      if AllowedFile(files[n]) then c[CookieKey(files[n]) := CookieValue(files[n])] else c
  }

  /** The message flashed to the user. */
  datatype Notice = NoFilesSelected | Uploaded(names: seq<string>) | NoValidFiles

  /** The response: where it redirects, the files written, the cookies set and the notice. */
  datatype Upload = Upload(redirect: string, saved: seq<string>, cookies: map<string, string>, notice: Notice)

  /** `upload_file` on a POST. A request without a 'files' field behaves as one
      with an empty list. */
  method UploadFiles(files: seq<string>) returns (r: Upload)
    ensures files == [] || files[0] == "" ==> r == Upload("/", [], map[], NoFilesSelected)
    ensures !(files == [] || files[0] == "") ==>
      && r.redirect == "/preview"
      && |r.saved| == |Accepted(files)|
      && (forall k :: 0 <= k < |r.saved| ==> r.saved[k] == SavePath(Accepted(files)[k]))
      && r.cookies == Cookies(files)
      && r.notice == (if Accepted(files) == [] then NoValidFiles else Uploaded(Accepted(files)))
  {
    if |files| == 0 || files[0] == "" {
      return Upload("/", [], map[], NoFilesSelected);
    }
    var saved: seq<string> := [];
    var cookies: map<string, string> := map[];
    var uploaded: seq<string> := [];
    var k := 0;
    while k < |files|
      invariant 0 <= k <= |files|
      invariant uploaded == Accepted(files[..k])
      invariant saved == SavedPaths(uploaded)
      invariant cookies == Cookies(files[..k])
    {
      var file := files[k];
      UploadStep(files, k);
      // An empty name is falsy; the filter refuses it as well.
      EmptyNameRefused();
      if file != "" && AllowedFile(file) {
        SavedPathsAppend(uploaded, file);
        saved := saved + [SavePath(file)];
        cookies := cookies[CookieKey(file) := CookieValue(file)];
        uploaded := uploaded + [file];
      }
      k := k + 1;
    }
    assert files[..k] == files;
    r := Upload("/preview", saved, cookies, if uploaded == [] then NoValidFiles else Uploaded(uploaded));
  }

  /** An empty name has no extension, so the filter refuses it. */
  lemma EmptyNameRefused()
    ensures !AllowedFile("")
  {
    assert '.' !in "";
  }

  /** One more file extends the accepted list and the cookies by that file alone. */
  lemma UploadStep(files: seq<string>, k: nat)
    requires k < |files|
    ensures Accepted(files[..k + 1]) ==
      if AllowedFile(files[k]) then Accepted(files[..k]) + [files[k]] else Accepted(files[..k])
    ensures Cookies(files[..k + 1]) ==
      if AllowedFile(files[k]) then Cookies(files[..k])[CookieKey(files[k]) := CookieValue(files[k])]
      else Cookies(files[..k])
  {
    assert files[..k + 1][..k] == files[..k];
  }

  /** Position `i` holds an accepted file whose cookie key is `key`. */
  ghost predicate KeyedAt(files: seq<string>, key: string, i: int)
  {
    0 <= i < |files| && AllowedFile(files[i]) && CookieKey(files[i]) == key
  }

  /** A cookie is set exactly for the keys of the accepted files. */
  lemma CookieKeys(files: seq<string>, key: string)
    ensures key in Cookies(files) <==> exists i :: KeyedAt(files, key, i)
  {
    if key in Cookies(files) {
      SetCookieHasFile(files, key);
    }
    if exists i :: KeyedAt(files, key, i) {
      var i :| KeyedAt(files, key, i);
      AcceptedFileSetsCookie(files, key, i);
    }
  }

  lemma {:induction false} SetCookieHasFile(files: seq<string>, key: string)
    requires key in Cookies(files)
    ensures exists i :: KeyedAt(files, key, i)
  {
    var n := |files| - 1;
    var front := files[..n];
    if !KeyedAt(files, key, n) {
      assert key in Cookies(front);
      SetCookieHasFile(front, key);
      var i :| KeyedAt(front, key, i);
      KeyedAtFront(files, key, i);
    }
  }

  lemma {:induction false} AcceptedFileSetsCookie(files: seq<string>, key: string, i: int)
    requires KeyedAt(files, key, i)
    ensures key in Cookies(files)
  {
    var n := |files| - 1;
    if i < n {
      KeyedAtFront(files, key, i);
      AcceptedFileSetsCookie(files[..n], key, i);
    }
  }

  lemma KeyedAtFront(files: seq<string>, key: string, i: int)
    requires 0 <= i < |files| - 1
    ensures KeyedAt(files, key, i) <==> KeyedAt(files[..|files| - 1], key, i)
  {
    assert files[..|files| - 1][i] == files[i];
  }

  /** Position `i` holds the last accepted file whose cookie key is `key`. */
  ghost predicate LastWithKey(files: seq<string>, key: string, i: int)
  {
    LastWhere(files, KeySetter(key), i)
  }

  /** The file is accepted and its cookie key is `key`. */
  predicate SetsKey(file: string, key: string)
  {
    AllowedFile(file) && CookieKey(file) == key
  }

  /** `SetsKey` for a fixed key, as a test on names. */
  function KeySetter(key: string): string -> bool
  {
    file => SetsKey(file, key)
  }

  /** Each cookie holds the path of the last accepted file with its key. */
  lemma {:induction false} CookieFromLastFile(files: seq<string>, key: string)
    requires key in Cookies(files)
    ensures exists i :: LastWithKey(files, key, i) && Cookies(files)[key] == CookieValue(files[i])
  {
    var n := |files| - 1;
    var front := files[..n];
    if AllowedFile(files[n]) && CookieKey(files[n]) == key {
      assert LastWithKey(files, key, n);
    } else {
      assert key in Cookies(front);
      CookieFromLastFile(front, key);
      var i :| LastWithKey(front, key, i) && Cookies(front)[key] == CookieValue(front[i]);
      LastWithKeyExtends(files, key, i);
    }
  }

  lemma LastWithKeyExtends(files: seq<string>, key: string, i: int)
    requires |files| > 0
    requires LastWithKey(files[..|files| - 1], key, i)
    requires !SetsKey(files[|files| - 1], key)
    ensures LastWithKey(files, key, i) && files[i] == files[..|files| - 1][i]
  {
    assert !KeySetter(key)(files[|files| - 1]);
    LastWhereExtends(files, KeySetter(key), i);
  }

  /** Only three cookies can ever be set, whatever the case of the extensions. */
  lemma {:induction false} CookieKeysBounded(files: seq<string>)
    ensures Cookies(files).Keys <= {"file_path_csv", "file_path_txt", "file_path_xlsx"}
  {
    if files != [] {
      CookieKeysBounded(files[..|files| - 1]);
    }
  }

  /** The cookie points at the saved file unless the name is absolute. */
  lemma CookiePointsToSavedFile(filename: string)
    ensures CookieValue(filename) == SavePath(filename) <==> !(|filename| > 0 && filename[0] == '/')
  {
    if |filename| > 0 && filename[0] == '/' {
      assert |CookieValue(filename)| != |filename|;
    }
  }

  // ---------------------------------------------------------------------------
  // Cleaning route

  /** With no txt table loaded, the handler's first use of it raises. */
  datatype CleanError = NoTextFile

  /** `clean_data`: missing-value rows are removed first, then repeated rows,
      each only when its flag is in the form. `txt` is the table of the txt
      cookie's file, which the handler reads '|'-delimited; the read itself is
      not part of this model. */
  function CleanData(txt: Option<Table>, removeNulls: bool, removeDuplicates: bool): (r: Result<Table, CleanError>)
    requires txt.Some? ==> Wf(txt.value)
    ensures r.Err? <==> txt.None?
    ensures r.Ok? ==> Wf(r.value) && r.value.names == txt.value.names && r.value.types == txt.value.types
    ensures r.Ok? ==> forall row :: row in r.value.rows ==> row in txt.value.rows
    ensures r.Ok? && removeNulls ==> forall i :: 0 <= i < |r.value.rows| ==> NoNull(r.value.rows[i])
    ensures r.Ok? && removeDuplicates && |txt.value.names| > 0 ==> Distinct(r.value.rows)
    ensures r.Ok? && |txt.value.names| == 0 ==> r.value == txt.value
    ensures r.Ok? && !removeNulls && !removeDuplicates ==> r.value == txt.value
    ensures r.Ok? ==> forall row :: row in txt.value.rows && (removeNulls ==> NoNull(row)) ==> row in r.value.rows
    ensures r.Ok? ==> IsSubseq(r.value.rows, txt.value.rows)
    ensures r.Ok? && removeNulls && !removeDuplicates ==>
      forall row :: multiset(r.value.rows)[row] == if NoNull(row) then multiset(txt.value.rows)[row] else 0
    ensures r.Ok? && removeDuplicates && !removeNulls && |txt.value.names| > 0 ==>
      OrderedByFirstOccurrence(r.value.rows, txt.value.rows)
  {
    match txt
    case None => Err(NoTextFile)
    case Some(t) =>
      var a := if removeNulls then DropNa(t) else t;
      var b := if removeDuplicates then DropDuplicates(a) else a;
      assert forall i :: 0 <= i < |b.rows| ==> b.rows[i] in a.rows;
      CleanKeepsOrder(t, a, b, removeNulls, removeDuplicates);
      Ok(b)
  }

  /** The two cleaning passes keep the text table's row order; duplicate removal
      alone keeps first occurrences. */
  lemma CleanKeepsOrder(t: Table, a: Table, b: Table, removeNulls: bool, removeDuplicates: bool)
    requires Wf(t)
    requires a == if removeNulls then DropNa(t) else t
    requires Wf(a) && b == if removeDuplicates then DropDuplicates(a) else a
    ensures IsSubseq(b.rows, t.rows)
    ensures removeDuplicates && !removeNulls && |t.names| > 0 ==> OrderedByFirstOccurrence(b.rows, t.rows)
  {
    SubseqReflexive(t.rows);
    if removeDuplicates {
      SubseqTransitive(b.rows, a.rows, t.rows);
      if !removeNulls && |t.names| > 0 {
        DedupKeepsFirstOccurrences(t.rows);
      }
    }
  }

  /** With both flags set this is the cleaner of app.py's edit, though that
      one removes repeated rows before missing values. */
  lemma CleanBothIsEditClean(t: Table)
    requires Wf(t)
    ensures CleanData(Some(t), true, true) == Ok(Edit.CleanRows(t))
  {
    if |t.names| > 0 {
      DedupFilterCommute(NoNull, t.rows);
    }
  }
}
