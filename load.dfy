/** app.py's extension filter and loader dispatch. */
module AppLoad {
  import opened Wrappers
  import opened Text
  import opened Tables

  const ALLOWED_EXTENSIONS: set<string> := {"csv", "xlsx", "txt"}

  /** A file is accepted when it has a '.' and its lowercased last extension is allowed. */
  predicate AllowedFile(filename: string)
  {
    '.' in filename && Lower(Extension(filename)) in ALLOWED_EXTENSIONS
  }

  /** `rsplit('.', 1)[1]` on a path without a '.' raises IndexError. */
  datatype LoadError = NoExtension

  /** The reader `load_file` picks for a lowercased extension. */
  function ReaderFor(ext: string): (r: Option<Format>)
    ensures r.Some? <==> ext in ALLOWED_EXTENSIONS
    ensures r == Some(Csv(',')) <==> ext == "csv"
    ensures r == Some(Excel) <==> ext == "xlsx"
    ensures r == Some(Csv('|')) <==> ext == "txt"
  {
    if ext == "csv" then Some(Csv(','))
    else if ext == "xlsx" then Some(Excel)
    else if ext == "txt" then Some(Csv('|'))
    else None
  }

  /** `load_file`: the reader chosen by the lowercased last extension, and None
      for any other extension. */
  function LoadFile(path: string): (r: Result<Option<Format>, LoadError>)
    ensures r.Err? <==> '.' !in path
    ensures r.Ok? ==> (r.value.Some? <==> AllowedFile(path))
    ensures r == Ok(Some(Csv(','))) <==> '.' in path && Lower(Extension(path)) == "csv"
    ensures r == Ok(Some(Excel)) <==> '.' in path && Lower(Extension(path)) == "xlsx"
    ensures r == Ok(Some(Csv('|'))) <==> '.' in path && Lower(Extension(path)) == "txt"
  {
    if '.' !in path then Err(NoExtension) else Ok(ReaderFor(Lower(Extension(path))))
  }

  /** For a name split at its last dot, the filter looks at the right part only. */
  lemma AllowedFileOfSplit(stem: string, ext: string)
    requires '.' !in ext
    ensures AllowedFile(stem + "." + ext) <==> Lower(ext) in ALLOWED_EXTENSIONS
  {
    ExtensionOfSplit(stem, ext);
  }

  /** A name ending in a bare dot has the empty extension and is refused. */
  lemma TrailingDotRefused()
    ensures !AllowedFile("a.")
  {
    ExtensionOfSplit("a", "");
  }

  lemma LowerCsv()
    ensures Lower("CSV") == "csv"
  {
    assert Lower("V") == "v";
    assert Lower("SV") == "sv";
  }

  /** Only the text after the last dot counts, after lowering: the inner `txt`
      does not choose the reader. */
  lemma LastExtensionDecides()
    ensures AllowedFile("a.txt.CSV") && LoadFile("a.txt.CSV") == Ok(Some(Csv(',')))
  {
    assert "a.txt" + "." + "CSV" == "a.txt.CSV";
    ExtensionOfSplit("a.txt", "CSV");
    LowerCsv();
  }

  /** An allowed inner extension does not make a name acceptable. */
  lemma InnerExtensionIgnored()
    ensures !AllowedFile("a.csv.gz")
  {
    assert "a.csv" + "." + "gz" == "a.csv.gz";
    ExtensionOfSplit("a.csv", "gz");
    assert Lower("gz") == "gz";
  }
}
