/** The abstract stand-in for a pandas DataFrame: column labels, one dtype tag
    per column, and rows of cell values, every row as wide as the label list. */
module Tables {
  import opened Wrappers

  /** A cell. `Null` is pandas' missing value (NaN / None). */
  datatype Value = Null | Int(i: int) | Float(x: real) | Str(s: string)

  /** The dtype tags the pipeline produces or compares. */
  datatype DType = Int64 | Float64 | Object | Bool | Other(name: string)

  type Row = seq<Value>

  datatype Table = Table(names: seq<string>, types: seq<DType>, rows: seq<Row>)

  predicate Wf(t: Table)
  {
    && |t.types| == |t.names|
    && forall i :: 0 <= i < |t.rows| ==> |t.rows[i]| == |t.names|
  }

  predicate NoNull(r: Row)
  {
    Null !in r
  }

  /** How a file is parsed: `pd.read_csv` with a delimiter, or `pd.read_excel`. */
  datatype Format = Csv(delimiter: char) | Excel

  /** The library conversions the retype pass relies on, supplied by the caller.
      `parse` is `pd.to_numeric(..., errors='coerce')` on one cell (None: the
      cell does not parse and becomes NaN); `toInt` is `astype(int)` on one
      parsed number and `toFloat` is `astype(float)` (None: the cast raises);
      `show` is `astype(str)`. A parse result `Some(Null)` has no pandas
      counterpart; the casts treat it as any other parsed value. */
  datatype Conversions = Conversions(
    parse: Value -> Option<Value>,
    toInt: Value -> Option<int>,
    toFloat: Value -> Option<real>,
    show: Value -> string)
}
