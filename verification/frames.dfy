/** The tabular data model: a cell value is an integer or a string, a row
    maps column names to values, and a table is an ordered list of column
    names, the set of columns whose dtype is "object" (string-valued), and a
    sequence of rows. */
module Frames {
  import opened Seqs

  datatype Value = Int(i: int) | Str(s: string)

  type Row = map<string, Value>

  /** `text` holds the columns pandas types as `object`. A column with no
      rows can be `object` without holding any string, so the dtype is kept
      apart from the values. */
  datatype Table = Table(columns: seq<string>, text: set<string>, rows: seq<Row>)

  /** Why cleaning or prediction stops. `MissingColumn` is the error pandas
      raises on a column the code names (a KeyError, or the query's
      undefined-name error for `G3`); `TextTarget` is the TypeError of comparing
      a string-valued `G3` with 0; `DuplicateColumns` is two output columns
      getting the same label; `NothingToEncode` is the ValueError of
      `get_dummies` on a selection of no columns, whose `concat` receives
      nothing; `NoSamples` and `NoFeatures` are the scaler's ValueError on a
      frame with no rows or no columns. */
  datatype Error =
    | MissingColumn(name: string) | TextTarget | DuplicateColumns | NothingToEncode
    | NoSamples | NoFeatures

  datatype Result<T> = Ok(value: T) | Err(error: Error)

  function ColumnSet(t: Table): set<string> {
    set c | c in t.columns
  }

  /** Column names are unique, every row has exactly the table's columns,
      and a column that is not string-typed holds integers only. */
  predicate WellFormed(t: Table) {
    && Distinct(t.columns)
    && t.text <= ColumnSet(t)
    && (forall i :: 0 <= i < |t.rows| ==> t.rows[i].Keys == ColumnSet(t))
    && (forall i, c :: 0 <= i < |t.rows| && c in t.columns && c !in t.text ==> t.rows[i][c].Int?)
  }

  function DigitChar(d: nat): (r: char)
    requires d < 10
    ensures '0' <= r <= '9'
  {
    "0123456789"[d]
  }

  /** Decimal digits of `n`, most significant first. */
  function Digits(n: nat): (r: string)
    ensures |r| > 0
    ensures forall k :: 0 <= k < |r| ==> '0' <= r[k] <= '9'
    decreases n
  {
    if n < 10 then [DigitChar(n)] else Digits(n / 10) + [DigitChar(n % 10)]
  }

  /** How a category is written into an indicator column's name: a string
      as itself, an integer in decimal (Python's `str`). */
  function Label(v: Value): string {
    match v
    case Str(s) => s
    case Int(i) => if i < 0 then "-" + Digits(-i) else Digits(i)
  }

  /** The name `get_dummies` gives the indicator of `category` in `field`:
      `<field>_<category>`, for example `Mjob_teacher`. */
  function IndicatorName(field: string, category: Value): string {
    field + "_" + Label(category)
  }

  /** Every indicator name contains an underscore right after its field. */
  lemma IndicatorNameHasUnderscore(field: string, category: Value)
    ensures |IndicatorName(field, category)| > |field|
    ensures IndicatorName(field, category)[|field|] == '_'
    ensures IndicatorName(field, category)[..|field|] == field
  {
  }

  /** A name without an underscore is never an indicator name. */
  lemma NotAnIndicator(n: string, f: string, v: Value)
    requires '_' !in n
    ensures n != IndicatorName(f, v)
  {
    IndicatorNameHasUnderscore(f, v);
    assert IndicatorName(f, v)[|f|] in IndicatorName(f, v);
  }

  /** Two indicator names over underscore-free fields agree only when the
      fields agree and the labels agree. */
  lemma {:induction false} IndicatorNameSplit(f: string, g: string, a: Value, b: Value)
    requires '_' !in f && '_' !in g
    requires IndicatorName(f, a) == IndicatorName(g, b)
    ensures f == g && Label(a) == Label(b)
  {
    var n := IndicatorName(f, a);
    IndicatorNameHasUnderscore(f, a);
    IndicatorNameHasUnderscore(g, b);
    if |f| != |g| {
      assert false;
    }
    assert f == n[..|f|] == g;
    assert Label(a) == n[|f| + 1..] == Label(b);
  }
}
