/** `load_and_clean`: the row filter, the leakage drop, the fixed 0/1
    recodings, the rescaling of the final grade and the one-hot expansion,
    applied to an already-parsed table. */
module Cleaning {
  import opened Seqs
  import opened Frames
  import opened OneHot

  /** The final grade, the prediction target. */
  const Target: string := "G3"

  /** The intermediate-period grades, dropped to avoid leakage. */
  const Leaky: set<string> := {"G1", "G2"}

  const YesNoColumns: seq<string> :=
    ["schoolsup", "famsup", "paid", "activities", "nursery", "higher", "internet", "romantic"]

  /** Every column recoded to 0/1, in the order main.py recodes them. */
  const RecodedColumns: seq<string> :=
    YesNoColumns + ["sex", "address", "famsize", "Pstatus", "school"]

  /** The columns main.py names after `G3`, in the order it first touches
      them: the leakage drop, then the recodings. */
  const CheckOrder: seq<string> := ["G1", "G2"] + RecodedColumns

  /** Facts about the literal column lists that the proofs below rely on. */
  lemma RecodedColumnsFacts()
    ensures Distinct(RecodedColumns)
    ensures Target !in RecodedColumns
    ensures forall c :: c in Leaky ==> c !in RecodedColumns && c != Target
  {
  }

  /** No column main.py names contains an underscore. */
  lemma RecodedColumnNames()
    ensures forall c :: c in RecodedColumns ==> '_' !in c
    ensures '_' !in Target && forall c :: c in Leaky ==> '_' !in c
  {
  }

  /** No recoding table sends both of its labels to the same code. */
  lemma LabelsDiffer(c: string)
    ensures ZeroLabel(c) != OneLabel(c)
  {
  }

  /** The label each recoded column maps to 0. */
  function ZeroLabel(c: string): string {
    if c == "sex" then "F"
    else if c == "address" then "U"
    else if c == "famsize" then "LE3"
    else if c == "Pstatus" then "T"
    else if c == "school" then "GP"
    else "no"
  }

  /** The label each recoded column maps to 1. */
  function OneLabel(c: string): string {
    if c == "sex" then "M"
    else if c == "address" then "R"
    else if c == "famsize" then "GT3"
    else if c == "Pstatus" then "A"
    else if c == "school" then "MS"
    else "yes"
  }

  /** The replacement table of a column; empty for columns main.py does not
      recode. */
  function Codes(c: string): map<string, int> {
    if c in RecodedColumns then map[ZeroLabel(c) := 0, OneLabel(c) := 1] else map[]
  }

  /** pandas `Series.replace` with a dict: a string found in the table
      becomes its code, anything else passes through untouched. */
  function Recode(v: Value, codes: map<string, int>): Value {
    if v.Str? && v.s in codes then Int(codes[v.s]) else v
  }

  /** A row survives `df.query('G3 > 0')`. */
  predicate Passes(r: Row) {
    Target in r && r[Target].Int? && r[Target].i > 0
  }

  function KeepPassing(t: Table): (r: Table)
    requires WellFormed(t)
    ensures WellFormed(r) && r.columns == t.columns && r.text == t.text
    ensures r.rows == Filter(t.rows, Passes)
  {
    var rows := Filter(t.rows, Passes);
    SubRowsWellFormed(t, rows);
    Table(t.columns, t.text, rows)
  }

  /** A table keeps its shape when some of its rows are left out. */
  lemma SubRowsWellFormed(t: Table, rows: seq<Row>)
    requires WellFormed(t)
    requires forall row :: row in rows ==> row in t.rows
    ensures WellFormed(Table(t.columns, t.text, rows))
  {
    forall i | 0 <= i < |rows|
      ensures rows[i].Keys == ColumnSet(t)
      ensures forall c :: c in t.columns && c !in t.text ==> rows[i][c].Int?
    {
      assert rows[i] in rows;
      var j :| 0 <= j < |t.rows| && t.rows[j] == rows[i];
    }
  }

  /** The rows of the raw table that survive the grade filter. */
  function Survivors(raw: Table): (r: seq<Row>)
    requires WellFormed(raw)
    ensures forall i :: 0 <= i < |r| ==> r[i].Keys == ColumnSet(raw) && Passes(r[i])
  {
    var kept := KeepPassing(raw);
    assert forall i :: 0 <= i < |kept.rows| ==> kept.rows[i] in kept.rows;
    kept.rows
  }

  /** The survivors are exactly the rows whose `G3` is an integer above 0,
      each as often as in the raw table, in their original order. */
  lemma SurvivorsFiltered(raw: Table)
    requires WellFormed(raw)
    ensures forall row :: row in Survivors(raw) <==> row in raw.rows && Passes(row)
    ensures forall row :: multiset(Survivors(raw))[row] == if Passes(row) then multiset(raw.rows)[row] else 0
    ensures Subsequence(Survivors(raw), raw.rows)
  {
    assert Survivors(raw) == Filter(raw.rows, Passes);
  }

  /** `df.drop(gone, axis=1)` for columns known to be present. */
  function DropColumns(t: Table, gone: set<string>): (r: Table)
    requires WellFormed(t)
    ensures WellFormed(r)
    ensures r.columns == Without(t.columns, gone) && r.text == t.text - gone
    ensures |r.rows| == |t.rows| && forall i :: 0 <= i < |t.rows| ==> r.rows[i] == t.rows[i] - gone
  {
    var cols := Without(t.columns, gone);
    assert ColumnSet(Table(cols, {}, [])) == ColumnSet(t) - gone;
    Table(cols, t.text - gone, seq(|t.rows|, i requires 0 <= i < |t.rows| => t.rows[i] - gone))
  }

  /** After recoding, column `c` holds integers only, in at least one row:
      the case in which pandas turns a string-typed column numeric. */
  predicate BecomesNumeric(rows: seq<Row>, c: string)
    requires HasColumn(rows, c)
  {
    |rows| > 0 && forall i :: 0 <= i < |rows| ==> Recode(rows[i][c], Codes(c)).Int?
  }

  /** `df[c] = df[c].replace(Codes(c))`. Under pandas 2 the column stops
      being string-typed exactly when it has rows and every value is now an
      integer; a column with a leftover string stays string-typed. */
  function RecodeColumn(t: Table, c: string): (r: Table)
    requires WellFormed(t) && c in t.columns
    ensures WellFormed(r) && r.columns == t.columns && |r.rows| == |t.rows|
    ensures forall i :: 0 <= i < |t.rows| ==> r.rows[i] == t.rows[i][c := Recode(t.rows[i][c], Codes(c))]
    ensures HasColumn(t.rows, c)
    ensures forall d :: d in r.text <==> d in t.text && !(d == c && BecomesNumeric(t.rows, c))
  {
    var rows := seq(|t.rows|, i requires 0 <= i < |t.rows| => t.rows[i][c := Recode(t.rows[i][c], Codes(c))]);
    var numeric := |rows| > 0 && forall i :: 0 <= i < |rows| ==> rows[i][c].Int?;
    Table(t.columns, if numeric then t.text - {c} else t.text, rows)
  }

  /** `r` has the columns and the number of rows of `t`. */
  predicate SameShape(t: Table, r: Table) {
    WellFormed(t) && WellFormed(r) && r.columns == t.columns && |r.rows| == |t.rows|
  }

  /** The cells of `r` are those of `t` with the columns `cols` recoded. */
  predicate RecodedValues(t: Table, r: Table, cols: seq<string>)
    requires SameShape(t, r)
  {
    forall i, c :: 0 <= i < |t.rows| && c in t.columns ==>
      r.rows[i][c] == if c in cols then Recode(t.rows[i][c], Codes(c)) else t.rows[i][c]
  }

  /** The string-typed columns of `r` are those of `t`, less the recoded
      columns that became numeric. */
  predicate RecodedTypes(t: Table, r: Table, cols: seq<string>)
    requires SameShape(t, r)
  {
    forall c :: c in t.columns ==>
      (c in r.text <==> c in t.text && !(c in cols && BecomesNumeric(t.rows, c)))
  }

  lemma RecodeIdempotent(v: Value, c: string)
    ensures Recode(Recode(v, Codes(c)), Codes(c)) == Recode(v, Codes(c))
  {
  }

  lemma RecodedCell(t: Table, r: Table, cols: seq<string>, i: int, c: string)
    requires SameShape(t, r) && RecodedValues(t, r, cols)
    requires 0 <= i < |t.rows| && c in t.columns
    ensures r.rows[i][c] == if c in cols then Recode(t.rows[i][c], Codes(c)) else t.rows[i][c]
  {
  }

  lemma RecodedType(t: Table, r: Table, cols: seq<string>, c: string)
    requires SameShape(t, r) && RecodedTypes(t, r, cols)
    requires c in t.columns
    ensures HasColumn(t.rows, c)
    ensures c in r.text <==> c in t.text && !(c in cols && BecomesNumeric(t.rows, c))
  {
  }

  /** Recoding `cols[0]` and then the rest recodes every cell of `cols`. */
  lemma {:induction false} RecodeStepValues(t: Table, t1: Table, r: Table, cols: seq<string>)
    requires cols != [] && Distinct(cols) && cols[0] in t.columns
    requires WellFormed(t) && t1 == RecodeColumn(t, cols[0])
    requires SameShape(t1, r) && RecodedValues(t1, r, cols[1..])
    ensures SameShape(t, r) && RecodedValues(t, r, cols)
  {
    forall i, c | 0 <= i < |t.rows| && c in t.columns
      ensures r.rows[i][c] == if c in cols then Recode(t.rows[i][c], Codes(c)) else t.rows[i][c]
    {
      RecodeStepCell(t, t1, r, cols, i, c);
    }
  }

  lemma RecodeStepCell(t: Table, t1: Table, r: Table, cols: seq<string>, i: int, c: string)
    requires cols != [] && Distinct(cols) && cols[0] in t.columns
    requires WellFormed(t) && t1 == RecodeColumn(t, cols[0])
    requires SameShape(t1, r) && RecodedValues(t1, r, cols[1..])
    requires 0 <= i < |t.rows| && c in t.columns
    ensures r.rows[i][c] == if c in cols then Recode(t.rows[i][c], Codes(c)) else t.rows[i][c]
  {
    var c0 := cols[0];
    assert forall d :: d in cols <==> d == c0 || d in cols[1..];
    assert c0 !in cols[1..];
    RecodedCell(t1, r, cols[1..], i, c);
    assert t1.rows[i] == t.rows[i][c0 := Recode(t.rows[i][c0], Codes(c0))];
    RecodeIdempotent(t.rows[i][c], c);
  }

  /** Recoding `cols[0]` and then the rest leaves the dtypes `RecodedTypes`
      describes. */
  lemma {:induction false} RecodeStepTypes(t: Table, t1: Table, r: Table, cols: seq<string>)
    requires cols != [] && Distinct(cols) && cols[0] in t.columns
    requires WellFormed(t) && t1 == RecodeColumn(t, cols[0])
    requires SameShape(t1, r) && RecodedTypes(t1, r, cols[1..])
    ensures SameShape(t, r) && RecodedTypes(t, r, cols)
  {
    forall c | c in t.columns
      ensures c in r.text <==> c in t.text && !(c in cols && BecomesNumeric(t.rows, c))
    {
      RecodeStepType(t, t1, r, cols, c);
    }
  }

  lemma RecodeStepType(t: Table, t1: Table, r: Table, cols: seq<string>, c: string)
    requires cols != [] && Distinct(cols) && cols[0] in t.columns
    requires WellFormed(t) && t1 == RecodeColumn(t, cols[0])
    requires SameShape(t1, r) && RecodedTypes(t1, r, cols[1..])
    requires c in t.columns
    ensures HasColumn(t.rows, c)
    ensures c in r.text <==> c in t.text && !(c in cols && BecomesNumeric(t.rows, c))
  {
    var c0 := cols[0];
    assert forall d :: d in cols <==> d == c0 || d in cols[1..];
    assert c0 !in cols[1..];
    RecodedType(t1, r, cols[1..], c);
    if c != c0 {
      assert forall i :: 0 <= i < |t.rows| ==> t1.rows[i][c] == t.rows[i][c];
      assert BecomesNumeric(t1.rows, c) == BecomesNumeric(t.rows, c);
    }
  }

  /** Recodes `cols` one after the other. */
  function RecodeAll(t: Table, cols: seq<string>): (r: Table)
    requires WellFormed(t) && Distinct(cols)
    requires forall c :: c in cols ==> c in t.columns
    ensures SameShape(t, r)
    ensures RecodedValues(t, r, cols) && RecodedTypes(t, r, cols)
    decreases |cols|
  {
    if cols == [] then t
    else
      var t1 := RecodeColumn(t, cols[0]);
      assert forall c :: c in cols[1..] ==> c in cols;
      var r := RecodeAll(t1, cols[1..]);
      RecodeStepValues(t, t1, r, cols);
      RecodeStepTypes(t, t1, r, cols);
      r
  }

  /** main.py:66, `G3 * 100 / 20`: the 0-20 grade as a percentage. The
      division is exact, so the float pandas stores is an integer. */
  function ScaleGrade(g: int): (r: int)
    ensures r * 20 == g * 100
    ensures 1 <= g <= 20 ==> 5 <= r <= 100
  {
    g * 100 / 20
  }

  function RescaleValue(v: Value): Value {
    if v.Int? then Int(ScaleGrade(v.i)) else v
  }

  function RescaleTarget(t: Table): (r: Table)
    requires WellFormed(t) && Target in t.columns
    ensures WellFormed(r) && r.columns == t.columns && r.text == t.text && |r.rows| == |t.rows|
    ensures forall i :: 0 <= i < |t.rows| ==> r.rows[i] == t.rows[i][Target := RescaleValue(t.rows[i][Target])]
  {
    Table(t.columns, t.text,
      seq(|t.rows|, i requires 0 <= i < |t.rows| => t.rows[i][Target := RescaleValue(t.rows[i][Target])]))
  }

  /** What the cleaning steps before the one-hot expansion do to one cell of
      column `c`. */
  function CleanValue(c: string, v: Value): Value {
    if c == Target then RescaleValue(v) else Recode(v, Codes(c))
  }

  /** The columns main.py names and therefore needs. */
  predicate HasRequiredColumns(t: Table) {
    && Target in t.columns
    && (forall c :: c in Leaky ==> c in t.columns)
    && (forall c :: c in RecodedColumns ==> c in t.columns)
  }

  /** Filter, drop, recode and rescale: main.py:46-66. Row `i` of the result
      is survivor `i` with every cell cleaned by `CleanValue`. */
  function Prepare(raw: Table): (r: Table)
    requires WellFormed(raw) && HasRequiredColumns(raw)
    ensures WellFormed(r)
    ensures r.columns == Without(raw.columns, Leaky)
    ensures |r.rows| == |Survivors(raw)|
    ensures forall c :: c in r.columns ==> HasColumn(Survivors(raw), c)
    ensures forall i, c :: 0 <= i < |r.rows| && c in r.columns ==>
      r.rows[i][c] == CleanValue(c, Survivors(raw)[i][c])
    ensures forall c :: c in r.columns ==>
      (c in r.text <==> c in raw.text && !(c in RecodedColumns && BecomesNumeric(Survivors(raw), c)))
  {
    RecodedColumnsFacts();
    var kept := KeepPassing(raw);
    var dropped := DropColumns(kept, Leaky);
    var recoded := RecodeAll(dropped, RecodedColumns);
    var r := RescaleTarget(recoded);
    PrepareSteps(raw, kept, dropped, recoded, r);
    r
  }

  lemma PrepareSteps(raw: Table, kept: Table, dropped: Table, recoded: Table, r: Table)
    requires WellFormed(raw) && HasRequiredColumns(raw)
    requires kept == KeepPassing(raw) && dropped == DropColumns(kept, Leaky)
    requires SameShape(dropped, recoded)
    requires RecodedValues(dropped, recoded, RecodedColumns) && RecodedTypes(dropped, recoded, RecodedColumns)
    requires Target in recoded.columns && r == RescaleTarget(recoded)
    ensures forall c :: c in r.columns ==> HasColumn(Survivors(raw), c)
    ensures forall i, c :: 0 <= i < |r.rows| && c in r.columns ==>
      r.rows[i][c] == CleanValue(c, Survivors(raw)[i][c])
    ensures forall c :: c in r.columns ==>
      (c in r.text <==> c in raw.text && !(c in RecodedColumns && BecomesNumeric(Survivors(raw), c)))
  {
    forall c | c in r.columns
      ensures HasColumn(Survivors(raw), c)
      ensures forall i :: 0 <= i < |r.rows| ==> r.rows[i][c] == CleanValue(c, Survivors(raw)[i][c])
      ensures c in r.text <==> c in raw.text && !(c in RecodedColumns && BecomesNumeric(Survivors(raw), c))
    {
      PrepareColumn(raw, kept, dropped, recoded, r, c);
      forall i | 0 <= i < |r.rows|
        ensures r.rows[i][c] == CleanValue(c, Survivors(raw)[i][c])
      {
        PrepareCell(raw, kept, dropped, recoded, r, i, c);
      }
    }
  }

  /** One column after the first four steps: still present in every
      survivor, and string-typed as `Prepare` says. */
  lemma PrepareColumn(raw: Table, kept: Table, dropped: Table, recoded: Table, r: Table, c: string)
    requires WellFormed(raw) && HasRequiredColumns(raw)
    requires kept == KeepPassing(raw) && dropped == DropColumns(kept, Leaky)
    requires SameShape(dropped, recoded) && RecodedTypes(dropped, recoded, RecodedColumns)
    requires Target in recoded.columns && r == RescaleTarget(recoded)
    requires c in r.columns
    ensures HasColumn(Survivors(raw), c)
    ensures c in r.text <==> c in raw.text && !(c in RecodedColumns && BecomesNumeric(Survivors(raw), c))
  {
    DroppedColumn(raw, kept, dropped, c);
    RecodedType(dropped, recoded, RecodedColumns, c);
    if c in RecodedColumns {
      assert BecomesNumeric(dropped.rows, c) == BecomesNumeric(Survivors(raw), c);
    }
  }

  /** A column that survives the drop holds the survivors' values. */
  lemma DroppedColumn(raw: Table, kept: Table, dropped: Table, c: string)
    requires WellFormed(raw)
    requires kept == KeepPassing(raw) && dropped == DropColumns(kept, Leaky)
    requires c in dropped.columns
    ensures c in raw.columns && (c in dropped.text <==> c in raw.text)
    ensures HasColumn(Survivors(raw), c) && HasColumn(dropped.rows, c)
    ensures |dropped.rows| == |Survivors(raw)|
    ensures forall i :: 0 <= i < |dropped.rows| ==> dropped.rows[i][c] == Survivors(raw)[i][c]
  {
    assert kept.rows == Survivors(raw);
    assert c !in Leaky;
  }

  /** One cell after the first four steps is the survivor's cell cleaned. */
  lemma PrepareCell(raw: Table, kept: Table, dropped: Table, recoded: Table, r: Table, i: int, c: string)
    requires WellFormed(raw) && HasRequiredColumns(raw)
    requires kept == KeepPassing(raw) && dropped == DropColumns(kept, Leaky)
    requires SameShape(dropped, recoded) && RecodedValues(dropped, recoded, RecodedColumns)
    requires Target in recoded.columns && r == RescaleTarget(recoded)
    requires 0 <= i < |r.rows| && c in r.columns
    ensures c in Survivors(raw)[i]
    ensures r.rows[i][c] == CleanValue(c, Survivors(raw)[i][c])
  {
    var surv := Survivors(raw);
    assert kept.rows == surv;
    assert c !in Leaky;
    assert dropped.rows[i][c] == surv[i][c];
    RecodedCell(dropped, recoded, RecodedColumns, i, c);
    assert r.rows[i] == recoded.rows[i][Target := RescaleValue(recoded.rows[i][Target])];
    PrepareValue(surv[i][c], dropped.rows[i][c], recoded.rows[i][c], r.rows[i][c], c);
  }

  lemma PrepareValue(v: Value, dv: Value, rv: Value, out: Value, c: string)
    requires dv == v
    requires rv == if c in RecodedColumns then Recode(dv, Codes(c)) else dv
    requires out == if c == Target then RescaleValue(rv) else rv
    ensures out == CleanValue(c, v)
  {
    RecodedColumnsFacts();
  }

  /** `n` is the first entry of `needed` that `cols` lacks. */
  predicate FirstAbsent(n: string, needed: seq<string>, cols: seq<string>) {
    exists k :: 0 <= k < |needed| && needed[k] == n && n !in cols && forall j :: 0 <= j < k ==> needed[j] in cols
  }

  /** The raw columns that main.py names but the table lacks, in the order
      main.py touches them; the first is the one pandas raises on. */
  function Missing(cols: seq<string>, needed: seq<string>): (r: seq<string>)
    ensures forall c :: c in r <==> c in needed && c !in cols
    ensures r != [] ==> FirstAbsent(r[0], needed, cols)
  {
    if needed == [] then []
    else
      var rest := Missing(cols, needed[1..]);
      assert forall c :: c in needed <==> c == needed[0] || c in needed[1..];
      if needed[0] in cols then
        assert rest != [] ==> FirstAbsent(rest[0], needed, cols) by {
          if rest != [] {
            var k :| 0 <= k < |needed[1..]| && needed[1..][k] == rest[0] && rest[0] !in cols &&
              forall j :: 0 <= j < k ==> needed[1..][j] in cols;
            assert needed[k + 1] == rest[0];
            forall j | 0 <= j < k + 1
              ensures needed[j] in cols
            {
              if j > 0 {
                assert needed[j] == needed[1..][j - 1];
              }
            }
          }
        }
        rest
      else
        assert needed[0] == ([needed[0]] + rest)[0];
        [needed[0]] + rest
  }

  /** `load_and_clean` after `read_csv`. The checks come in the order pandas
      would raise: `G3` missing or string-valued at the query, `G1`/`G2` at
      the drop, then the recoded columns in recoding order, and last the
      expansion of a selection holding no string-typed column. */
  function LoadAndClean(raw: Table): (r: Result<Table>)
    requires WellFormed(raw)
    ensures Target !in raw.columns ==> r == Err(MissingColumn(Target))
    ensures r == Err(TextTarget) <==> Target in raw.columns && Target in raw.text && |raw.rows| > 0
    ensures r.Err? && r.error.MissingColumn? <==>
      Target !in raw.columns || (!(Target in raw.text && |raw.rows| > 0) && !HasRequiredColumns(raw))
    ensures r.Err? && r.error.MissingColumn? ==> r.error.name !in raw.columns
    ensures r.Err? && r.error.MissingColumn? && Target in raw.columns ==>
      FirstAbsent(r.error.name, CheckOrder, raw.columns)
    ensures r == Err(NothingToEncode) <==>
      HasRequiredColumns(raw) && !(Target in raw.text && |raw.rows| > 0) && Prepare(raw).text == {}
    ensures r.Ok? ==> HasRequiredColumns(raw) && Prepare(raw).text != {}
    ensures HasRequiredColumns(raw) && !(Target in raw.text && |raw.rows| > 0) && Prepare(raw).text != {} ==>
      r == Encode(Prepare(raw))
    ensures r.Ok? ==> WellFormed(r.value) && r.value.text == {}
    ensures r.Ok? ==> |r.value.rows| == |Survivors(raw)|
  {
    if Target !in raw.columns then Err(MissingColumn(Target))
    else if Target in raw.text && |raw.rows| > 0 then Err(TextTarget)
    else
      var missing := Missing(raw.columns, CheckOrder);
      if missing != [] then Err(MissingColumn(missing[0]))
      else
        assert forall c :: c in Leaky ==> c in CheckOrder;
        var prepared := Prepare(raw);
        if prepared.text == {} then Err(NothingToEncode)
        else
          var r := Encode(prepared);
          if r.Ok? then
            EncodeWellFormed(prepared);
            r
          else r
  }

  /** A table with every column main.py names passes the column checks. */
  lemma NothingMissing(raw: Table)
    requires HasRequiredColumns(raw)
    ensures Missing(raw.columns, CheckOrder) == []
  {
    assert forall c :: c in CheckOrder ==> c in raw.columns by {
      assert "G1" in Leaky && "G2" in Leaky;
    }
  }

  /** A successful cleaning is the one-hot expansion of the prepared table. */
  lemma LoadAndCleanIsEncode(raw: Table)
    requires WellFormed(raw) && LoadAndClean(raw).Ok?
    ensures HasRequiredColumns(raw)
    ensures Prepare(raw).text != {} && LoadAndClean(raw) == Encode(Prepare(raw))
    ensures |Survivors(raw)| > 0 ==> Target !in raw.text
  {
    if |Survivors(raw)| > 0 {
      SurvivorsFiltered(raw);
      assert Survivors(raw)[0] in raw.rows;
    }
  }

  /** A survivor's cell in a numeric column is an integer. */
  lemma SurvivorCell(raw: Table, i: int, c: string)
    requires WellFormed(raw) && 0 <= i < |Survivors(raw)|
    requires c in raw.columns && c !in raw.text
    ensures c in Survivors(raw)[i] && Survivors(raw)[i][c].Int?
  {
    SurvivorsFiltered(raw);
    assert Survivors(raw)[i] in raw.rows;
  }

  /** Cleaning a cell of a recoded column applies its table: the label for
      0 becomes 0, the label for 1 becomes 1, anything else is kept. */
  lemma RecodedCleanValue(c: string, v: Value)
    requires c in RecodedColumns
    ensures c != Target && c !in Leaky && '_' !in c && ZeroLabel(c) != OneLabel(c)
    ensures CleanValue(c, v) ==
      if v == Str(ZeroLabel(c)) then Int(0)
      else if v == Str(OneLabel(c)) then Int(1)
      else v
  {
    RecodedColumnsFacts();
    RecodedColumnNames();
    LabelsDiffer(c);
  }

  /** A raw column other than `G1`/`G2` survives preparation; its cells
      are the survivors' cells cleaned. */
  lemma PreparedColumn(raw: Table, c: string)
    requires WellFormed(raw) && HasRequiredColumns(raw)
    requires c in raw.columns && c !in Leaky
    ensures c in Prepare(raw).columns && HasColumn(Survivors(raw), c)
    ensures forall i :: 0 <= i < |Survivors(raw)| ==> Prepare(raw).rows[i][c] == CleanValue(c, Survivors(raw)[i][c])
    ensures c in Prepare(raw).text <==> c in raw.text && !(c in RecodedColumns && BecomesNumeric(Survivors(raw), c))
  {
  }

  /** A cell of a recoded column after preparation: its table applied. */
  lemma PreparedRecodedCell(raw: Table, c: string, j: int)
    requires WellFormed(raw) && HasRequiredColumns(raw) && c in RecodedColumns
    requires 0 <= j < |Survivors(raw)|
    ensures c !in Leaky && c != Target && '_' !in c && ZeroLabel(c) != OneLabel(c)
    ensures c in Prepare(raw).columns && HasColumn(Survivors(raw), c)
    ensures Prepare(raw).rows[j][c] ==
      if Survivors(raw)[j][c] == Str(ZeroLabel(c)) then Int(0)
      else if Survivors(raw)[j][c] == Str(OneLabel(c)) then Int(1)
      else Survivors(raw)[j][c]
  {
    RecodedCleanValue(c, Survivors(raw)[j][c]);
    PreparedColumn(raw, c);
  }

  /** A recoded column whose survivors all hold one of its two labels is
      numeric after preparation. */
  lemma PreparedInTable(raw: Table, c: string)
    requires WellFormed(raw) && HasRequiredColumns(raw) && c in RecodedColumns
    requires |Survivors(raw)| > 0
    requires forall i :: 0 <= i < |Survivors(raw)| ==>
      Survivors(raw)[i][c] == Str(ZeroLabel(c)) || Survivors(raw)[i][c] == Str(OneLabel(c))
    ensures c in Prepare(raw).columns && c !in Prepare(raw).text
  {
    var surv := Survivors(raw);
    forall i | 0 <= i < |surv|
      ensures Recode(surv[i][c], Codes(c)).Int?
    {
      RecodedCleanValue(c, surv[i][c]);
    }
    assert BecomesNumeric(surv, c);
    RecodedCleanValue(c, surv[0][c]);
    PreparedColumn(raw, c);
  }

  /** A recoded column holding a label outside its table stays
      string-typed, and the label is kept as it is. */
  lemma PreparedUnknownLabel(raw: Table, c: string, i: int)
    requires WellFormed(raw) && HasRequiredColumns(raw) && c in RecodedColumns
    requires 0 <= i < |Survivors(raw)|
    requires Survivors(raw)[i][c].Str?
    requires Survivors(raw)[i][c].s != ZeroLabel(c) && Survivors(raw)[i][c].s != OneLabel(c)
    ensures c in raw.text && !BecomesNumeric(Survivors(raw), c)
    ensures c in Prepare(raw).columns && c in Prepare(raw).text && '_' !in c
    ensures Prepare(raw).rows[i][c] == Survivors(raw)[i][c]
  {
    var v := Survivors(raw)[i][c];
    RecodedCleanValue(c, v);
    PreparedColumn(raw, c);
    if c !in raw.text {
      SurvivorCell(raw, i, c);
    }
    assert Recode(v, Codes(c)) == v;
  }

  /** A string column main.py does not name keeps its values through
      preparation. */
  lemma PreparedOtherText(raw: Table, c: string)
    requires WellFormed(raw) && HasRequiredColumns(raw)
    requires c in raw.text && c !in RecodedColumns && c !in Leaky && c != Target
    ensures c in Prepare(raw).columns && c in Prepare(raw).text
    ensures HasColumn(Prepare(raw).rows, c) && HasColumn(Survivors(raw), c)
    ensures Observed(Prepare(raw).rows, c) == Observed(Survivors(raw), c)
  {
    PreparedColumn(raw, c);
    var rows, surv := Prepare(raw).rows, Survivors(raw);
    forall i | 0 <= i < |surv|
      ensures rows[i][c] == surv[i][c]
    {
      CleanValueUntouched(c, surv[i][c]);
    }
    SameObserved(rows, surv, c);
  }

  /** A column no table names and other than the target is left alone. */
  lemma CleanValueUntouched(c: string, v: Value)
    requires c !in RecodedColumns && c != Target
    ensures CleanValue(c, v) == v
  {
    assert Codes(c) == map[];
  }

  /** Rows agreeing on column `c` observe the same values there. */
  lemma SameObserved(a: seq<Row>, b: seq<Row>, c: string)
    requires |a| == |b| && HasColumn(a, c) && HasColumn(b, c)
    requires forall i :: 0 <= i < |a| ==> a[i][c] == b[i][c]
    ensures Observed(a, c) == Observed(b, c)
  {
  }
}
