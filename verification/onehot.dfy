/** `get_dummies` over a whole table: every numeric column is kept, every
    string-typed column is replaced by one 0/1 indicator column per category
    observed in it. */
module OneHot {
  import opened Seqs
  import opened Frames
  import opened Categories

  /** One output column: a kept numeric column, or the indicator of one
      category of a string-typed field. */
  datatype Slot = Keep(name: string) | Indicator(field: string, category: Value)

  function SlotName(s: Slot): string {
    match s
    case Keep(n) => n
    case Indicator(f, v) => IndicatorName(f, v)
  }

  function SlotNames(slots: seq<Slot>): seq<string> {
    seq(|slots|, k requires 0 <= k < |slots| => SlotName(slots[k]))
  }

  predicate HasColumn(rows: seq<Row>, c: string) {
    forall i :: 0 <= i < |rows| ==> c in rows[i]
  }

  /** The values column `c` takes, row by row. */
  function Observed(rows: seq<Row>, c: string): seq<Value>
    requires HasColumn(rows, c)
  {
    seq(|rows|, i requires 0 <= i < |rows| => rows[i][c])
  }

  /** The numeric columns, kept in table order. */
  function KeepSlots(cols: seq<string>, text: set<string>): (r: seq<Slot>)
    ensures forall k :: 0 <= k < |r| ==> r[k].Keep?
    ensures forall s :: s in r <==> s.Keep? && s.name in cols && s.name !in text
    ensures Subsequence(SlotNames(r), cols)
  {
    if cols == [] then []
    else
      var rest := KeepSlots(cols[1..], text);
      var r := (if cols[0] in text then [] else [Keep(cols[0])]) + rest;
      assert forall s :: s in cols <==> s == cols[0] || s in cols[1..];
      if cols[0] in text then
        assert SlotNames(r) == SlotNames(rest);
        r
      else
        assert SlotNames(r)[0] == cols[0];
        assert SlotNames(r)[1..] == SlotNames(rest);
        r
  }

  /** The indicators of field `f`, one per category, in category order. */
  function FieldSlots(f: string, categories: seq<Value>): (r: seq<Slot>)
    ensures |r| == |categories|
    ensures forall k :: 0 <= k < |r| ==> r[k] == Indicator(f, categories[k])
  {
    seq(|categories|, k requires 0 <= k < |categories| => Indicator(f, categories[k]))
  }

  /** The indicator columns of every string-typed column, field by field in
      table order, and within a field in category order. */
  function IndicatorSlots(cols: seq<string>, text: set<string>, rows: seq<Row>): (r: seq<Slot>)
    requires forall c :: c in cols ==> HasColumn(rows, c)
    ensures forall k :: 0 <= k < |r| ==> r[k].Indicator?
    ensures forall s :: s in r <==>
      s.Indicator? && s.field in cols && s.field in text && s.category in Observed(rows, s.field)
  {
    if cols == [] then []
    else
      var here := if cols[0] in text then FieldSlots(cols[0], SortedCategories(Observed(rows, cols[0]))) else [];
      var rest := IndicatorSlots(cols[1..], text, rows);
      assert forall s :: s in cols <==> s == cols[0] || s in cols[1..];
      here + rest
  }

  /** Indicators of the same field appear in category order. */
  predicate CategoryOrdered(r: seq<Slot>) {
    forall i, j :: 0 <= i < j < |r| && r[i].Indicator? && r[j].Indicator? && r[i].field == r[j].field ==>
      ValueLess(r[i].category, r[j].category)
  }

  /** Placing one field's ordered indicators before those of other fields
      keeps every field in category order. */
  lemma ConcatOrdered(here: seq<Slot>, rest: seq<Slot>, f: string)
    requires CategoryOrdered(here) && CategoryOrdered(rest)
    requires forall k :: 0 <= k < |here| ==> here[k].Indicator? && here[k].field == f
    requires forall k :: 0 <= k < |rest| ==> rest[k].Indicator? && rest[k].field != f
    ensures CategoryOrdered(here + rest)
  {
    var r := here + rest;
    forall i, j | 0 <= i < j < |r| && r[i].Indicator? && r[j].Indicator? && r[i].field == r[j].field
      ensures ValueLess(r[i].category, r[j].category)
    {
      if j < |here| {
        assert r[i] == here[i] && r[j] == here[j];
      } else {
        assert r[i] == rest[i - |here|] && r[j] == rest[j - |here|];
      }
    }
  }

  /** Within one field the indicators come in category order. */
  lemma {:induction false} IndicatorSlotsOrdered(cols: seq<string>, text: set<string>, rows: seq<Row>)
    requires forall c :: c in cols ==> HasColumn(rows, c)
    requires Distinct(cols)
    ensures CategoryOrdered(IndicatorSlots(cols, text, rows))
    decreases |cols|
  {
    if cols != [] {
      var here := if cols[0] in text then FieldSlots(cols[0], SortedCategories(Observed(rows, cols[0]))) else [];
      var rest := IndicatorSlots(cols[1..], text, rows);
      assert IndicatorSlots(cols, text, rows) == here + rest;
      assert forall c :: c in cols[1..] ==> c in cols;
      IndicatorSlotsOrdered(cols[1..], text, rows);
      assert cols[0] !in cols[1..];
      assert forall k :: 0 <= k < |rest| ==> rest[k].field != cols[0] by {
        forall k | 0 <= k < |rest|
          ensures rest[k].field != cols[0]
        {
          assert rest[k] in rest;
        }
      }
      ConcatOrdered(here, rest, cols[0]);
    }
  }

  /** The columns `get_dummies` produces for a table, in order. */
  function Layout(t: Table): seq<Slot>
    requires WellFormed(t)
  {
    assert forall c :: c in t.columns ==> HasColumn(t.rows, c);
    KeepSlots(t.columns, t.text) + IndicatorSlots(t.columns, t.text, t.rows)
  }

  predicate Fits(s: Slot, r: Row) {
    match s
    case Keep(n) => n in r
    case Indicator(f, _) => f in r
  }

  /** A kept column copies the row's value; an indicator is 1 exactly when
      the row's field holds its category. */
  function SlotValue(s: Slot, r: Row): Value
    requires Fits(s, r)
  {
    match s
    case Keep(n) => r[n]
    case Indicator(f, v) => Int(if r[f] == v then 1 else 0)
  }

  /** Distinct names mean distinct slots, and every slot's name is listed. */
  lemma SlotNamesOfMembers(layout: seq<Slot>)
    requires Distinct(SlotNames(layout))
    ensures forall s :: s in layout ==> SlotName(s) in SlotNames(layout)
    ensures forall s1, s2 :: s1 in layout && s2 in layout && SlotName(s1) == SlotName(s2) ==> s1 == s2
  {
    forall s | s in layout
      ensures SlotName(s) in SlotNames(layout)
    {
      var k :| 0 <= k < |layout| && layout[k] == s;
      assert SlotNames(layout)[k] == SlotName(s);
    }
    forall s1, s2 | s1 in layout && s2 in layout && SlotName(s1) == SlotName(s2)
      ensures s1 == s2
    {
      var k1 :| 0 <= k1 < |layout| && layout[k1] == s1;
      var k2 :| 0 <= k2 < |layout| && layout[k2] == s2;
      assert SlotNames(layout)[k1] == SlotNames(layout)[k2];
    }
  }

  function ExpandRow(layout: seq<Slot>, r: Row): (e: Row)
    requires Distinct(SlotNames(layout))
    requires forall s :: s in layout ==> Fits(s, r)
    ensures e.Keys == set n | n in SlotNames(layout)
    ensures forall s :: s in layout ==> SlotName(s) in e && e[SlotName(s)] == SlotValue(s, r)
  {
    SlotNamesOfMembers(layout);
    assert forall n :: n in SlotNames(layout) ==> exists s :: s in layout && SlotName(s) == n by {
      forall n | n in SlotNames(layout)
        ensures exists s :: s in layout && SlotName(s) == n
      {
        var k :| 0 <= k < |layout| && SlotNames(layout)[k] == n;
        assert layout[k] in layout;
      }
    }
    map s | s in layout :: SlotName(s) := SlotValue(s, r)
  }

  lemma WellFormedHasColumns(t: Table)
    requires WellFormed(t)
    ensures forall c :: c in t.columns ==> HasColumn(t.rows, c)
  {
  }

  /** `get_dummies` on the string-typed columns, appended after the numeric
      columns (main.py concatenates `df[numvars]` and the dummies). When two
      output columns would carry the same label the result is an error. */
  function Encode(t: Table): (r: Result<Table>)
    requires WellFormed(t)
    ensures r.Ok? <==> Distinct(SlotNames(Layout(t)))
    ensures r.Err? ==> r.error == DuplicateColumns
    ensures r.Ok? ==> r.value.columns == SlotNames(Layout(t)) && r.value.text == {}
    ensures r.Ok? ==> |r.value.rows| == |t.rows|
  {
    WellFormedHasColumns(t);
    var layout := Layout(t);
    var names := SlotNames(layout);
    if !Distinct(names) then Err(DuplicateColumns)
    else
      assert forall i, s :: 0 <= i < |t.rows| && s in layout ==> Fits(s, t.rows[i]);
      Ok(Table(names, {}, seq(|t.rows|, i requires 0 <= i < |t.rows| => ExpandRow(layout, t.rows[i]))))
  }

  /** With no string-typed column there is nothing to expand: the table
      comes back unchanged, which is what `predict_grade` does when its
      guard finds no object column. */
  lemma EncodeNoText(t: Table)
    requires WellFormed(t) && t.text == {}
    ensures Encode(t) == Ok(t)
  {
    WellFormedHasColumns(t);
    var keep := KeepSlots(t.columns, {});
    NoIndicators(t.columns, t.rows);
    assert Layout(t) == keep;
    KeepAllNames(t.columns);
    assert Encode(t).Ok?;
    var r := Encode(t).value;
    forall i | 0 <= i < |t.rows|
      ensures r.rows[i] == t.rows[i]
    {
      var e := ExpandRow(keep, t.rows[i]);
      assert r.rows[i] == e;
      assert e.Keys == ColumnSet(t) == t.rows[i].Keys;
      forall n | n in e
        ensures e[n] == t.rows[i][n]
      {
        assert Keep(n) in keep;
      }
    }
    assert r.rows == t.rows;
    assert r == t;
  }

  /** No string-typed column, no indicator. */
  lemma {:induction false} NoIndicators(cols: seq<string>, rows: seq<Row>)
    requires forall c :: c in cols ==> HasColumn(rows, c)
    ensures IndicatorSlots(cols, {}, rows) == []
    decreases |cols|
  {
    if cols != [] {
      assert forall c :: c in cols[1..] ==> c in cols;
      NoIndicators(cols[1..], rows);
    }
  }

  /** With no string-typed column every column is kept, in order. */
  lemma {:induction false} KeepAllNames(cols: seq<string>)
    ensures SlotNames(KeepSlots(cols, {})) == cols
    decreases |cols|
  {
    if cols != [] {
      KeepAllNames(cols[1..]);
      assert KeepSlots(cols, {}) == [Keep(cols[0])] + KeepSlots(cols[1..], {});
      SlotNamesCons(Keep(cols[0]), KeepSlots(cols[1..], {}));
    }
  }

  /** Each output column is a slot of the layout, and each slot is an
      output column. */
  lemma SlotNamesCover(layout: seq<Slot>)
    ensures forall n :: n in SlotNames(layout) <==> exists s :: s in layout && SlotName(s) == n
  {
    forall n | n in SlotNames(layout)
      ensures exists s :: s in layout && SlotName(s) == n
    {
      var k :| 0 <= k < |layout| && SlotNames(layout)[k] == n;
      assert layout[k] in layout;
    }
    forall s | s in layout
      ensures SlotName(s) in SlotNames(layout)
    {
      var k :| 0 <= k < |layout| && layout[k] == s;
      assert SlotNames(layout)[k] == SlotName(s);
    }
  }

  /** The encoded table is well formed and all-numeric. */
  lemma EncodeWellFormed(t: Table)
    requires WellFormed(t) && Encode(t).Ok?
    ensures WellFormed(Encode(t).value)
    ensures forall i, n :: 0 <= i < |t.rows| && n in Encode(t).value.columns ==> Encode(t).value.rows[i][n].Int?
  {
    WellFormedHasColumns(t);
    var layout := Layout(t);
    var u := Encode(t).value;
    SlotNamesCover(layout);
    forall i, n | 0 <= i < |t.rows| && n in u.columns
      ensures n in u.rows[i] && u.rows[i][n].Int?
    {
      var s :| s in layout && SlotName(s) == n;
    }
  }

  /** The output columns are exactly the numeric columns and one indicator
      per (string-typed field, observed category). */
  lemma EncodeColumns(t: Table, n: string)
    requires WellFormed(t) && Encode(t).Ok?
    ensures n in Encode(t).value.columns <==>
      (n in t.columns && n !in t.text) ||
      (exists c, v :: c in t.columns && c in t.text && v in Observed(t.rows, c) && n == IndicatorName(c, v))
  {
    WellFormedHasColumns(t);
    if n in Encode(t).value.columns {
      EncodeColumnOrigin(t, n);
    }
    if n in t.columns && n !in t.text {
      assert Keep(n) in Layout(t);
      SlotNamesCover(Layout(t));
    }
    if exists c, v :: c in t.columns && c in t.text && v in Observed(t.rows, c) && n == IndicatorName(c, v) {
      var c, v :| c in t.columns && c in t.text && v in Observed(t.rows, c) && n == IndicatorName(c, v);
      assert Indicator(c, v) in Layout(t);
      SlotNamesCover(Layout(t));
    }
  }

  /** Every output column is a numeric input column or an indicator. */
  lemma EncodeColumnOrigin(t: Table, n: string)
    requires WellFormed(t) && Encode(t).Ok? && n in Encode(t).value.columns
    ensures forall c :: c in t.columns ==> HasColumn(t.rows, c)
    ensures (n in t.columns && n !in t.text) ||
      (exists c, v :: c in t.columns && c in t.text && v in Observed(t.rows, c) && n == IndicatorName(c, v))
  {
    WellFormedHasColumns(t);
    var layout := Layout(t);
    SlotNamesCover(layout);
    var s :| s in layout && SlotName(s) == n;
    if s.Indicator? {
      assert s.field in t.columns && s.field in t.text && s.category in Observed(t.rows, s.field);
    }
  }

  /** Numeric columns are carried through unchanged. */
  lemma EncodeKeepsNumeric(t: Table, i: int, n: string)
    requires WellFormed(t) && Encode(t).Ok?
    requires 0 <= i < |t.rows| && n in t.columns && n !in t.text
    ensures n in Encode(t).value.rows[i] && Encode(t).value.rows[i][n] == t.rows[i][n]
  {
    WellFormedHasColumns(t);
    var layout := Layout(t);
    assert Keep(n) in layout;
    SlotNamesOfMembers(layout);
  }

  /** The indicator of category `v` of field `c` is 1 in a row exactly when
      that row's `c` is `v`, and 0 otherwise. */
  lemma EncodeIndicator(t: Table, i: int, c: string, v: Value)
    requires WellFormed(t) && Encode(t).Ok?
    requires 0 <= i < |t.rows| && c in t.columns && c in t.text
    requires HasColumn(t.rows, c) && v in Observed(t.rows, c)
    ensures IndicatorName(c, v) in Encode(t).value.rows[i]
    ensures Encode(t).value.rows[i][IndicatorName(c, v)] == Int(if t.rows[i][c] == v then 1 else 0)
  {
    WellFormedHasColumns(t);
    var layout := Layout(t);
    assert Indicator(c, v) in layout;
    SlotNamesOfMembers(layout);
  }

  /** In every row, exactly one indicator of each string-typed field is 1:
      the one for the row's own value, which is always an observed
      category. */
  lemma EncodeExactlyOne(t: Table, i: int, c: string)
    requires WellFormed(t) && Encode(t).Ok?
    requires 0 <= i < |t.rows| && c in t.columns && c in t.text
    ensures HasColumn(t.rows, c) && t.rows[i][c] in Observed(t.rows, c)
    ensures var e := Encode(t).value.rows[i];
      IndicatorName(c, t.rows[i][c]) in e && e[IndicatorName(c, t.rows[i][c])] == Int(1)
    ensures var e := Encode(t).value.rows[i];
      forall v :: v in Observed(t.rows, c) && v != t.rows[i][c] ==>
        IndicatorName(c, v) in e && e[IndicatorName(c, v)] == Int(0)
  {
    WellFormedHasColumns(t);
    var own := t.rows[i][c];
    assert Observed(t.rows, c)[i] == own;
    EncodeIndicator(t, i, c, own);
    forall v | v in Observed(t.rows, c) && v != own
      ensures IndicatorName(c, v) in Encode(t).value.rows[i]
      ensures Encode(t).value.rows[i][IndicatorName(c, v)] == Int(0)
    {
      EncodeIndicator(t, i, c, v);
    }
  }

  /** Distinct columns give distinct kept columns. */
  lemma {:induction false} KeepSlotsDistinct(cols: seq<string>, text: set<string>)
    requires Distinct(cols)
    ensures Distinct(SlotNames(KeepSlots(cols, text)))
    decreases |cols|
  {
    if cols != [] {
      DistinctTail(cols);
      KeepSlotsDistinct(cols[1..], text);
      var rest := KeepSlots(cols[1..], text);
      if cols[0] !in text {
        assert KeepSlots(cols, text) == [Keep(cols[0])] + rest;
        SlotNamesCons(Keep(cols[0]), rest);
        KeepNamesFrom(cols[1..], text);
        assert cols[0] !in cols[1..];
        DistinctCons(cols[0], SlotNames(rest));
      } else {
        assert KeepSlots(cols, text) == rest;
      }
    }
  }

  /** The names of a slot list with one more slot in front. */
  lemma SlotNamesCons(x: Slot, rest: seq<Slot>)
    ensures SlotNames([x] + rest) == [SlotName(x)] + SlotNames(rest)
  {
    var l, r := SlotNames([x] + rest), [SlotName(x)] + SlotNames(rest);
    forall k | 0 <= k < |l|
      ensures l[k] == r[k]
    {
      if k > 0 {
        assert ([x] + rest)[k] == rest[k - 1];
      }
    }
  }

  /** Every kept column is a column of the table. */
  lemma KeepNamesFrom(cols: seq<string>, text: set<string>)
    ensures forall n :: n in SlotNames(KeepSlots(cols, text)) ==> n in cols
  {
    var keep := KeepSlots(cols, text);
    forall n | n in SlotNames(keep)
      ensures n in cols
    {
      var k :| 0 <= k < |keep| && SlotNames(keep)[k] == n;
      assert keep[k] in keep;
    }
  }

  /** Two values a string-typed column takes print differently unless they
      are equal: a column never holds both `1` and `"1"`. */
  predicate LabelsSeparate(t: Table) {
    forall c, i, j ::
      (c in t.text && 0 <= i < |t.rows| && 0 <= j < |t.rows| && c in t.rows[i] && c in t.rows[j] &&
       Label(t.rows[i][c]) == Label(t.rows[j][c])) ==> t.rows[i][c] == t.rows[j][c]
  }

  /** Indicators of different fields, or of categories printed differently,
      have different names when field names hold no underscore. */
  lemma IndicatorNamesDiffer(f: string, g: string, a: Value, b: Value)
    requires '_' !in f && '_' !in g
    requires f != g || Label(a) != Label(b)
    ensures IndicatorName(f, a) != IndicatorName(g, b)
  {
    if IndicatorName(f, a) == IndicatorName(g, b) {
      IndicatorNameSplit(f, g, a, b);
    }
  }

  /** Two indicator slots of one table name different columns. */
  lemma IndicatorSlotsDiffer(t: Table, ind: seq<Slot>, i: int, j: int)
    requires WellFormed(t) && forall c :: c in t.columns ==> '_' !in c
    requires LabelsSeparate(t)
    requires forall c :: c in t.columns ==> HasColumn(t.rows, c)
    requires ind == IndicatorSlots(t.columns, t.text, t.rows) && CategoryOrdered(ind)
    requires 0 <= i < j < |ind|
    ensures SlotName(ind[i]) != SlotName(ind[j])
  {
    var s, u := ind[i], ind[j];
    assert s in ind && u in ind;
    if s.field == u.field {
      ValueLessStrictTotal(s.category, u.category, u.category);
      var a :| 0 <= a < |t.rows| && Observed(t.rows, s.field)[a] == s.category;
      var b :| 0 <= b < |t.rows| && Observed(t.rows, s.field)[b] == u.category;
      assert Label(s.category) != Label(u.category);
    }
    IndicatorNamesDiffer(s.field, u.field, s.category, u.category);
  }

  /** Two lists of columns with distinct names and no name in common
      concatenate to a list with distinct names. */
  lemma ConcatNamesDistinct(a: seq<Slot>, b: seq<Slot>)
    requires Distinct(SlotNames(a)) && Distinct(SlotNames(b))
    requires forall x, y :: x in a && y in b ==> SlotName(x) != SlotName(y)
    ensures Distinct(SlotNames(a + b))
  {
    var l := a + b;
    var names := SlotNames(l);
    forall i, j | 0 <= i < j < |l|
      ensures names[i] != names[j]
    {
      if j < |a| {
        assert SlotNames(a)[i] == names[i] && SlotNames(a)[j] == names[j];
      } else if i < |a| {
        assert l[i] == a[i] && l[j] == b[j - |a|];
        assert a[i] in a && b[j - |a|] in b;
      } else {
        assert SlotNames(b)[i - |a|] == names[i] && SlotNames(b)[j - |a|] == names[j];
      }
    }
  }

  /** The indicators of such a table have distinct names. */
  lemma IndicatorNamesDistinct(t: Table)
    requires WellFormed(t) && forall c :: c in t.columns ==> '_' !in c
    requires LabelsSeparate(t)
    requires forall c :: c in t.columns ==> HasColumn(t.rows, c)
    ensures Distinct(SlotNames(IndicatorSlots(t.columns, t.text, t.rows)))
  {
    var ind := IndicatorSlots(t.columns, t.text, t.rows);
    IndicatorSlotsOrdered(t.columns, t.text, t.rows);
    forall i, j | 0 <= i < j < |ind|
      ensures SlotNames(ind)[i] != SlotNames(ind)[j]
    {
      IndicatorSlotsDiffer(t, ind, i, j);
    }
  }

  /** No kept column of such a table is named like one of its indicators. */
  lemma KeepNotIndicator(t: Table)
    requires forall c :: c in t.columns ==> '_' !in c
    requires forall c :: c in t.columns ==> HasColumn(t.rows, c)
    ensures forall x, y :: x in KeepSlots(t.columns, t.text) && y in IndicatorSlots(t.columns, t.text, t.rows) ==>
      SlotName(x) != SlotName(y)
  {
    forall x, y | x in KeepSlots(t.columns, t.text) && y in IndicatorSlots(t.columns, t.text, t.rows)
      ensures SlotName(x) != SlotName(y)
    {
      NotAnIndicator(x.name, y.field, y.category);
    }
  }

  /** Encoding cannot fail on a table whose column names hold no underscore
      and whose string columns never mix values that print alike. */
  lemma EncodeSucceeds(t: Table)
    requires WellFormed(t)
    requires forall c :: c in t.columns ==> '_' !in c
    requires LabelsSeparate(t)
    ensures Encode(t).Ok?
  {
    WellFormedHasColumns(t);
    var keep := KeepSlots(t.columns, t.text);
    var ind := IndicatorSlots(t.columns, t.text, t.rows);
    assert Layout(t) == keep + ind;
    KeepSlotsDistinct(t.columns, t.text);
    IndicatorNamesDistinct(t);
    KeepNotIndicator(t);
    ConcatNamesDistinct(keep, ind);
  }
}
