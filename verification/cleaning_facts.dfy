/** What `load_and_clean` promises about its output, stated against the raw
    table: the target rescaled, the leakage columns gone, the fixed recodings
    applied, and every other string column expanded into indicators. */
module CleaningFacts {
  import opened Frames
  import opened OneHot
  import opened Cleaning

  /** Row `i` of the cleaned table holds survivor `i`'s final grade as a
      percentage, which is positive; a numeric `G3` stays a column. */
  lemma CleanRescalesTarget(raw: Table)
    requires WellFormed(raw)
    ensures LoadAndClean(raw).Ok? ==> Target !in raw.text ==> Target in LoadAndClean(raw).value.columns
    ensures LoadAndClean(raw).Ok? ==> forall i :: 0 <= i < |Survivors(raw)| ==>
      && Target in LoadAndClean(raw).value.rows[i]
      && LoadAndClean(raw).value.rows[i][Target] == Int(ScaleGrade(Survivors(raw)[i][Target].i))
      && ScaleGrade(Survivors(raw)[i][Target].i) > 0
  {
    if LoadAndClean(raw).Ok? {
      LoadAndCleanIsEncode(raw);
      RecodedColumnsFacts();
      var p := Prepare(raw);
      assert Target in p.columns;
      if Target !in raw.text {
        EncodeColumns(p, Target);
      }
      forall i | 0 <= i < |Survivors(raw)|
        ensures Target in LoadAndClean(raw).value.rows[i]
        ensures LoadAndClean(raw).value.rows[i][Target] == Int(ScaleGrade(Survivors(raw)[i][Target].i))
      {
        EncodeKeepsNumeric(p, i, Target);
      }
    }
  }

  /** Neither intermediate grade reaches the cleaned table, not even as an
      indicator. */
  lemma CleanDropsLeakage(raw: Table)
    requires WellFormed(raw)
    ensures LoadAndClean(raw).Ok? ==> forall c :: c in Leaky ==> c !in LoadAndClean(raw).value.columns
  {
    if LoadAndClean(raw).Ok? {
      LoadAndCleanIsEncode(raw);
      RecodedColumnNames();
      var p := Prepare(raw);
      forall c | c in Leaky
        ensures c !in LoadAndClean(raw).value.columns
      {
        EncodeColumns(p, c);
        forall f, v
          ensures c != IndicatorName(f, v)
        {
          NotAnIndicator(c, f, v);
        }
      }
    }
  }

  /** A recoded column whose survivors all hold one of its two labels
      becomes a numeric 0/1 column: 1 for the label the table maps to 1. */
  lemma CleanRecodesInTable(raw: Table, c: string)
    requires WellFormed(raw)
    requires c in RecodedColumns && c in raw.columns && |Survivors(raw)| > 0
    requires var surv := Survivors(raw);
      forall i :: 0 <= i < |surv| ==> surv[i][c] == Str(ZeroLabel(c)) || surv[i][c] == Str(OneLabel(c))
    ensures LoadAndClean(raw).Ok? ==> c in LoadAndClean(raw).value.columns
    ensures LoadAndClean(raw).Ok? ==> var t, surv := LoadAndClean(raw).value, Survivors(raw);
      forall i :: 0 <= i < |surv| ==> c in t.rows[i] && t.rows[i][c] == Int(if surv[i][c] == Str(OneLabel(c)) then 1 else 0)
  {
    if LoadAndClean(raw).Ok? {
      LoadAndCleanIsEncode(raw);
      PreparedInTable(raw, c);
      var p := Prepare(raw);
      EncodeColumns(p, c);
      forall i | 0 <= i < |Survivors(raw)|
        ensures c in LoadAndClean(raw).value.rows[i]
        ensures LoadAndClean(raw).value.rows[i][c] == Int(if Survivors(raw)[i][c] == Str(OneLabel(c)) then 1 else 0)
      {
        PreparedRecodedCell(raw, c, i);
        EncodeKeepsNumeric(p, i, c);
      }
    }
  }

  /** A label outside a column's table passes through `replace`, so the
      column stays string-typed and is expanded: the column itself is gone
      and the row with the unknown label gets a 1 in `<column>_<label>`. */
  lemma CleanPassesThroughUnknown(raw: Table, c: string, i: int, unknown: string)
    requires WellFormed(raw)
    requires c in RecodedColumns && c in raw.columns && 0 <= i < |Survivors(raw)|
    requires Survivors(raw)[i][c] == Str(unknown)
    requires unknown != ZeroLabel(c) && unknown != OneLabel(c)
    ensures LoadAndClean(raw).Ok? ==> c !in LoadAndClean(raw).value.columns
    ensures LoadAndClean(raw).Ok? ==> var e := LoadAndClean(raw).value.rows[i];
      IndicatorName(c, Str(unknown)) in e && e[IndicatorName(c, Str(unknown))] == Int(1)
  {
    if LoadAndClean(raw).Ok? {
      LoadAndCleanIsEncode(raw);
      PreparedUnknownLabel(raw, c, i);
      var p := Prepare(raw);
      EncodeColumns(p, c);
      forall f, w
        ensures c != IndicatorName(f, w)
      {
        NotAnIndicator(c, f, w);
      }
      EncodeExactlyOne(p, i, c);
    }
  }

  /** When a recoded column is expanded instead of kept (some label fell
      outside its table), the rows whose label was recoded to 1 get a 1 in
      the indicator `<column>_1`. */
  lemma CleanMarksRecodedOne(raw: Table, c: string, j: int)
    requires WellFormed(raw)
    requires c in RecodedColumns && c in raw.columns
    requires 0 <= j < |Survivors(raw)| && Survivors(raw)[j][c] == Str(OneLabel(c))
    ensures LoadAndClean(raw).Ok? && c !in LoadAndClean(raw).value.columns ==> var e := LoadAndClean(raw).value.rows[j];
      IndicatorName(c, Int(1)) in e && e[IndicatorName(c, Int(1))] == Int(1)
  {
    if LoadAndClean(raw).Ok? && c !in LoadAndClean(raw).value.columns {
      MarksRecodedOne(raw, c, j);
    }
  }

  lemma MarksRecodedOne(raw: Table, c: string, j: int)
    requires WellFormed(raw) && LoadAndClean(raw).Ok?
    requires c in RecodedColumns && c in raw.columns && c !in LoadAndClean(raw).value.columns
    requires 0 <= j < |Survivors(raw)| && Survivors(raw)[j][c] == Str(OneLabel(c))
    ensures var e := LoadAndClean(raw).value.rows[j];
      IndicatorName(c, Int(1)) in e && e[IndicatorName(c, Int(1))] == Int(1)
  {
    LoadAndCleanIsEncode(raw);
    PreparedRecodedCell(raw, c, j);
    EncodeColumns(Prepare(raw), c);
    EncodeExactlyOne(Prepare(raw), j, c);
  }

  /** Any other string column is one-hot expanded: in every row the
      indicator of the row's own value is 1 and the indicator of every other
      value the column takes is 0; an underscore-free column name itself
      disappears. */
  lemma CleanExpandsText(raw: Table, c: string, i: int)
    requires WellFormed(raw)
    requires c in raw.text && c !in RecodedColumns && c !in Leaky
    requires 0 <= i < |Survivors(raw)|
    ensures HasColumn(Survivors(raw), c)
    ensures LoadAndClean(raw).Ok? ==> var e := LoadAndClean(raw).value.rows[i];
      IndicatorName(c, Survivors(raw)[i][c]) in e && e[IndicatorName(c, Survivors(raw)[i][c])] == Int(1)
    ensures LoadAndClean(raw).Ok? ==> forall v :: v in Observed(Survivors(raw), c) && v != Survivors(raw)[i][c] ==>
      var e := LoadAndClean(raw).value.rows[i];
      IndicatorName(c, v) in e && e[IndicatorName(c, v)] == Int(0)
    ensures LoadAndClean(raw).Ok? ==> '_' !in c ==> c !in LoadAndClean(raw).value.columns
  {
    assert c in ColumnSet(raw);
    if LoadAndClean(raw).Ok? {
      ExpandsText(raw, c, i);
    }
  }

  lemma ExpandsText(raw: Table, c: string, i: int)
    requires WellFormed(raw) && LoadAndClean(raw).Ok?
    requires c in raw.text && c !in RecodedColumns && c !in Leaky
    requires 0 <= i < |Survivors(raw)|
    ensures var e := LoadAndClean(raw).value.rows[i];
      IndicatorName(c, Survivors(raw)[i][c]) in e && e[IndicatorName(c, Survivors(raw)[i][c])] == Int(1)
    ensures forall v :: v in Observed(Survivors(raw), c) && v != Survivors(raw)[i][c] ==>
      var e := LoadAndClean(raw).value.rows[i];
      IndicatorName(c, v) in e && e[IndicatorName(c, v)] == Int(0)
    ensures '_' !in c ==> c !in LoadAndClean(raw).value.columns
  {
    LoadAndCleanIsEncode(raw);
    var p := Prepare(raw);
    PreparedOtherText(raw, c);
    EncodeExactlyOne(p, i, c);
    if '_' !in c {
      EncodeColumns(p, c);
      forall f, w
        ensures c != IndicatorName(f, w)
      {
        NotAnIndicator(c, f, w);
      }
    }
  }

  /** Numeric columns other than the target and the dropped grades come
      through cleaning unchanged. */
  lemma CleanKeepsNumeric(raw: Table, c: string, i: int)
    requires WellFormed(raw)
    requires c in raw.columns && c !in raw.text && c !in Leaky && c != Target
    requires 0 <= i < |Survivors(raw)|
    ensures LoadAndClean(raw).Ok? ==> c in LoadAndClean(raw).value.columns
    ensures LoadAndClean(raw).Ok? ==> c in LoadAndClean(raw).value.rows[i] && c in Survivors(raw)[i]
    ensures LoadAndClean(raw).Ok? ==> LoadAndClean(raw).value.rows[i][c] == Survivors(raw)[i][c]
  {
    if LoadAndClean(raw).Ok? {
      LoadAndCleanIsEncode(raw);
      SurvivorCell(raw, i, c);
      PreparedColumn(raw, c);
      var p := Prepare(raw);
      EncodeColumns(p, c);
      EncodeKeepsNumeric(p, i, c);
    }
  }

  /** Cleaning succeeds on a table that has every column main.py names and a
      numeric `G3`, whose column names hold no underscore, that keeps at
      least one string-typed column after recoding, and whose string columns
      then never mix values that print alike. */
  lemma CleanSucceeds(raw: Table)
    requires WellFormed(raw) && HasRequiredColumns(raw) && Target !in raw.text
    requires forall c :: c in raw.columns ==> '_' !in c
    requires Prepare(raw).text != {} && LabelsSeparate(Prepare(raw))
    ensures LoadAndClean(raw).Ok?
  {
    var p := Prepare(raw);
    assert forall c :: c in p.columns ==> '_' !in c;
    EncodeSucceeds(p);
    NothingMissing(raw);
  }
}
