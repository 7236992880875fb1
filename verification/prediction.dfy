/** `predict_grade`: one incoming record is one-hot encoded like the
    training table, reindexed to the training columns with 0 for anything
    missing, handed to the fitted scaler and model, and the guess clamped to
    the percentage range. The scaler and the model are a parameter here. */
module Prediction {
  import opened Seqs
  import opened Frames
  import opened OneHot

  /** One entry of the incoming dict, `name: [value]`. */
  datatype Field = Field(name: string, value: Value)

  function FieldNames(rec: seq<Field>): (r: seq<string>)
    ensures |r| == |rec| && forall i :: 0 <= i < |rec| ==> r[i] == rec[i].name
  {
    seq(|rec|, i requires 0 <= i < |rec| => rec[i].name)
  }

  /** The dict as one row: each name maps to its own value. */
  function RecordRow(rec: seq<Field>): (row: Row)
    requires Distinct(FieldNames(rec))
    ensures row.Keys == set n | n in FieldNames(rec)
    ensures forall i :: 0 <= i < |rec| ==> rec[i].name in row && row[rec[i].name] == rec[i].value
  {
    var names := FieldNames(rec);
    var row := map i | 0 <= i < |rec| :: rec[i].name := rec[i].value;
    forall i | 0 <= i < |rec|
      ensures rec[i].name in row && row[rec[i].name] == rec[i].value
    {
      assert forall j :: 0 <= j < |rec| && j != i ==> names[j] != names[i];
    }
    assert forall n :: n in row <==> n in names by {
      forall n
        ensures n in row <==> n in names
      {
        if n in names {
          var j :| 0 <= j < |names| && names[j] == n;
          assert rec[j].name in row;
        }
      }
    }
    row
  }

  /** `pd.DataFrame(incoming_data_dict)`: a one-row table whose columns are
      the dict's keys in order; a column is string-typed exactly when its
      value is a string. An empty dict gives a frame with no columns and no
      rows. */
  function RecordTable(rec: seq<Field>): (t: Table)
    requires Distinct(FieldNames(rec))
    ensures WellFormed(t) && t.columns == FieldNames(rec)
    ensures |t.rows| == if rec == [] then 0 else 1
    ensures forall i :: 0 <= i < |rec| ==> rec[i].name in t.rows[0] && t.rows[0][rec[i].name] == rec[i].value
    ensures forall i :: 0 <= i < |rec| ==> (rec[i].name in t.text <==> rec[i].value.Str?)
  {
    var names := FieldNames(rec);
    var row := RecordRow(rec);
    var text := set i | 0 <= i < |rec| && rec[i].value.Str? :: rec[i].name;
    forall i | 0 <= i < |rec|
      ensures rec[i].name in text <==> rec[i].value.Str?
    {
      if rec[i].name in text {
        var j :| 0 <= j < |rec| && rec[j].value.Str? && rec[j].name == rec[i].name;
        assert names[j] == names[i];
      }
    }
    var rows := if rec == [] then [] else [row];
    assert forall i :: 0 <= i < |rows| ==> rows[i] == row;
    Table(names, text, rows)
  }

  /** `reindex(columns=schema, fill_value=0)` of an all-integer row. */
  function Align(e: Row, schema: seq<string>): (r: seq<int>)
    requires forall n :: n in e ==> e[n].Int?
    ensures |r| == |schema|
    ensures forall k :: 0 <= k < |schema| ==> r[k] == if schema[k] in e then e[schema[k]].i else 0
  {
    seq(|schema|, k requires 0 <= k < |schema| => if schema[k] in e then e[schema[k]].i else 0)
  }

  /** The record encoded and aligned to the training columns. pandas refuses
      to reindex a frame with two columns of the same label, which happens
      when a numeric field is called like an indicator of another field. The
      scaler then refuses a frame with no row, which an empty dict gives, and
      one with no column, which an empty training column list gives; it
      checks the rows first. */
  function AlignRecord(rec: seq<Field>, schema: seq<string>): (r: Result<seq<int>>)
    requires Distinct(FieldNames(rec))
    ensures r.Ok? <==> rec != [] && schema != [] && Encode(RecordTable(rec)).Ok?
    ensures r.Err? ==> r.error == AlignError(rec)
    ensures r.Ok? ==> |r.value| == |schema|
  {
    var t := RecordTable(rec);
    var enc := Encode(t);
    if enc.Err? then
      assert rec != [] by { if rec == [] { EmptyTableEncodes(t); } }
      Err(enc.error)
    else if enc.value.rows == [] then Err(NoSamples)
    else if schema == [] then Err(NoFeatures)
    else
      EncodeWellFormed(t);
      Ok(Align(enc.value.rows[0], schema))
  }

  /** A table without columns has nothing to expand. */
  lemma EmptyTableEncodes(t: Table)
    requires WellFormed(t) && t.columns == []
    ensures Encode(t).Ok?
  {
  }

  /** The error alignment fails with, in the order the steps raise: the
      empty dict's missing row, a duplicate label at the reindexing, and
      otherwise the scaler's missing columns. */
  function AlignError(rec: seq<Field>): Error
    requires Distinct(FieldNames(rec))
  {
    if rec == [] then NoSamples
    else if Encode(RecordTable(rec)).Err? then DuplicateColumns
    else NoFeatures
  }

  /** The clamp at the end of `predict_grade`. */
  function Clamp(guess: real): (r: real)
    ensures 0.0 <= r <= 100.0
  {
    if guess < 0.0 then 0.0
    else if guess > 100.0 then 100.0
    else guess
  }

  /** `predict_grade`, with `estimate` standing for the fitted scaler and
      model applied to the aligned row. The result is a percentage. */
  function PredictGrade(rec: seq<Field>, schema: seq<string>, estimate: seq<int> -> real): (r: Result<real>)
    requires Distinct(FieldNames(rec))
    ensures r.Ok? <==> AlignRecord(rec, schema).Ok?
    ensures r.Err? ==> r.error == AlignError(rec)
    ensures r.Ok? ==> 0.0 <= r.value <= 100.0
    ensures r.Ok? ==> r.value == Clamp(estimate(AlignRecord(rec, schema).value))
  {
    match AlignRecord(rec, schema)
    case Err(e) => Err(e)
    case Ok(row) => Ok(Clamp(estimate(row)))
  }

  /** Clamping picks the point of [0, 100] nearest to the guess, so a guess
      already in range comes back unchanged. */
  lemma ClampNearest(guess: real, y: real)
    requires 0.0 <= y <= 100.0
    ensures Distance(Clamp(guess), guess) <= Distance(y, guess)
    ensures 0.0 <= guess <= 100.0 ==> Clamp(guess) == guess
  {
  }

  function Distance(a: real, b: real): real {
    if a < b then b - a else a - b
  }

  /** Clamping is monotone and idempotent. */
  lemma ClampMonotone(a: real, b: real)
    requires a <= b
    ensures Clamp(a) <= Clamp(b)
    ensures Clamp(Clamp(a)) == Clamp(a)
  {
  }

  /** The column a field becomes after encoding: the field itself when it is
      numeric, the indicator of its own value when it is a string. */
  function OwnColumn(f: Field): string {
    if f.value.Int? then f.name else IndicatorName(f.name, f.value)
  }

  /** What that column holds: the number, or 1 for the indicator. */
  function OwnCell(f: Field): int {
    if f.value.Int? then f.value.i else 1
  }

  /** A training column that some field becomes gets that field's number, or
      1 when it is the indicator of the field's category. */
  lemma AlignedOwn(rec: seq<Field>, schema: seq<string>, k: int, j: int)
    requires Distinct(FieldNames(rec))
    requires 0 <= k < |schema| && 0 <= j < |rec| && schema[k] == OwnColumn(rec[j])
    ensures AlignRecord(rec, schema).Ok? ==> AlignRecord(rec, schema).value[k] == OwnCell(rec[j])
  {
    var t := RecordTable(rec);
    if Encode(t).Ok? {
      EncodeWellFormed(t);
      if rec[j].value.Int? {
        EncodeKeepsNumeric(t, 0, rec[j].name);
      } else {
        EncodeExactlyOne(t, 0, rec[j].name);
      }
    }
  }

  /** The only category the record's table observes in a field is the
      field's own value. */
  lemma RecordObserved(rec: seq<Field>, j: int)
    requires Distinct(FieldNames(rec)) && 0 <= j < |rec|
    ensures HasColumn(RecordTable(rec).rows, rec[j].name)
    ensures Observed(RecordTable(rec).rows, rec[j].name) == [rec[j].value]
  {
  }

  /** A column that no field becomes is not among the encoded record's
      columns. */
  lemma RecordColumnsOwn(rec: seq<Field>, n: string)
    requires Distinct(FieldNames(rec)) && Encode(RecordTable(rec)).Ok?
    requires forall j :: 0 <= j < |rec| ==> OwnColumn(rec[j]) != n
    ensures n !in Encode(RecordTable(rec)).value.columns
  {
    var t := RecordTable(rec);
    EncodeColumns(t, n);
    RecordNotNumeric(rec, n);
    forall c, v | c in t.columns && c in t.text && HasColumn(t.rows, c) && v in Observed(t.rows, c)
      ensures n != IndicatorName(c, v)
    {
      RecordNotIndicator(rec, n, c, v);
    }
  }

  lemma RecordNotNumeric(rec: seq<Field>, n: string)
    requires Distinct(FieldNames(rec))
    requires forall j :: 0 <= j < |rec| ==> OwnColumn(rec[j]) != n
    ensures n in RecordTable(rec).columns ==> n in RecordTable(rec).text
  {
    var t := RecordTable(rec);
    if n in t.columns {
      var j :| 0 <= j < |rec| && t.columns[j] == n;
      assert OwnColumn(rec[j]) != n;
    }
  }

  lemma RecordNotIndicator(rec: seq<Field>, n: string, c: string, v: Value)
    requires Distinct(FieldNames(rec))
    requires forall j :: 0 <= j < |rec| ==> OwnColumn(rec[j]) != n
    requires var t := RecordTable(rec);
      c in t.columns && c in t.text && HasColumn(t.rows, c) && v in Observed(t.rows, c)
    ensures n != IndicatorName(c, v)
  {
    var t := RecordTable(rec);
    var j :| 0 <= j < |rec| && t.columns[j] == c;
    RecordObserved(rec, j);
    assert OwnColumn(rec[j]) == IndicatorName(c, v);
  }

  /** Every other training column is filled with 0. */
  lemma AlignedAbsent(rec: seq<Field>, schema: seq<string>, k: int)
    requires Distinct(FieldNames(rec))
    requires 0 <= k < |schema|
    requires forall j :: 0 <= j < |rec| ==> OwnColumn(rec[j]) != schema[k]
    ensures AlignRecord(rec, schema).Ok? ==> AlignRecord(rec, schema).value[k] == 0
  {
    var t := RecordTable(rec);
    if Encode(t).Ok? {
      EncodeWellFormed(t);
      RecordColumnsOwn(rec, schema[k]);
    }
  }

  /** A category of a known field that this record does not hold aligns to
      0, including one never seen in training: an unseen category is the
      all-zero pattern for its field. */
  lemma UnseenCategoryIsZero(rec: seq<Field>, schema: seq<string>, k: int, j: int, v: Value)
    requires Distinct(FieldNames(rec))
    requires forall i :: 0 <= i < |rec| ==> '_' !in rec[i].name
    requires 0 <= k < |schema| && 0 <= j < |rec| && rec[j].value.Str?
    requires schema[k] == IndicatorName(rec[j].name, v) && Label(v) != Label(rec[j].value)
    ensures AlignRecord(rec, schema).Ok? && AlignRecord(rec, schema).value[k] == 0
  {
    forall i | 0 <= i < |rec|
      ensures OwnColumn(rec[i]) != schema[k]
    {
      if rec[i].value.Int? {
        NotAnIndicator(rec[i].name, rec[j].name, v);
      } else {
        assert i != j ==> FieldNames(rec)[i] != FieldNames(rec)[j];
        IndicatorNamesDiffer(rec[i].name, rec[j].name, rec[i].value, v);
      }
    }
    AlignedAbsent(rec, schema, k);
    AlignSucceeds(rec, schema);
  }

  /** A training column that is not an indicator and that the record does
      not supply is filled with 0 rather than rejected. */
  lemma MissingFieldIsZero(rec: seq<Field>, schema: seq<string>, k: int)
    requires Distinct(FieldNames(rec))
    requires 0 <= k < |schema| && '_' !in schema[k] && schema[k] !in FieldNames(rec)
    ensures AlignRecord(rec, schema).Ok? ==> AlignRecord(rec, schema).value[k] == 0
  {
    forall i | 0 <= i < |rec|
      ensures OwnColumn(rec[i]) != schema[k]
    {
      assert FieldNames(rec)[i] == rec[i].name;
      NotAnIndicator(schema[k], rec[i].name, rec[i].value);
    }
    AlignedAbsent(rec, schema, k);
  }

  /** The record is not put through cleaning's recoding: a field given as a
      string (`sex` as `"F"`, say) is expanded into an indicator, so a
      training column of the same name is filled with 0. */
  lemma TextFieldColumnIsZero(rec: seq<Field>, schema: seq<string>, k: int, j: int)
    requires Distinct(FieldNames(rec))
    requires 0 <= k < |schema| && 0 <= j < |rec| && rec[j].value.Str?
    requires schema[k] == rec[j].name && '_' !in rec[j].name
    ensures AlignRecord(rec, schema).Ok? ==> AlignRecord(rec, schema).value[k] == 0
  {
    forall i | 0 <= i < |rec|
      ensures OwnColumn(rec[i]) != schema[k]
    {
      if rec[i].value.Int? {
        assert FieldNames(rec)[i] != FieldNames(rec)[j];
      } else {
        NotAnIndicator(schema[k], rec[i].name, rec[i].value);
      }
    }
    AlignedAbsent(rec, schema, k);
  }

  /** A non-empty record whose field names hold no underscore always
      aligns to a non-empty training column list, and so always gets a
      grade. */
  lemma AlignSucceeds(rec: seq<Field>, schema: seq<string>)
    requires Distinct(FieldNames(rec)) && rec != [] && schema != []
    requires forall i :: 0 <= i < |rec| ==> '_' !in rec[i].name
    ensures AlignRecord(rec, schema).Ok?
    ensures forall estimate :: PredictGrade(rec, schema, estimate).Ok?
  {
    var t := RecordTable(rec);
    assert forall c :: c in t.columns ==> '_' !in c;
    EncodeSucceeds(t);
  }

  /** An empty dict never gets a grade: its frame has no row for the scaler,
      and that is reported whatever the training columns are. */
  lemma EmptyRecordFails(schema: seq<string>, estimate: seq<int> -> real)
    ensures AlignRecord([], schema) == Err(NoSamples)
    ensures PredictGrade([], schema, estimate) == Err(NoSamples)
  {
  }

  /** An empty training column list never yields a grade: the scaler finds
      no column in the aligned frame. */
  lemma EmptySchemaFails(rec: seq<Field>, estimate: seq<int> -> real)
    requires Distinct(FieldNames(rec))
    ensures AlignRecord(rec, []).Err? && PredictGrade(rec, [], estimate).Err?
    ensures rec != [] && Encode(RecordTable(rec)).Ok? ==>
      AlignRecord(rec, []) == Err(NoFeatures) && PredictGrade(rec, [], estimate) == Err(NoFeatures)
  {
  }
}
