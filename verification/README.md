# Student grade predictor: the data-shaping core

`main.py` trains a linear model to predict a student's final grade `G3`.
Around the numerical fit sit three data-shaping steps, and this project
models those three in Dafny and proves what they promise:

- **`load_and_clean`**. Its steps, in order:
  - keep the rows whose `G3` is above 0;
  - drop the intermediate grades `G1` and `G2`;
  - recode the eight yes/no columns and `sex`, `address`, `famsize`,
    `Pstatus` and `school` to 0/1 with fixed tables;
  - rescale `G3` from 0–20 to a percentage;
  - one-hot expand every remaining string-typed column into indicators
    named `<column>_<value>`.
- **`get_important_features`**. It ranks the columns by the magnitude of
  their correlation with `G3`, keeps those strictly above a threshold, and
  removes `G3` itself.
- **`predict_grade`**. It one-hot expands a single incoming record,
  reindexes it to the training columns with 0 for anything absent, runs
  the fitted scaler and model, and clamps the guess to [0, 100].

Modules:

- `Seqs` (`seqs.dfy`): generic sequence helpers.
- `Frames` (`frames.dfy`): the table model.
  - A cell is an integer or a string.
  - A row maps column names to cells.
  - A table is an ordered column list, the set of string-typed
    ("object") columns, and the rows.
- `Categories` (`categories.dfy`): the order in which `get_dummies` lists
  categories.
  - Numbers come before strings.
  - Numbers are in numeric order; strings are in lexicographic order.
- `OneHot` (`onehot.dfy`): `get_dummies` plus the `concat` of numeric and
  indicator columns.
- `Cleaning` (`cleaning.dfy`): the cleaning steps of `load_and_clean`
  before the expansion.
- `CleaningFacts` (`cleaning_facts.dfy`): end-to-end properties of
  `load_and_clean`, stated against the raw table.
- `Selection` (`selection.dfy`): `get_important_features`. The
  correlations are an input.
- `Prediction` (`prediction.dfy`): `predict_grade`. The scaler and model
  are a function parameter.

The code validates little of its own, and the model keeps its behaviour
as written:

- **No threshold check.** A threshold that keeps nothing gives an empty
  feature list, not a configuration error.
  - `Selection.ImportantFeatures` returns `[]` in that case.
- **Missing fields are not rejected.** A record that lacks a field is not
  refused. Its training columns are filled with 0
  (`Prediction.MissingFieldIsZero`).
- **Prediction skips cleaning's recoding.** A field given as a raw string,
  such as `sex` as `"F"`, is expanded into `sex_F`. The training column
  `sex` is then filled with 0 (`Prediction.TextFieldColumnIsZero`).
- **Unseen categories are silently zero.** A category never seen in
  training gets the all-zero pattern for its field
  (`Prediction.UnseenCategoryIsZero`).
- **Cleaning needs a string column to expand.** When no column is still
  string-typed after the recodings, `load_and_clean` asks `get_dummies`
  to expand an empty selection and pandas raises "No objects to
  concatenate". `Cleaning.LoadAndClean` reports this as `NothingToEncode`.
  `predict_grade` guards the same case and skips the expansion
  (`OneHot.EncodeNoText`).
- **An empty record is not caught early.** An empty dict becomes a frame
  with no rows. It passes the expansion and the reindexing, and the
  scaler then raises on zero samples. `Prediction.PredictGrade` reports
  this as `NoSamples` (`Prediction.EmptyRecordFails`).
  Likewise an empty training column list leaves the reindexed frame with
  no column, and the scaler raises on zero features. This is reported as
  `NoFeatures` (`Prediction.EmptySchemaFails`).

The dtype rules follow pandas 2.x. In that version, `replace` turns an
object column whose cells all become integers into an integer column.

## Model

| member | source | states |
|---|---|---|
| Frames.NotAnIndicator | main.py:72 | A column name without an underscore is never the name `get_dummies` gives an indicator |
| Frames.IndicatorNameSplit | main.py:72 | Over underscore-free field names, `<field>_<value>` determines both the field and the printed value |
| Categories.ValueLessStrictTotal | main.py:72 | The category order is irreflexive, total and transitive |
| Categories.SortedCategories | main.py:72 | The categories of a column are exactly its observed values, each once, in strictly increasing category order |
| OneHot.KeepSlots | main.py:70 | The numeric columns are exactly the non-string columns, kept in table order |
| OneHot.IndicatorSlotsOrdered | main.py:72 | The indicators of one field appear in strictly increasing category order |
| OneHot.Encode | main.py:198-202 | The expansion of the string-typed columns, with the numeric columns first; `load_and_clean` reaches it only when some column is string-typed. It succeeds exactly when no two output columns share a name, and fails with a duplicate-column error otherwise. On success the columns are the numeric columns followed by the indicators, nothing is string-typed, and the row count is kept |
| OneHot.EncodeWellFormed | main.py:72-74 | The expanded table is well formed and every cell is an integer |
| OneHot.EncodeNoText | main.py:198-202 | With no string-typed column the table comes back unchanged, as when `predict_grade`'s guard skips the expansion |
| OneHot.EncodeColumns | main.py:69-74 | A name is an output column exactly when it is a numeric input column or `<field>_<value>` for a string-typed field and a value observed in it |
| OneHot.EncodeKeepsNumeric | main.py:70-74 | Every numeric cell is carried through unchanged |
| OneHot.EncodeIndicator | main.py:72 | The indicator of value `v` of field `c` is 1 in a row when that row's `c` is `v`, and 0 otherwise |
| OneHot.EncodeExactlyOne | main.py:72 | In every row exactly one indicator of each string-typed field is 1: the one for the row's own value |
| OneHot.EncodeSucceeds | main.py:198-202 | Expansion cannot fail when column names hold no underscore and no string column mixes values that print alike |
| Cleaning.KeepPassing | main.py:46 | The query keeps the columns and dtypes, and its rows are the raw rows filtered by `G3 > 0` |
| Cleaning.SurvivorsFiltered | main.py:46 | A row survives exactly when it is a raw row whose `G3` is above 0. Survivors keep their multiplicity and their original order |
| Cleaning.DropColumns | main.py:47 | Dropping removes exactly the named columns from the column list, the dtypes and every row. The remaining columns keep their relative order (the result is a subsequence of the input) |
| Cleaning.RecodeColumn | main.py:55-56 | Every cell of the column goes through the replacement table, and no other cell changes. The column stops being string-typed exactly when it has rows and every cell is now an integer |
| Cleaning.RecodeIdempotent | main.py:56 | Applying a recoding table twice is the same as applying it once |
| Cleaning.RecodeAll | main.py:55-63 | After all recodings each named column's cells are recoded by its own table, and every other column is untouched |
| Cleaning.RecodedCleanValue | main.py:50-63 | The fixed tables: `no`/`yes`, `F`/`M`, `U`/`R`, `LE3`/`GT3`, `T`/`A`, `GP`/`MS` map to 0/1; any other value passes through; the two labels of a table differ |
| Cleaning.ScaleGrade | main.py:66 | The rescaled grade times 20 equals the grade times 100, so grades 1..20 become 5..100 |
| Cleaning.RescaleTarget | main.py:66 | Only the `G3` cell of each row changes, and the shape is kept |
| Cleaning.Prepare | main.py:46-66 | The columns are the raw ones less `G1`/`G2`, and there is one row per survivor. Every cell is the survivor's cell cleaned. A column is string-typed exactly when it was string-typed and was not recoded to all integers |
| Cleaning.PreparedColumn | main.py:46-66 | Each raw column other than `G1`/`G2` survives preparation, holding the survivors' cleaned cells |
| Cleaning.PreparedUnknownLabel | main.py:55-63 | A recoded column holding a label outside its table stays string-typed, and that label is left as it is |
| Cleaning.Missing | main.py:47-63 | Lists exactly the named columns that the table lacks. Its first entry is the first absent column in the order given, so every column before it is present |
| Cleaning.NothingMissing | main.py:47-63 | A table with every named column passes the column checks |
| Cleaning.LoadAndClean | main.py:25-76 | Errors: a missing `G3` is a missing-column error, and the type error occurs exactly when `G3` is present, string-typed and has rows. A missing-column error occurs exactly when `G3` is missing, or `G3` passes and some named column is absent. With `G3` present, a reported missing column is the first absent one among `G1`, `G2` and the recoded columns in recoding order. The nothing-to-encode error occurs exactly when every named column is present, `G3` passes, and no column is string-typed after recoding. When every named column is present, `G3` passes and a string-typed column remains, the result is exactly the one-hot expansion of the prepared table. Success requires every named column and a string-typed column to expand. The result has only integer columns and one row per survivor |
| Cleaning.LoadAndCleanIsEncode | main.py:69-76 | A successful cleaning had a string-typed column to expand and is the one-hot expansion of the prepared table, and then `G3` was numeric whenever any row survived |
| CleaningFacts.CleanRescalesTarget | main.py:46-66 | When cleaning succeeds, row `i` of the output holds survivor `i`'s grade as a positive percentage, and a numeric `G3` stays a column |
| CleaningFacts.CleanDropsLeakage | main.py:47 | When cleaning succeeds, neither `G1` nor `G2` is an output column, not even as an indicator |
| CleaningFacts.CleanRecodesInTable | main.py:55-63 | When cleaning succeeds, a recoded column whose survivors all hold one of its two labels is a 0/1 column, with 1 exactly for the label its table maps to 1 |
| CleaningFacts.CleanPassesThroughUnknown | main.py:55-72 | When cleaning succeeds, a recoded column holding a label outside its table has been expanded instead. The column itself disappears, and the row with that label gets a 1 in `<column>_<label>` |
| CleaningFacts.CleanMarksRecodedOne | main.py:55-72 | When cleaning succeeds and such a column was expanded, the rows whose label was recoded to 1 get a 1 in `<column>_1` |
| CleaningFacts.CleanExpandsText | main.py:69-74 | Every other string column is present in each survivor. When cleaning succeeds, the indicator of the row's own value is 1. Every other observed value's indicator is 0, and an underscore-free column name disappears |
| CleaningFacts.CleanKeepsNumeric | main.py:70-74 | When cleaning succeeds, a numeric column other than `G1`, `G2` and `G3` comes through unchanged |
| CleaningFacts.CleanSucceeds | main.py:25-76 | Cleaning succeeds when: every named column is present; `G3` is numeric; no column name holds an underscore; some column is still string-typed after recoding; no string column mixes values that print alike |
| Selection.Magnitude | main.py:141 | `abs` maps NaN to NaN and a number to its non-negative magnitude |
| Selection.AtLeastPreorder | main.py:141 | The descending order, with NaN after every number, is a total preorder |
| Selection.Insert | main.py:141 | Inserting into a ranked sequence keeps it ranked and adds exactly the new entry |
| Selection.Rank | main.py:141 | Sorting yields a ranked permutation of its input |
| Selection.Above | main.py:142 | The threshold filter keeps exactly the entries whose score is a number strictly above the threshold, and preserves ranking |
| Selection.AboveShrinks | main.py:142 | The filter adds no entry and keeps none more often than the input holds it |
| Selection.DropFirst | main.py:144-145 | Removing `G3` keeps every entry with another name, adds no entry, and preserves ranking |
| Selection.DropFirstShrinks | main.py:144-145 | The removal takes out at most one entry, and takes one out exactly when some entry is called `G3` |
| Selection.DropFirstRemoves | main.py:144-145 | When names are unique, no `G3` remains after the removal |
| Selection.ImportantFeatures | main.py:119-147 | The returned series is ranked and is a permutation of the magnitudes. The feature list names the entries kept by threshold and `G3` removal, in ranked order |
| Selection.SelectionOrdered | main.py:143-144 | The selected names come in order of non-increasing magnitude: they name, in order, a ranked sequence of entries that passed the threshold |
| Selection.SelectionSound | main.py:141-142 | Every selected name belongs to a column whose correlation magnitude is strictly above the threshold |
| Selection.SelectionComplete | main.py:141-145 | Every column other than `G3` whose magnitude is strictly above the threshold is selected |
| Selection.SelectionExact | main.py:119-147 | With distinct names, a name is selected exactly when it is not `G3` and its magnitude is above the threshold, and no name repeats |
| Selection.AbovePrefix | main.py:141-142 | On a ranked series, a higher threshold keeps a prefix of what a lower one keeps |
| Selection.ThresholdMonotone | main.py:119-147 | Raising the threshold yields a prefix, hence a subset, of the features selected with a lower one |
| Prediction.RecordTable | main.py:195 | A non-empty record becomes a one-row table, and an empty one a table with no rows. Its columns are the field names in order, its cells are the values, and a column is string-typed exactly when its value is a string |
| Prediction.AlignRecord | main.py:195-208 | Alignment succeeds exactly when the record is non-empty, the training column list is non-empty and the record's expansion succeeds. The error follows the order the steps raise: no-samples for an empty record, then duplicate-column for a failed expansion, then no-features for an empty training column list. The aligned row has one entry per training column |
| Prediction.AlignedOwn | main.py:198-205 | When alignment succeeds, a training column that a field becomes gets that field's number, or 1 when it is the indicator of the field's category |
| Prediction.AlignedAbsent | main.py:205 | When alignment succeeds, every other training column is filled with 0 |
| Prediction.UnseenCategoryIsZero | main.py:198-205 | For a record whose field names hold no underscore, alignment succeeds and the indicator of any category the record does not hold is 0. This includes a category never seen in training, so an unseen category gives the all-zero pattern |
| Prediction.MissingFieldIsZero | main.py:205 | When alignment succeeds, a non-indicator training column that the record does not supply is filled with 0 rather than rejected |
| Prediction.TextFieldColumnIsZero | main.py:195-205 | When alignment succeeds, a field given as a string has been expanded into an indicator, so the training column of the same name is 0 |
| Prediction.AlignSucceeds | main.py:195-217 | A non-empty record whose field names are distinct (as dictionary keys are) and hold no underscore is always aligned to a non-empty training column list, and so always gets a grade for any `estimate` (which stands for a scaler and model fitted on those columns) |
| Prediction.Clamp | main.py:214-217 | The clamped guess lies in [0, 100] |
| Prediction.ClampNearest | main.py:214-217 | The clamped guess is the point of [0, 100] nearest the guess, so a guess in range comes back unchanged |
| Prediction.ClampMonotone | main.py:214-217 | Clamping is monotone and idempotent |
| Prediction.PredictGrade | main.py:179-217 | A grade is returned exactly when alignment succeeds, and otherwise with alignment's error (no-samples, duplicate-column or no-features). It is the estimate of the aligned row clamped to [0, 100], and it always lies in that range |
| Prediction.EmptyRecordFails | main.py:195-208 | An empty record has no row for the scaler, so alignment and prediction both fail with the no-samples error, whatever the estimator |
| Prediction.EmptySchemaFails | main.py:205-208 | An empty training column list never gets a grade: reindexing leaves no column and the scaler refuses it. For a non-empty record that expands, the error is no-features |

## Left out

- Reading the CSV file (main.py:43) is left out: the model starts from the parsed table. Cells are integers or strings only, so float, boolean and NaN cells of a raw file are not modelled.
- `prepare_data` (main.py:80-115) is left out: the train/test split, column subsetting and scaling use randomness and floating point.
- `train_model` (main.py:152-176) is left out: the least-squares fit and the error metrics are floating-point numerics.
- The plotting functions after main.py:220 and the whole of app.py are presentation only.
- Computing correlations (`corr`, main.py:141) is left out. The correlations are an input to `Selection.ImportantFeatures`, given as a real number or NaN per column.
- The scaler and the model inside `predict_grade` (main.py:208-211) become the function parameter `estimate`.
- Prediction.RecordTable: it models a record with one value per field (`name: [value]`) or with no fields at all, and `Prediction.PredictGrade` returns the single guess. A record with several values per field, of which main.py:211 keeps only the first prediction, is not modelled.
- Prediction.PredictGrade: `estimate` stands for a scaler and model fitted on exactly the training columns `schema`, as app.py:466 pairs them through `X_train.columns`. The scaler's check that the columns it is given match the ones it was fitted on is not modelled, so a grade is promised only under that pairing.
- Prediction.Clamp: it does not model a NaN guess. Such a guess passes both comparisons and is returned unchanged; the estimate here is a real number.
- OneHot.Encode: when two output columns get the same name, pandas keeps both. A row here is a map and cannot hold both, so the model reports a duplicate-column error instead. In `predict_grade` this is faithful, because `reindex` refuses duplicate labels.
- Cleaning.LoadAndClean: it inherits the duplicate-column error described for OneHot.Encode, and reports only the first error pandas would raise.
- Cleaning.RecodeColumn: its dtype rule is that of pandas 2.x. Versions that no longer downcast after `replace` would keep a fully recoded column string-typed; that behaviour is not modelled.
- Cleaning.ScaleGrade: `G3 * 100 / 20` is a float in pandas. The model keeps it as an integer because the division is exact for integer grades.
- Selection.Rank: pandas' default sort does not promise an order among equal magnitudes. The model breaks ties by input order, so the feature order is proved only up to that choice.
