# Feature reconciliation of the employee flight-risk predictor

The prediction handler of this Flask application receives an employee's form fields.
It builds the one-row feature frame that the trained classifier expects, then turns
the classifier's probability into one of two labels. This project models that
reconciliation step and the label choice, and proves what they guarantee.

The model follows the handler step by step:

- **Expected features.** The model's own feature names are used when it exposes them.
  Otherwise a fixed list of 17 names is used (`Reconcile.ExpectedFeatures`).
- **Initial frame.** Every expected feature is present once, with value 0.
  Duplicates collapse, as they do in a Python dict (`Reconcile.Init`).
- **Loop over the submitted fields, in order** (`Reconcile.Step`, `Reconcile.Fill`):
  - A key is renamed through the static key map, with identity as the default.
  - `department=v` is one-hot encoded as `department_v`. The exact column is tried
    first. If it is absent, the first column whose lower-cased name matches is set
    to 1, and a column named exactly `department_v` is appended.
  - Any other field stores its raw string in the exact column. If there is none, it
    goes to the column found through an index keyed by lower-cased name, where the
    last column wins. If there is no match at all, the field is ignored.
- **Numeric conversion**, column by column. A failed conversion leaves that column
  as it was (`Reconcile.ConvertAll`).
- **Backfill** of absent expected features, then **projection** onto exactly the
  expected list (`Reconcile.WithMissing`, `Reconcile.Project`).
- **Label.** "Employee is at Flight risk" exactly when the probability is strictly
  above 0.7 (`RiskLabel.Label`).

The pandas frame `X`, which the handler updates in place, is the class
`FeatureFrame.DataFrame`. Its field `columns` is an ordered sequence of
(name, cell) pairs. Each method is proved to leave `columns` equal to the
corresponding function of module `Reconcile` applied to the old state. The method
`FeatureFrame.PrepareInput` runs the whole handler up to the classifier call. It is
proved to return `Reconcile.PreparedInput`, and the lemmas of module
`ReconcileProperties` are proved about that function.

Files: `wrappers.dfy` (Option), `text.dfy` (ASCII lower-casing), `frames.dfy`
(cells, columns, lookups), `reconcile.dfy` (the steps as functions), `properties.dfy`
(lemmas), `frame.dfy` (the in-place frame and the handler), `label.dfy` (the label), `scenarios.dfy` (department scenarios on the fallback list).

Several lemmas speak of a field's *target*: for `department=v` it is `department_v`,
and for any other field it is the renamed key (`Reconcile.Target`). A field can only
change a column whose lower-cased name equals the lower-cased target.

Three details of the handler decide the results below:

- The one-hot branch appends the exact `department_v` column even after a
  case-insensitive match has set another column to 1, so appending is not a last resort.
- The case-insensitive lookup for plain fields picks the LAST column with that
  lower-cased name. The department scan picks the FIRST.
- The one-hot and exact matches test the frame's current columns, not the expected list.

A notable consequence is proved in `UnknownDepartmentIsLost`. Suppose no expected
column matches `department_v`, even ignoring case. Then the prepared row is exactly
the row for the same form without the department field. The synthesized column is
dropped by the projection, so the department is silently lost.

## Model

| member | source | states |
|---|---|---|
| Reconcile.ExpectedFeatures | app.py:25-35 | the model's names when it exposes them; otherwise a fallback of 17 distinct names that includes `department_sales` |
| Reconcile.MapKey | app.py:42-55 | `key_map.get(key, key)` renames only `number_of_projects` to `number_project` and `time_spend_company` to `tenure`; every other key maps to itself |
| Reconcile.IsDepartmentKey | app.py:58 | the one-hot branch is taken exactly when the submitted key is `department` |
| Text.Lower | app.py:68 | lower-casing keeps the length, maps each character by itself, and leaves no ASCII capital |
| Frames.FirstLowerMatch | app.py:67-70 | the scan with `break` finds the first column in order whose lower-cased name matches, or reports that none does |
| Frames.LowerIndex | app.py:81 | every entry of the lower-cased index maps a lower-cased name to a real column with that lower-cased name |
| Frames.LowerIndexIsLastMatch | app.py:81-83 | the index has an entry exactly when some column matches, and the entry is the last matching column |
| Reconcile.Init | app.py:38 | every expected feature is a column, every column is an expected feature and every cell is 0; InitShape adds unique names and the list's order |
| ReconcileProperties.InitShape | app.py:38 | the initial frame has unique names, exactly the expected features, all cells 0, and for a duplicate-free list the list's own order |
| Reconcile.WithMissing | app.py:100-102 | the backfill keeps the existing columns as a prefix, makes every listed feature present, and appends only zero columns of listed features |
| ReconcileProperties.WithMissingNoop | app.py:100-102 | when every feature is present, the backfill changes nothing |
| Reconcile.DepartmentStep | app.py:58-74 | the one-hot branch adds no column exactly when `department_v` is already a column, and at most one otherwise; DepartmentExactMatch and DepartmentNoExactMatch give every cell |
| ReconcileProperties.DepartmentStepExtends | app.py:58-74 | the one-hot branch keeps the old columns' names in place and keeps names unique |
| Reconcile.FieldStep | app.py:76-86 | a plain field never adds, removes or renames a column; FieldStepCases gives every cell |
| Reconcile.Step | app.py:54-86 | one iteration adds at most one column, and none for a plain field; StepExtends and StepOnlyTouchesTarget say which columns it changes |
| Reconcile.Fill | app.py:54-86 | the loop adds at most one column per submitted field and removes none; FillExtends and FillUntouched say which columns and cells it changes |
| ReconcileProperties.StepExtends | app.py:54-86 | one field never removes or renames a column; a plain field adds none, the department branch adds at most one; names stay unique |
| ReconcileProperties.StepOnlyTouchesTarget | app.py:54-86 | one field changes only columns whose lower-cased name equals that of the field's target column |
| ReconcileProperties.DepartmentExactMatch | app.py:61-63 | if `department_v` is a column, that column becomes 1 and no other column changes |
| ReconcileProperties.DepartmentNoExactMatch | app.py:64-73 | otherwise the first case-insensitive match becomes 1, every other column is unchanged, and `department_v` is appended with value 1 |
| ReconcileProperties.FieldStepCases | app.py:76-86 | a plain field's raw string goes to the exact column; failing that, to the last case-insensitive match; failing that, the frame is unchanged |
| ReconcileProperties.FillExtends | app.py:54-86 | the loop only appends columns, keeps names unique, and appends none when no field is `department` |
| ReconcileProperties.FillUntouched | app.py:54-86 | a column that no field targets, even up to case, keeps its cell through the whole loop |
| ReconcileProperties.ExpectedPresentThroughout | app.py:38-86 | every expected feature is a column after any prefix of the loop |
| Reconcile.ConvertCell | app.py:93-97 | a numeric cell stays as it is; any other cell either becomes a number or stays as it was, so a failed conversion changes nothing |
| Reconcile.ConvertAll | app.py:92-97 | the conversion pass keeps every column name and position |
| ReconcileProperties.ConvertIsColumnwise | app.py:92-97 | each column converts on its own: a numeric cell or a string that does not parse stays as it was; a parsing string becomes that number |
| ReconcileProperties.ConvertIdempotent | app.py:92-97 | a second conversion pass changes nothing |
| ReconcileProperties.BackfillChangesNothing | app.py:92-102 | after the loop and the conversion, the backfill has nothing to add |
| Reconcile.Project | app.py:105 | the projected row's column names are exactly the expected list, in order, and every projected column is a column of the frame, name and cell |
| ReconcileProperties.PreparedCellAt | app.py:54-105 | whatever the loop leaves in an expected feature's column (a 0, a one-hot 1, a submitted string) reaches that feature's place in the prepared row, passed through the conversion |
| Reconcile.PreparedInput | app.py:37-105 | the prepared row's column names are exactly the expected list; its cells are given by PreparedCellAt, UntouchedFeatureIsZero, KnownDepartmentIsOne and UnknownDepartmentIsLost |
| ReconcileProperties.UntouchedFeatureIsZero | app.py:38-105 | an expected feature that no field targets, even up to case, is 0 in the prepared row |
| ReconcileProperties.KnownDepartmentIsOne | app.py:54-105 | after `department=v` with `department_v` expected, that column is 1 in the prepared row unless a later field targets it |
| ReconcileProperties.UnknownDepartmentIsLost | app.py:58-105 | a department matching no expected column, even up to case, yields the same row as the form without it |
| Scenarios.SalesDepartment | app.py:29-105 | with the fallback list and only `department=sales`, `department_sales` is 1 and every other feature is 0 |
| Scenarios.UnknownDepartmentAllZero | app.py:29-105 | with the fallback list and only `department=unknown_dept`, no column matches and every feature is 0 |
| FeatureFrame.DataFrame.constructor | app.py:38 | the new frame is the initial frame, with unique names |
| FeatureFrame.DataFrame.AddMissing | app.py:100-102 | the loop appends exactly the absent features, in order, as `WithMissing` describes, and keeps names unique |
| FeatureFrame.DataFrame.SetDepartment | app.py:58-74 | the in-place one-hot branch, including the scan loop with `break`, leaves the frame equal to `DepartmentStep` of the old frame and keeps names unique |
| FeatureFrame.DataFrame.SetField | app.py:76-86 | the in-place plain-field branch leaves the frame equal to `FieldStep` of the old frame and keeps names unique |
| FeatureFrame.DataFrame.Submit | app.py:54-58 | one loop iteration leaves the frame equal to `Step` of the old frame and keeps names unique |
| FeatureFrame.DataFrame.ConvertNumeric | app.py:92-97 | the in-place per-column conversion loop leaves the frame equal to `ConvertAll` of the old frame |
| FeatureFrame.DataFrame.Reorder | app.py:105 | the frame becomes the projection of the old frame onto the feature list |
| FeatureFrame.PrepareInput | app.py:37-105 | the row the handler hands to the classifier is `PreparedInput` of the expected list, the form and the parser |
| RiskLabel.Label | app.py:124-125 | "at Flight risk" exactly when the probability is strictly above 0.7; "not at Flight Risk" exactly when it is at most 0.7 |
| RiskLabel.LabelMonotonic | app.py:124-125 | a probability at least as high as an at-risk one is also at risk |
| RiskLabel.LabelAroundThreshold | app.py:124-125 | just above the threshold (0.75) is at risk; at it (0.7) and just below it (0.65) is not |

## Left out

- Flask routing, the home page, template rendering and starting the server: web plumbing.
- Loading the pickled model from disk: I/O. Whether the model exposes feature names is
  the `Option` passed to `ExpectedFeatures`.
- The calls to `predict_proba` / `predict` and the path that turns an exception into an
  error message: opaque calls into the trained classifier. The probability is an input of `Label`.
- The replacement of infinities and the fill of missing values before conversion, and
  the three-decimal formatting of the probability: floating-point semantics and
  formatting. Numbers are exact `real`s.
- The parsing rules of `pd.to_numeric` and pandas dtypes. Conversion is a parameter
  `parse: string -> Option<real>`. A numeric cell is kept as it is; a string cell
  becomes a number or stays unchanged.
- Text.Lower: lower-cases ASCII letters only, whereas Python's `str.lower()` also folds
  non-ASCII letters.
- The debugging prints of the form, the ignored fields, the prepared frame and the result.
- The form is a sequence of (key, value) pairs taken in order, one value per key. How
  Flask builds it from a request is not modelled. The lemmas about the department field
  require it to be submitted once.
- Reconcile.Project: requires every listed feature to be present, where pandas would
  raise a KeyError. The handler always meets this after the backfill, as
  `BackfillChangesNothing` and `ExpectedPresentThroughout` show.
