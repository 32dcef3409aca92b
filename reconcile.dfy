/**
 * The feature-reconciliation step of the prediction handler, as functions: how the
 * submitted form fields turn into the ordered one-row frame the classifier expects.
 * The class in frame.dfy performs the same steps in place and is proved to agree.
 */
module Reconcile {
  import opened Wrappers
  import opened Text
  import opened Frames

  /** One submitted form field. */
  datatype FormField = FormField(key: string, value: string)

  /** The feature list used when the model does not expose its own. */
  const FallbackFeatures: seq<string> := [
    "last_evaluation", "number_project", "tenure", "work_accident",
    "promotion_last_5years", "salary", "department_IT", "department_RandD",
    "department_accounting", "department_hr", "department_management",
    "department_marketing", "department_product_mng", "department_sales",
    "department_support", "department_technical", "overworked"
  ]

  /**
   * The expected features: the model's own names when it exposes them
   * (`introspected` is `None` when it does not), otherwise the fallback list.
   */
  function ExpectedFeatures(introspected: Option<seq<string>>): (r: seq<string>)
    ensures introspected.Some? ==> r == introspected.value
    ensures introspected.None? ==> |r| == 17 && Distinct(r) && "department_sales" in r
  {
    match introspected
    case Some(names) => names
    case None => FallbackFeatures
  }

  /** Form field names that differ from feature names; identity entries included. */
  const KeyMap: map<string, string> := map[
    "number_of_projects" := "number_project",
    "average_montly_hours" := "average_montly_hours",
    "time_spend_company" := "tenure",
    "work_accident" := "work_accident",
    "promotion_last_5years" := "promotion_last_5years",
    "last_evaluation" := "last_evaluation",
    "salary" := "salary",
    "department" := "department"
  ]

  /** `key_map.get(key, key)`: only two keys are really renamed. */
  function MapKey(key: string): (r: string)
    ensures r == if key == "number_of_projects" then "number_project"
                 else if key == "time_spend_company" then "tenure"
                 else key
  {
    if key in KeyMap then KeyMap[key] else key
  }

  /** Whether a field takes the one-hot department branch. */
  function IsDepartmentKey(key: string): (b: bool)
    ensures b <==> key == "department"
  {
    key == "department" || MapKey(key) == "department"
  }

  const DepartmentPrefix: string := "department_"

  /** The column a field is aimed at: the one-hot name, or the renamed key. */
  function Target(f: FormField): string {
    if IsDepartmentKey(f.key) then DepartmentPrefix + f.value else MapKey(f.key)
  }

  /**
   * `department=value`: set the exact one-hot column to 1; failing that, set the
   * first column whose lower-cased name matches and append the exact one-hot
   * column with 1.
   */
  function DepartmentStep(t: Frame, value: string): (r: Frame)
    ensures |t| <= |r| <= |t| + 1
    ensures |r| == |t| <==> DepartmentPrefix + value in Names(t)
  {
    var onehot := DepartmentPrefix + value;
    var names := Names(t);
    if onehot in names then SetCell(t, IndexOf(names, onehot), Num(1.0))
    else
      var marked := match FirstLowerMatch(names, Lower(onehot))
                    case Some(i) => SetCell(t, i, Num(1.0))
                    case None => t;
      marked + [Column(onehot, Num(1.0))]
  }

  /**
   * Any other field: store the raw string in the exact column; failing that, in
   * the column the lower-cased-name index gives; failing that, ignore the field.
   */
  function FieldStep(t: Frame, mapped: string, value: string): (r: Frame)
    ensures Names(r) == Names(t)
  {
    var names := Names(t);
    if mapped in names then SetCell(t, IndexOf(names, mapped), Str(value))
    else
      var lc := LowerIndex(names);
      if Lower(mapped) in lc then SetCell(t, IndexOf(names, lc[Lower(mapped)]), Str(value))
      else t
  }

  /** One iteration of the loop over the submitted fields. */
  function Step(t: Frame, f: FormField): (r: Frame)
    ensures |t| <= |r| <= |t| + 1
    ensures !IsDepartmentKey(f.key) ==> Names(r) == Names(t)
  {
    if IsDepartmentKey(f.key) then DepartmentStep(t, f.value)
    else FieldStep(t, MapKey(f.key), f.value)
  }

  /** The whole loop over the submitted fields, in submission order. */
  function Fill(t: Frame, form: seq<FormField>): (r: Frame)
    ensures |t| <= |r| <= |t| + |form|
  {
    if form == [] then t else Step(Fill(t, form[..|form| - 1]), form[|form| - 1])
  }

  /** `pd.to_numeric` on a one-row column: numbers stay, strings convert or stay as they were. */
  function ConvertCell(c: Cell, parse: string -> Option<real>): (r: Cell)
    ensures c.Num? ==> r == c
    ensures r.Num? || r == c
  {
    match c
    case Num(_) => c
    case Str(s) => match parse(s)
      case Some(x) => Num(x)
      case None => c
  }

  /** The per-column conversion pass: each column on its own, names untouched. */
  function ConvertAll(t: Frame, parse: string -> Option<real>): (r: Frame)
    ensures Names(r) == Names(t)
  {
    seq(|t|, i requires 0 <= i < |t| => Column(t[i].name, ConvertCell(t[i].value, parse)))
  }

  /**
   * Appends, in order, a zero column for every feature not yet present. This is
   * both the dict comprehension that builds the initial frame and the backfill.
   */
  function WithMissing(t: Frame, features: seq<string>): (r: Frame)
    ensures |t| <= |r| && r[..|t|] == t
    ensures forall f :: f in features ==> f in Names(r)
    ensures forall j :: |t| <= j < |r| ==> r[j].value == Num(0.0) && r[j].name in features
  {
    if features == [] then t
    else
      var b := WithMissing(t, features[..|features| - 1]);
      var f := features[|features| - 1];
      if f in Names(b) then b
      else
        NamesAppend(b, Column(f, Num(0.0)));
        b + [Column(f, Num(0.0))]
  }

  /** The initial frame: every expected feature, once, with value 0. */
  function Init(expected: seq<string>): (r: Frame)
    ensures forall f :: f in expected ==> f in Names(r)
    ensures forall j :: 0 <= j < |r| ==> r[j].value == Num(0.0) && r[j].name in expected
  {
    WithMissing([], expected)
  }

  /**
   * `X[features]`: exactly the listed columns, in the listed order, each carrying the
   * cell the frame has under that name. A feature listed twice gives two columns of the
   * same name, as pandas does.
   */
  function Project(t: Frame, features: seq<string>): (r: Frame)
    requires forall f :: f in features ==> f in Names(t)
    ensures Names(r) == features
    ensures forall i :: 0 <= i < |r| ==> r[i] in t
  {
    seq(|features|, i requires 0 <= i < |features| =>
      Column(features[i], t[IndexOf(Names(t), features[i])].value))
  }

  /** The row handed to the classifier. */
  function PreparedInput(expected: seq<string>, form: seq<FormField>, parse: string -> Option<real>): (r: Frame)
    ensures Names(r) == expected
  {
    var filled := Fill(Init(expected), form);
    var converted := ConvertAll(filled, parse);
    Project(WithMissing(converted, expected), expected)
  }
}
