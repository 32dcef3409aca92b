/**
 * The handler's frame `X`, updated in place field by field, and the handler's
 * preparation of the classifier input. Each method is proved to match the
 * step-function of the same name in module Reconcile.
 */
module FeatureFrame {
  import opened Wrappers
  import opened Text
  import opened Frames
  import opened Reconcile
  import opened ReconcileProperties

  class DataFrame {
    var columns: Frame

    /** Column names stay unique, as pandas keeps them in this handler. */
    ghost predicate Valid()
      reads this
    {
      Distinct(Names(columns))
    }

    /** `pd.DataFrame([{c: 0 for c in expected}])`. */
    constructor (expected: seq<string>)
      ensures Valid()
      ensures columns == Init(expected)
    {
      columns := [];
      new;
      AddMissing(expected);
    }

    /** Appends a zero column for every listed feature that is absent, in list order. */
    method AddMissing(features: seq<string>)
      requires Valid()
      modifies this
      ensures Valid()
      ensures columns == WithMissing(old(columns), features)
    {
      WithMissingDistinct(columns, features);
      var i := 0;
      while i < |features|
        invariant 0 <= i <= |features|
        invariant columns == WithMissing(old(columns), features[..i])
      {
        assert features[..i + 1][..i] == features[..i];
        if features[i] !in Names(columns) {
          columns := columns + [Column(features[i], Num(0.0))];
        }
        i := i + 1;
      }
      assert features[..i] == features;
    }

    /** The one-hot branch: exact column, else first case-insensitive match, then append. */
    method SetDepartment(value: string)
      requires Valid()
      modifies this
      ensures Valid()
      ensures columns == DepartmentStep(old(columns), value)
    {
      DepartmentStepExtends(columns, value);
      var onehot := DepartmentPrefix + value;
      if onehot in Names(columns) {
        columns := SetCell(columns, IndexOf(Names(columns), onehot), Num(1.0));
      } else {
        ghost var start := columns;
        var target := Lower(onehot);
        var i := 0;
        while i < |columns|
          invariant 0 <= i <= |columns| == |start|
          invariant columns == start
          invariant forall j :: 0 <= j < i ==> Lower(start[j].name) != target
        {
          if Lower(columns[i].name) == target {
            assert FirstLowerMatch(Names(start), target) == Some(i);
            columns := SetCell(columns, i, Num(1.0));
            break;
          }
          i := i + 1;
        }
        assert i == |start| ==> FirstLowerMatch(Names(start), target) == None;
        if i < |start| {
          NamesSetCell(start, i, Num(1.0));
        }
        if onehot !in Names(columns) {
          columns := columns + [Column(onehot, Num(1.0))];
        }
      }
    }

    /** Any other field, already renamed to `mapped`. */
    method SetField(mapped: string, value: string)
      requires Valid()
      modifies this
      ensures Valid()
      ensures columns == FieldStep(old(columns), mapped, value)
    {
      if mapped in Names(columns) {
        columns := SetCell(columns, IndexOf(Names(columns), mapped), Str(value));
      } else {
        var lc := LowerIndex(Names(columns));
        if Lower(mapped) in lc {
          columns := SetCell(columns, IndexOf(Names(columns), lc[Lower(mapped)]), Str(value));
        }
      }
    }

    /** One submitted field: rename it, then take the department or the plain branch. */
    method Submit(f: FormField)
      requires Valid()
      modifies this
      ensures Valid()
      ensures columns == Step(old(columns), f)
    {
      var mapped := MapKey(f.key);
      if f.key == "department" || mapped == "department" {
        SetDepartment(f.value);
      } else {
        SetField(mapped, f.value);
      }
    }

    /** Tries the numeric conversion on every column in turn. */
    method ConvertNumeric(parse: string -> Option<real>)
      requires Valid()
      modifies this
      ensures Valid()
      ensures columns == ConvertAll(old(columns), parse)
    {
      var i := 0;
      while i < |columns|
        invariant 0 <= i <= |columns| == |old(columns)|
        invariant forall j :: 0 <= j < i ==> columns[j] == Column(old(columns)[j].name, ConvertCell(old(columns)[j].value, parse))
        invariant forall j :: i <= j < |columns| ==> columns[j] == old(columns)[j]
      {
        columns := columns[i := Column(columns[i].name, ConvertCell(columns[i].value, parse))];
        i := i + 1;
      }
      assert Names(columns) == Names(old(columns));
    }

    /**
     * `X = X[features]`. A feature listed twice gives two columns of that name, as in
     * pandas, so the frame's names need not stay unique afterwards.
     */
    method Reorder(features: seq<string>)
      requires forall f :: f in features ==> f in Names(columns)
      modifies this
      ensures columns == Project(old(columns), features)
    {
      columns := Project(columns, features);
    }
  }

  /**
   * Everything between reading the form and calling the classifier: the row the
   * handler passes to the model.
   */
  method PrepareInput(expected: seq<string>, form: seq<FormField>, parse: string -> Option<real>)
    returns (row: Frame)
    ensures row == PreparedInput(expected, form, parse)
  {
    var frame := new DataFrame(expected);
    var i := 0;
    while i < |form|
      invariant 0 <= i <= |form|
      invariant frame.Valid()
      invariant frame.columns == Fill(Init(expected), form[..i])
    {
      assert form[..i + 1][..i] == form[..i];
      frame.Submit(form[i]);
      i := i + 1;
    }
    assert form[..i] == form;
    frame.ConvertNumeric(parse);
    frame.AddMissing(expected);
    frame.Reorder(expected);
    row := frame.columns;
  }
}
