/** What the reconciliation step guarantees, proved about the functions of module Reconcile. */
module ReconcileProperties {
  import opened Wrappers
  import opened Text
  import opened Frames
  import opened Reconcile

  // ---------------------------------------------------------------- the initial frame

  /** Adding missing features never introduces a duplicate column name. */
  lemma {:induction false} WithMissingDistinct(t: Frame, features: seq<string>)
    requires Distinct(Names(t))
    ensures Distinct(Names(WithMissing(t, features)))
  {
    if features != [] {
      var init := features[..|features| - 1];
      var f := features[|features| - 1];
      WithMissingDistinct(t, init);
      var b := WithMissing(t, init);
      if f !in Names(b) {
        NamesAppend(b, Column(f, Num(0.0)));
        DistinctAppend(Names(b), f);
      }
    }
  }

  /** When every feature is already present, adding missing ones changes nothing. */
  lemma {:induction false} WithMissingNoop(t: Frame, features: seq<string>)
    requires forall f :: f in features ==> f in Names(t)
    ensures WithMissing(t, features) == t
  {
    if features != [] {
      var init := features[..|features| - 1];
      assert forall f :: f in init ==> f in features;
      WithMissingNoop(t, init);
    }
  }

  /** Distinct features none of which is present are appended in their own order. */
  lemma {:induction false} WithMissingAppendsAll(t: Frame, features: seq<string>)
    requires Distinct(features)
    requires forall f :: f in features ==> f !in Names(t)
    ensures Names(WithMissing(t, features)) == Names(t) + features
  {
    if features != [] {
      var init := features[..|features| - 1];
      var f := features[|features| - 1];
      assert features == init + [f];
      assert Distinct(init) by {
        forall a, b | 0 <= a < b < |init| ensures init[a] != init[b] {
          assert init[a] == features[a] && init[b] == features[b];
        }
      }
      assert forall g :: g in init ==> g in features;
      WithMissingAppendsAll(t, init);
      var b := WithMissing(t, init);
      assert f !in Names(b) by {
        assert f !in init;
      }
      NamesAppend(b, Column(f, Num(0.0)));
    }
  }

  /**
   * The initial frame holds every expected feature exactly once, each with value 0,
   * and, for a duplicate-free list, in the list's own order.
   */
  lemma InitShape(expected: seq<string>)
    ensures Distinct(Names(Init(expected)))
    ensures forall f :: f in Names(Init(expected)) <==> f in expected
    ensures forall j :: 0 <= j < |Init(expected)| ==> Init(expected)[j].value == Num(0.0)
    ensures Distinct(expected) ==> Names(Init(expected)) == expected
  {
    WithMissingDistinct([], expected);
    var r := Init(expected);
    forall f | f in Names(r) ensures f in expected {
      var j :| 0 <= j < |r| && Names(r)[j] == f;
    }
    if Distinct(expected) {
      WithMissingAppendsAll([], expected);
    }
  }

  // ---------------------------------------------------------------- one step

  /** The department branch keeps the old columns' names as a prefix and names unique. */
  lemma DepartmentStepExtends(t: Frame, value: string)
    ensures Names(DepartmentStep(t, value))[..|t|] == Names(t)
    ensures Distinct(Names(t)) ==> Distinct(Names(DepartmentStep(t, value)))
  {
    var names := Names(t);
    var onehot := DepartmentPrefix + value;
    if onehot in names {
      NamesSetCell(t, IndexOf(names, onehot), Num(1.0));
    } else {
      var marked := match FirstLowerMatch(names, Lower(onehot))
                    case Some(i) => SetCell(t, i, Num(1.0))
                    case None => t;
      assert Names(marked) == names;
      NamesAppend(marked, Column(onehot, Num(1.0)));
      if Distinct(names) {
        DistinctAppend(names, onehot);
      }
    }
  }

  /**
   * One field never removes or renames a column: the old columns keep their names and
   * positions, a plain field adds none, the department branch adds at most one, and
   * names stay unique.
   */
  lemma StepExtends(t: Frame, f: FormField)
    ensures |t| <= |Step(t, f)| <= |t| + 1
    ensures Names(Step(t, f))[..|t|] == Names(t)
    ensures !IsDepartmentKey(f.key) ==> Names(Step(t, f)) == Names(t)
    ensures Distinct(Names(t)) ==> Distinct(Names(Step(t, f)))
  {
    if IsDepartmentKey(f.key) {
      DepartmentStepExtends(t, f.value);
    }
  }

  /** One field changes only columns whose lower-cased name is that of its target. */
  lemma StepOnlyTouchesTarget(t: Frame, f: FormField, i: nat)
    requires i < |t| && Lower(t[i].name) != Lower(Target(f))
    ensures i < |Step(t, f)| && Step(t, f)[i] == t[i]
  {
    StepExtends(t, f);
  }

  /** Department field whose one-hot column exists: that column becomes 1, nothing else changes. */
  lemma DepartmentExactMatch(t: Frame, value: string)
    requires Distinct(Names(t)) && DepartmentPrefix + value in Names(t)
    ensures |DepartmentStep(t, value)| == |t|
    ensures forall j :: 0 <= j < |t| ==>
      DepartmentStep(t, value)[j] ==
        if t[j].name == DepartmentPrefix + value then Column(t[j].name, Num(1.0)) else t[j]
  {
    var k := IndexOf(Names(t), DepartmentPrefix + value);
    forall j | 0 <= j < |t| && t[j].name == DepartmentPrefix + value ensures j == k {
      IndexOfDistinct(Names(t), j);
    }
  }

  /**
   * Department field whose one-hot column does not exist: the first column whose
   * lower-cased name matches becomes 1, the others are unchanged, and a column with
   * exactly the one-hot name and value 1 is appended.
   */
  lemma DepartmentNoExactMatch(t: Frame, value: string)
    requires DepartmentPrefix + value !in Names(t)
    ensures |DepartmentStep(t, value)| == |t| + 1
    ensures DepartmentStep(t, value)[|t|] == Column(DepartmentPrefix + value, Num(1.0))
    ensures forall j :: 0 <= j < |t| ==>
      DepartmentStep(t, value)[j] ==
        if FirstLowerMatch(Names(t), Lower(DepartmentPrefix + value)) == Some(j)
        then Column(t[j].name, Num(1.0)) else t[j]
  {
  }

  /**
   * A plain field (already renamed to `mapped`) goes to the column of that name; failing
   * that, to the LAST column whose lower-cased name matches; failing that, nowhere.
   */
  lemma FieldStepCases(t: Frame, mapped: string, value: string)
    requires Distinct(Names(t))
    ensures |FieldStep(t, mapped, value)| == |t|
    ensures mapped in Names(t) ==> forall j :: 0 <= j < |t| ==>
      FieldStep(t, mapped, value)[j] == if t[j].name == mapped then Column(mapped, Str(value)) else t[j]
    ensures mapped !in Names(t) && LastLowerMatch(Names(t), Lower(mapped)).Some? ==> forall j :: 0 <= j < |t| ==>
      FieldStep(t, mapped, value)[j] ==
        if j == LastLowerMatch(Names(t), Lower(mapped)).value then Column(t[j].name, Str(value)) else t[j]
    ensures mapped !in Names(t) && LastLowerMatch(Names(t), Lower(mapped)).None? ==>
      FieldStep(t, mapped, value) == t
  {
    var names := Names(t);
    if mapped in names {
      var k := IndexOf(names, mapped);
      forall j | 0 <= j < |t| && t[j].name == mapped ensures j == k {
        IndexOfDistinct(names, j);
      }
    } else {
      LowerIndexIsLastMatch(names, Lower(mapped));
      var m := LastLowerMatch(names, Lower(mapped));
      if m.Some? {
        IndexOfDistinct(names, m.value);
      }
    }
  }

  // ---------------------------------------------------------------- the loop over the form

  lemma {:induction false} FillConcat(t: Frame, a: seq<FormField>, b: seq<FormField>)
    ensures Fill(t, a + b) == Fill(Fill(t, a), b)
  {
    if b == [] {
      assert a + b == a;
    } else {
      assert (a + b)[..|a + b| - 1] == a + b[..|b| - 1];
      FillConcat(t, a, b[..|b| - 1]);
    }
  }

  /** The loop only ever appends columns; without a department field it appends none. */
  lemma {:induction false} FillExtends(t: Frame, form: seq<FormField>)
    ensures |t| <= |Fill(t, form)|
    ensures Names(Fill(t, form))[..|t|] == Names(t)
    ensures Distinct(Names(t)) ==> Distinct(Names(Fill(t, form)))
    ensures (forall k :: 0 <= k < |form| ==> !IsDepartmentKey(form[k].key)) ==> Names(Fill(t, form)) == Names(t)
  {
    if form != [] {
      var init := form[..|form| - 1];
      FillExtends(t, init);
      var b := Fill(t, init);
      StepExtends(b, form[|form| - 1]);
      assert Names(Fill(t, form))[..|t|] == Names(Fill(t, form))[..|b|][..|t|];
      if forall k :: 0 <= k < |form| ==> !IsDepartmentKey(form[k].key) {
        assert forall k :: 0 <= k < |init| ==> init[k] == form[k];
      }
    }
  }

  /** A column that no field is aimed at (up to case) keeps its cell through the loop. */
  lemma {:induction false} FillUntouched(t: Frame, form: seq<FormField>, i: nat)
    requires i < |t|
    requires forall k :: 0 <= k < |form| ==> Lower(Target(form[k])) != Lower(t[i].name)
    ensures i < |Fill(t, form)| && Fill(t, form)[i] == t[i]
  {
    if form != [] {
      var init := form[..|form| - 1];
      assert forall k :: 0 <= k < |init| ==> init[k] == form[k];
      FillUntouched(t, init, i);
      StepOnlyTouchesTarget(Fill(t, init), form[|form| - 1], i);
    }
  }

  /** Every expected feature is a column before, during and after the loop. */
  lemma ExpectedPresentThroughout(expected: seq<string>, form: seq<FormField>)
    ensures forall f :: f in expected ==> f in Names(Fill(Init(expected), form))
  {
    var t := Init(expected);
    FillExtends(t, form);
    var n := Names(Fill(t, form));
    forall f | f in expected ensures f in n {
      var j := IndexOf(Names(t), f);
      assert n[..|t|][j] == f;
    }
  }

  /** The backfill after the conversion pass never has anything to add. */
  lemma BackfillChangesNothing(expected: seq<string>, form: seq<FormField>, parse: string -> Option<real>)
    ensures WithMissing(ConvertAll(Fill(Init(expected), form), parse), expected)
         == ConvertAll(Fill(Init(expected), form), parse)
  {
    ExpectedPresentThroughout(expected, form);
    WithMissingNoop(ConvertAll(Fill(Init(expected), form), parse), expected);
  }

  // ---------------------------------------------------------------- numeric conversion

  /**
   * Conversion acts on each column by itself: a column that is already numeric, or whose
   * string does not parse, keeps its cell; a parsing string becomes that number.
   */
  lemma ConvertIsColumnwise(t: Frame, parse: string -> Option<real>, i: nat)
    requires i < |t|
    ensures |ConvertAll(t, parse)| == |t|
    ensures t[i].value.Num? ==> ConvertAll(t, parse)[i] == t[i]
    ensures t[i].value.Str? && parse(t[i].value.s).None? ==> ConvertAll(t, parse)[i] == t[i]
    ensures t[i].value.Str? && parse(t[i].value.s).Some? ==>
      ConvertAll(t, parse)[i] == Column(t[i].name, Num(parse(t[i].value.s).value))
  {
  }

  /** A second conversion pass has nothing left to convert. */
  lemma ConvertIdempotent(t: Frame, parse: string -> Option<real>)
    ensures ConvertAll(ConvertAll(t, parse), parse) == ConvertAll(t, parse)
  {
    var c := ConvertAll(t, parse);
    forall i | 0 <= i < |t| ensures ConvertAll(c, parse)[i] == c[i] {
      ConvertIsColumnwise(t, parse, i);
      ConvertIsColumnwise(c, parse, i);
    }
  }

  // ---------------------------------------------------------------- the prepared row

  /** Projection only looks at columns that some prefix of the frame already has. */
  lemma ProjectPrefix(t1: Frame, t2: Frame, features: seq<string>)
    requires |t2| <= |t1| && t1[..|t2|] == t2
    requires forall f :: f in features ==> f in Names(t2)
    ensures forall f :: f in features ==> f in Names(t1)
    ensures Project(t1, features) == Project(t2, features)
  {
    NamesPrefix(t1, |t2|);
    forall f | f in features ensures f in Names(t1) && IndexOf(Names(t1), f) == IndexOf(Names(t2), f) {
      IndexOfPrefix(Names(t1), Names(t2), f);
    }
    forall i | 0 <= i < |features| ensures Project(t1, features)[i] == Project(t2, features)[i] {
      assert features[i] in features;
      var k := IndexOf(Names(t2), features[i]);
      assert t1[k] == t1[..|t2|][k];
    }
  }

  lemma FillOne(t: Frame, f: FormField)
    ensures Fill(t, [f]) == Step(t, f)
  {
    assert [f][..0] == [];
  }

  /** The loop over `pre + [f] + post` is the loop over `pre`, the step for `f`, then `post`. */
  lemma FillAround(t: Frame, pre: seq<FormField>, f: FormField, post: seq<FormField>)
    ensures Fill(t, pre + [f] + post) == Fill(Step(Fill(t, pre), f), post)
  {
    FillConcat(t, pre, [f]);
    FillConcat(t, pre + [f], post);
    FillOne(Fill(t, pre), f);
  }

  /**
   * Whatever the loop leaves in the column of an expected feature (a 0, a one-hot 1 or a
   * submitted string) reaches that feature's place in the prepared row, converted.
   */
  lemma PreparedCellAt(expected: seq<string>, form: seq<FormField>, parse: string -> Option<real>,
                       i: nat, k: nat)
    requires i < |expected|
    requires k < |Init(expected)| && Init(expected)[k].name == expected[i]
    ensures k < |Fill(Init(expected), form)|
    ensures PreparedInput(expected, form, parse)[i]
         == Column(expected[i], ConvertCell(Fill(Init(expected), form)[k].value, parse))
  {
    var t := Init(expected);
    InitShape(expected);
    IndexOfDistinct(Names(t), k);
    var filled := Fill(t, form);
    FillExtends(t, form);
    assert Names(filled)[k] == Names(filled)[..|t|][k];
    var converted := ConvertAll(filled, parse);
    BackfillChangesNothing(expected, form, parse);
    IndexOfPrefix(Names(converted), Names(t), expected[i]);
  }

  /**
   * An expected feature that no submitted field is aimed at, even up to case, is 0 in
   * the prepared row, so a missing form field silently becomes 0.
   */
  lemma UntouchedFeatureIsZero(expected: seq<string>, form: seq<FormField>, parse: string -> Option<real>, i: nat)
    requires i < |expected|
    requires forall k :: 0 <= k < |form| ==> Lower(Target(form[k])) != Lower(expected[i])
    ensures PreparedInput(expected, form, parse)[i] == Column(expected[i], Num(0.0))
  {
    var t := Init(expected);
    InitShape(expected);
    var k := IndexOf(Names(t), expected[i]);
    FillUntouched(t, form, k);
    PreparedCellAt(expected, form, parse, i, k);
  }

  /**
   * `department=value` with an expected one-hot column `department_value`: that column
   * is 1 in the prepared row, provided no later field is aimed at it.
   */
  lemma KnownDepartmentIsOne(expected: seq<string>, pre: seq<FormField>, value: string,
                             post: seq<FormField>, parse: string -> Option<real>, i: nat)
    requires i < |expected| && expected[i] == DepartmentPrefix + value
    requires forall k :: 0 <= k < |post| ==> Lower(Target(post[k])) != Lower(expected[i])
    ensures PreparedInput(expected, pre + [FormField("department", value)] + post, parse)[i]
         == Column(expected[i], Num(1.0))
  {
    var onehot := expected[i];
    var dept := FormField("department", value);
    var t := Init(expected);
    InitShape(expected);
    var s := Fill(t, pre);
    FillExtends(t, pre);
    IndexOfPrefix(Names(s), Names(t), onehot);
    var k := IndexOf(Names(t), onehot);
    var d := Step(s, dept);
    assert d == SetCell(s, k, Num(1.0));
    FillUntouched(d, post, k);
    FillAround(t, pre, dept, post);
    PreparedCellAt(expected, pre + [dept] + post, parse, i, k);
  }

  /**
   * The frame with the synthesized department column (`t1`) against the frame without
   * it (`t2`): the same columns, plus one trailing column whose lower-cased name `low`
   * no other column has.
   */
  ghost predicate Shadows(t1: Frame, t2: Frame, low: string) {
    && |t1| == |t2| + 1
    && t1[..|t2|] == t2
    && Lower(t1[|t2|].name) == low
    && forall j :: 0 <= j < |t2| ==> Lower(t2[j].name) != low
  }

  /** How the names and the lower-cased index of the two frames relate. */
  lemma ShadowsNames(t1: Frame, t2: Frame, low: string)
    requires Shadows(t1, t2, low)
    ensures Names(t1) == Names(t2) + [t1[|t2|].name]
    ensures t1[|t2|].name !in Names(t2)
    ensures IndexOf(Names(t1), t1[|t2|].name) == |t2|
    ensures LowerIndex(Names(t1)) == LowerIndex(Names(t2))[low := t1[|t2|].name]
    ensures low !in LowerIndex(Names(t2))
  {
    var n1, n2 := Names(t1), Names(t2);
    forall j | 0 <= j < |t2| ensures n1[j] == n2[j] {
      assert t1[j] == t1[..|t2|][j];
    }
    assert n1 == n2 + [t1[|t2|].name];
    assert n1[..|n1| - 1] == n2;
  }

  lemma ShadowsSameColumn(t1: Frame, t2: Frame, low: string, k: nat, c: Cell)
    requires Shadows(t1, t2, low) && k < |t2|
    ensures Shadows(SetCell(t1, k, c), SetCell(t2, k, c), low)
  {
    assert SetCell(t1, k, c)[..|t2|] == SetCell(t2, k, c);
  }

  lemma ShadowsExtraColumn(t1: Frame, t2: Frame, low: string, c: Cell)
    requires Shadows(t1, t2, low)
    ensures Shadows(SetCell(t1, |t2|, c), t2, low)
  {
    assert SetCell(t1, |t2|, c)[..|t2|] == t2;
  }

  /** A plain field lands on the same column in both frames, or on the extra one only. */
  lemma ShadowsFieldStep(t1: Frame, t2: Frame, low: string, mapped: string, value: string)
    requires Shadows(t1, t2, low)
    ensures Shadows(FieldStep(t1, mapped, value), FieldStep(t2, mapped, value), low)
  {
    ShadowsNames(t1, t2, low);
    var n1, n2 := Names(t1), Names(t2);
    var x := t1[|t2|].name;
    assert n1[..|n2|] == n2;
    if mapped in n2 {
      IndexOfPrefix(n1, n2, mapped);
      ShadowsSameColumn(t1, t2, low, IndexOf(n2, mapped), Str(value));
    } else if mapped == x || Lower(mapped) == low {
      assert FieldStep(t2, mapped, value) == t2;
      assert FieldStep(t1, mapped, value) == SetCell(t1, |t2|, Str(value));
      ShadowsExtraColumn(t1, t2, low, Str(value));
    } else if Lower(mapped) in LowerIndex(n2) {
      var y := LowerIndex(n2)[Lower(mapped)];
      IndexOfPrefix(n1, n2, y);
      ShadowsSameColumn(t1, t2, low, IndexOf(n2, y), Str(value));
    }
  }

  lemma {:induction false} ShadowsFill(t1: Frame, t2: Frame, low: string, form: seq<FormField>)
    requires Shadows(t1, t2, low)
    requires forall k :: 0 <= k < |form| ==> form[k].key != "department"
    ensures Shadows(Fill(t1, form), Fill(t2, form), low)
  {
    if form != [] {
      var init := form[..|form| - 1];
      var f := form[|form| - 1];
      assert forall k :: 0 <= k < |init| ==> init[k] == form[k];
      ShadowsFill(t1, t2, low, init);
      ShadowsFieldStep(Fill(t1, init), Fill(t2, init), low, MapKey(f.key), f.value);
    }
  }

  /** A department with no column matching its one-hot name, even up to case, only appends it. */
  lemma UnmatchedDepartmentAppends(s: Frame, value: string)
    requires forall j :: 0 <= j < |s| ==> Lower(s[j].name) != Lower(DepartmentPrefix + value)
    ensures Shadows(Step(s, FormField("department", value)), s, Lower(DepartmentPrefix + value))
  {
    var onehot := DepartmentPrefix + value;
    assert onehot !in Names(s);
    var d := Step(s, FormField("department", value));
    assert d == s + [Column(onehot, Num(1.0))];
    assert d[..|s|] == s;
  }

  /** Conversion, backfill and projection cannot see the extra column. */
  lemma ShadowsPrepare(f1: Frame, f2: Frame, low: string, expected: seq<string>, parse: string -> Option<real>)
    requires Shadows(f1, f2, low)
    requires forall f :: f in expected ==> f in Names(f2)
    ensures Project(WithMissing(ConvertAll(f1, parse), expected), expected)
         == Project(WithMissing(ConvertAll(f2, parse), expected), expected)
  {
    var c1, c2 := ConvertAll(f1, parse), ConvertAll(f2, parse);
    assert c1[..|c2|] == c2;
    ProjectPrefix(c1, c2, expected);
    WithMissingNoop(c1, expected);
    WithMissingNoop(c2, expected);
  }

  /**
   * A department none of whose expected columns matches `department_value`, even up to
   * case, leaves no trace: the prepared row is the one the same form without the
   * department field gives. The synthesized column is dropped by the projection.
   */
  lemma UnknownDepartmentIsLost(expected: seq<string>, pre: seq<FormField>, value: string,
                                post: seq<FormField>, parse: string -> Option<real>)
    requires forall f :: f in expected ==> Lower(f) != Lower(DepartmentPrefix + value)
    requires forall k :: 0 <= k < |pre| ==> pre[k].key != "department"
    requires forall k :: 0 <= k < |post| ==> post[k].key != "department"
    ensures PreparedInput(expected, pre + [FormField("department", value)] + post, parse)
         == PreparedInput(expected, pre + post, parse)
  {
    var low := Lower(DepartmentPrefix + value);
    var dept := FormField("department", value);
    var t := Init(expected);
    InitShape(expected);
    var s := Fill(t, pre);
    FillExtends(t, pre);
    forall j | 0 <= j < |s| ensures Lower(s[j].name) != low {
      assert Names(s)[j] in Names(t);
    }
    UnmatchedDepartmentAppends(s, value);
    FillAround(t, pre, dept, post);
    FillConcat(t, pre, post);
    ShadowsFill(Step(s, dept), s, low, post);
    ExpectedPresentThroughout(expected, pre + post);
    ShadowsPrepare(Fill(Step(s, dept), post), Fill(s, post), low, expected, parse);
  }
}
