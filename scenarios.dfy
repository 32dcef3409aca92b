/** The reconciliation applied to the fallback feature list, for two department submissions. */
module Scenarios {
  import opened Wrappers
  import opened Text
  import opened Frames
  import opened Reconcile
  import opened ReconcileProperties

  /** Only `department_sales` has the lower-cased name of the one-hot column for `sales`. */
  lemma SalesMatchesOneColumn(i: nat)
    requires i < 17 && i != 13
    ensures Lower(DepartmentPrefix + "sales") != Lower(FallbackFeatures[i])
  {
    var f := FallbackFeatures[i];
    if |f| == 16 {
      assert i == 7;
      assert Lower(DepartmentPrefix + "sales")[11] == 's' && Lower(f)[11] == 'r';
    }
  }

  /** `department=sales` alone: `department_sales` is 1 and every other feature is 0. */
  lemma SalesDepartment(parse: string -> Option<real>, i: nat)
    requires i < 17
    ensures PreparedInput(FallbackFeatures, [FormField("department", "sales")], parse)[i]
         == Column(FallbackFeatures[i], if FallbackFeatures[i] == "department_sales" then Num(1.0) else Num(0.0))
  {
    var dept := FormField("department", "sales");
    var none: seq<FormField> := [];
    if i == 13 {
      assert none + [dept] + none == [dept];
      KnownDepartmentIsOne(FallbackFeatures, none, "sales", none, parse, i);
    } else {
      assert FallbackFeatures[i] != "department_sales";
      SalesMatchesOneColumn(i);
      UntouchedFeatureIsZero(FallbackFeatures, [dept], parse, i);
    }
  }

  /** `department_unknown_dept` is longer than every fallback name, so none matches it. */
  lemma UnknownMatchesNoColumn()
    ensures forall f :: f in FallbackFeatures ==> Lower(f) != Lower(DepartmentPrefix + "unknown_dept")
  {
    forall f | f in FallbackFeatures ensures |Lower(f)| < |Lower(DepartmentPrefix + "unknown_dept")| {
    }
  }

  /**
   * `department=unknown_dept` alone: no column matches, so the row is that of an empty
   * form and every feature is 0.
   */
  lemma UnknownDepartmentAllZero(parse: string -> Option<real>, i: nat)
    requires i < 17
    ensures PreparedInput(FallbackFeatures, [FormField("department", "unknown_dept")], parse)[i]
         == Column(FallbackFeatures[i], Num(0.0))
  {
    var dept := FormField("department", "unknown_dept");
    var none: seq<FormField> := [];
    assert none + [dept] + none == [dept] && none + none == none;
    UnknownMatchesNoColumn();
    UnknownDepartmentIsLost(FallbackFeatures, none, "unknown_dept", none, parse);
    UntouchedFeatureIsZero(FallbackFeatures, none, parse, i);
  }
}
