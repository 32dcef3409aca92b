/**
 * The single-row table that the request handler fills: an ordered sequence of
 * named columns, each holding one cell, and the lookups it is searched with.
 */
module Frames {
  import opened Wrappers
  import opened Text

  /** A cell: a number, or a string that has not (yet) been converted. */
  datatype Cell = Num(x: real) | Str(s: string)

  datatype Column = Column(name: string, value: Cell)

  /** The columns of the one-row frame, in order. */
  type Frame = seq<Column>

  function Names(t: Frame): (r: seq<string>)
    ensures |r| == |t|
    ensures forall i :: 0 <= i < |t| ==> r[i] == t[i].name
  {
    seq(|t|, i requires 0 <= i < |t| => t[i].name)
  }

  predicate Distinct(s: seq<string>) {
    forall i, j :: 0 <= i < j < |s| ==> s[i] != s[j]
  }

  /** Position of the first occurrence of `x`. */
  function IndexOf(names: seq<string>, x: string): (r: nat)
    requires x in names
    ensures r < |names| && names[r] == x
    ensures forall j :: 0 <= j < r ==> names[j] != x
  {
    if names[0] == x then 0 else 1 + IndexOf(names[1..], x)
  }

  /** Overwrites the cell of column `i`, keeping its name. */
  function SetCell(t: Frame, i: nat, c: Cell): (r: Frame)
    requires i < |t|
    ensures |r| == |t| && r[i] == Column(t[i].name, c)
    ensures forall j :: 0 <= j < |t| && j != i ==> r[j] == t[j]
  {
    t[i := Column(t[i].name, c)]
  }

  /** The first position, in column order, whose lower-cased name is `target`. */
  function FirstLowerMatch(names: seq<string>, target: string): (r: Option<nat>)
    ensures r.None? ==> forall j :: 0 <= j < |names| ==> Lower(names[j]) != target
    ensures r.Some? ==> r.value < |names| && Lower(names[r.value]) == target
    ensures r.Some? ==> forall j :: 0 <= j < r.value ==> Lower(names[j]) != target
  {
    if names == [] then None
    else if Lower(names[0]) == target then Some(0)
    else match FirstLowerMatch(names[1..], target)
      case None => None
      case Some(k) => Some(k + 1)
  }

  /** The last position, in column order, whose lower-cased name is `target`. */
  function LastLowerMatch(names: seq<string>, target: string): (r: Option<nat>)
    ensures r.None? ==> forall j :: 0 <= j < |names| ==> Lower(names[j]) != target
    ensures r.Some? ==> r.value < |names| && Lower(names[r.value]) == target
    ensures r.Some? ==> forall j :: r.value < j < |names| ==> Lower(names[j]) != target
  {
    if names == [] then None
    else if Lower(names[|names| - 1]) == target then Some(|names| - 1)
    else LastLowerMatch(names[..|names| - 1], target)
  }

  /**
   * The lower-cased-name index of the columns, built in column order, so that a
   * later column overwrites an earlier one with the same lower-cased name.
   */
  function LowerIndex(names: seq<string>): (m: map<string, string>)
    ensures forall k :: k in m ==> m[k] in names && Lower(m[k]) == k
  {
    if names == [] then map[]
    else LowerIndex(names[..|names| - 1])[Lower(names[|names| - 1]) := names[|names| - 1]]
  }

  /** The index finds exactly the last column whose lower-cased name matches. */
  lemma {:induction false} LowerIndexIsLastMatch(names: seq<string>, k: string)
    ensures k in LowerIndex(names) <==> LastLowerMatch(names, k).Some?
    ensures k in LowerIndex(names) ==> LowerIndex(names)[k] == names[LastLowerMatch(names, k).value]
  {
    if names != [] {
      var init := names[..|names| - 1];
      LowerIndexIsLastMatch(init, k);
      if Lower(names[|names| - 1]) != k {
        var r := LastLowerMatch(init, k);
        if r.Some? {
          assert names[r.value] == init[r.value];
        }
      }
    }
  }

  /** With distinct names, the first occurrence of a name is its only occurrence. */
  lemma IndexOfDistinct(names: seq<string>, i: nat)
    requires Distinct(names) && i < |names|
    ensures IndexOf(names, names[i]) == i
  {
  }

  /** Looking a name up in a longer sequence finds it where the prefix has it. */
  lemma {:induction false} IndexOfPrefix(s: seq<string>, p: seq<string>, x: string)
    requires |p| <= |s| && s[..|p|] == p && x in p
    ensures x in s && IndexOf(s, x) == IndexOf(p, x)
  {
    var k := IndexOf(p, x);
    assert s[k] == p[k];
    if s[0] != x {
      assert p[0] == s[0];
      assert s[1..][..|p| - 1] == p[1..];
      IndexOfPrefix(s[1..], p[1..], x);
    }
  }

  lemma NamesAppend(t: Frame, c: Column)
    ensures Names(t + [c]) == Names(t) + [c.name]
  {
  }

  lemma NamesSetCell(t: Frame, i: nat, c: Cell)
    requires i < |t|
    ensures Names(SetCell(t, i, c)) == Names(t)
  {
  }

  lemma NamesPrefix(t: Frame, n: nat)
    requires n <= |t|
    ensures Names(t[..n]) == Names(t)[..n]
  {
  }

  lemma DistinctAppend(s: seq<string>, x: string)
    requires Distinct(s) && x !in s
    ensures Distinct(s + [x])
  {
  }
}
