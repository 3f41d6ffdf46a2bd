/**
  "The last element that satisfies a test": the shape shared by the import loop, which
  keeps overwriting its result and never breaks, and by the path-match callback, which
  keeps overwriting the accepted path.
 */
module Selection {
  import opened Wrappers

  /** The index of the last element of `s` satisfying `p`, if any. */
  function LastWhere<T>(s: seq<T>, p: T -> bool): (r: Option<nat>)
    ensures r.Some? ==> r.value < |s| && p(s[r.value])
    ensures r.Some? ==> forall j :: r.value < j < |s| ==> !p(s[j])
    ensures r.None? ==> forall j :: 0 <= j < |s| ==> !p(s[j])
    decreases |s|
  {
    if s == [] then None
    else if p(s[|s| - 1]) then Some(|s| - 1)
    else LastWhere(s[..|s| - 1], p)
  }

  /** The characterisation in the contract of LastWhere determines its result. */
  lemma LastWhereUnique<T>(s: seq<T>, p: T -> bool, r: Option<nat>)
    requires r.Some? ==> r.value < |s| && p(s[r.value]) && forall j :: r.value < j < |s| ==> !p(s[j])
    requires r.None? ==> forall j :: 0 <= j < |s| ==> !p(s[j])
    ensures LastWhere(s, p) == r
  {
  }

  /** Scanning `a + b`: a hit in `b` wins over every hit in `a`. */
  lemma LastWhereAppend<T>(a: seq<T>, b: seq<T>, p: T -> bool)
    ensures LastWhere(a + b, p) ==
      match LastWhere(b, p)
      case Some(k) => Some(|a| + k)
      case None => LastWhere(a, p)
  {
    var s := a + b;
    match LastWhere(b, p)
    case Some(k) =>
      forall j | |a| + k < j < |s| ensures !p(s[j]) {
        assert s[j] == b[j - |a|];
      }
      assert s[|a| + k] == b[k];
      LastWhereUnique(s, p, Some(|a| + k));
    case None =>
      var l := LastWhere(a, p);
      forall j | |a| <= j < |s| ensures !p(s[j]) {
        assert s[j] == b[j - |a|];
      }
      match l
      case Some(i) =>
        forall j | i < j < |s| ensures !p(s[j]) {
          if j < |a| { assert s[j] == a[j]; }
        }
        assert s[i] == a[i];
        LastWhereUnique(s, p, l);
      case None =>
        forall j | 0 <= j < |s| ensures !p(s[j]) {
          if j < |a| { assert s[j] == a[j]; }
        }
        LastWhereUnique(s, p, l);
  }

  /** An element that fails the test can be removed without changing which element is found. */
  lemma LastWhereSkip<T>(before: seq<T>, x: T, after: seq<T>, p: T -> bool)
    requires !p(x)
    ensures LastWhere(before + [x] + after, p).Some? <==> LastWhere(before + after, p).Some?
    ensures LastWhere(before + [x] + after, p).Some? ==>
      (before + [x] + after)[LastWhere(before + [x] + after, p).value] ==
      (before + after)[LastWhere(before + after, p).value]
  {
    var with, without := before + [x] + after, before + after;
    assert with == (before + [x]) + after;
    LastWhereAppend(before + [x], after, p);
    LastWhereAppend(before, after, p);
    LastWhereAppend(before, [x], p);
    match LastWhere(after, p)
    case Some(k) =>
      assert with[|before| + 1 + k] == after[k];
      assert without[|before| + k] == after[k];
    case None =>
      match LastWhere(before, p)
      case Some(i) =>
        assert with[i] == before[i];
        assert without[i] == before[i];
      case None =>
  }
}
