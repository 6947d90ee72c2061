/** Sequence helpers used by the list views: an order-preserving filter and the sublist relation it establishes. */
module Seqs {

  /** `a` can be obtained from `b` by deleting elements, keeping the order of the rest. */
  predicate IsSublist<T(==)>(a: seq<T>, b: seq<T>)
    decreases |b|
  {
    if |a| == 0 then true
    else if |b| == 0 then false
    else if a[0] == b[0] then IsSublist(a[1..], b[1..])
    else IsSublist(a, b[1..])
  }

  /** JavaScript's `Array.prototype.filter`: the elements of `s` satisfying `p`, in their original order. */
  function Filter<T(==)>(p: T -> bool, s: seq<T>): (r: seq<T>)
    ensures |r| <= |s|
    ensures forall i :: 0 <= i < |r| ==> r[i] in s && p(r[i])
    ensures forall i :: 0 <= i < |s| && p(s[i]) ==> s[i] in r
  {
    if |s| == 0 then []
    else if p(s[0]) then [s[0]] + Filter(p, s[1..])
    else Filter(p, s[1..])
  }

  /** Dropping the first element of a sublist keeps it a sublist. */
  lemma {:induction false} SublistTail<T>(a: seq<T>, b: seq<T>)
    requires |a| > 0 && IsSublist(a, b)
    ensures IsSublist(a[1..], b)
    decreases |b|, 0
  {
    assert |b| > 0;
    if a[0] != b[0] {
      SublistTail(a, b[1..]);
    }
    SublistSkip(a[1..], b[1..], b[0]);
    assert [b[0]] + b[1..] == b;
  }

  /** Putting an extra element in front of the larger list keeps the relation. */
  lemma {:induction false} SublistSkip<T>(a: seq<T>, b: seq<T>, x: T)
    requires IsSublist(a, b)
    ensures IsSublist(a, [x] + b)
    decreases |b|, 1
  {
    var xb := [x] + b;
    assert xb[1..] == b;
    if |a| > 0 && a[0] == x {
      SublistTail(a, b);
    }
  }

  /** The filter keeps the order of the elements it keeps. */
  lemma {:induction false} FilterIsSublist<T>(p: T -> bool, s: seq<T>)
    ensures IsSublist(Filter(p, s), s)
    decreases |s|
  {
    if |s| > 0 {
      FilterIsSublist(p, s[1..]);
      if p(s[0]) {
        var r := Filter(p, s);
        assert r[0] == s[0] && r[1..] == Filter(p, s[1..]);
      } else {
        SublistSkip(Filter(p, s[1..]), s[1..], s[0]);
        assert [s[0]] + s[1..] == s;
      }
    }
  }

  /** A filter whose predicate holds everywhere returns the list unchanged. */
  lemma {:induction false} FilterAll<T>(p: T -> bool, s: seq<T>)
    requires forall i :: 0 <= i < |s| ==> p(s[i])
    ensures Filter(p, s) == s
    decreases |s|
  {
    if |s| > 0 {
      FilterAll(p, s[1..]);
      assert [s[0]] + s[1..] == s;
    }
  }

  /** Two predicates that agree on every element of `s` filter it the same way. */
  lemma {:induction false} FilterAgree<T>(p: T -> bool, q: T -> bool, s: seq<T>)
    requires forall i :: 0 <= i < |s| ==> p(s[i]) == q(s[i])
    ensures Filter(p, s) == Filter(q, s)
    decreases |s|
  {
    if |s| > 0 {
      assert forall i :: 0 <= i < |s| - 1 ==> s[1..][i] == s[i + 1];
      FilterAgree(p, q, s[1..]);
    }
  }

  /** The head followed by the first `m` of the rest is the first `m + 1`. */
  lemma ConsTake<T>(s: seq<T>, m: nat)
    requires m < |s|
    ensures [s[0]] + s[1..][..m] == s[..m + 1]
  {
  }
}
