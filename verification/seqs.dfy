/** Swift's `filter` on arrays, and the order-preserving subsequence relation
    that describes its result. */
module Seqs {

  function Min(a: int, b: int): int
  {
    if a <= b then a else b
  }

  /** `r` is obtained from `s` by deleting elements, keeping the order of
      those that remain. */
  ghost predicate IsSubsequence<T(!new)>(r: seq<T>, s: seq<T>)
    decreases |s|
  {
    |r| == 0 ||
    (|s| > 0 &&
     ((r[|r| - 1] == s[|s| - 1] && IsSubsequence(r[..|r| - 1], s[..|s| - 1])) ||
      IsSubsequence(r, s[..|s| - 1])))
  }

  lemma {:induction false} SubsequenceReflexive<T(!new)>(s: seq<T>)
    ensures IsSubsequence(s, s)
    decreases |s|
  {
    if |s| > 0 {
      SubsequenceReflexive(s[..|s| - 1]);
    }
  }

  /** Swift's `s.filter(p)`: the elements satisfying `p`, in their original order. */
  function Filter<T(!new)>(s: seq<T>, p: T -> bool): (r: seq<T>)
    ensures |r| <= |s|
    ensures forall x :: x in r <==> x in s && p(x)
    ensures forall x :: multiset(r)[x] == if p(x) then multiset(s)[x] else 0
    ensures IsSubsequence(r, s)
    decreases |s|
  {
    if |s| == 0 then []
    else
      var init := s[..|s| - 1];
      var last := s[|s| - 1];
      assert s == init + [last];
      var kept := Filter(init, p);
      var r := if p(last) then kept + [last] else kept;
      FilterCountStep(kept, init, last, p, r);
      MembersFromCounts(r, s, p);
      if p(last) then
        SubsequenceSnocBoth(kept, init, last);
        r
      else
        SubsequenceSnocRight(kept, init, last);
        r
  }

  /** One more element: the counts of a filter follow the counts of the input. */
  lemma FilterCountStep<T(!new)>(kept: seq<T>, init: seq<T>, last: T, p: T -> bool, r: seq<T>)
    requires forall x :: multiset(kept)[x] == if p(x) then multiset(init)[x] else 0
    requires r == if p(last) then kept + [last] else kept
    ensures forall x :: multiset(r)[x] == if p(x) then multiset(init + [last])[x] else 0
  {
    Snoc(init, last);
    Snoc(kept, last);
  }

  /** Membership read off the counts. */
  lemma MembersFromCounts<T(!new)>(r: seq<T>, s: seq<T>, p: T -> bool)
    requires forall x :: multiset(r)[x] == if p(x) then multiset(s)[x] else 0
    ensures forall x :: x in r <==> x in s && p(x)
  {
    forall x ensures x in r <==> x in s && p(x) {
      assert x in r <==> x in multiset(r);
      assert x in s <==> x in multiset(s);
    }
  }

  lemma SubsequenceSnocBoth<T(!new)>(r: seq<T>, s: seq<T>, x: T)
    requires IsSubsequence(r, s)
    ensures IsSubsequence(r + [x], s + [x])
  {
    assert (r + [x])[..|r|] == r;
    assert (s + [x])[..|s|] == s;
  }

  lemma SubsequenceSnocRight<T(!new)>(r: seq<T>, s: seq<T>, x: T)
    requires IsSubsequence(r, s)
    ensures IsSubsequence(r, s + [x])
  {
    assert (s + [x])[..|s|] == s;
  }

  /** A sequence extended by one element: its front and its multiset. */
  lemma Snoc<T>(xs: seq<T>, x: T)
    ensures (xs + [x])[..|xs|] == xs
    ensures (xs + [x])[|xs|] == x
    ensures multiset(xs + [x]) == multiset(xs) + multiset{x}
  {
  }

  /** Filtering a sequence extended by one element. */
  lemma FilterSnoc<T(!new)>(s: seq<T>, x: T, p: T -> bool)
    ensures Filter(s + [x], p) == Filter(s, p) + (if p(x) then [x] else [])
  {
    assert (s + [x])[..|s|] == s;
  }

  /** Filtering by `p` and then by `q` is filtering once by the conjunction `c`. */
  lemma {:induction false} FilterTwice<T(!new)>(s: seq<T>, p: T -> bool, q: T -> bool, c: T -> bool)
    requires forall x :: c(x) == (p(x) && q(x))
    ensures Filter(Filter(s, p), q) == Filter(s, c)
    decreases |s|
  {
    if |s| > 0 {
      var init := s[..|s| - 1];
      var last := s[|s| - 1];
      FilterTwice(init, p, q, c);
      if p(last) {
        FilterSnoc(Filter(init, p), last, q);
      }
    }
  }

  /** Filtering by a stronger predicate keeps a subsequence of what the
      weaker one keeps. */
  lemma FilterStronger<T(!new)>(s: seq<T>, p: T -> bool, q: T -> bool)
    requires forall x :: q(x) ==> p(x)
    ensures IsSubsequence(Filter(s, q), Filter(s, p))
  {
    FilterTwice(s, p, q, q);
  }

  /** Filters by pointwise-equal predicates agree. */
  lemma {:induction false} FilterSamePredicate<T(!new)>(s: seq<T>, p: T -> bool, q: T -> bool)
    requires forall x :: p(x) == q(x)
    ensures Filter(s, p) == Filter(s, q)
    decreases |s|
  {
    if |s| > 0 {
      FilterSamePredicate(s[..|s| - 1], p, q);
    }
  }

  /** The positions of `s` whose element satisfies `p`. */
  ghost function Positions<T(!new)>(s: seq<T>, p: T -> bool): set<int>
  {
    set i | 0 <= i < |s| && p(s[i])
  }

  lemma PositionsSnoc<T(!new)>(s: seq<T>, p: T -> bool)
    requires |s| > 0
    ensures Positions(s, p) ==
            Positions(s[..|s| - 1], p) + (if p(s[|s| - 1]) then {|s| - 1} else {})
  {
    var n := |s| - 1;
    forall i
      ensures i in Positions(s, p) <==>
              i in Positions(s[..n], p) + (if p(s[n]) then {n} else {})
    {
      if 0 <= i < n {
        assert s[..n][i] == s[i];
      }
    }
  }

  /** The number of elements kept by a filter is the number of positions
      whose element satisfies the predicate. */
  lemma {:induction false} FilterCountsPositions<T(!new)>(s: seq<T>, p: T -> bool)
    ensures |Filter(s, p)| == |Positions(s, p)|
    decreases |s|
  {
    if |s| == 0 {
      assert Positions(s, p) == {};
    } else {
      var n := |s| - 1;
      var init := s[..n];
      assert s == init + [s[n]];
      FilterSnoc(init, s[n], p);
      FilterCountsPositions(init, p);
      PositionsSnoc(s, p);
      assert n !in Positions(init, p);
    }
  }
}
