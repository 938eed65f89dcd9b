/** Swift's `sorted { key($0) > key($1) }` followed by `prefix(k)`: the `k`
    elements with the greatest keys, greatest first. Swift does not promise a
    stable sort, so nothing here is said about the order of equal keys. */
module Sorting {
  import opened Seqs

  /** Keys never increase along `s`. */
  ghost predicate SortedDesc<T(!new)>(s: seq<T>, key: T -> real)
  {
    forall i, j :: 0 <= i < j < |s| ==> key(s[i]) >= key(s[j])
  }

  /** Inserts `x` into a list sorted by non-increasing key. */
  function InsertDesc<T(!new)>(x: T, s: seq<T>, key: T -> real): (r: seq<T>)
    requires SortedDesc(s, key)
    ensures SortedDesc(r, key)
    ensures multiset(r) == multiset(s) + multiset{x}
    ensures forall y :: y in r <==> y == x || y in s
    decreases |s|
  {
    if |s| == 0 then [x]
    else if key(x) >= key(s[0]) then
      ConsSorted(x, s, key);
      [x] + s
    else
      var rest := InsertDesc(x, s[1..], key);
      assert s == [s[0]] + s[1..];
      HeadDominates(x, s, rest, key);
      ConsSorted(s[0], rest, key);
      [s[0]] + rest
  }

  /** A head whose key is at least every key of a sorted tail keeps it sorted. */
  lemma ConsSorted<T(!new)>(h: T, rest: seq<T>, key: T -> real)
    requires SortedDesc(rest, key)
    requires |rest| > 0 ==> key(h) >= key(rest[0])
    ensures SortedDesc([h] + rest, key)
  {
    var r := [h] + rest;
    forall i, j | 0 <= i < j < |r| ensures key(r[i]) >= key(r[j]) {
      if i == 0 && j > 1 {
        assert key(rest[0]) >= key(rest[j - 1]);
      }
    }
  }

  /** The head of a sorted list outranks whatever the tail becomes once a
      smaller element is inserted into it. */
  lemma HeadDominates<T(!new)>(x: T, s: seq<T>, rest: seq<T>, key: T -> real)
    requires SortedDesc(s, key) && |s| > 0 && key(x) < key(s[0])
    requires forall y :: y in rest <==> y == x || y in s[1..]
    ensures |rest| > 0 ==> key(s[0]) >= key(rest[0])
  {
    if |rest| > 0 && rest[0] != x {
      assert rest[0] in s[1..];
      var m :| 0 <= m < |s[1..]| && s[1..][m] == rest[0];
      assert s[m + 1] == rest[0];
    }
  }

  /** Insertion sort by non-increasing key. */
  function SortDesc<T(!new)>(s: seq<T>, key: T -> real): (r: seq<T>)
    ensures SortedDesc(r, key)
    ensures multiset(r) == multiset(s)
    ensures |r| == |s|
    decreases |s|
  {
    if |s| == 0 then []
    else
      assert s == [s[0]] + s[1..];
      var r := InsertDesc(s[0], SortDesc(s[1..], key), key);
      assert |multiset(r)| == |multiset(s)|;
      r
  }

  /** The first `k` elements of `s` sorted by non-increasing key. */
  function TopK<T(!new)>(s: seq<T>, key: T -> real, k: nat): (r: seq<T>)
    ensures |r| == Min(k, |s|)
    ensures SortedDesc(r, key)
    ensures multiset(r) <= multiset(s)
    ensures forall x :: x in r ==> x in s
    ensures |s| <= k ==> multiset(r) == multiset(s)
    ensures forall y, x :: y in multiset(s) - multiset(r) && x in r ==> key(y) <= key(x)
  {
    var sorted := SortDesc(s, key);
    var n := Min(k, |sorted|);
    PrefixSplit(s, sorted, n);
    PrefixDominates(sorted, key, n);
    MembersOfPrefix(s, sorted[..n], sorted[n..]);
    sorted[..n]
  }

  /** Cutting a permutation of `s` at `n`: the prefix and the rest share out
      the elements of `s`. */
  lemma PrefixSplit<T>(s: seq<T>, sorted: seq<T>, n: nat)
    requires multiset(sorted) == multiset(s)
    requires n <= |sorted|
    ensures multiset(s) == multiset(sorted[..n]) + multiset(sorted[n..])
    ensures multiset(s) - multiset(sorted[..n]) == multiset(sorted[n..])
    ensures multiset(sorted[..n]) <= multiset(s)
    ensures n == |sorted| ==> multiset(sorted[..n]) == multiset(s)
  {
    assert sorted == sorted[..n] + sorted[n..];
  }

  lemma MembersOfPrefix<T(!new)>(s: seq<T>, r: seq<T>, dropped: seq<T>)
    requires multiset(s) == multiset(r) + multiset(dropped)
    ensures forall x :: x in r ==> x in s
  {
    forall x | x in r ensures x in s {
      assert x in multiset(r);
      assert x in multiset(s);
    }
  }

  /** In a sorted sequence, nothing after position `n` has a greater key than
      anything before it. */
  lemma PrefixDominates<T(!new)>(sorted: seq<T>, key: T -> real, n: nat)
    requires SortedDesc(sorted, key)
    requires n <= |sorted|
    ensures forall y, x :: y in multiset(sorted[n..]) && x in sorted[..n] ==> key(y) <= key(x)
  {
    forall y, x | y in multiset(sorted[n..]) && x in sorted[..n] ensures key(y) <= key(x) {
      assert y in sorted[n..];
      var a :| 0 <= a < n && sorted[..n][a] == x;
      var b :| 0 <= b < |sorted| - n && sorted[n..][b] == y;
      assert sorted[a] == x && sorted[n + b] == y;
    }
  }

  /** Sorting by pointwise-equal keys gives the same sequence. */
  lemma {:induction false} SortSameKey<T(!new)>(s: seq<T>, k1: T -> real, k2: T -> real)
    requires forall x :: k1(x) == k2(x)
    ensures SortDesc(s, k1) == SortDesc(s, k2)
    decreases |s|
  {
    if |s| > 0 {
      SortSameKey(s[1..], k1, k2);
      InsertSameKey(s[0], SortDesc(s[1..], k1), k1, k2);
    }
  }

  lemma {:induction false} InsertSameKey<T(!new)>(x: T, s: seq<T>, k1: T -> real, k2: T -> real)
    requires forall y :: k1(y) == k2(y)
    requires SortedDesc(s, k1)
    ensures SortedDesc(s, k2)
    ensures InsertDesc(x, s, k1) == InsertDesc(x, s, k2)
    decreases |s|
  {
    if |s| > 0 {
      InsertSameKey(x, s[1..], k1, k2);
    }
  }

  lemma TopKSameKey<T(!new)>(s: seq<T>, k1: T -> real, k2: T -> real, k: nat)
    requires forall x :: k1(x) == k2(x)
    ensures TopK(s, k1, k) == TopK(s, k2, k)
  {
    SortSameKey(s, k1, k2);
  }
}
