/**
 * Order-independent summaries of a list of latency samples, as the latency
 * tests in tests/nettest.py compute them: `sorted`, `min`, `max`, `sum`, and
 * the running minimum/maximum with a starting sentinel.
 */
module Samples {

  function Sum(s: seq<int>): int {
    if s == [] then 0 else Sum(s[..|s| - 1]) + s[|s| - 1]
  }

  /** The running minimum a loop keeps when it starts from `acc`. */
  function MinFrom(acc: int, s: seq<int>): int {
    if s == [] then acc
    else
      var m := MinFrom(acc, s[..|s| - 1]);
      if s[|s| - 1] < m then s[|s| - 1] else m
  }

  /** The running maximum a loop keeps when it starts from `acc`. */
  function MaxFrom(acc: int, s: seq<int>): int {
    if s == [] then acc
    else
      var m := MaxFrom(acc, s[..|s| - 1]);
      if s[|s| - 1] > m then s[|s| - 1] else m
  }

  /** Python's `min` of a non-empty list. */
  function Min(s: seq<int>): int
    requires |s| > 0
  {
    MinFrom(s[0], s)
  }

  /** Python's `max` of a non-empty list. */
  function Max(s: seq<int>): int
    requires |s| > 0
  {
    MaxFrom(s[0], s)
  }

  /** A running minimum is below its start and every sample, and is one of them. */
  lemma {:induction false} MinFromIsLeast(acc: int, s: seq<int>)
    ensures MinFrom(acc, s) <= acc
    ensures forall k :: 0 <= k < |s| ==> MinFrom(acc, s) <= s[k]
    ensures MinFrom(acc, s) == acc || MinFrom(acc, s) in s
    decreases |s|
  {
    if s != [] {
      MinFromIsLeast(acc, s[..|s| - 1]);
      assert forall k :: 0 <= k < |s| - 1 ==> s[..|s| - 1][k] == s[k];
    }
  }

  /** A running maximum is above its start and every sample, and is one of them. */
  lemma {:induction false} MaxFromIsGreatest(acc: int, s: seq<int>)
    ensures MaxFrom(acc, s) >= acc
    ensures forall k :: 0 <= k < |s| ==> MaxFrom(acc, s) >= s[k]
    ensures MaxFrom(acc, s) == acc || MaxFrom(acc, s) in s
    decreases |s|
  {
    if s != [] {
      MaxFromIsGreatest(acc, s[..|s| - 1]);
      assert forall k :: 0 <= k < |s| - 1 ==> s[..|s| - 1][k] == s[k];
    }
  }

  predicate IsSorted(s: seq<int>) {
    forall i, j :: 0 <= i < j < |s| ==> s[i] <= s[j]
  }

  function Insert(x: int, s: seq<int>): (r: seq<int>)
    requires IsSorted(s)
    ensures |r| == |s| + 1 && IsSorted(r)
    ensures multiset(r) == multiset(s) + multiset{x}
    ensures r[0] == if s == [] || x <= s[0] then x else s[0]
  {
    if s == [] || x <= s[0] then [x] + s
    else
      assert s == [s[0]] + s[1..];
      var r' := Insert(x, s[1..]);
      assert forall j :: 0 <= j < |r'| ==> s[0] <= r'[0] <= r'[j];
      [s[0]] + r'
  }

  /** Python's `sorted`: an ascending permutation of the input. */
  function SortSeq(s: seq<int>): (r: seq<int>)
    ensures |r| == |s| && IsSorted(r)
    ensures multiset(r) == multiset(s)
  {
    if s == [] then []
    else
      assert s == [s[0]] + s[1..];
      Insert(s[0], SortSeq(s[1..]))
  }

  /** Two ascending lists with the same elements are the same list. */
  lemma {:induction false} SortedUnique(a: seq<int>, b: seq<int>)
    requires IsSorted(a) && IsSorted(b) && multiset(a) == multiset(b)
    ensures a == b
    decreases |a|
  {
    if a == [] {
      assert |multiset(b)| == 0;
    } else {
      HeadsEqual(a, b);
      TailMultiset(a);
      TailMultiset(b);
      SortedUnique(a[1..], b[1..]);
      assert a == [a[0]] + a[1..] && b == [b[0]] + b[1..];
    }
  }

  /** Sorted lists with the same elements start with the same, least, element. */
  lemma HeadsEqual(a: seq<int>, b: seq<int>)
    requires IsSorted(a) && IsSorted(b) && multiset(a) == multiset(b) && a != []
    ensures b != [] && a[0] == b[0]
  {
    assert a[0] in multiset(b);
    var i :| 0 <= i < |b| && b[i] == a[0];
    assert b[0] in multiset(a);
    var j :| 0 <= j < |a| && a[j] == b[0];
    assert b[0] <= b[i] && a[0] <= a[j];
  }

  lemma TailMultiset(a: seq<int>)
    requires a != []
    ensures multiset(a[1..]) == multiset(a) - multiset{a[0]}
  {
    assert a == [a[0]] + a[1..];
  }

  /** `sum` does not depend on the order of the samples. */
  lemma {:induction false} SumPermutation(a: seq<int>, b: seq<int>)
    requires multiset(a) == multiset(b)
    ensures Sum(a) == Sum(b)
    decreases |a|
  {
    if a != [] {
      var x := a[|a| - 1];
      assert x in multiset(b);
      var j :| 0 <= j < |b| && b[j] == x;
      var b' := b[..j] + b[j + 1..];
      assert b == b[..j] + [x] + b[j + 1..];
      assert a == a[..|a| - 1] + [x];
      assert multiset(a[..|a| - 1]) == multiset(a) - multiset{x};
      assert multiset(b) == multiset(b[..j]) + multiset{x} + multiset(b[j + 1..]);
      assert multiset(b') == multiset(b) - multiset{x};
      SumPermutation(a[..|a| - 1], b');
      SumRemove(b, j);
    }
  }

  lemma {:induction false} SumRemove(s: seq<int>, j: nat)
    requires j < |s|
    ensures Sum(s) == Sum(s[..j] + s[j + 1..]) + s[j]
    decreases |s|
  {
    var last := |s| - 1;
    if j < last {
      SumRemove(s[..last], j);
      assert s[..last][..j] + s[..last][j + 1..] == (s[..j] + s[j + 1..])[..last - 1];
    } else {
      assert s[..j] + s[j + 1..] == s[..last];
    }
  }

  /** The ends of the sorted copy are Python's `min` and `max`. */
  lemma SortedEnds(s: seq<int>)
    requires |s| > 0
    ensures SortSeq(s)[0] == Min(s) && SortSeq(s)[|s| - 1] == Max(s)
  {
    SortedFirst(s, SortSeq(s));
    SortedLast(s, SortSeq(s));
  }

  lemma SortedFirst(s: seq<int>, r: seq<int>)
    requires |s| > 0 && |r| == |s| && IsSorted(r) && multiset(r) == multiset(s)
    ensures r[0] == Min(s)
  {
    MinFromIsLeast(s[0], s);
    assert Min(s) in multiset(r);
    var i :| 0 <= i < |r| && r[i] == Min(s);
    assert r[0] in multiset(s);
    var k :| 0 <= k < |s| && s[k] == r[0];
  }

  lemma SortedLast(s: seq<int>, r: seq<int>)
    requires |s| > 0 && |r| == |s| && IsSorted(r) && multiset(r) == multiset(s)
    ensures r[|r| - 1] == Max(s)
  {
    MaxFromIsGreatest(s[0], s);
    assert Max(s) in multiset(r);
    var i :| 0 <= i < |r| && r[i] == Max(s);
    assert r[|r| - 1] in multiset(s);
    var k :| 0 <= k < |s| && s[k] == r[|r| - 1];
  }
}
