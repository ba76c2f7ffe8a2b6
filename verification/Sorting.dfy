/**
 Go's `sort.Slice` by an integer key: an unstable sort. Only what the library
 promises is stated: the result is ordered and is a rearrangement.
 */
module Sorting {

  ghost predicate SortedBy<T>(s: seq<T>, key: T -> int) {
    forall i, j :: 0 <= i < j < |s| ==> key(s[i]) <= key(s[j])
  }

  /** The position where `x` goes in the ordered sequence `s`. */
  method InsertionPoint<T>(s: seq<T>, x: T, key: T -> int) returns (k: nat)
    requires SortedBy(s, key)
    ensures k <= |s|
    ensures forall i :: 0 <= i < k ==> key(s[i]) <= key(x)
    ensures forall i :: k <= i < |s| ==> key(x) <= key(s[i])
  {
    k := |s|;
    while k > 0 && key(s[k - 1]) > key(x)
      invariant k <= |s|
      invariant forall i :: k <= i < |s| ==> key(x) <= key(s[i])
    {
      k := k - 1;
    }
  }

  lemma InsertKeepsOrder<T>(s: seq<T>, k: nat, x: T, key: T -> int)
    requires SortedBy(s, key) && k <= |s|
    requires forall i :: 0 <= i < k ==> key(s[i]) <= key(x)
    requires forall i :: k <= i < |s| ==> key(x) <= key(s[i])
    ensures SortedBy(s[..k] + [x] + s[k..], key)
    ensures multiset(s[..k] + [x] + s[k..]) == multiset(s) + multiset{x}
  {
    var r := s[..k] + [x] + s[k..];
    forall i, j | 0 <= i < j < |r| ensures key(r[i]) <= key(r[j]) {
      assert r[i] == if i < k then s[i] else if i == k then x else s[i - 1];
      assert r[j] == if j < k then s[j] else if j == k then x else s[j - 1];
    }
    assert s == s[..k] + s[k..];
  }

  method Sort<T>(s: seq<T>, key: T -> int) returns (r: seq<T>)
    ensures SortedBy(r, key)
    ensures multiset(r) == multiset(s)
  {
    r := [];
    for n := 0 to |s|
      invariant SortedBy(r, key)
      invariant multiset(r) == multiset(s[..n])
    {
      var k := InsertionPoint(r, s[n], key);
      InsertKeepsOrder(r, k, s[n], key);
      assert s[..n + 1] == s[..n] + [s[n]];
      r := r[..k] + [s[n]] + r[k..];
    }
    assert s[..|s|] == s;
  }

  /** A rearrangement has the same elements and the same length. */
  lemma SameElements<T>(a: seq<T>, b: seq<T>)
    requires multiset(a) == multiset(b)
    ensures |a| == |b|
    ensures forall x :: x in a <==> x in b
  {
    assert |multiset(a)| == |a| && |multiset(b)| == |b|;
    forall x ensures x in a <==> x in b {
      assert x in a <==> x in multiset(a);
      assert x in b <==> x in multiset(b);
    }
  }

  lemma DropLast<T>(s: seq<T>)
    requires s != []
    ensures multiset(s[..|s| - 1]) == multiset(s) - multiset{s[|s| - 1]}
  {
    assert s == s[..|s| - 1] + [s[|s| - 1]];
  }

  /** The total weight of a sequence. */
  ghost function Sum<T>(s: seq<T>, weight: T -> nat): nat {
    if s == [] then 0 else Sum(s[..|s| - 1], weight) + weight(s[|s| - 1])
  }

  lemma {:induction false} SumConcat<T>(a: seq<T>, b: seq<T>, weight: T -> nat)
    ensures Sum(a + b, weight) == Sum(a, weight) + Sum(b, weight)
  {
    if b == [] {
      assert a + b == a;
    } else {
      var n := |b| - 1;
      assert (a + b)[..|a + b| - 1] == a + b[..n];
      SumConcat(a, b[..n], weight);
    }
  }

  lemma SumWithout<T>(a: seq<T>, x: T, b: seq<T>, weight: T -> nat)
    ensures Sum(a + [x] + b, weight) == Sum(a + b, weight) + weight(x)
  {
    SumConcat(a + [x], b, weight);
    SumConcat(a, [x], weight);
    SumConcat(a, b, weight);
    assert [x][..0] == [];
  }

  lemma DropAt<T>(s: seq<T>, k: nat)
    requires k < |s|
    ensures s == s[..k] + [s[k]] + s[k + 1..]
    ensures multiset(s[..k] + s[k + 1..]) == multiset(s) - multiset{s[k]}
  {
    assert s == s[..k] + [s[k]] + s[k + 1..];
  }

  /** A total does not depend on the order. */
  lemma {:induction false} SumPermute<T>(a: seq<T>, b: seq<T>, weight: T -> nat)
    requires multiset(a) == multiset(b)
    ensures Sum(a, weight) == Sum(b, weight)
  {
    if a == [] {
      assert |multiset(b)| == 0;
    } else {
      var n := |a| - 1;
      assert a[n] in multiset(a);
      var k :| 0 <= k < |b| && b[k] == a[n];
      DropLast(a);
      DropAt(b, k);
      SumWithout(b[..k], b[k], b[k + 1..], weight);
      SumPermute(a[..n], b[..k] + b[k + 1..], weight);
    }
  }
}
