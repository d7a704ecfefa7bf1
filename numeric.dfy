/**
 * Integer aggregates the statistics rely on: sum, maximum and minimum of a
 * non-empty sequence (Python `sum`, `max`, `min`), an ascending sort
 * (Python `sorted`) and Python's `round`, which rounds halves to even.
 */
module Numeric {

  function Sum(s: seq<int>): int
  {
    if |s| == 0 then 0 else s[0] + Sum(s[1..])
  }

  function Max(s: seq<int>): (m: int)
    requires |s| > 0
    ensures m in s
    ensures forall i :: 0 <= i < |s| ==> s[i] <= m
  {
    if |s| == 1 then s[0]
    else
      var rest := Max(s[1..]);
      if s[0] >= rest then s[0] else rest
  }

  function Min(s: seq<int>): (m: int)
    requires |s| > 0
    ensures m in s
    ensures forall i :: 0 <= i < |s| ==> m <= s[i]
  {
    if |s| == 1 then s[0]
    else
      var rest := Min(s[1..]);
      if s[0] <= rest then s[0] else rest
  }

  lemma {:induction false} SumBounds(s: seq<int>, lo: int, hi: int)
    requires forall i :: 0 <= i < |s| ==> lo <= s[i] <= hi
    ensures lo * |s| <= Sum(s) <= hi * |s|
  {
    if |s| > 0 {
      SumBounds(s[1..], lo, hi);
      assert lo * |s| == lo + lo * (|s| - 1);
      assert hi * |s| == hi + hi * (|s| - 1);
    }
  }

  /**
   * Python `round(p / q)` computed exactly: the integer nearest to p/q,
   * and on a tie (p/q exactly halfway) the even one.
   */
  function RoundHalfEven(p: int, q: int): (r: int)
    requires q > 0
    ensures 2 * (if r * q >= p then r * q - p else p - r * q) <= q
    ensures 2 * (if r * q >= p then r * q - p else p - r * q) == q ==> r % 2 == 0
  {
    var fl := p / q;
    var rem := p % q;
    assert p == fl * q + rem;
    assert (fl + 1) * q == fl * q + q;
    if 2 * rem < q then fl
    else if 2 * rem > q then fl + 1
    else if fl % 2 == 0 then fl
    else fl + 1
  }

  /** Whatever lies between two integers lo*q .. hi*q rounds into lo .. hi. */
  lemma RoundHalfEvenWithin(p: int, q: int, lo: int, hi: int)
    requires q > 0 && lo * q <= p <= hi * q
    ensures lo <= RoundHalfEven(p, q) <= hi
  {
    var r := RoundHalfEven(p, q);
    MulStep(r, lo, q);
    MulStep(hi, r, q);
  }

  lemma MulStep(a: int, b: int, q: int)
    requires q > 0
    ensures a < b ==> a * q + q <= b * q
  {
    if a < b {
      var d := b - a - 1;
      assert d >= 0;
      assert d * q >= 0;
      assert b * q == a * q + q + d * q;
    }
  }

  predicate Ascending(s: seq<int>) {
    forall i, j :: 0 <= i < j < |s| ==> s[i] <= s[j]
  }

  function InsertAscending(x: int, s: seq<int>): (r: seq<int>)
    requires Ascending(s)
    ensures Ascending(r)
    ensures multiset(r) == multiset(s) + multiset{x}
  {
    if |s| == 0 || x <= s[0] then
      ConsAscending(x, s);
      [x] + s
    else
      var rest := InsertAscending(x, s[1..]);
      assert s == [s[0]] + s[1..];
      forall k | 0 <= k < |rest| ensures s[0] <= rest[k] {
        FromInsertion(rest, s[1..], x, k);
      }
      ConsAscending(s[0], rest);
      var r := [s[0]] + rest;
      assert multiset(r) == multiset{s[0]} + multiset(rest);
      r
  }

  /** A head no greater than an ascending tail's elements keeps it ascending. */
  lemma ConsAscending(h: int, t: seq<int>)
    requires Ascending(t) && (|t| > 0 ==> h <= t[0])
    ensures Ascending([h] + t)
  {
    var r := [h] + t;
    assert forall i :: 1 <= i < |r| ==> r[i] == t[i - 1];
  }

  /** Each element of s with x inserted somewhere is x or an element of s. */
  lemma FromInsertion<T>(r: seq<T>, s: seq<T>, x: T, k: int)
    requires multiset(r) == multiset(s) + multiset{x} && 0 <= k < |r|
    ensures r[k] == x || exists j :: 0 <= j < |s| && s[j] == r[k]
  {
    assert r[k] in multiset(r);
    if r[k] != x {
      assert r[k] in multiset(s);
    }
  }

  /** How many elements of s lie strictly below x. */
  function CountBelow(s: seq<int>, x: int): (c: nat)
    ensures c <= |s|
  {
    if |s| == 0 then 0 else (if s[0] < x then 1 else 0) + CountBelow(s[1..], x)
  }

  /** How many elements of s lie strictly above x. */
  function CountAbove(s: seq<int>, x: int): (c: nat)
    ensures c <= |s|
  {
    if |s| == 0 then 0 else (if s[0] > x then 1 else 0) + CountAbove(s[1..], x)
  }

  lemma {:induction false} NoneBelow(s: seq<int>, x: int)
    requires forall k :: 0 <= k < |s| ==> x <= s[k]
    ensures CountBelow(s, x) == 0
  {
    if |s| > 0 {
      NoneBelow(s[1..], x);
    }
  }

  lemma {:induction false} NoneAbove(s: seq<int>, x: int)
    requires forall k :: 0 <= k < |s| ==> s[k] <= x
    ensures CountAbove(s, x) == 0
  {
    if |s| > 0 {
      NoneAbove(s[1..], x);
    }
  }

  lemma {:induction false} CountConcat(a: seq<int>, b: seq<int>, x: int)
    ensures CountBelow(a + b, x) == CountBelow(a, x) + CountBelow(b, x)
    ensures CountAbove(a + b, x) == CountAbove(a, x) + CountAbove(b, x)
  {
    if |a| == 0 {
      assert a + b == b;
    } else {
      assert (a + b)[1..] == a[1..] + b;
      CountConcat(a[1..], b, x);
    }
  }

  /** Removing element j of b takes it out of both counts. */
  lemma CountWithout(b: seq<int>, j: int, x: int)
    requires 0 <= j < |b|
    ensures CountBelow(b, x) == CountBelow(b[..j] + b[j + 1..], x) + (if b[j] < x then 1 else 0)
    ensures CountAbove(b, x) == CountAbove(b[..j] + b[j + 1..], x) + (if b[j] > x then 1 else 0)
  {
    assert b == b[..j] + ([b[j]] + b[j + 1..]);
    CountConcat(b[..j], [b[j]] + b[j + 1..], x);
    CountConcat([b[j]], b[j + 1..], x);
    CountConcat(b[..j], b[j + 1..], x);
  }

  lemma MultisetWithout(a: seq<int>, b: seq<int>, j: int)
    requires multiset(a) == multiset(b) && |a| > 0 && 0 <= j < |b| && b[j] == a[0]
    ensures multiset(a[1..]) == multiset(b[..j] + b[j + 1..])
  {
    var rest := b[..j] + b[j + 1..];
    assert b == b[..j] + ([b[j]] + b[j + 1..]);
    assert a == [a[0]] + a[1..];
    assert multiset(b) == multiset(b[..j]) + multiset{b[j]} + multiset(b[j + 1..]);
    assert multiset(rest) == multiset(b[..j]) + multiset(b[j + 1..]);
    assert multiset(a[1..]) == multiset(a) - multiset{a[0]};
    assert multiset(rest) == multiset(b) - multiset{b[j]};
  }

  /** The counts depend only on the multiset of elements. */
  lemma {:induction false} CountPermutation(a: seq<int>, b: seq<int>, x: int)
    requires multiset(a) == multiset(b)
    ensures CountBelow(a, x) == CountBelow(b, x) && CountAbove(a, x) == CountAbove(b, x)
    decreases |a|
  {
    if |a| == 0 {
      assert |b| == |multiset(b)| == 0;
    } else {
      assert a[0] in multiset(b);
      var j :| 0 <= j < |b| && b[j] == a[0];
      MultisetWithout(a, b, j);
      CountPermutation(a[1..], b[..j] + b[j + 1..], x);
      CountWithout(b, j, x);
    }
  }

  /**
   * x is an element of s that could stand at position m of s sorted: at
   * most m elements lie under it and at most |s| - 1 - m over it.
   */
  predicate RankedAt(s: seq<int>, x: int, m: int) {
    x in s && CountBelow(s, x) <= m && CountAbove(s, x) <= |s| - 1 - m
  }

  /** The lower of the middle elements (the middle one when |s| is odd). */
  predicate LowerMiddle(s: seq<int>, x: int) {
    RankedAt(s, x, (|s| - 1) / 2)
  }

  /** The upper of the middle elements (the middle one when |s| is odd). */
  predicate UpperMiddle(s: seq<int>, x: int) {
    RankedAt(s, x, |s| / 2)
  }

  /** The element at position m of any ascending arrangement of s has m places under it. */
  lemma SortedMiddle(s: seq<int>, sorted: seq<int>, m: int)
    requires Ascending(sorted) && multiset(sorted) == multiset(s) && 0 <= m < |sorted|
    ensures RankedAt(s, sorted[m], m)
  {
    var x := sorted[m];
    SortedBelow(sorted, m);
    SortedAbove(sorted, m);
    CountPermutation(s, sorted, x);
    assert x in multiset(sorted);
  }

  lemma SortedBelow(sorted: seq<int>, m: int)
    requires Ascending(sorted) && 0 <= m < |sorted|
    ensures CountBelow(sorted, sorted[m]) <= m
  {
    var x := sorted[m];
    var front, back := sorted[..m], sorted[m..];
    assert sorted == front + back;
    assert forall k :: 0 <= k < |back| ==> x <= back[k];
    NoneBelow(back, x);
    CountConcat(front, back, x);
  }

  lemma SortedAbove(sorted: seq<int>, m: int)
    requires Ascending(sorted) && 0 <= m < |sorted|
    ensures CountAbove(sorted, sorted[m]) <= |sorted| - 1 - m
  {
    var x := sorted[m];
    var front, back := sorted[..m + 1], sorted[m + 1..];
    assert sorted == front + back;
    assert forall k :: 0 <= k < |front| ==> front[k] <= x;
    NoneAbove(front, x);
    CountConcat(front, back, x);
  }

  /** Python `sorted(s)` on integers. */
  function SortAscending(s: seq<int>): (r: seq<int>)
    ensures Ascending(r)
    ensures multiset(r) == multiset(s)
    ensures |r| == |s|
  {
    if |s| == 0 then []
    else
      assert s == [s[0]] + s[1..];
      InsertAscending(s[0], SortAscending(s[1..]))
  }
}
