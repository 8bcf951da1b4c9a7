/** Finite sums over sequences of numbers. */
module Sums {
  function Sum(s: seq<int>): int
  {
    if s == [] then 0 else s[0] + Sum(s[1..])
  }

  lemma {:induction false} SumConcat(a: seq<int>, b: seq<int>)
    ensures Sum(a + b) == Sum(a) + Sum(b)
  {
    if a == [] {
      assert a + b == b;
    } else {
      SumConcat(a[1..], b);
      assert (a + b)[1..] == a[1..] + b;
    }
  }

  lemma SumSnoc(a: seq<int>, x: int)
    ensures Sum(a + [x]) == Sum(a) + x
  {
    SumConcat(a, [x]);
    assert Sum([x]) == x + Sum([]);
  }

  /** Changing one term changes the sum by as much. */
  lemma SumUpdate(s: seq<int>, i: nat, x: int)
    requires i < |s|
    ensures Sum(s[i := x]) == Sum(s) - s[i] + x
  {
    var a, b := s[..i], s[i + 1..];
    assert s == a + ([s[i]] + b) && s[i := x] == a + ([x] + b);
    SumConcat(a, [s[i]] + b);
    SumConcat(a, [x] + b);
    assert ([s[i]] + b)[1..] == b && ([x] + b)[1..] == b;
  }

  lemma {:induction false} SumNonneg(s: seq<int>)
    requires forall i :: 0 <= i < |s| ==> s[i] >= 0
    ensures Sum(s) >= 0
  {
    if s != [] { SumNonneg(s[1..]); }
  }

  lemma SumAtLeast(s: seq<int>, i: nat)
    requires i < |s| && forall j :: 0 <= j < |s| ==> s[j] >= 0
    ensures Sum(s) >= s[i]
  {
    SumUpdate(s, i, 0);
    SumNonneg(s[i := 0]);
  }

  /** Two of the terms. */
  lemma SumAtLeastTwo(s: seq<int>, i: nat, k: nat)
    requires i < |s| && k < |s| && i != k && forall j :: 0 <= j < |s| ==> s[j] >= 0
    ensures Sum(s) >= s[i] + s[k]
  {
    SumUpdate(s, i, 0);
    SumAtLeast(s[i := 0], k);
  }

  lemma {:induction false} SumDouble(a: seq<int>, b: seq<int>)
    requires |a| == |b| && forall i :: 0 <= i < |a| ==> b[i] == 2 * a[i]
    ensures Sum(b) == 2 * Sum(a)
  {
    if a != [] { SumDouble(a[1..], b[1..]); }
  }

  lemma {:induction false} SumZero(s: seq<int>)
    requires forall i :: 0 <= i < |s| ==> s[i] == 0
    ensures Sum(s) == 0
  {
    if s != [] { SumZero(s[1..]); }
  }

  lemma {:induction false} SumAdd(a: seq<int>, b: seq<int>, c: seq<int>)
    requires |a| == |b| == |c| && forall i :: 0 <= i < |a| ==> c[i] == a[i] + b[i]
    ensures Sum(c) == Sum(a) + Sum(b)
  {
    if a != [] { SumAdd(a[1..], b[1..], c[1..]); }
  }

  lemma SumOnly(s: seq<int>, i: nat)
    requires i < |s| && forall j :: 0 <= j < |s| && j != i ==> s[j] == 0
    ensures Sum(s) == s[i]
  {
    SumUpdate(s, i, 0);
    SumZero(s[i := 0]);
  }
}
