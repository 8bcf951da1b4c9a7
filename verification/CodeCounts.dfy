/** Numbers of codes by length: Kraft's sum as Horner's rule computes it, which is also how
    figure C.2 of T.81 assigns the codes. */
module CodeCounts {
  import opened Bits
  import opened Sums
  import opened HuffTable
  import opened Huffman
  import opened HuffmanChains

  type Counts = seq<nat>

  /** The sum over codes no longer than l, in units of 2^-l. */
  function Horner(b: Counts, l: nat): nat
    requires l < |b|
    decreases l, |b|
  {
    if l == 0 then 0 else 2 * Horner(b, l - 1) + b[l]
  }

  lemma {:induction false} HornerSet(b: Counts, k: nat, x: nat, l: nat)
    requires 0 < k < |b| && l < |b|
    ensures l < k ==> Horner(b[k := x], l) == Horner(b, l)
    ensures k <= l ==> Horner(b[k := x], l) == Horner(b, l) + Shl(x - b[k], l - k)
    decreases l
  {
    if l > 0 {
      HornerSet(b, k, x, l - 1);
      if k < l { ShlStep(x - b[k], l - k); }
    }
  }

  lemma ShlStep(v: int, n: nat)
    requires n > 0
    ensures Shl(v, n) == 2 * Shl(v, n - 1) && Shl(v, 0) == v
  {
  }

  /** The first code of length l, plus the codes of that length. */
  lemma {:induction false} HornerFirst(t: Table, l: nat)
    requires 1 <= l <= 16
    ensures Horner(t.bits, l) == First(t, l) + t.bits[l]
    decreases l
  {
    if l > 1 { HornerFirst(t, l - 1); } else { assert Horner(t.bits, 0) == 0; }
  }

  lemma {:induction false} HornerPrefix(b: Counts, c: Counts, l: nat)
    requires l < |c| <= |b| && c == b[..|c|]
    ensures Horner(c, l) == Horner(b, l)
    decreases l
  {
    if l > 0 { HornerPrefix(b, c, l - 1); }
  }

  /** Codes of length l leave less than the whole room to the longer ones. */
  lemma {:induction false} HornerBound(b: Counts, l: nat, m: nat)
    requires l <= m < |b|
    ensures Shl(Horner(b, l), m - l) <= Horner(b, m)
    ensures l < m && b[m] > 0 ==> Shl(Horner(b, l), m - l) < Horner(b, m)
    decreases m
  {
    if l < m {
      HornerBound(b, l, m - 1);
      ShlStep(Horner(b, l), m - l);
    }
  }

  lemma {:induction false} HornerZero(b: Counts, l: nat)
    requires l < |b| && forall k :: 0 < k <= l ==> b[k] == 0
    ensures Horner(b, l) == 0
    decreases l
  {
    if l > 0 { HornerZero(b, l - 1); }
  }

  // ---- Symbols by code length ----

  /** How many of the first n symbols have a length of i. */
  function NumAt(l: Lengths, n: nat, i: nat): nat
    requires n <= |l|
  {
    if n == 0 then 0 else NumAt(l, n - 1, i) + if l[n - 1] == i then 1 else 0
  }

  lemma {:induction false} NumAtIs(l: Lengths, n: nat, i: nat)
    requires n <= |l|
    ensures NumAt(l, n, i) == |set x: nat | x < n && l[x] == i|
  {
    var have := set x: nat | x < n && l[x] == i;
    if n == 0 {
      assert have == {};
    } else {
      NumAtIs(l, n - 1, i);
      OneMoreAt(l, n - 1, i, (set x: nat | x < n - 1 && l[x] == i), have);
    }
  }

  lemma OneMoreAt(l: Lengths, n: nat, i: nat, less: set<nat>, more: set<nat>)
    requires n < |l| && less == (set x: nat | x < n && l[x] == i) && more == set x: nat | x < n + 1 && l[x] == i
    ensures |more| == |less| + if l[n] == i then 1 else 0
  {
    if l[n] == i { assert more == less + {n}; } else { assert more == less; }
  }

  /** How many have a positive length below i. */
  function NumBelow(l: Lengths, n: nat, i: nat): nat
    requires n <= |l|
  {
    if n == 0 then 0 else NumBelow(l, n - 1, i) + if 0 < l[n - 1] < i then 1 else 0
  }

  lemma {:induction false} NumNext(l: Lengths, n: nat, i: nat)
    requires n <= |l| && i > 0
    ensures NumBelow(l, n, i + 1) == NumBelow(l, n, i) + NumAt(l, n, i)
  {
    if n > 0 { NumNext(l, n - 1, i); }
  }

  lemma {:induction false} NumNone(l: Lengths, n: nat)
    requires n <= |l|
    ensures NumBelow(l, n, 1) == 0
  {
    if n > 0 { NumNone(l, n - 1); }
  }

  /** How many codes have at most k bits. */
  function Upto(b: Counts, k: nat): nat
    requires k < |b|
  {
    if k == 0 then b[0] else Upto(b, k - 1) + b[k]
  }

  lemma {:induction false} UptoSet(b: Counts, i: nat, x: nat, k: nat)
    requires i < |b| && k < |b|
    ensures Upto(b[i := x], k) == Upto(b, k) + if i <= k then x - b[i] else 0
    decreases k
  {
    if k > 0 { UptoSet(b, i, x, k - 1); }
  }

  lemma {:induction false} UptoSame(b: Counts, j: nat, k: nat)
    requires j <= k < |b|
    ensures Upto(b, j) <= Upto(b, k)
    ensures (forall m :: j < m <= k ==> b[m] == 0) ==> Upto(b, j) == Upto(b, k)
    decreases k
  {
    if j < k { UptoSame(b, j, k - 1); }
  }

  lemma {:induction false} NumAtSome(l: Lengths, n: nat, x: nat)
    requires x < n <= |l|
    ensures NumAt(l, n, l[x]) > 0
    decreases n
  {
    if x < n - 1 { NumAtSome(l, n - 1, x); }
  }

  lemma {:induction false} NumAtNone(l: Lengths, n: nat, i: nat)
    requires n <= |l| && forall x :: 0 <= x < n ==> l[x] != i
    ensures NumAt(l, n, i) == 0
    decreases n
  {
    if n > 0 { NumAtNone(l, n - 1, i); }
  }

  /** Kraft's sum over the first n symbols with a positive length. */
  function KraftTo(l: Lengths, n: nat, m: nat): nat
    requires n <= |l|
  {
    if n == 0 then 0 else KraftTo(l, n - 1, m) + if l[n - 1] > 0 then Share(l, m, n - 1) else 0
  }

  function Masked(g: seq<nat>, l: Lengths, m: nat): (s: seq<int>)
    ensures |s| == |l|
  {
    seq(|l|, i requires 0 <= i < |l| => if i in g then Share(l, m, i) else 0)
  }

  lemma {:induction false} MaskedSum(g: seq<nat>, l: Lengths, m: nat)
    requires Inside(g, |l|) && NoRepeats(g)
    ensures Sum(Masked(g, l, m)) == ChainKraft(g, l, m)
  {
    if g == [] {
      SumZero(Masked(g, l, m));
    } else {
      hide Share;
      var x, rest := g[0], g[1..];
      MaskedSum(rest, l, m);
      assert Masked(g, l, m) == Masked(rest, l, m)[x := Share(l, m, x)];
      SumUpdate(Masked(rest, l, m), x, Share(l, m, x));
    }
  }

  lemma {:induction false} KraftToSum(l: Lengths, n: nat, m: nat, s: seq<int>)
    requires n <= |l| == |s| && forall i :: 0 <= i < |l| ==> s[i] == if l[i] > 0 then Share(l, m, i) else 0
    ensures KraftTo(l, n, m) == Sum(s[..n])
  {
    if n > 0 {
      KraftToSum(l, n - 1, m, s);
      SumSnoc(s[..n - 1], s[n - 1]);
      assert s[..n] == s[..n - 1] + [s[n - 1]];
    }
  }

  /** The chain's sum is the sum over all symbols. */
  lemma ChainKraftTo(g: seq<nat>, l: Lengths, m: nat)
    requires Inside(g, |l|) && NoRepeats(g) && forall i :: 0 <= i < |l| ==> (i in g <==> l[i] > 0)
    ensures KraftTo(l, |l|, m) == ChainKraft(g, l, m)
  {
    MaskedSum(g, l, m);
    KraftToSum(l, |l|, m, Masked(g, l, m));
    assert Masked(g, l, m)[..|l|] == Masked(g, l, m);
  }
}
