/** Huffman's construction (section K.2 of T.81): the two least frequent groups are merged
    until one is left. No assignment of code lengths that satisfies Kraft's inequality costs
    less. */
module Huffman {
  import opened Bits
  import opened Sums

  /** Frequencies by symbol, zero for a symbol that is not used or has been merged away. */
  type Freqs = seq<nat>

  /** Code lengths by symbol; only those of symbols in use matter. */
  type Lengths = seq<nat>

  function Costs(f: Freqs, l: Lengths): (s: seq<int>)
    requires |f| == |l|
    ensures |s| == |f|
  {
    seq(|f|, i requires 0 <= i < |f| => f[i] * l[i])
  }

  /** The number of bits the symbols take. */
  function Cost(f: Freqs, l: Lengths): int
    requires |f| == |l|
  {
    Sum(Costs(f, l))
  }

  function Shares(f: Freqs, l: Lengths, m: nat): (s: seq<int>)
    requires |f| == |l|
    ensures |s| == |f|
  {
    seq(|f|, i requires 0 <= i < |f| => if f[i] > 0 && l[i] <= m then Pow2(m - l[i]) else 0)
  }

  /** Kraft's inequality for the symbols in use, scaled by 2^m. */
  ghost predicate Kraft(f: Freqs, l: Lengths, m: nat)
    ensures Kraft(f, l, m) ==> |f| == |l|
  {
    && |f| == |l| && (forall i :: 0 <= i < |f| && f[i] > 0 ==> l[i] <= m)
    && Sum(Shares(f, l, m)) <= Pow2(m)
  }

  /** The last of the least nonzero frequencies, other than at `skip`. */
  ghost predicate IsLeast(f: Freqs, skip: int, c: int)
  {
    && 0 <= c < |f| && c != skip && f[c] > 0
    && forall i :: 0 <= i < |f| && i != skip && f[i] > 0 ==> f[c] < f[i] || (f[c] == f[i] && i <= c)
  }

  ghost predicate NoneLeft(f: Freqs, skip: int)
  {
    forall i :: 0 <= i < |f| && i != skip ==> f[i] == 0
  }

  function Merge(f: Freqs, a: nat, b: nat): (r: Freqs)
    requires a < |f| && b < |f|
    ensures |r| == |f|
  {
    f[a := f[a] + f[b]][b := 0]
  }

  // ---- Changing one length ----

  lemma CostSet(f: Freqs, l: Lengths, i: nat, x: nat)
    requires |f| == |l| && i < |f|
    ensures Cost(f, l[i := x]) == Cost(f, l) - f[i] * l[i] + f[i] * x
  {
    assert Costs(f, l[i := x]) == Costs(f, l)[i := f[i] * x];
    SumUpdate(Costs(f, l), i, f[i] * x);
  }

  lemma ShareSet(f: Freqs, l: Lengths, m: nat, i: nat, x: nat)
    requires |f| == |l| && i < |f| && f[i] > 0 && l[i] <= m && x <= m
    ensures Sum(Shares(f, l[i := x], m)) == Sum(Shares(f, l, m)) - Pow2(m - l[i]) + Pow2(m - x)
  {
    assert Shares(f, l[i := x], m) == Shares(f, l, m)[i := Pow2(m - x)];
    SumUpdate(Shares(f, l, m), i, Pow2(m - x));
  }

  /** Giving the rarer of two symbols the longer code never costs more. */
  lemma Swap(f: Freqs, l: Lengths, m: nat, a: nat, b: nat)
    requires Kraft(f, l, m) && a < |f| && b < |f| && a != b && 0 < f[a] <= f[b] && l[a] <= l[b]
    ensures var l2 := l[a := l[b]][b := l[a]]; Kraft(f, l2, m) && Cost(f, l2) <= Cost(f, l)
  {
    hide Cost;
    hide Shares;
    hide Pow2;
    ShareSet(f, l, m, a, l[b]);
    ShareSet(f, l[a := l[b]], m, b, l[a]);
    CostSet(f, l, a, l[b]);
    CostSet(f, l[a := l[b]], b, l[a]);
    Crossed(f[a], f[b], l[a], l[b]);
  }

  lemma Crossed(x: nat, y: nat, p: nat, q: nat)
    requires x <= y && p <= q
    ensures x * q + y * p <= x * p + y * q
  {
    assert (y - x) * (q - p) >= 0;
    assert (y - x) * (q - p) == y * q - y * p - x * q + x * p;
  }

  /** Without a symbol of length m, one bit fewer will do. */
  lemma Tighten(f: Freqs, l: Lengths, m: nat)
    requires Kraft(f, l, m) && m > 0 && forall i :: 0 <= i < |f| && f[i] > 0 ==> l[i] < m
    ensures Kraft(f, l, m - 1)
  {
    SumDouble(Shares(f, l, m - 1), Shares(f, l, m));
  }

  /** If only symbol a has length m, the sum is odd and there is room to shorten it. */
  lemma Shorten(f: Freqs, l: Lengths, m: nat, a: nat)
    requires Kraft(f, l, m) && m > 0 && a < |f| && f[a] > 0 && l[a] == m
    requires forall i :: 0 <= i < |f| && f[i] > 0 && i != a ==> l[i] < m
    ensures Kraft(f, l[a := m - 1], m - 1) && Cost(f, l[a := m - 1]) <= Cost(f, l)
  {
    var s := Shares(f, l, m);
    var halves := seq(|f|, i requires 0 <= i < |f| => if f[i] > 0 && i != a then Pow2(m - 1 - l[i]) else 0);
    SumDouble(halves, s[a := 0]);
    SumUpdate(s, a, 0);
    assert s[a] == Pow2(0) == 1;
    assert Pow2(m) == 2 * Pow2(m - 1);
    ShareSet(f, l, m, a, m - 1);
    assert Pow2(1) == 2;
    assert Kraft(f, l[a := m - 1], m);
    Tighten(f, l[a := m - 1], m);
    CostSet(f, l, a, m - 1);
    Less(f[a], m);
  }

  lemma Less(x: nat, m: nat)
    requires m > 0
    ensures x * (m - 1) == x * m - x
  {
  }

  lemma TwoRoots(f: Freqs, l: Lengths, a: nat, b: nat)
    requires a < |f| && b < |f| && a != b && f[a] > 0 && f[b] > 0
    ensures !Kraft(f, l, 0)
  {
    if Kraft(f, l, 0) {
      assert Shares(f, l, 0)[a] == Pow2(0) == 1 && Shares(f, l, 0)[b] == 1;
      SumAtLeastTwo(Shares(f, l, 0), a, b);
      assert false;
    }
  }

  /** Some assignment that is no worse gives the two rarest symbols the same, longest, length. */
  lemma Deepest(f: Freqs, l: Lengths, m: nat, a: nat, b: nat) returns (l2: Lengths, m2: nat)
    requires Kraft(f, l, m) && IsLeast(f, -1, a) && IsLeast(f, a, b)
    ensures Kraft(f, l2, m2) && m2 > 0 && l2[a] == l2[b] == m2 && Cost(f, l2) <= Cost(f, l)
    decreases m
  {
    hide Cost;
    hide Shares;
    hide Pow2;
    TwoRoots(f, l, a, b);
    if x :| 0 <= x < |f| && f[x] > 0 && l[x] == m {
      l2 := l;
      if l[a] < m {
        Swap(f, l, m, a, x);
        l2 := l[a := l[x]][x := l[a]];
      }
      if y :| 0 <= y < |f| && f[y] > 0 && l2[y] == m && y != a {
        if l2[b] < m {
          Swap(f, l2, m, b, y);
          l2 := l2[b := l2[y]][y := l2[b]];
        }
        m2 := m;
      } else {
        Shorten(f, l2, m, a);
        l2, m2 := Deepest(f, l2[a := m - 1], m - 1, a, b);
      }
    } else {
      Tighten(f, l, m);
      l2, m2 := Deepest(f, l, m - 1, a, b);
    }
  }

  /** The two symbols merged into one: one bit less for each of their occurrences. */
  lemma MergeCost(f: Freqs, l: Lengths, m: nat, a: nat, b: nat)
    requires Kraft(f, l, m) && a < |f| && b < |f| && a != b && f[a] > 0 && f[b] > 0 && m > 0 && l[a] == l[b] == m
    ensures Kraft(Merge(f, a, b), l[a := m - 1], m)
    ensures Cost(f, l) == Cost(Merge(f, a, b), l[a := m - 1]) + f[a] + f[b]
  {
    var g, k := Merge(f, a, b), l[a := m - 1];
    assert Pow2(0) == 1 && Pow2(1) == 2;
    assert Shares(g, k, m) == Shares(f, l, m)[a := 2][b := 0];
    SumUpdate(Shares(f, l, m), a, 2);
    SumUpdate(Shares(f, l, m)[a := 2], b, 0);
    assert Costs(g, k) == Costs(f, l)[a := (f[a] + f[b]) * (m - 1)][b := 0];
    SumUpdate(Costs(f, l), a, (f[a] + f[b]) * (m - 1));
    SumUpdate(Costs(f, l)[a := (f[a] + f[b]) * (m - 1)], b, 0);
    Distribute(f[a], f[b], m);
  }

  lemma Distribute(x: nat, y: nat, m: nat)
    requires m > 0
    ensures (x + y) * (m - 1) == x * m + y * m - x - y
  {
  }

  // ---- Lower bounds ----

  /** Whatever lengths are given to f0, some lengths for f cost less by at least base. */
  ghost predicate Bound(f0: Freqs, f: Freqs, base: int)
  {
    forall l, m :: Kraft(f0, l, m) ==> exists k, n :: Kraft(f, k, n) && Cost(f0, l) >= Cost(f, k) + base
  }

  lemma BoundStart(f: Freqs)
    ensures Bound(f, f, 0)
  {
    forall l, m | Kraft(f, l, m) ensures exists k, n :: Kraft(f, k, n) && Cost(f, l) >= Cost(f, k) + 0 {
      assert Cost(f, l) >= Cost(f, l) + 0;
    }
  }

  lemma BoundMerge(f0: Freqs, f: Freqs, base: int, a: nat, b: nat)
    requires Bound(f0, f, base) && IsLeast(f, -1, a) && IsLeast(f, a, b)
    ensures Bound(f0, Merge(f, a, b), base + f[a] + f[b])
  {
    hide Kraft;
    hide Cost;
    forall l, m | Kraft(f0, l, m)
      ensures exists k, n :: Kraft(Merge(f, a, b), k, n) && Cost(f0, l) >= Cost(Merge(f, a, b), k) + (base + f[a] + f[b])
    {
      var k, n :| Kraft(f, k, n) && Cost(f0, l) >= Cost(f, k) + base;
      var k2, n2 := Deepest(f, k, n, a, b);
      MergeCost(f, k2, n2, a, b);
      assert Cost(f0, l) >= Cost(Merge(f, a, b), k2[a := n2 - 1]) + (base + f[a] + f[b]);
    }
  }

  /** Costs are not negative, so what has been merged is a lower bound. */
  lemma BoundEnd(f0: Freqs, f: Freqs, base: int, l: Lengths, m: nat)
    requires Bound(f0, f, base) && Kraft(f0, l, m)
    ensures Cost(f0, l) >= base
  {
    var k, n :| Kraft(f, k, n) && Cost(f0, l) >= Cost(f, k) + base;
    CostNonneg(f, k);
  }

  lemma CostNonneg(f: Freqs, l: Lengths)
    requires |f| == |l|
    ensures Cost(f, l) >= 0
  {
    forall i | 0 <= i < |f| ensures Costs(f, l)[i] >= 0 { Product(f[i], l[i]); }
    SumNonneg(Costs(f, l));
  }

  lemma Product(x: nat, y: nat)
    ensures x * y >= 0
  {
  }

  // ---- Prefix codes ----

  function Lens(ws: seq<Bits>): (l: Lengths)
    ensures |l| == |ws| && forall i :: 0 <= i < |ws| ==> l[i] == |ws[i]|
  {
    seq(|ws|, i requires 0 <= i < |ws| => |ws[i]|)
  }

  /** No code word of a symbol in use starts another. */
  ghost predicate PrefixFree(f: Freqs, ws: seq<Bits>)
    ensures PrefixFree(f, ws) ==> |f| == |ws|
  {
    |f| == |ws| && forall i, j :: 0 <= i < |f| && 0 <= j < |f| && i != j && f[i] > 0 && f[j] > 0 ==> !(ws[i] <= ws[j])
  }

  /** The symbols whose code word starts with the bit, and what follows it. */
  function Under(f: Freqs, ws: seq<Bits>, bit: bool): (r: Freqs)
    requires |f| == |ws|
    ensures |r| == |f|
  {
    seq(|f|, i requires 0 <= i < |f| => if ws[i] != [] && ws[i][0] == bit then f[i] else 0)
  }

  function Tails(ws: seq<Bits>): (r: seq<Bits>)
    ensures |r| == |ws|
  {
    seq(|ws|, i requires 0 <= i < |ws| => if ws[i] == [] then [] else ws[i][1..])
  }

  lemma UnderPrefixFree(f: Freqs, ws: seq<Bits>, bit: bool)
    requires PrefixFree(f, ws)
    ensures PrefixFree(Under(f, ws, bit), Tails(ws))
  {
    var g, t := Under(f, ws, bit), Tails(ws);
    forall i, j | 0 <= i < |f| && 0 <= j < |f| && i != j && g[i] > 0 && g[j] > 0 ensures !(t[i] <= t[j]) {
      assert ws[i] == [bit] + t[i] && ws[j] == [bit] + t[j];
      ConsPrefix(bit, t[i], t[j]);
    }
  }

  /** Kraft's inequality: a prefix code leaves no less room than its lengths say. */
  lemma {:induction false} PrefixKraft(f: Freqs, ws: seq<Bits>, m: nat)
    requires PrefixFree(f, ws) && forall i :: 0 <= i < |f| && f[i] > 0 ==> |ws[i]| <= m
    ensures Kraft(f, Lens(ws), m)
    decreases m
  {
    hide PrefixFree;
    hide Pow2;
    if i :| 0 <= i < |f| && f[i] > 0 && ws[i] == [] {
      EmptyWord(f, ws, i, m);
    } else if m == 0 {
      NoWords(f, ws);
    } else {
      UnderPrefixFree(f, ws, false);
      UnderPrefixFree(f, ws, true);
      UnderLens(f, ws, false, m);
      UnderLens(f, ws, true, m);
      PrefixKraft(Under(f, ws, false), Tails(ws), m - 1);
      PrefixKraft(Under(f, ws, true), Tails(ws), m - 1);
      SplitShares(f, ws, m);
    }
  }

  lemma ConsPrefix(bit: bool, a: Bits, b: Bits)
    ensures a <= b ==> [bit] + a <= [bit] + b
  {
  }

  lemma UnderLens(f: Freqs, ws: seq<Bits>, bit: bool, m: nat)
    requires |f| == |ws| && m > 0 && forall i :: 0 <= i < |f| && f[i] > 0 ==> |ws[i]| <= m
    ensures forall i :: 0 <= i < |f| && Under(f, ws, bit)[i] > 0 ==> |Tails(ws)[i]| <= m - 1
  {
  }

  /** The empty word starts every word, so it stands alone. */
  lemma EmptyWord(f: Freqs, ws: seq<Bits>, i: nat, m: nat)
    requires PrefixFree(f, ws) && i < |f| && f[i] > 0 && ws[i] == []
    ensures Kraft(f, Lens(ws), m)
  {
    var s := Shares(f, Lens(ws), m);
    forall j | 0 <= j < |f| && j != i ensures f[j] == 0 { assert ws[i] <= ws[j]; }
    SumOnly(s, i);
  }

  lemma NoWords(f: Freqs, ws: seq<Bits>)
    requires |f| == |ws| && forall i :: 0 <= i < |f| ==> f[i] == 0
    ensures Kraft(f, Lens(ws), 0)
  {
    SumZero(Shares(f, Lens(ws), 0));
  }

  /** Half of the room is under each bit. */
  lemma SplitShares(f: Freqs, ws: seq<Bits>, m: nat)
    requires |f| == |ws| && m > 0 && forall i :: 0 <= i < |f| && f[i] > 0 ==> 0 < |ws[i]| <= m
    requires Kraft(Under(f, ws, false), Lens(Tails(ws)), m - 1) && Kraft(Under(f, ws, true), Lens(Tails(ws)), m - 1)
    ensures Kraft(f, Lens(ws), m)
  {
    SumAdd(Shares(Under(f, ws, false), Lens(Tails(ws)), m - 1), Shares(Under(f, ws, true), Lens(Tails(ws)), m - 1),
           Shares(f, Lens(ws), m));
  }
}
