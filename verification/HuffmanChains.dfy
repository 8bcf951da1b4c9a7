/** The groups of Huffman's construction as jpeg_gen_optimal_table keeps them: linked through
    the `others` array, each chain holding the leaves of one subtree. */
module HuffmanChains {
  import opened Bits
  import opened Sums
  import opened Huffman

  /** chains[c] lists the symbols of the group that c stands for, none if it stands for none. */
  type Chains = seq<seq<nat>>

  ghost predicate Inside(g: seq<nat>, n: nat) { forall i :: 0 <= i < |g| ==> g[i] < n }

  /** others leads from each member to the next and says -1 at the last. */
  ghost predicate Linked(others: seq<int>, g: seq<nat>)
  {
    && Inside(g, |others|)
    && (forall i :: 0 <= i < |g| - 1 ==> others[g[i]] == g[i + 1])
    && (g != [] ==> others[g[|g| - 1]] == -1)
  }

  /** No symbol is in two places. */
  ghost predicate Disjoint(ch: Chains)
  {
    forall c, i, d, j {:trigger ch[c][i], ch[d][j]} ::
      0 <= c < |ch| && 0 <= i < |ch[c]| && 0 <= d < |ch| && 0 <= j < |ch[d]| && ch[c][i] == ch[d][j] ==> c == d && i == j
  }

  ghost predicate NoRepeats(g: seq<nat>)
  {
    forall i, j :: 0 <= i < j < |g| ==> g[i] != g[j]
  }

  /** Exactly the symbols with a nonzero count stand for groups, each heading its chain. */
  ghost predicate Headed(f: Freqs, ch: Chains)
  {
    |ch| == |f| && forall c :: 0 <= c < |f| ==> if f[c] > 0 then ch[c] != [] && ch[c][0] == c else ch[c] == []
  }

  ghost predicate AllLinked(others: seq<int>, ch: Chains)
  {
    forall c :: 0 <= c < |ch| ==> Linked(others, ch[c])
  }

  /** The chains hold exactly the symbols that are used. */
  ghost predicate Holds(f0: Freqs, ch: Chains)
  {
    && (forall c, i {:trigger ch[c][i]} :: 0 <= c < |ch| && 0 <= i < |ch[c]| ==> ch[c][i] < |f0| && f0[ch[c][i]] > 0)
    && forall x :: 0 <= x < |f0| && f0[x] > 0 ==> exists c, i :: 0 <= c < |ch| && 0 <= i < |ch[c]| && ch[c][i] == x
  }

  // ---- What a group amounts to ----

  function Weight(f0: Freqs, g: seq<nat>): nat
  {
    if g == [] then 0 else (if g[0] < |f0| then f0[g[0]] else 0) + Weight(f0, g[1..])
  }

  function Share(l: Lengths, m: nat, x: nat): nat
  {
    if x < |l| && l[x] <= m then Pow2(m - l[x]) else 0
  }

  function ChainKraft(g: seq<nat>, l: Lengths, m: nat): nat
  {
    if g == [] then 0 else Share(l, m, g[0]) + ChainKraft(g[1..], l, m)
  }

  ghost predicate AtMost(g: seq<nat>, l: Lengths, m: nat)
  {
    Inside(g, |l|) && forall i :: 0 <= i < |g| ==> l[g[i]] <= m
  }

  /** The code lengths within the group fill a binary tree exactly. */
  ghost predicate Complete(g: seq<nat>, l: Lengths)
  {
    forall m :: AtMost(g, l, m) ==> ChainKraft(g, l, m) == Pow2(m)
  }

  /** Every member of a group of two or more has a positive length. */
  ghost predicate Positive(g: seq<nat>, l: Lengths)
  {
    Inside(g, |l|) && (|g| > 1 ==> forall i :: 0 <= i < |g| ==> l[g[i]] > 0)
  }

  /** One level deeper for all members of g. */
  function Deeper(l: Lengths, g: seq<nat>): (r: Lengths)
    ensures |r| == |l|
  {
    seq(|l|, i requires 0 <= i < |l| => l[i] + if i in g then 1 else 0)
  }

  lemma {:induction false} CostDeeper(f0: Freqs, l: Lengths, g: seq<nat>)
    requires |f0| == |l| && Inside(g, |l|) && NoRepeats(g)
    ensures Cost(f0, Deeper(l, g)) == Cost(f0, l) + Weight(f0, g)
  {
    if g == [] {
      assert Deeper(l, g) == l;
    } else {
      hide Cost;
      var x, rest := g[0], g[1..];
      CostDeeper(f0, l, rest);
      assert Deeper(l, g) == Deeper(l, rest)[x := l[x] + 1];
      CostSet(f0, Deeper(l, rest), x, l[x] + 1);
      OneMore(f0[x], l[x]);
    }
  }

  lemma OneMore(x: nat, y: nat)
    ensures x * (y + 1) == x * y + x
  {
  }

  lemma {:induction false} WeightConcat(f0: Freqs, a: seq<nat>, b: seq<nat>)
    ensures Weight(f0, a + b) == Weight(f0, a) + Weight(f0, b)
  {
    if a == [] {
      assert a + b == b;
    } else {
      WeightConcat(f0, a[1..], b);
      assert (a + b)[1..] == a[1..] + b;
    }
  }

  lemma {:induction false} KraftConcat(a: seq<nat>, b: seq<nat>, l: Lengths, m: nat)
    ensures ChainKraft(a + b, l, m) == ChainKraft(a, l, m) + ChainKraft(b, l, m)
  {
    hide Share;
    if a == [] {
      assert a + b == b;
    } else {
      KraftConcat(a[1..], b, l, m);
      assert (a + b)[1..] == a[1..] + b;
    }
  }

  /** One level deeper below a root one level higher. */
  lemma {:induction false} KraftDeeper(g: seq<nat>, l: Lengths, k: Lengths, m: nat)
    requires |l| == |k| && m > 0 && Inside(g, |l|) && forall i :: 0 <= i < |g| ==> k[g[i]] == l[g[i]] + 1
    ensures ChainKraft(g, k, m) == ChainKraft(g, l, m - 1)
  {
    if g != [] { KraftDeeper(g[1..], l, k, m); }
  }

  lemma {:induction false} KraftSame(g: seq<nat>, l: Lengths, k: Lengths, m: nat)
    requires |l| == |k| && Inside(g, |l|) && forall i :: 0 <= i < |g| ==> k[g[i]] == l[g[i]]
    ensures ChainKraft(g, k, m) == ChainKraft(g, l, m)
  {
    if g != [] { KraftSame(g[1..], l, k, m); }
  }

  lemma CompleteSame(g: seq<nat>, l: Lengths, k: Lengths)
    requires |l| == |k| && Inside(g, |l|) && (forall i :: 0 <= i < |g| ==> k[g[i]] == l[g[i]]) && Complete(g, l)
    ensures Complete(g, k)
  {
    forall m | AtMost(g, k, m) ensures ChainKraft(g, k, m) == Pow2(m) {
      KraftSame(g, l, k, m);
      assert AtMost(g, l, m);
    }
  }

  /** Two complete groups under a new root make one. */
  lemma CompleteJoin(a: seq<nat>, b: seq<nat>, l: Lengths, k: Lengths)
    requires |l| == |k| && Inside(a, |l|) && Inside(b, |l|) && a != []
    requires (forall i :: 0 <= i < |a| ==> k[a[i]] == l[a[i]] + 1) && (forall i :: 0 <= i < |b| ==> k[b[i]] == l[b[i]] + 1)
    requires Complete(a, l) && Complete(b, l)
    ensures Complete(a + b, k)
  {
    forall m: nat | AtMost(a + b, k, m) ensures ChainKraft(a + b, k, m) == Pow2(m) {
      assert (a + b)[0] == a[0];
      assert forall i :: 0 <= i < |a| ==> (a + b)[i] == a[i];
      assert forall i :: 0 <= i < |b| ==> (a + b)[|a| + i] == b[i];
      KraftConcat(a, b, k, m);
      KraftDeeper(a, l, k, m);
      KraftDeeper(b, l, k, m);
      assert AtMost(a, l, m - 1) && AtMost(b, l, m - 1);
      assert Pow2(m) == 2 * Pow2(m - 1);
    }
  }

  lemma CompleteOne(x: nat, l: Lengths)
    requires x < |l| && l[x] == 0
    ensures Complete([x], l)
  {
    forall m | AtMost([x], l, m) ensures ChainKraft([x], l, m) == Pow2(m) {
      assert [x][0] == x && [x][1..] == [];
    }
  }

  // ---- The invariant of the merging loop ----

  ghost predicate Shaped(f0: Freqs, f: Freqs, l: Lengths, others: seq<int>, ch: Chains)
  {
    && |f0| == |f| == |l| == |others| == |ch|
    && Headed(f, ch) && AllLinked(others, ch) && Disjoint(ch) && Holds(f0, ch)
    && forall x :: 0 <= x < |f0| && f0[x] == 0 ==> l[x] == 0
  }

  ghost predicate GroupOk(f0: Freqs, f: Freqs, l: Lengths, ch: Chains, c: nat)
    requires |f0| == |f| == |l| == |ch| && c < |f|
  {
    f[c] > 0 ==> f[c] == Weight(f0, ch[c]) && Complete(ch[c], l) && Positive(ch[c], l)
  }

  ghost predicate Grouped(f0: Freqs, f: Freqs, l: Lengths, ch: Chains)
    requires |f0| == |f| == |l| == |ch|
  {
    forall c :: 0 <= c < |f| ==> GroupOk(f0, f, l, ch, c)
  }

  function Single(f: Freqs): (ch: Chains)
    ensures |ch| == |f|
  {
    seq(|f|, i requires 0 <= i < |f| => if f[i] > 0 then [i] else [])
  }

  lemma StartShaped(f: Freqs, l: Lengths, others: seq<int>)
    requires |f| == |l| == |others| && (forall i :: 0 <= i < |f| ==> l[i] == 0 && others[i] == -1)
    ensures Shaped(f, f, l, others, Single(f))
  {
    var ch := Single(f);
    assert Holds(f, ch) by {
      forall x | 0 <= x < |f| && f[x] > 0 ensures exists c, i :: 0 <= c < |ch| && 0 <= i < |ch[c]| && ch[c][i] == x {
        assert ch[x][0] == x;
      }
    }
  }

  lemma StartGrouped(f: Freqs, l: Lengths)
    requires |f| == |l| && (forall i :: 0 <= i < |f| ==> l[i] == 0)
    ensures Grouped(f, f, l, Single(f)) && Cost(f, l) == 0
  {
    hide Complete;
    hide Weight;
    forall c | 0 <= c < |f| ensures GroupOk(f, f, l, Single(f), c) {
      if f[c] > 0 { StartGroup(f, l, c); }
    }
    forall i | 0 <= i < |f| ensures Costs(f, l)[i] == 0 { Nothing(f[i]); }
    SumZero(Costs(f, l));
  }

  lemma StartGroup(f: Freqs, l: Lengths, c: nat)
    requires |f| == |l| && c < |f| && l[c] == 0
    ensures Weight(f, [c]) == f[c] && Complete([c], l) && Positive([c], l)
  {
    assert [c][1..] == [];
    CompleteOne(c, l);
  }

  lemma Nothing(x: nat)
    ensures x * 0 == 0
  {
  }

  // ---- Merging two groups ----

  function Joined(ch: Chains, a: nat, b: nat): (r: Chains)
    requires a < |ch| && b < |ch|
    ensures |r| == |ch|
  {
    ch[a := ch[a] + ch[b]][b := []]
  }

  lemma JoinedDisjoint(ch: Chains, a: nat, b: nat)
    requires Disjoint(ch) && a < |ch| && b < |ch| && a != b
    ensures Disjoint(Joined(ch, a, b))
  {
    var r := Joined(ch, a, b);
    forall c, i, d, j | 0 <= c < |r| && 0 <= i < |r[c]| && 0 <= d < |r| && 0 <= j < |r[d]| && r[c][i] == r[d][j]
      ensures c == d && i == j
    {
      var (c0, i0) := Origin(ch, a, b, c, i);
      var (d0, j0) := Origin(ch, a, b, d, j);
      assert ch[c0][i0] == ch[d0][j0];
    }
  }

  /** Where a member of a joined chain was before. */
  function Origin(ch: Chains, a: nat, b: nat, c: nat, i: nat): (r: (nat, nat))
    requires a < |ch| && b < |ch| && a != b && c < |ch| && i < |Joined(ch, a, b)[c]|
    ensures r.0 < |ch| && r.1 < |ch[r.0]| && ch[r.0][r.1] == Joined(ch, a, b)[c][i]
  {
    if c == a && i >= |ch[a]| then (b, i - |ch[a]|) else (c, i)
  }

  lemma JoinedHolds(f0: Freqs, ch: Chains, a: nat, b: nat)
    requires Holds(f0, ch) && a < |ch| && b < |ch| && a != b
    ensures Holds(f0, Joined(ch, a, b))
  {
    var r := Joined(ch, a, b);
    forall c, i | 0 <= c < |r| && 0 <= i < |r[c]| ensures r[c][i] < |f0| && f0[r[c][i]] > 0 {
      var (c0, i0) := Origin(ch, a, b, c, i);
      assert ch[c0][i0] == r[c][i];
    }
    forall x | 0 <= x < |f0| && f0[x] > 0 ensures exists c, i :: 0 <= c < |r| && 0 <= i < |r[c]| && r[c][i] == x {
      var c, i :| 0 <= c < |ch| && 0 <= i < |ch[c]| && ch[c][i] == x;
      if c == b {
        assert r[a][|ch[a]| + i] == x;
      } else {
        assert r[c][i] == x;
      }
    }
  }

  lemma JoinedLinked(others: seq<int>, ch: Chains, a: nat, b: nat)
    requires AllLinked(others, ch) && Disjoint(ch) && a < |ch| && b < |ch| && a != b && ch[a] != [] && ch[b] != [] && ch[b][0] == b
    ensures ch[a][|ch[a]| - 1] < |others|
    ensures AllLinked(others[ch[a][|ch[a]| - 1] := b], Joined(ch, a, b))
  {
    var r, n := Joined(ch, a, b), |ch[a]|;
    assert Linked(others, ch[a]) && Linked(others, ch[b]);
    var last := ch[a][n - 1];
    var ot := others[last := b];
    forall c | 0 <= c < |r| ensures Linked(ot, r[c]) {
      if c == a {
        forall i | 0 <= i < |r[a]| - 1 ensures ot[r[a][i]] == r[a][i + 1] {
          if i < n - 1 { assert ch[a][i] != ch[a][n - 1]; } else if i >= n { assert ch[b][i - n] != ch[a][n - 1]; }
        }
        assert ch[b][|ch[b]| - 1] != ch[a][n - 1];
      } else if c != b {
        assert Linked(others, ch[c]);
        forall i | 0 <= i < |ch[c]| ensures ch[c][i] != last { assert ch[c][i] != ch[a][n - 1]; }
      }
    }
  }

  lemma ChainFacts(ch: Chains, a: nat, b: nat)
    requires Disjoint(ch) && a < |ch| && b < |ch| && a != b
    ensures NoRepeats(ch[a]) && NoRepeats(ch[b])
    ensures forall i, j :: 0 <= i < |ch[a]| && 0 <= j < |ch[b]| ==> ch[a][i] != ch[b][j]
  {
    forall i, j | 0 <= i < j < |ch[a]| ensures ch[a][i] != ch[a][j] { }
    forall i, j | 0 <= i < j < |ch[b]| ensures ch[b][i] != ch[b][j] { }
  }

  /** The lengths after both chains have been walked. */
  function Deepened(l: Lengths, ch: Chains, a: nat, b: nat): (r: Lengths)
    requires a < |ch| && b < |ch|
    ensures |r| == |l|
  {
    Deeper(Deeper(l, ch[a]), ch[b])
  }

  lemma DeepenedAt(l: Lengths, ch: Chains, a: nat, b: nat, x: nat)
    requires Disjoint(ch) && a < |ch| && b < |ch| && a != b && x < |l|
    ensures Deepened(l, ch, a, b)[x] == l[x] + if x in ch[a] || x in ch[b] then 1 else 0
  {
    ChainFacts(ch, a, b);
  }

  lemma MergeShaped(f0: Freqs, f: Freqs, l: Lengths, others: seq<int>, ch: Chains, a: nat, b: nat)
    requires Shaped(f0, f, l, others, ch) && a < |f| && b < |f| && a != b && f[a] > 0 && f[b] > 0
    ensures ch[a] != [] && ch[a][|ch[a]| - 1] < |others|
    ensures Shaped(f0, Merge(f, a, b), Deepened(l, ch, a, b), others[ch[a][|ch[a]| - 1] := b], Joined(ch, a, b))
  {
    hide Disjoint;
    hide AllLinked;
    hide Holds;
    JoinedDisjoint(ch, a, b);
    JoinedHolds(f0, ch, a, b);
    JoinedLinked(others, ch, a, b);
    MergeHeaded(f, ch, a, b);
    forall x | 0 <= x < |f0| && f0[x] == 0 ensures Deepened(l, ch, a, b)[x] == 0 {
      DeepenedAt(l, ch, a, b, x);
      NotHeld(f0, ch, a, x);
      NotHeld(f0, ch, b, x);
    }
  }

  lemma NotHeld(f0: Freqs, ch: Chains, c: nat, x: nat)
    requires Holds(f0, ch) && c < |ch| && x < |f0| && f0[x] == 0
    ensures x !in ch[c]
  {
  }

  lemma MergeHeaded(f: Freqs, ch: Chains, a: nat, b: nat)
    requires Headed(f, ch) && a < |f| && b < |f| && a != b && f[a] > 0 && f[b] > 0
    ensures Headed(Merge(f, a, b), Joined(ch, a, b))
  {
  }

  lemma MergeGrouped(f0: Freqs, f: Freqs, l: Lengths, others: seq<int>, ch: Chains, a: nat, b: nat)
    requires Shaped(f0, f, l, others, ch) && a < |f| && b < |f| && a != b && f[a] > 0 && f[b] > 0 && Grouped(f0, f, l, ch)
    ensures Grouped(f0, Merge(f, a, b), Deepened(l, ch, a, b), Joined(ch, a, b))
  {
    var k, r := Deepened(l, ch, a, b), Joined(ch, a, b);
    forall c | 0 <= c < |f| ensures GroupOk(f0, Merge(f, a, b), k, r, c) {
      if c == a {
        JoinGroup(f0, f, l, others, ch, a, b);
      } else if c != b && f[c] > 0 {
        OtherGroup(f0, f, l, others, ch, a, b, c);
      }
    }
  }

  lemma GroupFacts(f0: Freqs, f: Freqs, l: Lengths, others: seq<int>, ch: Chains, c: nat)
    requires Shaped(f0, f, l, others, ch) && Grouped(f0, f, l, ch) && c < |f| && f[c] > 0
    ensures |f0| == |f| == |l| == |ch| == |others| && Disjoint(ch) && ch[c] != [] && Inside(ch[c], |l|) && Inside(ch[c], |f0|)
    ensures f[c] == Weight(f0, ch[c]) && Complete(ch[c], l) && Positive(ch[c], l)
  {
    assert GroupOk(f0, f, l, ch, c) && Linked(others, ch[c]);
  }

  lemma JoinGroup(f0: Freqs, f: Freqs, l: Lengths, others: seq<int>, ch: Chains, a: nat, b: nat)
    requires Shaped(f0, f, l, others, ch) && a < |f| && b < |f| && a != b && f[a] > 0 && f[b] > 0 && Grouped(f0, f, l, ch)
    ensures GroupOk(f0, Merge(f, a, b), Deepened(l, ch, a, b), Joined(ch, a, b), a)
  {
    hide *;
    GroupFacts(f0, f, l, others, ch, a);
    GroupFacts(f0, f, l, others, ch, b);
    var k := Deepened(l, ch, a, b);
    DeepenedOn(l, ch, a, b);
    CompleteJoin(ch[a], ch[b], l, k);
    WeightConcat(f0, ch[a], ch[b]);
    PositiveJoin(ch[a], ch[b], k);
    JoinedAt(f0, f, k, ch, a, b);
  }

  lemma DeepenedOn(l: Lengths, ch: Chains, a: nat, b: nat)
    requires Disjoint(ch) && a < |ch| && b < |ch| && a != b && Inside(ch[a], |l|) && Inside(ch[b], |l|)
    ensures Inside(ch[a], |Deepened(l, ch, a, b)|) && Inside(ch[b], |Deepened(l, ch, a, b)|)
    ensures forall i :: 0 <= i < |ch[a]| ==> ch[a][i] < |l| && Deepened(l, ch, a, b)[ch[a][i]] == l[ch[a][i]] + 1
    ensures forall i :: 0 <= i < |ch[b]| ==> ch[b][i] < |l| && Deepened(l, ch, a, b)[ch[b][i]] == l[ch[b][i]] + 1
  {
    hide Disjoint;
    hide Deepened;
    forall i | 0 <= i < |ch[a]| ensures Deepened(l, ch, a, b)[ch[a][i]] == l[ch[a][i]] + 1 { DeepenedAt(l, ch, a, b, ch[a][i]); }
    forall i | 0 <= i < |ch[b]| ensures Deepened(l, ch, a, b)[ch[b][i]] == l[ch[b][i]] + 1 { DeepenedAt(l, ch, a, b, ch[b][i]); }
  }

  lemma PositiveJoin(a: seq<nat>, b: seq<nat>, k: Lengths)
    requires Inside(a, |k|) && Inside(b, |k|)
    requires (forall i :: 0 <= i < |a| ==> k[a[i]] > 0) && (forall i :: 0 <= i < |b| ==> k[b[i]] > 0)
    ensures Positive(a + b, k)
  {
  }

  lemma JoinedAt(f0: Freqs, f: Freqs, k: Lengths, ch: Chains, a: nat, b: nat)
    requires |f0| == |f| == |k| == |ch| && a < |f| && b < |f| && a != b
    requires f[a] + f[b] == Weight(f0, ch[a] + ch[b]) && Complete(ch[a] + ch[b], k) && Positive(ch[a] + ch[b], k)
    ensures GroupOk(f0, Merge(f, a, b), k, Joined(ch, a, b), a)
  {
  }

  lemma OtherGroup(f0: Freqs, f: Freqs, l: Lengths, others: seq<int>, ch: Chains, a: nat, b: nat, c: nat)
    requires Shaped(f0, f, l, others, ch) && a < |f| && b < |f| && a != b && f[a] > 0 && f[b] > 0 && Grouped(f0, f, l, ch)
    requires c < |f| && c != a && c != b && f[c] > 0
    ensures GroupOk(f0, Merge(f, a, b), Deepened(l, ch, a, b), Joined(ch, a, b), c)
  {
    var k := Deepened(l, ch, a, b);
    assert GroupOk(f0, f, l, ch, c) && Linked(others, ch[c]);
    ChainFacts(ch, c, a);
    ChainFacts(ch, c, b);
    hide Complete;
    hide Weight;
    forall i | 0 <= i < |ch[c]| ensures k[ch[c][i]] == l[ch[c][i]] {
      DeepenedAt(l, ch, a, b, ch[c][i]);
    }
    CompleteSame(ch[c], l, k);
  }

  /** The merge makes the total cost grow by the weight of the new group. */
  lemma MergeCosts(f0: Freqs, f: Freqs, l: Lengths, others: seq<int>, ch: Chains, a: nat, b: nat)
    requires Shaped(f0, f, l, others, ch) && a < |f| && b < |f| && a != b && f[a] > 0 && f[b] > 0 && Grouped(f0, f, l, ch)
    ensures Cost(f0, Deepened(l, ch, a, b)) == Cost(f0, l) + f[a] + f[b]
  {
    assert GroupOk(f0, f, l, ch, a) && GroupOk(f0, f, l, ch, b);
    assert Linked(others, ch[a]) && Linked(others, ch[b]);
    ChainFacts(ch, a, b);
    CostDeeper(f0, l, ch[a]);
    CostDeeper(f0, Deeper(l, ch[a]), ch[b]);
  }
}
