/** jpeg_gen_optimal_table of jchuff.c (section K.2 of T.81). */
module OptimalTable {
  import opened Bits
  import opened Sums
  import opened HuffTable
  import opened Huffman
  import opened HuffmanChains
  import opened HuffmanSizes
  import opened CodeCounts

  const NSYMBOLS: nat := 257
  const MAX_CLEN: nat := 32
  const MAX_FREQ: nat := 1000000000

  lemma Sizes()
    ensures NSYMBOLS == 257 && MAX_CLEN == 32 && MAX_FREQ == 1000000000
  {
  }

  lemma TotalMerge(f: Freqs, a: nat, b: nat)
    requires a < |f| && b < |f| && a != b
    ensures Sum(Merge(f, a, b)) == Sum(f) && f[a] + f[b] <= Sum(f)
  {
    hide *;
    SumUpdate(f, a, f[a] + f[b]);
    SumUpdate(f[a := f[a] + f[b]], b, 0);
    SumAtLeastTwo(f, a, b);
    MergeIs(f, a, b);
  }

  lemma EachAtMost(f: Freqs)
    ensures forall i :: 0 <= i < |f| ==> f[i] <= Sum(f)
  {
    forall i | 0 <= i < |f| ensures f[i] <= Sum(f) { SumAtLeast(f, i); }
  }

  /** The least frequency that is not zero; of equal ones that of the larger symbol. */
  method FindLeast(freq: array<nat>, skip: int) returns (c: int)
    requires forall i :: 0 <= i < freq.Length ==> freq[i] <= MAX_FREQ
    ensures c >= -1 && (c == -1 || IsLeast(freq[..], skip, c))
    ensures c == -1 <==> NoneLeft(freq[..], skip)
  {
    c := -1;
    var v := MAX_FREQ;
    var i := 0;
    while i < freq.Length
      invariant 0 <= i <= freq.Length && -1 <= c < i
      invariant c == -1 ==> v == MAX_FREQ && forall j :: 0 <= j < i && j != skip ==> freq[j] == 0
      invariant c >= 0 ==> v == freq[c] > 0 && c != skip
      invariant c >= 0 ==> forall j :: 0 <= j < i && j != skip && freq[j] > 0 ==> v < freq[j] || (v == freq[j] && j <= c)
    {
      if freq[i] != 0 && freq[i] <= v && i != skip {
        v := freq[i];
        c := i;
      }
      i := i + 1;
    }
  }

  /** Where the chain goes on from its k'th member. */
  lemma NextLink(others: seq<int>, g: seq<nat>, k: nat)
    requires Linked(others, g) && k < |g|
    ensures g[k] < |others|
    ensures others[g[k]] >= 0 <==> k + 1 < |g|
    ensures k + 1 < |g| ==> others[g[k]] == g[k + 1] < |others|
  {
    if k + 1 < |g| { assert g[k + 1] < |others|; }
  }

  /** The members of the chain from c0 on go one level deeper. */
  method Deepen(codesize: array<nat>, others: array<int>, c0: nat, ghost g: seq<nat>) returns (c: nat)
    requires codesize.Length == others.Length && g != [] && g[0] == c0 && Linked(others[..], g) && NoRepeats(g)
    modifies codesize
    ensures codesize[..] == Deeper(old(codesize[..]), g) && c == g[|g| - 1] && c < others.Length
  {
    ghost var l, ot := codesize[..], others[..];
    c := c0;
    codesize[c] := codesize[c] + 1;
    ghost var k := 0;
    while others[c] >= 0
      invariant 0 <= k < |g| && c == g[k] && others[..] == ot
      invariant forall i :: 0 <= i < |l| ==> codesize[i] == l[i] + if i in g[..k + 1] then 1 else 0
      decreases |g| - k
    {
      NextLink(ot, g, k);
      c := others[c];
      k := k + 1;
      assert g[..k + 1] == g[..k] + [c];
      codesize[c] := codesize[c] + 1;
    }
    NextLink(ot, g, k);
    assert g[..k + 1] == g;
  }

  /** The state of the merging loop. */
  ghost predicate Merging(f0: Freqs, f: Freqs, l: Lengths, others: seq<int>, ch: Chains)
  {
    && |f0| == NSYMBOLS && Shaped(f0, f, l, others, ch) && Grouped(f0, f, l, ch)
    && Bound(f0, f, Cost(f0, l)) && Sum(f) <= MAX_FREQ
  }

  lemma StartMerging(f: Freqs, l: Lengths, others: seq<int>)
    requires |f| == |l| == |others| == NSYMBOLS && (forall i :: 0 <= i < |f| ==> l[i] == 0 && others[i] == -1) && Sum(f) <= MAX_FREQ
    ensures Merging(f, f, l, others, Single(f))
  {
    hide *;
    StartShaped(f, l, others);
    StartGrouped(f, l);
    BoundStart(f);
    MakeMerging(f, f, l, others, Single(f));
  }

  lemma MakeMerging(f0: Freqs, f: Freqs, l: Lengths, others: seq<int>, ch: Chains)
    requires |f0| == NSYMBOLS && Shaped(f0, f, l, others, ch) && Grouped(f0, f, l, ch)
    requires Bound(f0, f, Cost(f0, l)) && Sum(f) <= MAX_FREQ
    ensures Merging(f0, f, l, others, ch)
  {
  }

  lemma UseMerging(f0: Freqs, f: Freqs, l: Lengths, others: seq<int>, ch: Chains)
    requires Merging(f0, f, l, others, ch)
    ensures |f0| == |f| == |l| == |others| == |ch| == NSYMBOLS && Shaped(f0, f, l, others, ch) && Grouped(f0, f, l, ch)
    ensures Bound(f0, f, Cost(f0, l)) && Sum(f) <= MAX_FREQ
  {
  }

  lemma LeastFacts(f: Freqs, skip: int, c: int)
    requires IsLeast(f, skip, c)
    ensures 0 <= c < |f| && f[c] > 0 && c != skip
  {
  }

  /** One round: the two smallest counts and their branches are merged. */
  lemma MergeStep(f0: Freqs, f: Freqs, l: Lengths, others: seq<int>, ch: Chains, a: nat, b: nat)
    requires Merging(f0, f, l, others, ch) && IsLeast(f, -1, a) && IsLeast(f, a, b)
    ensures a < |ch| && b < |ch| && ch[a] != [] && ch[a][|ch[a]| - 1] < |others|
    ensures Merging(f0, Merge(f, a, b), Deepened(l, ch, a, b), others[ch[a][|ch[a]| - 1] := b], Joined(ch, a, b))
    ensures Live(Merge(f, a, b)) == Live(f) - 1
  {
    hide *;
    UseMerging(f0, f, l, others, ch);
    LeastFacts(f, -1, a);
    LeastFacts(f, a, b);
    MergeShaped(f0, f, l, others, ch, a, b);
    MergeGrouped(f0, f, l, others, ch, a, b);
    MergeCosts(f0, f, l, others, ch, a, b);
    BoundMerge(f0, f, Cost(f0, l), a, b);
    TotalMerge(f, a, b);
    LiveMerge(f, a, b);
    MakeMerging(f0, Merge(f, a, b), Deepened(l, ch, a, b), others[ch[a][|ch[a]| - 1] := b], Joined(ch, a, b));
  }

  /** The two chains a round walks. */
  lemma ChainsToWalk(f0: Freqs, f: Freqs, l: Lengths, others: seq<int>, ch: Chains, a: nat, b: nat)
    requires Merging(f0, f, l, others, ch) && a < |f| && b < |f| && a != b && f[a] > 0 && f[b] > 0
    ensures |ch| == |others| == |f| == |l| && ch[a] != [] && ch[a][0] == a && ch[b] != [] && ch[b][0] == b
    ensures Linked(others, ch[a]) && Linked(others, ch[b]) && NoRepeats(ch[a]) && NoRepeats(ch[b])
    ensures ch[a][|ch[a]| - 1] < |others| && Linked(others[ch[a][|ch[a]| - 1] := b], ch[b])
  {
    hide Linked;
    hide NoRepeats;
    hide Grouped;
    hide Bound;
    ChainFacts(ch, a, b);
    assert Linked(others, ch[a]) && Linked(others, ch[b]);
    LinkedElsewhere(others, ch[a], ch[b], b);
  }

  /** Relinking the end of one chain leaves the other alone. */
  lemma LinkedElsewhere(others: seq<int>, g: seq<nat>, h: seq<nat>, v: int)
    requires Linked(others, g) && Linked(others, h) && g != []
    requires forall i, j :: 0 <= i < |g| && 0 <= j < |h| ==> g[i] != h[j]
    ensures g[|g| - 1] < |others| && Linked(others[g[|g| - 1] := v], h)
  {
  }

  /** Huffman's basic algorithm: the merging loop. */
  method MergeAll(freq: array<nat>, codesize: array<nat>, others: array<int>) returns (ghost ch: Chains)
    requires freq.Length == codesize.Length == others.Length == NSYMBOLS && freq != codesize
    requires forall i :: 0 <= i < NSYMBOLS ==> codesize[i] == 0 && others[i] == -1
    requires Sum(freq[..]) <= MAX_FREQ && freq[256] > 0
    modifies freq, codesize, others
    ensures Merging(old(freq[..]), freq[..], codesize[..], others[..], ch)
    ensures exists c :: IsLeast(freq[..], -1, c) && NoneLeft(freq[..], c)
    ensures codesize[..] == CodeSizes(old(freq[..]))
  {
    hide *;
    ghost var f0 := freq[..];
    ch := Single(f0);
    Sizes();
    assert freq[..][256] > 0;
    StartMerging(f0, codesize[..], others[..]);
    CodeSizesIs(f0, codesize[..]);
    UseMerging(f0, f0, codesize[..], others[..], ch);
    while true
      invariant Merging(f0, freq[..], codesize[..], others[..], ch)
      invariant exists i :: 0 <= i < |freq[..]| && freq[..][i] > 0
      invariant |freq[..]| == |codesize[..]| == |ch| && Merged(freq[..], codesize[..], ch) == CodeSizes(f0)
      decreases Live(freq[..])
    {
      UseMerging(f0, freq[..], codesize[..], others[..], ch);
      ghost var f, l, ot := freq[..], codesize[..], others[..];
      EachAtMost(f);
      var c1 := FindLeast(freq, -1);
      var c2 := FindLeast(freq, c1);
      SomeLeast(f, c1);
      if c2 < 0 {
        MergedEnd(f, l, ch, c1);
        return;
      }
      LeastFacts(f, -1, c1);
      LeastFacts(f, c1, c2);
      MergeStep(f0, f, l, ot, ch, c1, c2);
      MakeNextTwo(f, c1, c2);
      MergedNext(f, l, ch, c1, c2);
      ChainsToWalk(f0, f, l, ot, ch, c1, c2);
      LiveNonneg(f);
      LiveNonneg(Merge(f, c1, c2));
      freq[c1] := freq[c1] + freq[c2];
      freq[c2] := 0;
      MergeIs(f, c1, c2);
      assert freq[..] == Merge(f, c1, c2);
      var last := Deepen(codesize, others, c1, ch[c1]);
      others[last] := c2;
      assert others[..] == ot[last := c2];
      last := Deepen(codesize, others, c2, ch[c2]);
      DeepenedIs(l, ch, c1, c2);
      ch := Joined(ch, c1, c2);
      UseMerging(f0, freq[..], codesize[..], others[..], ch);
      assert freq[..][c1] > 0;
    }
  }

  lemma SomeLeast(f: Freqs, c1: int)
    requires (c1 == -1 || IsLeast(f, -1, c1)) && (c1 == -1 <==> NoneLeft(f, -1)) && exists i :: 0 <= i < |f| && f[i] > 0
    ensures IsLeast(f, -1, c1) && c1 >= 0
  {
  }

  lemma MergeIs(f: Freqs, a: nat, b: nat)
    requires a < |f| && b < |f|
    ensures Merge(f, a, b) == f[a := f[a] + f[b]][b := 0]
  {
  }

  lemma DeepenedIs(l: Lengths, ch: Chains, a: nat, b: nat)
    requires a < |ch| && b < |ch|
    ensures Deepened(l, ch, a, b) == Deeper(Deeper(l, ch[a]), ch[b])
  {
  }

  // ---- Counting the code lengths ----

  /** bits[] for the first n symbols. */
  ghost predicate CountsOf(b: Counts, l: Lengths, n: nat)
    requires n <= |l|
  {
    && |b| == MAX_CLEN + 1 && b[0] == 0 && (forall k :: 0 < k <= MAX_CLEN ==> b[k] == NumAt(l, n, k))
    && Horner(b, MAX_CLEN) == KraftTo(l, n, MAX_CLEN) && Sum(b) == NumBelow(l, n, MAX_CLEN + 1)
  }

  lemma CountSteps(l: Lengths, n: nat)
    requires n < |l| && l[n] <= MAX_CLEN
    ensures KraftTo(l, n + 1, MAX_CLEN) == KraftTo(l, n, MAX_CLEN) + if l[n] > 0 then Pow2(MAX_CLEN - l[n]) else 0
    ensures NumBelow(l, n + 1, MAX_CLEN + 1) == NumBelow(l, n, MAX_CLEN + 1) + if l[n] > 0 then 1 else 0
  {
    hide Pow2;
  }

  lemma CountOne(b: Counts, l: Lengths, n: nat)
    requires n < |l| && CountsOf(b, l, n) && l[n] <= MAX_CLEN
    ensures l[n] == 0 ==> CountsOf(b, l, n + 1)
    ensures l[n] > 0 ==> CountsOf(b[l[n] := b[l[n]] + 1], l, n + 1)
  {
    hide Horner;
    hide Sum;
    hide Pow2;
    hide Shl;
    hide KraftTo;
    hide NumBelow;
    CountSteps(l, n);
    forall k | 0 < k <= MAX_CLEN ensures NumAt(l, n + 1, k) == NumAt(l, n, k) + if l[n] == k then 1 else 0 { NumAtStep(l, n, k); }
    hide NumAt;
    if l[n] > 0 {
      HornerSet(b, l[n], b[l[n]] + 1, MAX_CLEN);
      ShlPow2(0, MAX_CLEN - l[n]);
      assert Pow2(0) == 1 by { PowZero(); }
      SumUpdate(b, l[n], b[l[n]] + 1);
    }
  }

  lemma PowZero()
    ensures Pow2(0) == 1
  {
  }

  /** A counter is at most the number of symbols counted. */
  lemma CountBound(b: Counts, i: nat)
    requires i < |b|
    ensures b[i] <= Sum(b)
  {
    SumAtLeast(b, i);
  }

  lemma {:induction false} NumMono(l: Lengths, n: nat, m: nat, i: nat)
    requires n <= m <= |l|
    ensures NumBelow(l, n, i) <= NumBelow(l, m, i)
    decreases m
  {
    if n < m { NumMono(l, n, m - 1, i); }
  }

  lemma NoCounts(b: Counts, l: Lengths)
    requires |b| == MAX_CLEN + 1 && forall i :: 0 <= i < |b| ==> b[i] == 0
    ensures CountsOf(b, l, 0)
  {
    SumZero(b);
    HornerZero(b, MAX_CLEN);
  }

  /** How many symbols there are of each length; JERR_HUFF_CLEN_OVERFLOW beyond 32. UINT8
      counters are wide enough for fewer than 256 symbols. */
  method CountSizes(codesize: array<nat>) returns (ok: bool, bits: array<byte>)
    requires codesize.Length == NSYMBOLS && NumBelow(codesize[..], NSYMBOLS, MAX_CLEN + 1) <= 255
    ensures ok <==> forall i :: 0 <= i < NSYMBOLS ==> codesize[i] <= MAX_CLEN
    ensures fresh(bits) && bits.Length == MAX_CLEN + 1
    ensures ok ==> CountsOf(bits[..], codesize[..], NSYMBOLS) && bits[..] == SizeCounts(codesize[..])
  {
    bits := new byte[MAX_CLEN + 1](i => 0);
    ghost var l := codesize[..];
    NoCounts(bits[..], l);
    hide CountsOf;
    hide NumBelow;
    var i := 0;
    while i < NSYMBOLS
      invariant 0 <= i <= NSYMBOLS && codesize[..] == l
      invariant forall j :: 0 <= j < i ==> l[j] <= MAX_CLEN
      invariant CountsOf(bits[..], l, i)
    {
      assert l[i] == codesize[i];
      if codesize[i] != 0 {
        if codesize[i] > MAX_CLEN { return false, bits; }
        CountNext(bits[..], l, i);
        ghost var b := bits[..];
        bits[codesize[i]] := bits[codesize[i]] + 1;
        assert bits[..] == b[l[i] := b[l[i]] + 1];
      } else {
        CountOne(bits[..], l, i);
      }
      i := i + 1;
    }
    SizeCountsAre(bits[..], l);
    ok := true;
  }

  /** How many of all symbols have a code of each length. */
  ghost function SizeCounts(l: Lengths): (b: Counts)
    ensures |b| == MAX_CLEN + 1
  {
    seq(MAX_CLEN + 1, k requires 0 <= k < MAX_CLEN + 1 => if k == 0 then 0 else NumAt(l, |l|, k))
  }

  lemma SizeCountsAre(b: Counts, l: Lengths)
    requires |l| == NSYMBOLS && CountsOf(b, l, NSYMBOLS)
    ensures b == SizeCounts(l)
  {
    hide Horner;
    hide Sum;
    hide NumBelow;
    hide KraftTo;
    hide NumAt;
  }

  lemma CountNext(b: Counts, l: Lengths, n: nat)
    requires |l| == NSYMBOLS && n < |l| && CountsOf(b, l, n) && 0 < l[n] <= MAX_CLEN && NumBelow(l, NSYMBOLS, MAX_CLEN + 1) <= 255
    ensures b[l[n]] + 1 <= 255 && CountsOf(b[l[n] := b[l[n]] + 1], l, n + 1)
  {
    CountOne(b, l, n);
    NumMono(l, n + 1, NSYMBOLS, MAX_CLEN + 1);
    CountBound(b[l[n] := b[l[n]] + 1], l[n]);
  }

  // ---- Limiting the code lengths ----

  /** A full code with no length over i and fewer than 256 symbols. */
  ghost predicate Full(b: Counts, i: nat, n: nat)
  {
    && |b| == MAX_CLEN + 1 && 0 < i <= MAX_CLEN && b[0] == 0
    && Horner(b, i) == Pow2(i) && (forall l :: i < l <= MAX_CLEN ==> b[l] == 0) && Sum(b) == n
  }

  /** Codes of the greatest length come in pairs. */
  lemma Paired(b: Counts, i: nat, n: nat)
    requires Full(b, i, n) && b[i] > 0
    ensures b[i] >= 2
  {
    assert Pow2(i) == 2 * Pow2(i - 1);
  }

  /** With fewer than 256 symbols, a length over 16 leaves a code at least two shorter. */
  lemma ShorterExists(b: Counts, i: nat, n: nat)
    requires Full(b, i, n) && i > 16 && n <= 255
    ensures exists j :: 0 < j <= i - 2 && b[j] > 0
  {
    Pow2Large(i);
    hide Pow2;
    CountBound(b, i);
    CountBound(b, i - 1);
    if forall j :: 0 < j <= i - 2 ==> b[j] == 0 {
      HornerZero(b, i - 2);
      assert Horner(b, i) == 2 * Horner(b, i - 1) + b[i];
    }
  }

  lemma Pow2Large(i: nat)
    requires i > 16
    ensures Pow2(i) > 65535
  {
    Pow2Mono(16, i);
    assert Pow2(16) == 65536 by { assert Pow2(8) == 256; assert Pow2(12) == 4096; }
  }

  /** The counts after one adjustment. */
  function Adjusted(b: Counts, i: nat, j: nat): (r: Counts)
    requires 0 < j <= i - 2 && i < |b| && b[i] >= 2 && b[j] > 0
    ensures |r| == |b|
  {
    var b1 := b[i := b[i] - 2];
    var b2 := b1[i - 1 := b1[i - 1] + 1];
    var b3 := b2[j + 1 := b2[j + 1] + 2];
    b3[j := b3[j] - 1]
  }

  /** An adjustment keeps the number of symbols and Kraft's sum. */
  lemma AdjustedFull(b: Counts, i: nat, j: nat, n: nat)
    requires Full(b, i, n) && 0 < j <= i - 2 && b[i] >= 2 && b[j] > 0
    ensures Full(Adjusted(b, i, j), i, n) && Adjusted(b, i, j)[i] == b[i] - 2
  {
    hide Horner;
    hide Sum;
    hide Pow2;
    hide Shl;
    var b1 := b[i := b[i] - 2];
    var b2 := b1[i - 1 := b1[i - 1] + 1];
    var b3 := b2[j + 1 := b2[j + 1] + 2];
    HornerSet(b, i, b[i] - 2, i);
    HornerSet(b1, i - 1, b1[i - 1] + 1, i);
    HornerSet(b2, j + 1, b2[j + 1] + 2, i);
    HornerSet(b3, j, b3[j] - 1, i);
    SumUpdate(b, i, b[i] - 2);
    SumUpdate(b1, i - 1, b1[i - 1] + 1);
    SumUpdate(b2, j + 1, b2[j + 1] + 2);
    SumUpdate(b3, j, b3[j] - 1);
    Balance(i - j);
  }

  lemma Balance(n: nat)
    requires n >= 2
    ensures Shl(-2, 0) + Shl(1, 1) + Shl(2, n - 1) + Shl(-1, n) == 0
  {
    ShlNeg(1, n);
    ShlDouble(1, n - 1);
    assert Shl(1, 1) == 2;
  }

  /** A length that is no longer in use: the code is full one bit earlier. */
  lemma FullLess(b: Counts, i: nat, n: nat)
    requires Full(b, i, n) && i > 1 && b[i] == 0
    ensures Full(b, i - 1, n)
  {
    assert Pow2(i) == 2 * Pow2(i - 1);
  }

  lemma FullFacts(b: Counts, i: nat, n: nat)
    requires Full(b, i, n)
    ensures |b| == MAX_CLEN + 1 == 33 && 0 < i <= MAX_CLEN && Sum(b) == n && b[0] == 0
    ensures forall k :: 0 <= k < |b| ==> b[k] <= n
  {
    forall k | 0 <= k < |b| ensures b[k] <= n { CountBound(b, k); }
  }

  /** No counter overflows on the way through an adjustment. */
  lemma AdjustRoom(b: Counts, i: nat, j: nat, n: nat)
    requires Full(b, i, n) && n <= 255 && 0 < j <= i - 2 && b[i] >= 2 && b[j] > 0
    ensures b[i - 1] + 1 <= 255 && b[i - 1 := b[i - 1] + 1][j + 1] + 2 <= 255
  {
    hide Horner;
    hide Pow2;
    SumAtLeastTwo(b, i, i - 1);
    SumAtLeastTwo(b, i, j + 1);
    ThreeOf(b, i, j, j + 1);
  }

  lemma ThreeOf(b: Counts, i: nat, j: nat, k: nat)
    requires i < |b| && j < |b| && k < |b| && i != j && j != k
    ensures Sum(b) >= b[j] + b[k] && (i != k ==> Sum(b) >= b[i] + b[j] + b[k])
  {
    SumAtLeastTwo(b, j, k);
    if i != k {
      SumUpdate(b, i, 0);
      SumAtLeastTwo(b[i := 0], j, k);
    }
  }

  /** The greatest length in use among those of at most j, or 0. */
  function Nearest(b: Counts, j: nat): nat
    requires j < |b|
  {
    if j == 0 || b[j] > 0 then j else Nearest(b, j - 1)
  }

  lemma {:induction false} NearestIs(b: Counts, j: nat)
    requires j < |b|
    ensures Nearest(b, j) <= j && (Nearest(b, j) > 0 ==> b[Nearest(b, j)] > 0)
    ensures forall k :: Nearest(b, j) < k <= j ==> b[k] == 0
    decreases j
  {
    if j > 0 && b[j] == 0 { NearestIs(b, j - 1); }
  }

  lemma NearestOnly(b: Counts, i: nat, j: nat)
    requires i < |b| && 0 < j <= i && b[j] > 0 && forall k :: j < k <= i ==> b[k] == 0
    ensures Nearest(b, i) == j
  {
    NearestIs(b, i);
  }

  /** The next shorter length in use. */
  method FindShorter(bits: array<byte>, i: nat, ghost n: nat) returns (j: nat)
    requires bits.Length == MAX_CLEN + 1 && Full(bits[..], i, n) && i > 16 && n <= 255
    ensures 0 < j <= i - 2 && bits[j] > 0 && (forall k :: j < k <= i - 2 ==> bits[k] == 0) && j == Nearest(bits[..], i - 2)
  {
    ShorterExists(bits[..], i, n);
    hide *;
    FullFacts(bits[..], i, n);
    j := i - 2;
    while bits[j] == 0
      invariant 0 < j <= i - 2 && forall k :: j < k <= i - 2 ==> bits[k] == 0
      decreases j
    {
      j := j - 1;
    }
    NearestOnly(bits[..], i - 2, j);
  }

  /** Move two codes of the greatest length i up. */
  method Adjust(bits: array<byte>, i: nat, ghost n: nat)
    requires bits.Length == MAX_CLEN + 1 && Full(bits[..], i, n) && i > 16 && n <= 255 && bits[i] > 0
    modifies bits
    ensures Full(bits[..], i, n) && bits[i] < old(bits[i]) && Limited(old(bits[..]), i) == Limited(bits[..], i)
  {
    hide *;
    ghost var b := bits[..];
    FullFacts(b, i, n);
    Paired(b, i, n);
    var j := FindShorter(bits, i, n);
    AdjustRoom(b, i, j, n);
    AdjustedFull(b, i, j, n);
    AdjustedIs(b, i, j);
    bits[i] := bits[i] - 2;
    bits[i - 1] := bits[i - 1] + 1;
    bits[j + 1] := bits[j + 1] + 2;
    bits[j] := bits[j] - 1;
    assert bits[..] == Adjusted(b, i, j);
    LimitedMore(b, i, j);
  }

  /** The counts once all lengths are at most 16, from those with none over i. */
  ghost function Limited(b: Counts, i: nat): Counts
    requires i < |b|
    decreases i, if i < |b| then b[i] else 0
  {
    if i <= 16 then b
    else if b[i] == 0 then Limited(b, i - 1)
    else
      var j := Nearest(b, i - 2);
      NearestIs(b, i - 2);
      if b[i] >= 2 && j > 0 then
        AdjustedIs(b, i, j);
        Limited(Adjusted(b, i, j), i)
      else b
  }

  lemma LimitedMore(b: Counts, i: nat, j: nat)
    requires 16 < i < |b| && b[i] >= 2 && 0 < j <= i - 2 && b[j] > 0 && j == Nearest(b, i - 2)
    ensures Limited(b, i) == Limited(Adjusted(b, i, j), i)
  {
    hide Adjusted;
    hide Nearest;
  }

  lemma LimitedLess(b: Counts, i: nat)
    requires i < |b|
    ensures i > 16 && b[i] == 0 ==> Limited(b, i) == Limited(b, i - 1)
    ensures i <= 16 ==> Limited(b, i) == b
  {
    hide Adjusted;
    hide Nearest;
  }

  lemma {:induction false} NothingToLimit(b: Counts, i: nat)
    requires i < |b| && forall k :: 16 < k < |b| ==> b[k] == 0
    ensures Limited(b, i) == b
    decreases i
  {
    hide Limited;
    LimitedLess(b, i);
    if i > 16 { NothingToLimit(b, i - 1); }
  }

  /** What a limiting step does to the codes in order of their length: two of the greatest length
      i go, one of them ends up right above the other, and of the codes that stay exactly one gets
      longer, by one bit: the last of those with at most i - 2 bits. */
  ghost predicate OneLonger(b: Counts, c: Counts, i: nat, j: nat)
  {
    && |b| == |c| == MAX_CLEN + 1 && 16 < i <= MAX_CLEN && 0 < j <= i - 2
    && b[i] == c[i] + 2 && (forall k :: i < k <= MAX_CLEN ==> b[k] == c[k] == 0)
    && b[j] > 0 && Upto(b, j) == Upto(b, i - 2)
    && Upto(c, j) == Upto(b, j) - 1
    && (forall k :: 0 <= k <= MAX_CLEN && k != j ==> Upto(c, k) >= Upto(b, k))
    && b[i] >= 2 && c == Adjusted(b, i, j)
  }

  lemma AdjustedUpto(b: Counts, i: nat, j: nat, k: nat)
    requires 0 < j <= i - 2 && i < |b| && b[i] >= 2 && b[j] > 0 && k < |b|
    ensures Upto(Adjusted(b, i, j), k) == Upto(b, k) + (if j <= k then -1 else 0) + (if j + 1 <= k then 2 else 0)
                                          + (if i - 1 <= k then 1 else 0) + if i <= k then -2 else 0
  {
    hide Upto;
    var b1 := b[i := b[i] - 2];
    var b2 := b1[i - 1 := b1[i - 1] + 1];
    var b3 := b2[j + 1 := b2[j + 1] + 2];
    UptoSet(b, i, b[i] - 2, k);
    UptoSet(b1, i - 1, b1[i - 1] + 1, k);
    UptoSet(b2, j + 1, b2[j + 1] + 2, k);
    UptoSet(b3, j, b3[j] - 1, k);
  }

  lemma MakeOneLonger(b: Counts, c: Counts, i: nat, j: nat)
    requires |b| == |c| == MAX_CLEN + 1 && 16 < i <= MAX_CLEN && 0 < j <= i - 2 && b[i] >= 2 && b[j] > 0
    requires c == Adjusted(b, i, j) && b[i] == c[i] + 2 && (forall k :: i < k <= MAX_CLEN ==> b[k] == c[k] == 0)
    requires Upto(b, j) == Upto(b, i - 2) && Upto(c, j) == Upto(b, j) - 1
    requires forall k :: 0 <= k <= MAX_CLEN && k != j ==> Upto(c, k) >= Upto(b, k)
    ensures OneLonger(b, c, i, j)
  {
    hide Upto;
    hide Adjusted;
  }

  lemma AdjustedLonger(b: Counts, i: nat, j: nat, n: nat)
    requires Full(b, i, n) && 16 < i <= MAX_CLEN && i < |b| && b[i] >= 2 && 0 < j && j == Nearest(b, i - 2) && j < |b| && b[j] > 0
    ensures j <= i - 2 && OneLonger(b, Adjusted(b, i, j), i, j)
  {
    NearestIs(b, i - 2);
    FullFacts(b, i, n);
    hide Upto;
    hide Horner;
    hide Sum;
    hide Nearest;
    hide Pow2;
    AdjustedIs(b, i, j);
    UptoSame(b, j, i - 2);
    hide Adjusted;
    hide OneLonger;
    forall k | 0 <= k <= MAX_CLEN
      ensures k == j ==> Upto(Adjusted(b, i, j), k) == Upto(b, k) - 1
      ensures k != j ==> Upto(Adjusted(b, i, j), k) >= Upto(b, k)
    {
      AdjustedUpto(b, i, j, k);
    }
    MakeOneLonger(b, Adjusted(b, i, j), i, j);
  }

  ghost predicate LimitStep(b: Counts, c: Counts) { exists i: nat, j: nat :: OneLonger(b, c, i, j) }

  lemma MakeLimitStep(b: Counts, c: Counts, i: nat, j: nat)
    requires OneLonger(b, c, i, j)
    ensures LimitStep(b, c)
  {
  }

  /** In counts: two codes of the greatest length i, one of them moved to i - 1, the other joining
      the only one of the nearest length j below, both with j + 1 bits. */
  lemma LimitStepIs(b: Counts, c: Counts) returns (i: nat, j: nat)
    requires LimitStep(b, c)
    ensures |b| == |c| == 33 && 16 < i <= 32 && 0 < j <= i - 2 && b[j] > 0
    ensures (forall k :: j < k <= i - 2 ==> b[k] == 0) && (forall k :: i < k <= 32 ==> b[k] == 0)
    ensures forall k :: 0 <= k <= 32 ==>
            c[k] + (if k == i then 2 else 0) + (if k == j then 1 else 0)
            == b[k] + (if k == i - 1 then 1 else 0) + (if k == j + 1 then 2 else 0)
  {
    i, j :| OneLonger(b, c, i, j);
    hide Upto;
    forall k | j < k <= i - 2 ensures b[k] == 0 { UptoGap(b, j, i - 2, k); }
  }

  lemma {:induction false} UptoGap(b: Counts, j: nat, m: nat, k: nat)
    requires j < k <= m < |b| && Upto(b, j) == Upto(b, m)
    ensures b[k] == 0
    decreases m
  {
    UptoRises(b, j, m - 1);
    if k < m { UptoGap(b, j, m - 1, k); }
  }

  lemma {:induction false} UptoRises(b: Counts, j: nat, m: nat)
    requires j <= m < |b|
    ensures Upto(b, j) <= Upto(b, m)
    decreases m
  {
    if j < m { UptoRises(b, j, m - 1); }
  }

  /** Limiting is a run of such steps, and ends with a full code of at most 16 bits. */
  lemma {:induction false} LimitedRun(b: Counts, i: nat, n: nat) returns (run: seq<Counts>)
    requires Full(b, i, n) && 16 <= i && n <= 255
    ensures run != [] && run[0] == b && run[|run| - 1] == Limited(b, i)
    ensures forall k :: 0 <= k < |run| - 1 ==> LimitStep(run[k], run[k + 1])
    ensures Full(Limited(b, i), 16, n)
    decreases i, if i < |b| then b[i] else 0
  {
    hide *;
    FullFacts(b, i, n);
    LimitedLess(b, i);
    if i == 16 {
      run := [b];
    } else if b[i] == 0 {
      FullLess(b, i, n);
      run := LimitedRun(b, i - 1, n);
    } else {
      Paired(b, i, n);
      ShorterExists(b, i, n);
      NearestIs(b, i - 2);
      var j := Nearest(b, i - 2);
      AdjustedFull(b, i, j, n);
      AdjustedLonger(b, i, j, n);
      LimitedMore(b, i, j);
      MakeLimitStep(b, Adjusted(b, i, j), i, j);
      var rest := LimitedRun(Adjusted(b, i, j), i, n);
      run := [b] + rest;
      forall k | 0 <= k < |run| - 1 ensures LimitStep(run[k], run[k + 1]) {
        if k > 0 { assert run[k] == rest[k - 1] && run[k + 1] == rest[k]; }
      }
    }
  }

  lemma AdjustedIs(b: Counts, i: nat, j: nat)
    requires 0 < j <= i - 2 && i < |b| && b[i] >= 2 && b[j] > 0
    ensures forall k :: 0 <= k < |b| ==>
      Adjusted(b, i, j)[k] == if k == i then b[k] - 2
                              else if k == i - 1 && k == j + 1 then b[k] + 3
                              else if k == i - 1 then b[k] + 1
                              else if k == j + 1 then b[k] + 2
                              else if k == j then b[k] - 1
                              else b[k]
  {
  }

  /** Lengths over 16 go in pairs: one symbol of a pair moves up to their common prefix, and the
      other shares what was a code of some shorter length. */
  method LimitLengths(bits: array<byte>, ghost n: nat)
    requires bits.Length == MAX_CLEN + 1 && Full(bits[..], MAX_CLEN, n) && n <= 255
    modifies bits
    ensures Full(bits[..], 16, n) && bits[..] == Limited(old(bits[..]), MAX_CLEN)
  {
    hide *;
    FullFacts(bits[..], MAX_CLEN, n);
    var i := MAX_CLEN;
    while i > 16
      invariant 16 <= i <= MAX_CLEN && Full(bits[..], i, n) && Limited(bits[..], i) == Limited(old(bits[..]), MAX_CLEN)
    {
      while bits[i] > 0
        invariant Full(bits[..], i, n) && Limited(bits[..], i) == Limited(old(bits[..]), MAX_CLEN)
        decreases bits[i]
      {
        Adjust(bits, i, n);
      }
      FullLess(bits[..], i, n);
      LimitedLess(bits[..], i);
      i := i - 1;
    }
    LimitedLess(bits[..], i);
  }

  /** At every length there is a code to spare. */
  ghost predicate Spare(b: Counts)
  {
    |b| == MAX_CLEN + 1 && b[0] == 0 && forall l :: 1 <= l <= 16 ==> Horner(b, l) < Pow2(l)
  }

  /** Taking one code of the greatest length away leaves room for the all-ones code. */
  lemma RemovedSpare(b: Counts, i: nat, n: nat)
    requires Full(b, 16, n) && 0 < i <= 16 && b[i] > 0 && forall l :: i < l <= 16 ==> b[l] == 0
    ensures Spare(b[i := b[i] - 1]) && Sum(b[i := b[i] - 1]) == n - 1
  {
    hide Horner;
    hide Pow2;
    hide Shl;
    hide Sum;
    SumUpdate(b, i, b[i] - 1);
    forall l | 1 <= l <= 16 ensures Horner(b[i := b[i] - 1], l) < Pow2(l) {
      HornerSet(b, i, b[i] - 1, l);
      if l < i {
        BelowFull(b, i, l);
      } else {
        AtFull(b, l);
        ShlNeg(1, l - i);
        ShlPositive(l - i);
      }
    }
  }

  lemma ShlPositive(n: nat)
    ensures Shl(1, n) > 0 && Shl(-1, n) == -Shl(1, n)
  {
    ShlPow2(0, n);
    ShlNeg(1, n);
    PowZero();
  }

  lemma AtFull(b: Counts, l: nat)
    requires |b| > 16 && Horner(b, 16) == Pow2(16) && l <= 16
    ensures Horner(b, l) <= Pow2(l)
  {
    hide *;
    HornerBound(b, l, 16);
    ShlPow2(l, 16 - l);
    if Horner(b, l) > Pow2(l) {
      ShlMono(Pow2(l) + 1, Horner(b, l), 16 - l);
      ShlSucc(Pow2(l), 16 - l);
    }
  }

  lemma BelowFull(b: Counts, i: nat, l: nat)
    requires |b| > 16 && Horner(b, 16) == Pow2(16) && l < i <= 16 && b[i] > 0
    ensures Horner(b, l) < Pow2(l)
  {
    hide *;
    AtFull(b, i);
    HornerBound(b, l, i);
    ShlPow2(l, i - l);
    if Horner(b, l) >= Pow2(l) {
      ShlMono(Pow2(l), Horner(b, l), i - l);
    }
  }

  /** The longest code is given up: it stands for symbol 256. */
  method RemovePseudo(bits: array<byte>, ghost n: nat)
    requires bits.Length == MAX_CLEN + 1 && Full(bits[..], 16, n)
    modifies bits
    ensures Spare(bits[..]) && Sum(bits[..]) == n - 1 && forall k :: 16 < k <= MAX_CLEN ==> bits[k] == 0
    ensures LessLongest(old(bits[..]), bits[..])
  {
    hide *;
    FullFacts(bits[..], 16, n);
    SomeUsed(bits[..], n);
    var i := 16;
    while bits[i] == 0
      invariant 0 < i <= 16 && forall k :: i < k <= 16 ==> bits[k] == 0
      decreases i
    {
      i := i - 1;
    }
    RemovedSpare(bits[..], i, n);
    ghost var b := bits[..];
    bits[i] := bits[i] - 1;
    assert bits[..] == b[i := b[i] - 1];
    MakeLessLongest(b, bits[..], i);
  }

  /** c is b without a code of the greatest length, i. */
  ghost predicate OneLess(b: Counts, c: Counts, i: nat)
  {
    i < |b| && b[i] > 0 && (forall k :: i < k < |b| ==> b[k] == 0) && c == b[i := b[i] - 1]
  }

  ghost predicate LessLongest(b: Counts, c: Counts) { exists i: nat :: OneLess(b, c, i) }

  lemma MakeLessLongest(b: Counts, c: Counts, i: nat)
    requires |b| == MAX_CLEN + 1 && i <= 16 && b[i] > 0 && c == b[i := b[i] - 1]
    requires (forall k :: i < k <= 16 ==> b[k] == 0) && forall k :: 16 < k <= MAX_CLEN ==> b[k] == 0
    ensures LessLongest(b, c)
  {
    assert OneLess(b, c, i);
  }

  lemma SomeUsed(b: Counts, n: nat)
    requires Full(b, 16, n)
    ensures exists k :: 0 < k <= 16 && b[k] > 0
    ensures forall k :: 16 < k <= MAX_CLEN ==> b[k] == 0
  {
    hide Horner;
    if forall k :: 0 < k <= 16 ==> b[k] == 0 { HornerZero(b, 16); }
  }

  // ---- Listing the symbols ----

  /** Symbol x comes before y in the list: a shorter code, or the same length and a smaller number. */
  predicate Before(l: Lengths, x: nat, y: nat)
    requires x < |l| && y < |l|
  {
    l[x] < l[y] || (l[x] == l[y] && x < y)
  }

  /** hv lists, in order, the real symbols of length below i, and those of length i below j. */
  ghost predicate Listed(hv: seq<byte>, l: Lengths, i: nat, j: nat)
    requires |l| == NSYMBOLS
  {
    && (forall q, r :: 0 <= q < r < |hv| ==> Before(l, hv[q], hv[r]))
    && forall x :: 0 <= x < 256 ==> (x in hv <==> (0 < l[x] < i || (l[x] == i && i > 0 && x < j)))
  }

  lemma ListedSnoc(hv: seq<byte>, l: Lengths, i: nat, j: byte)
    requires |l| == NSYMBOLS && Listed(hv, l, i, j) && i > 0
    ensures l[j] == i ==> Listed(hv + [j], l, i, j + 1)
    ensures l[j] != i ==> Listed(hv, l, i, j + 1)
  {
    if l[j] == i {
      forall q | 0 <= q < |hv| ensures Before(l, hv[q], j) { assert hv[q] in hv; }
    }
  }

  lemma ListedNext(hv: seq<byte>, l: Lengths, i: nat)
    requires |l| == NSYMBOLS && Listed(hv, l, i, 256)
    ensures Listed(hv, l, i + 1, 0)
  {
  }

  lemma {:induction false} NumBelowLess(l: Lengths, n: nat, i: nat)
    requires n <= |l|
    ensures NumBelow(l, n, i) + NumAt(l, n, i) <= n
  {
    if n > 0 { NumBelowLess(l, n - 1, i); }
  }

  lemma {:induction false} NumAtMono(l: Lengths, n: nat, m: nat, i: nat)
    requires n <= m <= |l|
    ensures NumAt(l, n, i) <= NumAt(l, m, i)
    decreases m
  {
    if n < m { NumAtMono(l, n, m - 1, i); }
  }

  lemma NumAtStep(l: Lengths, n: nat, i: nat)
    requires n < |l|
    ensures NumAt(l, n + 1, i) == NumAt(l, n, i) + (if l[n] == i then 1 else 0) && NumAt(l, 0, i) == 0
  {
  }

  /** The symbols below 256 in order of code length. */
  method ListSymbols(codesize: array<nat>) returns (huffval: array<byte>, p: nat)
    requires codesize.Length == NSYMBOLS
    ensures fresh(huffval) && huffval.Length == 256 && p <= 256
    ensures p == NumBelow(codesize[..], 256, MAX_CLEN + 1)
    ensures Listed(huffval[..p], codesize[..], MAX_CLEN + 1, 0) && Placed(huffval[..p], codesize[..])
  {
    hide *;
    Sizes();
    ghost var l := codesize[..];
    huffval := new byte[256](k => 0);
    p := 0;
    NothingListed(l, huffval[..p]);
    var i: nat := 1;
    while i <= MAX_CLEN
      invariant 1 <= i <= MAX_CLEN + 1 && codesize[..] == l && p <= 256
      invariant p == NumBelow(l, 256, i) && Listed(huffval[..p], l, i, 0) && Placed(huffval[..p], l)
    {
      NumNext(l, 256, i);
      NumBelowLess(l, 256, i);
      NumAtStep(l, 0, i);
      var j: nat := 0;
      while j <= 255
        invariant 0 <= j <= 256 && codesize[..] == l && p <= 256
        invariant p == NumBelow(l, 256, i) + NumAt(l, j, i) && Listed(huffval[..p], l, i, j) && Placed(huffval[..p], l)
      {
        NumAtStep(l, j, i);
        NumAtMono(l, j + 1, 256, i);
        ListedSnoc(huffval[..p], l, i, j);
        assert l[j] == codesize[j];
        if codesize[j] == i {
          ghost var hv := huffval[..p];
          huffval[p] := j;
          p := p + 1;
          assert huffval[..p] == hv + [j];
          PlacedSnoc(hv, l, i, j);
        }
        j := j + 1;
      }
      ListedNext(huffval[..p], l, i);
      i := i + 1;
    }
  }

  /** Each symbol stands after those with shorter codes and among those of its length. */
  ghost predicate Placed(hv: seq<byte>, l: Lengths)
    requires |l| == NSYMBOLS
  {
    forall q :: 0 <= q < |hv| ==> NumBelow(l, 256, l[hv[q]]) <= q < NumBelow(l, 256, l[hv[q]]) + NumAt(l, 256, l[hv[q]])
  }

  lemma PlacedSnoc(hv: seq<byte>, l: Lengths, i: nat, j: byte)
    requires |l| == NSYMBOLS && Placed(hv, l) && l[j] == i && |hv| == NumBelow(l, 256, i) + NumAt(l, j, i)
    ensures Placed(hv + [j], l)
  {
    NumAtMono(l, j + 1, 256, i);
    NumAtStep(l, j, i);
    hide NumBelow;
    hide NumAt;
  }

  lemma NothingListed(l: Lengths, hv: seq<byte>)
    requires |l| == NSYMBOLS && hv == []
    ensures Listed(hv, l, 1, 0) && NumBelow(l, 256, 1) == 0 && Placed(hv, l)
  {
    NumNone(l, 256);
  }

  // ---- The whole table ----

  /** The code lengths minimise the number of bits over all lengths that satisfy Kraft's
      inequality, and satisfy it with nothing to spare. */
  ghost predicate Optimal(f: Freqs, l: Lengths)
  {
    && |f| == |l| && (forall x :: 0 <= x < |f| ==> (f[x] > 0 <==> l[x] > 0))
    && (forall k, m :: Kraft(f, k, m) ==> Cost(f, l) <= Cost(f, k))
    && forall m :: (forall x :: 0 <= x < |l| ==> l[x] <= m) ==> KraftTo(l, |l|, m) == Pow2(m)
  }

  /** No prefix code whatever is cheaper. */
  lemma NoCheaperCode(f: Freqs, l: Lengths, ws: seq<Bits>, m: nat)
    requires Optimal(f, l) && Huffman.PrefixFree(f, ws) && forall i :: 0 <= i < |f| && f[i] > 0 ==> |ws[i]| <= m
    ensures Cost(f, l) <= Cost(f, Lens(ws))
  {
    PrefixKraft(f, ws, m);
  }

  lemma AllHeld(f0: Freqs, f: Freqs, ch: Chains, c: nat)
    requires |f0| == |f| && Headed(f, ch) && Holds(f0, ch) && c < |f| && f[c] > 0 && NoneLeft(f, c)
    ensures forall x :: 0 <= x < |f0| ==> (x in ch[c] <==> f0[x] > 0)
  {
    forall x | 0 <= x < |f0| && f0[x] > 0 ensures x in ch[c] {
      var d, i :| 0 <= d < |ch| && 0 <= i < |ch[d]| && ch[d][i] == x;
      assert f[d] > 0;
    }
  }

  lemma OneGroup(f0: Freqs, f: Freqs, l: Lengths, others: seq<int>, ch: Chains, c: nat, s: nat)
    requires Merging(f0, f, l, others, ch) && c < |f| && f[c] > 0 && NoneLeft(f, c) && s < 256 && f0[s] > 0 && f0[256] > 0
    ensures |ch| == |f0| == |l| == NSYMBOLS && forall x :: 0 <= x < |f0| ==> (x in ch[c] <==> f0[x] > 0) && (f0[x] > 0 <==> l[x] > 0)
    ensures Inside(ch[c], |l|) && NoRepeats(ch[c]) && Complete(ch[c], l)
  {
    hide *;
    Sizes();
    UseMerging(f0, f, l, others, ch);
    GroupFacts(f0, f, l, others, ch, c);
    ShapedFacts(f0, f, l, others, ch);
    AllHeld(f0, f, ch, c);
    TwoMembers(ch[c], s, 256);
    PositiveFacts(ch[c], l);
    ChainNoRepeats(ch, c);
  }

  lemma ShapedFacts(f0: Freqs, f: Freqs, l: Lengths, others: seq<int>, ch: Chains)
    requires Shaped(f0, f, l, others, ch)
    ensures |f0| == |f| == |l| && Headed(f, ch) && Holds(f0, ch) && forall x :: 0 <= x < |f0| && f0[x] == 0 ==> l[x] == 0
  {
  }

  lemma PositiveFacts(g: seq<nat>, l: Lengths)
    requires Positive(g, l) && |g| > 1
    ensures forall x :: x in g ==> x < |l| && l[x] > 0
  {
  }

  lemma TwoMembers(g: seq<nat>, x: nat, y: nat)
    requires x in g && y in g && x != y
    ensures |g| > 1
  {
  }

  lemma ChainNoRepeats(ch: Chains, c: nat)
    requires Disjoint(ch) && c < |ch|
    ensures NoRepeats(ch[c])
  {
    forall i, j | 0 <= i < j < |ch[c]| ensures ch[c][i] != ch[c][j] { }
  }

  lemma MergedOptimal(f0: Freqs, f: Freqs, l: Lengths, others: seq<int>, ch: Chains, c: nat, s: nat)
    requires Merging(f0, f, l, others, ch) && c < |f| && f[c] > 0 && NoneLeft(f, c) && s < 256 && f0[s] > 0 && f0[256] > 0
    ensures Optimal(f0, l)
  {
    hide *;
    OneGroup(f0, f, l, others, ch, c, s);
    UseMerging(f0, f, l, others, ch);
    forall k, m | Kraft(f0, k, m) ensures Cost(f0, l) <= Cost(f0, k) {
      BoundEnd(f0, f, Cost(f0, l), k, m);
    }
    forall m: nat | forall x :: 0 <= x < |l| ==> l[x] <= m ensures KraftTo(l, |l|, m) == Pow2(m) {
      FullSum(ch[c], l, m);
    }
    MakeOptimal(f0, l);
  }

  lemma FullSum(g: seq<nat>, l: Lengths, m: nat)
    requires Inside(g, |l|) && NoRepeats(g) && Complete(g, l) && forall x :: 0 <= x < |l| ==> (x in g <==> l[x] > 0) && l[x] <= m
    ensures KraftTo(l, |l|, m) == Pow2(m)
  {
    hide KraftTo;
    hide Pow2;
    hide ChainKraft;
    ChainKraftTo(g, l, m);
    assert AtMost(g, l, m);
  }

  lemma {:induction false} MergedFrom(f0: Freqs, f: Freqs, l: Lengths, others: seq<int>, ch: Chains, s: nat)
    requires Merging(f0, f, l, others, ch) && s < 256 && f0[s] > 0 && f0[256] > 0
    requires |f| == |l| == |ch| && exists i :: 0 <= i < |f| && f[i] > 0
    ensures Optimal(f0, Merged(f, l, ch))
    decreases Live(f)
  {
    hide *;
    UseMerging(f0, f, l, others, ch);
    var a, b;
    a := LeastOf(f, -1);
    b := LeastOf(f, a);
    SomeLeast(f, a);
    LeastFacts(f, -1, a);
    if b < 0 {
      MergedOptimal(f0, f, l, others, ch, a, s);
      MergedEnd(f, l, ch, a);
    } else {
      MakeNextTwo(f, a, b);
      NextTwoLive(f, a, b);
      MergedNext(f, l, ch, a, b);
      MergeStep(f0, f, l, others, ch, a, b);
      MergeIs(f, a, b);
      var g := Merge(f, a, b);
      assert g[a] > 0;
      var ot := others[ch[a][|ch[a]| - 1] := b];
      UseMerging(f0, g, Deepened(l, ch, a, b), ot, Joined(ch, a, b));
      MergedFrom(f0, g, Deepened(l, ch, a, b), ot, Joined(ch, a, b), s);
    }
  }

  /** The lengths of Huffman's algorithm are those of an optimal code. */
  lemma CodeSizesOptimal(f: Freqs)
    requires Countable(f)
    ensures Optimal(f, CodeSizes(f))
  {
    hide *;
    CountableFacts(f);
    Sizes();
    var l, others := seq(|f|, i => 0), seq(|f|, i => -1);
    StartMerging(f, l, others);
    CodeSizesIs(f, l);
    UseMerging(f, f, l, others, Single(f));
    var s :| 0 <= s < 256 && f[s] > 0;
    MergedFrom(f, f, l, others, Single(f), s);
  }

  lemma MakeOptimal(f: Freqs, l: Lengths)
    requires |f| == |l| && (forall x :: 0 <= x < |f| ==> (f[x] > 0 <==> l[x] > 0))
    requires forall k, m :: Kraft(f, k, m) ==> Cost(f, l) <= Cost(f, k)
    requires forall m: nat :: (forall x :: 0 <= x < |l| ==> l[x] <= m) ==> KraftTo(l, |l|, m) == Pow2(m)
    ensures Optimal(f, l)
  {
  }

  lemma {:induction false} FewLengths(f: Freqs, l: Lengths, n: nat, i: nat)
    requires |f| == |l| && n <= |l| && forall x :: 0 <= x < |f| ==> (f[x] > 0 <==> l[x] > 0)
    ensures NumBelow(l, n, i) <= Sum(Flags(f)[..n])
  {
    if n > 0 {
      FewLengths(f, l, n - 1, i);
      SumSnoc(Flags(f)[..n - 1], Flags(f)[n - 1]);
      assert Flags(f)[..n] == Flags(f)[..n - 1] + [Flags(f)[n - 1]];
    }
  }

  lemma {:induction false} StartSum(t: Table, l: nat)
    requires 1 <= l <= 17 && t.bits[0] == 0
    ensures HuffTable.Start(t, l) == Sum(t.bits[..l])
    decreases l
  {
    if l == 1 {
      assert t.bits[..1] == [0];
      assert Sum([0]) == 0 + Sum([]);
    } else {
      StartSum(t, l - 1);
      SumSnoc(t.bits[..l - 1], t.bits[l - 1]);
      assert t.bits[..l] == t.bits[..l - 1] + [t.bits[l - 1]];
    }
  }

  /** The table is legal, and has codes for exactly the symbols that are used. */
  lemma TableLegal(b: seq<byte>, hv: seq<byte>, p: nat, t: Table, f: Freqs, l: Lengths)
    requires Spare(b) && (forall k :: 16 < k <= MAX_CLEN ==> b[k] == 0) && Sum(b) == p <= 255
    requires |hv| == 256 && t.bits == b[..17] && t.huffval == hv && |l| == |f| == NSYMBOLS
    requires Listed(hv[..p], l, MAX_CLEN + 1, 0) && forall x :: 0 <= x < NSYMBOLS ==> (f[x] > 0 <==> l[x] > 0) && l[x] <= MAX_CLEN
    ensures LegalTree(t) && Total(t) == p && (forall x :: 0 <= x < 256 ==> (HasCode(t, x) <==> f[x] > 0))
    ensures forall i, j :: 0 <= i < j < p ==> t.huffval[i] != t.huffval[j] && Before(l, t.huffval[i], t.huffval[j])
    ensures forall i :: 0 <= i < p ==> f[t.huffval[i]] > 0
  {
    TreeLegal(b, p, t);
    hide LegalTree;
    hide Horner;
    hide Sum;
    forall i | 0 <= i < p ensures f[t.huffval[i]] > 0 { assert hv[..p][i] == hv[i] && hv[i] in hv[..p]; }
    forall i, j | 0 <= i < j < p ensures t.huffval[i] != t.huffval[j] && Before(l, t.huffval[i], t.huffval[j]) {
      assert Before(l, hv[..p][i], hv[..p][j]);
    }
    forall x | 0 <= x < 256 ensures HasCode(t, x) <==> f[x] > 0 {
      if f[x] > 0 {
        assert x in hv[..p];
        var i :| 0 <= i < p && hv[..p][i] == x;
        assert t.huffval[i] == x;
      }
      if HasCode(t, x) {
        var i :| 0 <= i < Total(t) <= 256 && t.huffval[i] == x;
        assert f[t.huffval[i]] > 0;
      }
    }
  }

  lemma TreeLegal(b: seq<byte>, p: nat, t: Table)
    requires Spare(b) && (forall k :: 16 < k <= MAX_CLEN ==> b[k] == 0) && Sum(b) == p <= 255 && t.bits == b[..17]
    ensures LegalTree(t) && Total(t) == p
  {
    StartSum(t, 17);
    SumConcat(b[..17], b[17..]);
    assert b == b[..17] + b[17..];
    SumZero(b[17..]);
    assert t.bits[..17] == t.bits;
    hide Sum;
    hide Horner;
    forall l | 1 <= l <= 16 ensures FitsAt(t, l) {
      HornerFirst(t, l);
      HornerPrefix(b, t.bits, l);
    }
  }

  /** What jpeg_gen_optimal_table needs of its input: some real symbol is used, not more than
      254 are, and the counts stay within the bound its scans start from. */
  ghost predicate Countable(f: Freqs)
  {
    |f| == NSYMBOLS && f[256] == 1 && (exists s :: 0 <= s < 256 && f[s] > 0) && Live(f) <= 255 && Sum(f) <= MAX_FREQ
  }

  // ---- The lengths in the table ----

  /** The pseudo-symbol has a longest code. */
  lemma PseudoLongest(f: Freqs)
    requires Countable(f)
    ensures |CodeSizes(f)| == NSYMBOLS && forall x :: 0 <= x < NSYMBOLS ==> CodeSizes(f)[x] <= CodeSizes(f)[256]
  {
    hide *;
    CountableFacts(f);
    CodeSizesOptimal(f);
    OptimalFacts(f, CodeSizes(f));
    EachPositive(f);
    Sizes();
    forall x | 0 <= x < NSYMBOLS ensures CodeSizes(f)[x] <= CodeSizes(f)[256] {
      if f[x] > 0 && x != 256 { RarerIsLonger(f, 256, x); }
    }
  }

  lemma EachPositive(f: Freqs)
    ensures forall x :: 0 <= x < |f| && f[x] > 0 ==> f[x] >= 1
  {
  }

  /** Without the pseudo-symbol the counts are those of the real symbols. */
  lemma RealCounts(l: Lengths, c: Counts, k: nat)
    requires |l| == NSYMBOLS && (forall x :: 0 <= x < NSYMBOLS ==> l[x] <= l[256] <= 16) && l[256] > 0
    requires LessLongest(SizeCounts(l), c) && 0 < k <= 16
    ensures |c| == MAX_CLEN + 1 && c[k] == NumAt(l, 256, k)
  {
    var b := SizeCounts(l);
    var i: nat :| OneLess(b, c, i);
    NumAtSome(l, |l|, 256);
    NumAtStep(l, 256, k);
    forall m | l[256] < m <= MAX_CLEN ensures NumAt(l, |l|, m) == 0 { NumAtNone(l, |l|, m); }
    hide NumAt;
    assert b[l[256]] > 0;
    assert i == l[256];
  }

  lemma {:induction false} RealStart(l: Lengths, c: Counts, t: Table, k: nat)
    requires |l| == NSYMBOLS && (forall x :: 0 <= x < NSYMBOLS ==> l[x] <= l[256] <= 16) && l[256] > 0
    requires LessLongest(SizeCounts(l), c) && |c| == MAX_CLEN + 1 && t.bits == c[..17] && 1 <= k <= 17
    ensures HuffTable.Start(t, k) == NumBelow(l, 256, k)
    decreases k
  {
    if k == 1 {
      NumNone(l, 256);
    } else {
      hide LessLongest;
      hide SizeCounts;
      hide NumAt;
      hide NumBelow;
      RealStart(l, c, t, k - 1);
      RealCounts(l, c, k - 1);
      NumNext(l, 256, k - 1);
    }
  }

  /** If no length is over 16, the codes of the table have the lengths of Huffman's algorithm. */
  lemma SizesKept(l: Lengths, c: Counts, t: Table, p: nat)
    requires |l| == NSYMBOLS && (forall x :: 0 <= x < NSYMBOLS ==> l[x] <= l[256] <= 16) && l[256] > 0
    requires LessLongest(SizeCounts(l), c) && |c| == MAX_CLEN + 1 && t.bits == c[..17]
    requires p <= 256 && Placed(t.huffval[..p], l) && forall q :: 0 <= q < p ==> l[t.huffval[q]] > 0
    ensures forall q :: 0 <= q < p ==> HasLen(t, q, l[t.huffval[q]])
  {
    hide LessLongest;
    hide SizeCounts;
    forall q | 0 <= q < p ensures HasLen(t, q, l[t.huffval[q]]) {
      var k := l[t.huffval[q]];
      assert t.huffval[..p][q] == t.huffval[q];
      RealStart(l, c, t, k);
      RealStart(l, c, t, k + 1);
      NumNext(l, 256, k);
    }
  }

  /** The counts in the table are those of Huffman's algorithm, limited, less one of the longest. */
  ghost predicate CountsFrom(t: Table, l: Lengths) { exists c: Counts :: |c| >= 17 && IsCounts(t, l, c) }

  ghost predicate IsCounts(t: Table, l: Lengths, c: Counts)
    requires |c| >= 17
  {
    LessLongest(Limited(SizeCounts(l), MAX_CLEN), c) && t.bits == c[..17]
  }

  /** Counting the symbols of each length, limiting, and giving up one code of the greatest length
      that is then in use, up to 16 bits. */
  lemma TableCounts(t: Table, l: Lengths) returns (n: seq<nat>, c: seq<nat>, m: nat)
    requires CountsFrom(t, l)
    ensures |n| == 33 && n[0] == 0 && forall k :: 0 < k <= 32 ==> n[k] == |set x: nat | x < |l| && l[x] == k|
    ensures c == Limited(n, 32) && m < |c| && c[m] > 0 && (forall k :: m < k < |c| ==> c[k] == 0)
    ensures |c| >= 17 && t.bits == c[m := c[m] - 1][..17]
  {
    n, c := SizeCounts(l), Limited(SizeCounts(l), MAX_CLEN);
    var d: Counts :| |d| >= 17 && IsCounts(t, l, d);
    m :| OneLess(c, d, m);
    forall k | 0 < k <= 32 ensures n[k] == |set x: nat | x < |l| && l[x] == k| { NumAtIs(l, |l|, k); }
  }

  lemma MakeCountsFrom(t: Table, l: Lengths, c: Counts)
    requires |c| == MAX_CLEN + 1 && LessLongest(Limited(SizeCounts(l), MAX_CLEN), c) && t.bits == c[..17]
    ensures CountsFrom(t, l)
  {
    hide LessLongest;
    assert IsCounts(t, l, c);
  }

  lemma ShortCounts(l: Lengths)
    requires |l| == NSYMBOLS && forall x :: 0 <= x < NSYMBOLS ==> l[x] <= 16
    ensures Limited(SizeCounts(l), MAX_CLEN) == SizeCounts(l)
  {
    forall k | 16 < k <= MAX_CLEN ensures SizeCounts(l)[k] == 0 { NumAtNone(l, |l|, k); }
    NothingToLimit(SizeCounts(l), MAX_CLEN);
  }

  /** What the table made of the final counts and the list of symbols is. */
  lemma TableDone(f: Freqs, l: Lengths, b: seq<byte>, hv: seq<byte>, p: nat, t: Table)
    requires Countable(f) && l == CodeSizes(f) && |l| == |f| == NSYMBOLS && |b| == MAX_CLEN + 1
    requires Spare(b) && (forall k :: 16 < k <= MAX_CLEN ==> b[k] == 0) && Sum(b) == p <= 255
    requires |hv| == 256 && t == MakeTable(b[..17], hv) && LessLongest(Limited(SizeCounts(l), MAX_CLEN), b)
    requires Listed(hv[..p], l, MAX_CLEN + 1, 0) && Placed(hv[..p], l)
    requires forall x :: 0 <= x < NSYMBOLS ==> (f[x] > 0 <==> l[x] > 0) && l[x] <= MAX_CLEN
    ensures LegalC(t, false) && (forall x :: 0 <= x < 256 ==> (HasCode(t, x) <==> f[x] > 0))
    ensures forall i, j :: 0 <= i < j < Total(t) ==> Before(l, t.huffval[i], t.huffval[j])
    ensures CountsFrom(t, l)
    ensures (forall x :: 0 <= x < |l| ==> l[x] <= 16) ==> forall q :: 0 <= q < Total(t) ==> HasLen(t, q, l[t.huffval[q]])
  {
    hide *;
    Sizes();
    TableLegal(b, hv, p, t, f, l);
    LegalFromTree(t);
    MakeCountsFrom(t, l, b);
    PseudoLongest(f);
    CountableFacts(f);
    if forall x :: 0 <= x < |l| ==> l[x] <= 16 {
      ShortCounts(l);
      SizesKept(l, b, t, p);
    }
  }

  /** jpeg_gen_optimal_table. It is refused exactly when one of the lengths l of Huffman's
      algorithm, which are optimal, is over 32. */
  method GenOptimalTable(freq: array<nat>) returns (ok: bool, t: Table, ghost l: Lengths)
    requires freq.Length == NSYMBOLS && Countable(freq[..][256 := 1])
    modifies freq
    ensures l == CodeSizes(old(freq[..])[256 := 1]) && Optimal(old(freq[..])[256 := 1], l)
    ensures ok <==> forall x :: 0 <= x < |l| ==> l[x] <= MAX_CLEN
    ensures ok ==> LegalC(t, false) && forall s :: 0 <= s < 256 ==> (HasCode(t, s) <==> old(freq[s]) > 0)
    ensures ok ==> forall p, q :: 0 <= p < q < Total(t) ==> Before(l, t.huffval[p], t.huffval[q])
    ensures ok ==> CountsFrom(t, l)
    ensures ok && (forall x :: 0 <= x < |l| ==> l[x] <= 16) ==> forall p :: 0 <= p < Total(t) ==> HasLen(t, p, l[t.huffval[p]])
  {
    hide *;
    Sizes();
    t := MakeTable(seq(17, i => 0), seq(256, i => 0));
    ghost var was := freq[..];
    freq[256] := 1;
    ghost var f0 := freq[..];
    assert f0 == was[256 := 1];
    CountableFacts(f0);
    var codesize := new nat[NSYMBOLS](i => 0);
    var others := new int[NSYMBOLS](i => -1);
    ghost var ch := MergeAll(freq, codesize, others);
    ghost var c :| IsLeast(freq[..], -1, c) && NoneLeft(freq[..], c);
    ghost var s :| 0 <= s < 256 && f0[s] > 0;
    LeastFacts(freq[..], -1, c);
    l := codesize[..];
    MergedOptimal(f0, freq[..], l, others[..], ch, c, s);
    OptimalFacts(f0, l);
    FewLengths(f0, l, NSYMBOLS, MAX_CLEN + 1);
    FlagsAll(f0);
    var bits;
    ok, bits := CountSizes(codesize);
    if !ok { return; }
    ghost var n := NumBelow(l, NSYMBOLS, MAX_CLEN + 1);
    CountedFull(bits[..], l, n);
    LimitLengths(bits, n);
    RemovePseudo(bits, n);
    var huffval, p := ListSymbols(codesize);
    LastCounts(l);
    t := MakeTable(bits[..17], huffval[..]);
    assert huffval[..][..p] == huffval[..p];
    TableDone(f0, l, bits[..], huffval[..], p, t);
  }

  function MakeTable(b: seq<byte>, hv: seq<byte>): (t: Table)
    requires |b| == 17 && |hv| == 256
    ensures t.bits == b && t.huffval == hv
  {
    HuffTbl(b, hv)
  }

  lemma CountableFacts(f: Freqs)
    requires Countable(f)
    ensures |f| == NSYMBOLS && f[256] == 1 && (exists s :: 0 <= s < 256 && f[s] > 0) && Live(f) <= 255 && Sum(f) <= MAX_FREQ
  {
  }

  lemma FlagsAll(f: Freqs)
    ensures Sum(Flags(f)[..|f|]) == Live(f)
  {
    assert Flags(f)[..|f|] == Flags(f);
  }

  lemma OptimalFacts(f: Freqs, l: Lengths)
    requires Optimal(f, l)
    ensures |f| == |l| && (forall x :: 0 <= x < |f| ==> (f[x] > 0 <==> l[x] > 0))
    ensures (forall x :: 0 <= x < |l| ==> l[x] <= MAX_CLEN) ==> KraftTo(l, |l|, MAX_CLEN) == Pow2(MAX_CLEN)
  {
  }

  lemma CountedFull(b: Counts, l: Lengths, n: nat)
    requires |l| == NSYMBOLS && CountsOf(b, l, NSYMBOLS) && KraftTo(l, |l|, MAX_CLEN) == Pow2(MAX_CLEN) && n == NumBelow(l, NSYMBOLS, MAX_CLEN + 1)
    ensures Full(b, MAX_CLEN, n)
  {
    hide Horner;
    hide Pow2;
    hide KraftTo;
    hide NumBelow;
    hide Sum;
  }

  /** The pseudo-symbol has a length too. */
  lemma LastCounts(l: Lengths)
    requires |l| == NSYMBOLS && 0 < l[256] <= MAX_CLEN
    ensures NumBelow(l, NSYMBOLS, MAX_CLEN + 1) == NumBelow(l, 256, MAX_CLEN + 1) + 1
  {
  }

  lemma LegalFromTree(t: Table)
    requires LegalTree(t) && forall i, j :: 0 <= i < j < Total(t) ==> t.huffval[i] != t.huffval[j]
    ensures LegalC(t, false)
  {
  }
}
