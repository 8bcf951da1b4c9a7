/** The code lengths of Huffman's algorithm with the ties broken as jpeg_gen_optimal_table breaks
    them, and how they follow the counts: a rarer symbol never gets a shorter code. */
module HuffmanSizes {
  import opened Sums
  import opened Huffman
  import opened HuffmanChains

  /** How many groups are left. */
  function Flags(f: Freqs): (s: seq<int>)
    ensures |s| == |f|
  {
    seq(|f|, i requires 0 <= i < |f| => if f[i] > 0 then 1 else 0)
  }

  function Live(f: Freqs): int { Sum(Flags(f)) }

  lemma LiveNonneg(f: Freqs)
    ensures Live(f) >= 0
  {
    SumNonneg(Flags(f));
  }

  lemma LiveMerge(f: Freqs, a: nat, b: nat)
    requires a < |f| && b < |f| && a != b && f[a] > 0 && f[b] > 0
    ensures Live(Merge(f, a, b)) == Live(f) - 1
  {
    assert Flags(Merge(f, a, b)) == Flags(f)[b := 0];
    SumUpdate(Flags(f), b, 0);
  }

  /** The two groups that are merged next. */
  ghost predicate NextTwo(f: Freqs, a: nat, b: nat) { IsLeast(f, -1, a) && IsLeast(f, a, b) }

  lemma OneNextTwo(f: Freqs, a: nat, b: nat, c: nat, d: nat)
    requires NextTwo(f, a, b) && NextTwo(f, c, d)
    ensures a == c && b == d
  {
  }

  lemma NextTwoLive(f: Freqs, a: nat, b: nat)
    requires NextTwo(f, a, b)
    ensures a < |f| && b < |f| && a != b && f[a] > 0 && f[b] > 0 && Live(f) > Live(Merge(f, a, b)) >= 0
  {
    hide Live;
    LiveMerge(f, a, b);
    LiveNonneg(Merge(f, a, b));
  }

  /** The code lengths once all groups are merged. */
  ghost function Merged(f: Freqs, l: Lengths, ch: Chains): (r: Lengths)
    requires |f| == |l| == |ch|
    decreases Live(f)
  {
    if exists a: nat, b: nat :: NextTwo(f, a, b) then
      var a: nat, b: nat :| NextTwo(f, a, b);
      NextTwoLive(f, a, b);
      Merged(Merge(f, a, b), Deepened(l, ch, a, b), Joined(ch, a, b))
    else l
  }

  lemma MergedNext(f: Freqs, l: Lengths, ch: Chains, a: nat, b: nat)
    requires |f| == |l| == |ch| && NextTwo(f, a, b)
    ensures a < |f| && b < |f| && Merged(f, l, ch) == Merged(Merge(f, a, b), Deepened(l, ch, a, b), Joined(ch, a, b))
  {
    hide NextTwo;
    hide Live;
    hide Merge;
    hide Deepened;
    hide Joined;
    NextTwoLive(f, a, b);
    forall c: nat, d: nat | NextTwo(f, c, d) ensures a == c && b == d { OneNextTwo(f, a, b, c, d); }
  }

  lemma MergedEnd(f: Freqs, l: Lengths, ch: Chains, c: int)
    requires |f| == |l| == |ch| && IsLeast(f, -1, c) && NoneLeft(f, c)
    ensures Merged(f, l, ch) == l
  {
    forall a: nat, b: nat ensures !NextTwo(f, a, b) {}
  }

  /** The lengths of Huffman's algorithm for the frequencies f. */
  ghost function CodeSizes(f: Freqs): Lengths { Merged(f, seq(|f|, i => 0), Single(f)) }

  lemma CodeSizesIs(f: Freqs, l: Lengths)
    requires |l| == |f| && forall i :: 0 <= i < |l| ==> l[i] == 0
    ensures CodeSizes(f) == Merged(f, l, Single(f))
  {
    assert l == seq(|f|, i => 0);
  }

  lemma MakeNextTwo(f: Freqs, a: nat, b: nat)
    requires IsLeast(f, -1, a) && IsLeast(f, a, b)
    ensures NextTwo(f, a, b)
  {
  }

  /** Some group is the least, unless none is left. */
  lemma {:induction false} LeastExists(f: Freqs, skip: int, n: nat) returns (c: int)
    requires n <= |f|
    ensures c == -1 ==> forall i :: 0 <= i < n && i != skip ==> f[i] == 0
    ensures c != -1 ==> 0 <= c < n && c != skip && f[c] > 0
    ensures c != -1 ==> forall i :: 0 <= i < n && i != skip && f[i] > 0 ==> f[c] < f[i] || (f[c] == f[i] && i <= c)
  {
    if n == 0 { return -1; }
    c := LeastExists(f, skip, n - 1);
    if n - 1 != skip && f[n - 1] > 0 && (c == -1 || f[n - 1] <= f[c]) { c := n - 1; }
  }

  lemma LeastOf(f: Freqs, skip: int) returns (c: int)
    ensures c >= -1 && (c == -1 || IsLeast(f, skip, c))
    ensures c == -1 <==> NoneLeft(f, skip)
  {
    c := LeastExists(f, skip, |f|);
  }

  // ---- Rarer symbols go deeper ----

  /** How often the group that i stands for is merged. */
  ghost function Steps(f: Freqs, i: nat): nat
    decreases Live(f)
  {
    if exists a: nat, b: nat :: NextTwo(f, a, b) then
      var a: nat, b: nat :| NextTwo(f, a, b);
      NextTwoLive(f, a, b);
      if i == a || i == b then 1 + Steps(Merge(f, a, b), a) else Steps(Merge(f, a, b), i)
    else 0
  }

  lemma StepsNext(f: Freqs, i: nat, a: nat, b: nat)
    requires NextTwo(f, a, b)
    ensures a < |f| && b < |f|
    ensures Steps(f, i) == if i == a || i == b then 1 + Steps(Merge(f, a, b), a) else Steps(Merge(f, a, b), i)
  {
    hide NextTwo;
    hide Live;
    hide Merge;
    NextTwoLive(f, a, b);
    forall c: nat, d: nat | NextTwo(f, c, d) ensures a == c && b == d { OneNextTwo(f, a, b, c, d); }
  }

  /** Group i is taken before group j: it is lighter or, with the same weight, has the larger
      number. */
  ghost predicate Precedes(f: Freqs, i: nat, j: nat)
  {
    && i < |f| && j < |f| && i != j && f[i] > 0 && f[j] > 0
    && (f[i] < f[j] || (f[i] == f[j] && i > j))
  }

  lemma TwoLeft(f: Freqs, i: nat, j: nat) returns (a: nat, b: nat)
    requires i < |f| && j < |f| && i != j && f[i] > 0 && f[j] > 0
    ensures NextTwo(f, a, b)
  {
    var c := LeastOf(f, -1);
    a := c;
    var d := LeastOf(f, a);
    b := d;
  }

  lemma FirstTwo(f: Freqs, a: nat, b: nat, i: nat)
    requires NextTwo(f, a, b) && i < |f| && f[i] > 0
    ensures a < |f| && b < |f| && Precedes(f, a, b) && (i != a ==> Precedes(f, a, i)) && (i != a && i != b ==> Precedes(f, b, i))
  {
  }

  lemma MergedAt(f: Freqs, a: nat, b: nat, i: nat)
    requires a < |f| && b < |f| && a != b && i < |f|
    ensures |Merge(f, a, b)| == |f|
    ensures Merge(f, a, b)[i] == if i == a then f[a] + f[b] else if i == b then 0 else f[i]
  {
  }

  /** The next merged group comes no earlier than this one. */
  lemma MergedLater(f: Freqs, a: nat, b: nat, c: nat, d: nat)
    requires NextTwo(f, a, b) && a < |f| && b < |f| && a != b
    requires NextTwo(Merge(f, a, b), c, d) && c < |f| && d < |f| && c != d && a != c && a != d
    ensures Precedes(Merge(Merge(f, a, b), c, d), a, c)
  {
    var g := Merge(f, a, b);
    MergedAt(f, a, b, a);
    MergedAt(f, a, b, c);
    MergedAt(f, a, b, d);
    MergedAt(g, c, d, a);
    MergedAt(g, c, d, c);
  }

  /** A group taken earlier is merged no less often: nodes leave in the order they came. */
  lemma {:induction false} StepsOrdered(f: Freqs, i: nat, j: nat)
    requires Precedes(f, i, j)
    ensures Steps(f, i) >= Steps(f, j)
    decreases Live(f)
  {
    hide *;
    PrecedesIs(f, i, j);
    var a, b := TwoLeft(f, i, j);
    NextTwoLive(f, a, b);
    FirstTwo(f, a, b, i);
    FirstTwo(f, a, b, j);
    StepsNext(f, i, a, b);
    StepsNext(f, j, a, b);
    PrecedesOne(f, i, j);
    var g := Merge(f, a, b);
    MergedAt(f, a, b, i);
    MergedAt(f, a, b, j);
    MergedAt(f, a, b, a);
    MergedAt(f, a, b, b);
    if j != a && j != b {
      if i != a && i != b {
        PrecedesIs(g, i, j);
        StepsOrdered(g, i, j);
      } else {
        OneOrOther(g, a, j);
        if Precedes(g, a, j) { StepsOrdered(g, a, j); } else { NotMuchLater(f, a, b, j); }
      }
    }
  }

  lemma PrecedesIs(f: Freqs, i: nat, j: nat)
    ensures Precedes(f, i, j) <==>
      && i < |f| && j < |f| && i != j && f[i] > 0 && f[j] > 0
      && (f[i] < f[j] || (f[i] == f[j] && i > j))
  {
  }

  lemma PrecedesOne(f: Freqs, i: nat, j: nat)
    ensures !(Precedes(f, i, j) && Precedes(f, j, i))
  {
  }

  lemma OneOrOther(f: Freqs, i: nat, j: nat)
    requires i < |f| && j < |f| && i != j && f[i] > 0 && f[j] > 0
    ensures Precedes(f, i, j) || Precedes(f, j, i)
  {
  }

  /** A group that is lighter than the merged one is merged at most once more often. */
  lemma {:induction false} NotMuchLater(f: Freqs, a: nat, b: nat, j: nat)
    requires NextTwo(f, a, b) && a < |f| && b < |f| && a != b && f[a] > 0 && f[b] > 0
    requires j < |f| && f[j] > 0 && j != a && j != b
    ensures Steps(Merge(f, a, b), j) <= 1 + Steps(Merge(f, a, b), a)
    decreases Live(f), 0
  {
    hide *;
    var g := Merge(f, a, b);
    MergedAt(f, a, b, a);
    MergedAt(f, a, b, b);
    MergedAt(f, a, b, j);
    NextTwoLive(f, a, b);
    var c, d := TwoLeft(g, a, j);
    NextTwoLive(g, c, d);
    FirstTwo(g, c, d, j);
    StepsNext(g, a, c, d);
    StepsNext(g, c, c, d);
    StepsNext(g, j, c, d);
    if j != c { StepsOrdered(g, c, j); }
    if a != c && a != d {
      var h := Merge(g, c, d);
      MergedLater(f, a, b, c, d);
      StepsOrdered(h, a, c);
    }
  }

  /** The final length of a symbol: what it has, and the merges that its group still goes through. */
  lemma {:induction false} MergedAdds(f: Freqs, l: Lengths, ch: Chains, i: nat, x: nat)
    requires |f| == |l| == |ch| && Disjoint(ch) && i < |ch| && x in ch[i] && x < |l|
    ensures |Merged(f, l, ch)| == |l| && Merged(f, l, ch)[x] == l[x] + Steps(f, i)
    decreases Live(f)
  {
    hide *;
    var a := LeastOf(f, -1);
    var b := LeastOf(f, a);
    Ends(f, l, ch, i, a, b);
    if a >= 0 && b >= 0 {
      MakeNextTwo(f, a, b);
      NextTwoLive(f, a, b);
      MergedNext(f, l, ch, a, b);
      StepsNext(f, i, a, b);
      DeepenedAt(l, ch, a, b, x);
      JoinedDisjoint(ch, a, b);
      JoinedHolder(ch, a, b, i, x);
      MergedAdds(Merge(f, a, b), Deepened(l, ch, a, b), Joined(ch, a, b), if i == b then a else i, x);
    }
  }

  lemma Ends(f: Freqs, l: Lengths, ch: Chains, i: nat, a: int, b: int)
    requires |f| == |l| == |ch| && a >= -1 && b >= -1 && (a == -1 <==> NoneLeft(f, -1)) && (b == -1 <==> NoneLeft(f, a))
    ensures a == -1 || b == -1 ==> Merged(f, l, ch) == l && Steps(f, i) == 0
  {
    if a == -1 || b == -1 {
      forall c: nat, d: nat ensures !NextTwo(f, c, d) {}
    }
  }

  lemma JoinedHolder(ch: Chains, a: nat, b: nat, i: nat, x: nat)
    requires Disjoint(ch) && a < |ch| && b < |ch| && a != b && i < |ch| && x in ch[i]
    ensures x in Joined(ch, a, b)[if i == b then a else i]
    ensures x in ch[a] || x in ch[b] <==> i == a || i == b
  {
    var k :| 0 <= k < |ch[i]| && ch[i][k] == x;
    forall j, m | 0 <= j < |ch| && 0 <= m < |ch[j]| && ch[j][m] == x ensures j == i { assert ch[i][k] == ch[j][m]; }
  }

  lemma SingleDisjoint(f: Freqs)
    ensures Disjoint(Single(f))
  {
  }

  /** The length of a symbol that is used is the number of merges. */
  lemma SizeIsSteps(f: Freqs, x: nat)
    requires x < |f| && f[x] > 0
    ensures |CodeSizes(f)| == |f| && CodeSizes(f)[x] == Steps(f, x)
  {
    hide *;
    var l := seq(|f|, i => 0);
    CodeSizesIs(f, l);
    SingleDisjoint(f);
    SingleHolds(f, x);
    MergedAdds(f, l, Single(f), x, x);
  }

  lemma SingleHolds(f: Freqs, x: nat)
    requires x < |f| && f[x] > 0
    ensures |Single(f)| == |f| && x in Single(f)[x]
  {
  }

  /** Of two symbols the rarer one, or with the same count the one with the larger number, does
      not get the shorter code. */
  lemma RarerIsLonger(f: Freqs, x: nat, y: nat)
    requires x < |f| && y < |f| && f[x] > 0 && f[y] > 0 && (f[x] < f[y] || (f[x] == f[y] && x > y))
    ensures |CodeSizes(f)| == |f| && CodeSizes(f)[x] >= CodeSizes(f)[y]
  {
    hide *;
    SizeIsSteps(f, x);
    SizeIsSteps(f, y);
    PrecedesIs(f, x, y);
    StepsOrdered(f, x, y);
  }
}
