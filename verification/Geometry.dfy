/** Sizes in DCT blocks and in MCUs: initial_setup and per_scan_setup of jcmaster.c, which
    jdinput.c repeats on the decoding side. */
module Geometry {
  const DCTSIZE: nat := 8
  const MAX_SAMP_FACTOR: nat := 4
  const MAX_BLOCKS_IN_MCU: nat := 10

  /** Sampling factors of a component. */
  datatype Comp = Comp(h: nat, v: nat)

  datatype Frame = Frame(width: nat, height: nat, comps: seq<Comp>)

  predicate FrameOk(f: Frame)
  {
    && f.width > 0 && f.height > 0 && f.comps != []
    && forall c :: 0 <= c < |f.comps| ==> 0 < f.comps[c].h <= MAX_SAMP_FACTOR && 0 < f.comps[c].v <= MAX_SAMP_FACTOR
  }

  // ---- Division ----

  /** jdiv_round_up. */
  function CeilDiv(a: nat, b: nat): (q: nat)
    requires b > 0
  {
    (a + b - 1) / b
  }

  /** The quotient rounded up is the least one that is large enough. */
  lemma CeilBounds(a: nat, b: nat)
    requires b > 0
    ensures a <= CeilDiv(a, b) * b < a + b
  {
    var n := a + b - 1;
    assert n == b * (n / b) + n % b;
    Commute(b, n / b);
  }

  /** Place col of row r, when rows hold p places each. */
  function PlaceIn(r: nat, col: nat, p: nat): (n: nat)
    ensures n == r * p + col
  {
    r * p + col
  }

  lemma Commute(a: int, b: int)
    ensures a * b == b * a
  {
  }

  lemma MulOrder(a: int, b: int, m: nat)
    requires a <= b
    ensures a * m <= b * m
  {
    assert (b - a) * m >= 0;
  }

  lemma MulStrict(a: int, b: int, m: nat)
    requires a * m < b * m
    ensures a < b
  {
    if a >= b { MulOrder(b, a, m); }
  }

  lemma MulMul(a: int, b: int, c: int)
    ensures a * b * c == a * c * b
  {
  }

  /** A number below n * m is one multiple of m and a remainder, in one way only. */
  lemma DivMod(x: nat, n: nat, m: nat)
    requires m > 0 && x < n * m
    ensures x / m < n && x % m < m && x == x / m * m + x % m
  {
    assert x == m * (x / m) + x % m;
    Commute(m, x / m);
    MulStrict(x / m, n, m);
  }

  lemma DivModUnique(q: nat, r: nat, q': nat, r': nat, m: nat)
    requires r < m && r' < m && q * m + r == q' * m + r'
    ensures q == q' && r == r'
  {
    if q < q' {
      MulOrder(q + 1, q', m);
    } else if q' < q {
      MulOrder(q' + 1, q, m);
    }
  }

  lemma DivModIs(q: nat, r: nat, m: nat)
    requires r < m
    ensures (q * m + r) / m == q && (q * m + r) % m == r
  {
    var x := q * m + r;
    assert x == m * (x / m) + x % m;
    Commute(m, x / m);
    DivModUnique(x / m, x % m, q, r, m);
  }

  function Quot(n: nat, m: nat): nat
    requires m > 0
  {
    n / m
  }

  function Rem(n: nat, m: nat): nat
    requires m > 0
  {
    n % m
  }

  lemma PairBelow(q: nat, r: nat, n: nat, m: nat)
    requires q < n && r < m
    ensures q * m + r < n * m
  {
    MulOrder(q + 1, n, m);
    assert (q + 1) * m == q * m + m;
  }

  // ---- The frame ----

  function Largest(xs: seq<nat>): (m: nat)
    ensures m >= 1 && forall i :: 0 <= i < |xs| ==> xs[i] <= m
    ensures m == 1 || m in xs
  {
    if xs == [] then 1
    else
      var m := Largest(xs[1..]);
      assert forall i :: 0 <= i < |xs| ==> i == 0 || xs[i] == xs[1..][i - 1];
      if xs[0] > m then xs[0] else m
  }

  function MaxH(f: Frame): (m: nat)
    ensures m >= 1 && forall c :: 0 <= c < |f.comps| ==> f.comps[c].h <= m
  {
    var hs := seq(|f.comps|, c requires 0 <= c < |f.comps| => f.comps[c].h);
    assert forall c :: 0 <= c < |f.comps| ==> hs[c] == f.comps[c].h;
    Largest(hs)
  }

  function MaxV(f: Frame): (m: nat)
    ensures m >= 1 && forall c :: 0 <= c < |f.comps| ==> f.comps[c].v <= m
  {
    var vs := seq(|f.comps|, c requires 0 <= c < |f.comps| => f.comps[c].v);
    assert forall c :: 0 <= c < |f.comps| ==> vs[c] == f.comps[c].v;
    Largest(vs)
  }

  /** width_in_blocks and height_in_blocks: real blocks only. */
  function WidthInBlocks(f: Frame, c: nat): nat
    requires c < |f.comps|
  {
    CeilDiv(f.width * f.comps[c].h, MaxH(f) * DCTSIZE)
  }

  function HeightInBlocks(f: Frame, c: nat): nat
    requires c < |f.comps|
  {
    CeilDiv(f.height * f.comps[c].v, MaxV(f) * DCTSIZE)
  }

  /** MCUs across and down when all components are interleaved. */
  function ImcuCols(f: Frame): nat { CeilDiv(f.width, MaxH(f) * DCTSIZE) }

  function ImcuRows(f: Frame): nat { CeilDiv(f.height, MaxV(f) * DCTSIZE) }

  /** How much of n in units of g an extent of n * s / g units covers: all but the last of
      the r groups of s are full, and the last holds at least one. */
  lemma NestedCeil(n: nat, s: nat, g: nat)
    requires n > 0 && s > 0 && g > 0
    ensures var r, b := CeilDiv(n, g), CeilDiv(n * s, g); r > 0 && (r - 1) * s < b <= r * s
  {
    hide CeilDiv;
    var r, b := CeilDiv(n, g), CeilDiv(n * s, g);
    CeilBounds(n, g);
    CeilBounds(n * s, g);
    CoverAll(n, s, g, r, b);
    CoverMost(n, s, g, r, b);
  }

  lemma CoverAll(n: nat, s: nat, g: nat, r: nat, b: nat)
    requires n <= r * g && b * g < n * s + g
    ensures b <= r * s && (n > 0 ==> r > 0)
  {
    MulOrder(n, r * g, s);
    MulMul(r, g, s);
    var x := r * s;
    assert b * g < x * g + g;
    Next(x, g);
    MulStrict(b, x + 1, g);
  }

  lemma CoverMost(n: nat, s: nat, g: nat, r: nat, b: nat)
    requires r > 0 && s > 0 && r * g < n + g && n * s <= b * g
    ensures (r - 1) * s < b
  {
    var t := r - 1;
    Next(t, g);
    assert t * g + 1 <= n;
    MulOrder(t * g + 1, n, s);
    Next(t * g, s);
    MulMul(t, g, s);
    var x := t * s;
    MulStrict(x, b, g);
  }

  lemma Next(a: int, m: int)
    ensures (a + 1) * m == a * m + m
  {
  }

  lemma BlockRows(f: Frame, c: nat)
    requires FrameOk(f) && c < |f.comps|
    ensures var v := f.comps[c].v; 0 < ImcuRows(f) && (ImcuRows(f) - 1) * v < HeightInBlocks(f, c) <= ImcuRows(f) * v
  {
    NestedCeil(f.height, f.comps[c].v, MaxV(f) * DCTSIZE);
  }

  lemma BlockCols(f: Frame, c: nat)
    requires FrameOk(f) && c < |f.comps|
    ensures var h := f.comps[c].h; 0 < ImcuCols(f) && (ImcuCols(f) - 1) * h < WidthInBlocks(f, c) <= ImcuCols(f) * h
  {
    NestedCeil(f.width, f.comps[c].h, MaxH(f) * DCTSIZE);
  }

  /** The blocks in the last, possibly partial, group. */
  function LastPart(blocks: nat, factor: nat): nat
    requires factor > 0
  {
    if blocks % factor == 0 then factor else blocks % factor
  }

  /** last_col_width and last_row_height: what is left for the last MCU. */
  lemma LastPartIs(blocks: nat, factor: nat, groups: nat)
    requires factor > 0 && groups > 0 && (groups - 1) * factor < blocks <= groups * factor
    ensures 0 < LastPart(blocks, factor) <= factor && blocks == (groups - 1) * factor + LastPart(blocks, factor)
  {
    var left := blocks - (groups - 1) * factor;
    assert groups * factor == (groups - 1) * factor + factor;
    if left == factor {
      DivModIs(groups, 0, factor);
    } else {
      DivModIs(groups - 1, left, factor);
    }
  }

  /** The limits of initial_setup on the sampling factors. */
  lemma FrameIs(f: Frame)
    ensures FrameOk(f) <==> f.width > 0 && f.height > 0 && f.comps != [] &&
                            forall c :: 0 <= c < |f.comps| ==> 1 <= f.comps[c].h <= 4 && 1 <= f.comps[c].v <= 4
  {
  }

  /** The real blocks of a component are just enough for its share of the samples: with the
      largest factors among the components standing for the full size, no block is empty. */
  lemma BlocksCover(f: Frame, c: nat) returns (a: nat, b: nat)
    requires FrameOk(f) && c < |f.comps|
    ensures a < |f.comps| && b < |f.comps| && forall i :: 0 <= i < |f.comps| ==> f.comps[i].h <= f.comps[a].h && f.comps[i].v <= f.comps[b].v
    ensures f.width * f.comps[c].h <= WidthInBlocks(f, c) * (f.comps[a].h * 8) < f.width * f.comps[c].h + f.comps[a].h * 8
    ensures f.height * f.comps[c].v <= HeightInBlocks(f, c) * (f.comps[b].v * 8) < f.height * f.comps[c].v + f.comps[b].v * 8
  {
    a, b := MaxAttained(f);
    CeilBounds(f.width * f.comps[c].h, MaxH(f) * DCTSIZE);
    CeilBounds(f.height * f.comps[c].v, MaxV(f) * DCTSIZE);
  }

  lemma MaxAttained(f: Frame) returns (a: nat, b: nat)
    requires FrameOk(f)
    ensures a < |f.comps| && b < |f.comps| && f.comps[a].h == MaxH(f) && f.comps[b].v == MaxV(f)
  {
    var hs := seq(|f.comps|, c requires 0 <= c < |f.comps| => f.comps[c].h);
    var vs := seq(|f.comps|, c requires 0 <= c < |f.comps| => f.comps[c].v);
    assert f.comps[0].h >= 1 && hs[0] == f.comps[0].h && f.comps[0].v >= 1 && vs[0] == f.comps[0].v;
    a :| 0 <= a < |f.comps| && hs[a] == MaxH(f);
    b :| 0 <= b < |f.comps| && vs[b] == MaxV(f);
  }
}
