/** Decoding an MCU again after a suspension. The first attempt may have stored some
    coefficients already; the second attempt, from the same place in the data, ends with
    the same blocks all the same. */
module DecodeAgain {
  import opened Bits
  import opened BitStream
  import opened HuffTable
  import opened EobRun
  import opened Blocks
  import opened AcFirst
  import opened AcRefine
  import opened AcScan
  import opened Scans
  import opened Tokens
  import DcScan

  /** The same data, with dw more warnings issued so far. */
  predicate Same(a: Src, b: Src, dw: int) { a.bits == b.bits && a.starved == b.starved && b.warnings == a.warnings + dw }

  ghost predicate SamePoints(ps: seq<Src>, qs: seq<Src>, dw: int)
  {
    |ps| == |qs| && forall i :: 0 <= i < |ps| ==> Same(ps[i], qs[i], dw)
  }

  lemma PointsCons(a: Src, b: Src, ps: seq<Src>, qs: seq<Src>, dw: int)
    requires Same(a, b, dw) && SamePoints(ps, qs, dw)
    ensures SamePoints([a] + ps, [b] + qs, dw)
  {
  }

  lemma PointsNone(dw: int)
    ensures SamePoints([], [], dw)
  {
  }

  lemma SameTake(a: Src, b: Src, n: nat, dw: int)
    requires Same(a, b, dw)
    ensures a.Peek(n) == b.Peek(n) && Same(a.Drop(n), b.Drop(n), dw) && Same(a.Warn(), b.Warn(), dw)
  {
    assert a.Ext(n) == b.Ext(n);
  }

  lemma {:induction false} SerialSame(t: Table, code: nat, l: nat, a: Src, b: Src, dw: int)
    requires 1 <= l <= 17 && Same(a, b, dw)
    ensures Serial(t, code, l, a).0 == Serial(t, code, l, b).0 && Same(Serial(t, code, l, a).1, Serial(t, code, l, b).1, dw)
    decreases 17 - l
  {
    hide MaxCode;
    hide SymAt;
    SameTake(a, b, 1, dw);
    if l <= 16 && code > MaxCode(t, l) {
      SerialSame(t, 2 * code + a.Peek(1), l + 1, a.Drop(1), b.Drop(1), dw);
    }
  }

  lemma SymSame(t: Table, a: Src, b: Src, dw: int)
    requires Same(a, b, dw)
    ensures DecodeSym(t, a).0 == DecodeSym(t, b).0 && Same(DecodeSym(t, a).1, DecodeSym(t, b).1, dw)
  {
    hide Serial;
    SameTake(a, b, 1, dw);
    SerialSame(t, a.Peek(1), 1, a.Drop(1), b.Drop(1), dw);
  }

  // ---- First AC scans ----

  /** The positions DecFirst stores to. */
  function Writes(t: Table, k: nat, p: Params, s: Src): set<nat>
    decreases p.Se + 1 - k
  {
    if k > p.Se then {}
    else
      var (sym, s1) := DecodeSym(t, s);
      var r, z := sym / 16, sym % 16;
      if z != 0 then {Clamp(k + r)} + Writes(t, k + r + 1, p, s1.Drop(z))
      else if r == 15 then Writes(t, k + 16, p, s1)
      else {}
  }

  /** e is d except where the positions say. */
  ghost predicate Off(d: Block, e: Block, at: set<nat>)
  {
    forall j :: 0 <= j < 64 && j !in at ==> e[j] == d[j]
  }

  lemma OffStore(d: Block, e: Block, i: nat, at: set<nat>, v: Coef)
    requires i < 64 && Off(d, e, {i} + at)
    ensures Off(d[i := v], e[i := v], at)
  {
  }

  lemma OffNone(d: Block, e: Block)
    requires Off(d, e, {})
    ensures d == e
  {
  }

  /** What has been stored already does not matter, for it will be stored again. */
  lemma {:induction false} FirstAgain(t: Table, d: Block, e: Block, k: nat, p: Params, a: Src, b: Src, dw: int)
    requires Same(a, b, dw) && Off(d, e, Writes(t, k, p, a))
    ensures var x, y := DecFirst(t, d, k, p, a), DecFirst(t, e, k, p, b);
            x.0 == y.0 && x.1 == y.1 && Same(x.2, y.2, dw)
    decreases p.Se + 1 - k
  {
    hide DecodeSym;
    hide Off;
    hide Same;
    if k > p.Se {
      OffNone(d, e);
    } else {
      SymSame(t, a, b, dw);
      var (sym, a1) := DecodeSym(t, a);
      var b1 := DecodeSym(t, b).1;
      var r, z := sym / 16, sym % 16;
      if z != 0 {
        SameTake(a1, b1, z, dw);
        var v := Jcoef(Shl(Extend(a1.Peek(z), z), p.Al));
        OffStore(d, e, Clamp(k + r), Writes(t, k + r + 1, p, a1.Drop(z)), v);
        FirstAgain(t, d[Clamp(k + r) := v], e[Clamp(k + r) := v], k + r + 1, p, a1.Drop(z), b1.Drop(z), dw);
      } else if r == 15 {
        FirstAgain(t, d, e, k + 16, p, a1, b1, dw);
      } else {
        OffNone(d, e);
        SameTake(a1, b1, r, dw);
      }
    }
  }

  // ---- AC refinement scans ----

  /** Adding bit al twice is adding it once. */
  lemma GrowTwice(v: Coef, al: nat)
    requires al <= 13 && v != 0
    ensures Grow(Grow(v, al), al) == Grow(v, al) != 0
  {
    GrowIs(v, al);
    GrowIs(Grow(v, al), al);
    if !BitSet(v, al) {
      var w := if v >= 0 then v + Pow2(al) else v - Pow2(al);
      hide Grow;
      hide BitSet;
      Pow2Small(al);
      BitFlips(v, w, al);
      JcoefBit(w, al);
      JcoefNonzero(w);
    }
  }

  lemma GrowIs(v: Coef, al: nat)
    ensures Grow(v, al) == if BitSet(v, al) then v else Jcoef(if v >= 0 then v + Pow2(al) else v - Pow2(al))
  {
    hide BitSet;
    JcoefId(v);
  }

  lemma JcoefId(v: Coef)
    ensures Jcoef(v) == v
  {
  }

  lemma BitFlips(v: int, w: int, al: nat)
    requires !BitSet(v, al) && (w == v + Pow2(al) || w == v - Pow2(al))
    ensures BitSet(w, al)
  {
    ShrAddPow2(v, al);
    hide Shr;
    hide Pow2;
  }

  lemma JcoefNonzero(w: int)
    requires 0 < w < 65536 || -65536 < w < 0
    ensures Jcoef(w) != 0
  {
  }

  lemma Pow2Small(al: nat)
    requires al <= 13
    ensures Pow2(al) <= 8192
  {
    assert Pow2(13) == 8192 by { assert Pow2(5) == 32; assert Pow2(9) == 512; }
    Pow2Mono(al, 13);
  }

  lemma {:induction false} ShrAddShl(v: int, m: int, n: nat)
    ensures Shr(v + Shl(m, n), n) == Shr(v, n) + m
    decreases n
  {
    if n > 0 {
      ShrAddShl(v / 2, m, n - 1);
      ShrHalf(v, n);
      ShrHalf(v + Shl(m, n), n);
    }
  }

  lemma ShrAddPow2(v: int, n: nat)
    ensures Shr(v + Pow2(n), n) == Shr(v, n) + 1 && Shr(v - Pow2(n), n) == Shr(v, n) - 1
  {
    ShlPow2(0, n);
    ShlNeg(1, n);
    ShrAddShl(v, 1, n);
    ShrAddShl(v, -1, n);
  }

  /** Wrapping into a JCOEF keeps bits 0 to 14. */
  lemma JcoefBit(w: int, al: nat)
    requires al <= 13 && -65536 <= w <= 65536
    ensures BitSet(Jcoef(w), al) == BitSet(w, al)
  {
    JcoefCases(w);
    hide *;
    var h := PowHalf(al);
    ShlNeg(2 * h, al);
    ShrAddShl(w, 2 * h, al);
    ShrAddShl(w, 0 - 2 * h, al);
    BitSetIs(w, h, al);
    BitSetIs(Jcoef(w), h, al);
  }

  lemma PowHalf(al: nat) returns (h: int)
    requires al <= 13
    ensures Shl(2 * h, al) == 65536
  {
    h := Pow2(15 - al);
    assert Pow2(16) == 65536 by { Pow15(); }
    assert Pow2(16 - al) == 2 * h;
    ShlPow2(16 - al, al);
  }

  lemma BitSetIs(v: int, h: int, al: nat)
    ensures BitSet(v, al) <==> Shr(v, al) % 2 == 1
    ensures (Shr(v, al) + 2 * h) % 2 == Shr(v, al) % 2 == (Shr(v, al) - 2 * h) % 2
  {
    hide Shr;
  }

  lemma JcoefCases(w: int)
    requires -65536 <= w <= 65536
    ensures Jcoef(w) == w || Jcoef(w) == w + 65536 || Jcoef(w) == w - 65536
  {
  }

  // Positions where a correction bit of 1 is applied.

  function SkipOnes(d: Block, k: nat, r: nat, p: Params, s: Src): set<nat>
    requires p.Se < 64
    decreases p.Se + 1 - k
  {
    if k > p.Se then {}
    else if d[k] != 0 then
      (if s.Peek(1) == 1 then {k} else {}) + SkipOnes(d[k := Correct(d[k], p, s)], k + 1, r, p, s.Drop(1))
    else if r == 0 then {}
    else SkipOnes(d, k + 1, r - 1, p, s)
  }

  function CorrOnes(d: Block, k: nat, p: Params, s: Src): set<nat>
    requires p.Se < 64
    decreases p.Se + 1 - k
  {
    if k > p.Se then {}
    else if d[k] != 0 then
      (if s.Peek(1) == 1 then {k} else {}) + CorrOnes(d[k := Correct(d[k], p, s)], k + 1, p, s.Drop(1))
    else CorrOnes(d, k + 1, p, s)
  }

  /** Of the coefficient loop and, after an end-of-band, of the rest of the band. */
  function RefOnes(t: Table, d: Block, k: nat, p: Params, s: Src): set<nat>
    requires p.Se < 64
    decreases p.Se + 1 - k
  {
    if k > p.Se then {}
    else
      var (sym, s1) := DecodeSym(t, s);
      var r, z := sym / 16, sym % 16;
      if z == 0 && r != 15 then CorrOnes(d, k, p, s1.Drop(r))
      else
        var s2 := if z > 1 then s1.Warn() else s1;
        var s3 := if z > 0 then s2.Drop(1) else s2;
        var next := Skip(d, k, r, p, s3);
        SkipBounds(d, k, r, p, s3);
        SkipOnes(d, k, r, p, s3) + RefOnes(t, if z > 0 then next.0[Clamp(next.1) := NewCoef(s2, p)] else next.0, next.1 + 1, p, next.2)
  }

  /** e is d with some of the corrections already applied, all at k or beyond. */
  ghost predicate Grown(d: Block, e: Block, k: nat, at: set<nat>, al: nat)
  {
    forall j :: 0 <= j < 64 && e[j] != d[j] ==> k <= j && j in at && d[j] != 0 && e[j] == Grow(d[j], al)
  }

  lemma {:induction false} SkipOnesBounds(d: Block, k: nat, r: nat, p: Params, s: Src)
    requires p.Se < 64
    ensures forall j :: j in SkipOnes(d, k, r, p, s) ==> k <= j < Skip(d, k, r, p, s).1
    ensures k <= Skip(d, k, r, p, s).1
    decreases p.Se + 1 - k
  {
    if k > p.Se {
    } else if d[k] != 0 {
      SkipOnesBounds(d[k := Correct(d[k], p, s)], k + 1, r, p, s.Drop(1));
    } else if r > 0 {
      SkipOnesBounds(d, k + 1, r - 1, p, s);
    }
  }

  lemma {:induction false} CorrOnesBounds(d: Block, k: nat, p: Params, s: Src)
    requires p.Se < 64
    ensures forall j :: j in CorrOnes(d, k, p, s) ==> k <= j
    decreases p.Se + 1 - k
  {
    if k > p.Se {
    } else if d[k] != 0 {
      CorrOnesBounds(d[k := Correct(d[k], p, s)], k + 1, p, s.Drop(1));
    } else {
      CorrOnesBounds(d, k + 1, p, s);
    }
  }

  lemma RefOnesMore(t: Table, d: Block, k: nat, p: Params, s: Src, sym: byte, s1: Src)
    requires k <= p.Se < 64 && DecodeSym(t, s) == (sym, s1)
    ensures var r, z := sym / 16, sym % 16;
            RefOnes(t, d, k, p, s) ==
            if z == 0 && r != 15 then CorrOnes(d, k, p, s1.Drop(r))
            else
              var s2 := if z > 1 then s1.Warn() else s1;
              var s3 := if z > 0 then s2.Drop(1) else s2;
              var (d1, k1, s4) := Skip(d, k, r, p, s3);
              SkipOnes(d, k, r, p, s3) + RefOnes(t, if z > 0 then d1[Clamp(k1) := NewCoef(s2, p)] else d1, k1 + 1, p, s4)
  {
    hide DecodeSym;
    hide Skip;
    hide SkipOnes;
    hide CorrOnes;
    hide Clamp;
    hide NewCoef;
  }

  ghost predicate AtLeast(at: set<nat>, k: nat) { forall j :: j in at ==> k <= j }

  lemma NoneAtLeast(k: nat)
    ensures AtLeast({}, k)
  {
  }

  lemma UnionBounds(x: set<nat>, y: set<nat>, k: nat, l: nat)
    requires AtLeast(x, k) && AtLeast(y, l) && k <= l
    ensures AtLeast(x + y, k)
  {
  }

  lemma {:induction false} RefOnesBounds(t: Table, d: Block, k: nat, p: Params, s: Src)
    requires p.Se < 64
    ensures AtLeast(RefOnes(t, d, k, p, s), k)
    decreases p.Se + 1 - k
  {
    hide *;
    if k > p.Se {
      RefRunEnd(t, d, k, p, s);
      NoneAtLeast(k);
    } else {
      var (sym, s1) := DecodeSym(t, s);
      RefOnesMore(t, d, k, p, s, sym, s1);
      var r, z := sym / 16, sym % 16;
      if z == 0 && r != 15 {
        CorrAtLeast(d, k, p, s1.Drop(r));
      } else {
        var s2 := if z > 1 then s1.Warn() else s1;
        var s3 := if z > 0 then s2.Drop(1) else s2;
        SkipAtLeast(d, k, r, p, s3);
        var (d1, k1, s4) := Skip(d, k, r, p, s3);
        SkipBounds(d, k, r, p, s3);
        var d2 := if z > 0 then d1[Clamp(k1) := NewCoef(s2, p)] else d1;
        RefOnesBounds(t, d2, k1 + 1, p, s4);
        UnionBounds(SkipOnes(d, k, r, p, s3), RefOnes(t, d2, k1 + 1, p, s4), k, k1 + 1);
      }
    }
  }

  lemma SkipAtLeast(d: Block, k: nat, r: nat, p: Params, s: Src)
    requires p.Se < 64
    ensures AtLeast(SkipOnes(d, k, r, p, s), k)
  {
    SkipOnesBounds(d, k, r, p, s);
  }

  lemma CorrAtLeast(d: Block, k: nat, p: Params, s: Src)
    requires p.Se < 64
    ensures AtLeast(CorrOnes(d, k, p, s), k)
  {
    CorrOnesBounds(d, k, p, s);
  }

  lemma GrownSame(d: Block, e: Block, k: nat, al: nat)
    requires Grown(d, e, k, {}, al)
    ensures d == e
  {
  }

  /** Correcting position k in both. */
  lemma GrownCorrect(d: Block, e: Block, k: nat, at: set<nat>, more: set<nat>, p: Params, a: Src, b: Src, dw: int)
    requires k < 64 && p.Al <= 13 && Same(a, b, dw) && Grown(d, e, k, at + more, p.Al) && d[k] != 0
    requires k in at ==> a.Peek(1) == 1
    requires k !in more
    ensures e[k] != 0 && Correct(e[k], p, b) == Correct(d[k], p, a)
    ensures var c := Correct(d[k], p, a); Grown(d[k := c], e[k := c], k + 1, at + more, p.Al)
  {
    hide Grow;
    SameTake(a, b, 1, dw);
    GrowTwice(d[k], p.Al);
  }

  lemma {:induction false} SkipAgain(d: Block, e: Block, k: nat, r: nat, p: Params, a: Src, b: Src, later: set<nat>, dw: int)
    requires p.Se < 64 && p.Al <= 13 && Same(a, b, dw) && Grown(d, e, k, SkipOnes(d, k, r, p, a) + later, p.Al)
    requires AtLeast(later, Skip(d, k, r, p, a).1)
    ensures var x, y := Skip(d, k, r, p, a), Skip(e, k, r, p, b);
            x.1 == y.1 && Same(x.2, y.2, dw) && Grown(x.0, y.0, x.1, later, p.Al)
    decreases p.Se + 1 - k
  {
    if k > p.Se {
      assert {} + later == later;
    } else if d[k] != 0 {
      hide Same;
      SkipOnesBounds(d, k, r, p, a);
      var c := Correct(d[k], p, a);
      SkipOnesBounds(d[k := c], k + 1, r, p, a.Drop(1));
      var ones := SkipOnes(d[k := c], k + 1, r, p, a.Drop(1));
      GrownCorrect(d, e, k, SkipOnes(d, k, r, p, a), later, p, a, b, dw);
      GrownLess(d[k := c], e[k := c], k, if a.Peek(1) == 1 then {k} else {}, ones + later, SkipOnes(d, k, r, p, a) + later, p.Al);
      SameTake(a, b, 1, dw);
      hide Grown;
      SkipAgain(d[k := c], e[k := c], k + 1, r, p, a.Drop(1), b.Drop(1), later, dw);
    } else if r == 0 {
      assert {} + later == later;
    } else {
      SkipAgain(d, e, k + 1, r - 1, p, a, b, later, dw);
    }
  }

  /** From k + 1 on, position k no longer matters. */
  lemma GrownLess(d: Block, e: Block, k: nat, here: set<nat>, at: set<nat>, all: set<nat>, al: nat)
    requires all == here + at && here <= {k} && Grown(d, e, k + 1, all, al)
    ensures Grown(d, e, k + 1, at, al)
  {
  }

  lemma {:induction false} CorrAgain(d: Block, e: Block, k: nat, p: Params, a: Src, b: Src, dw: int)
    requires p.Se < 64 && p.Al <= 13 && Same(a, b, dw) && Grown(d, e, k, CorrOnes(d, k, p, a), p.Al)
    ensures Corrections(d, k, p, a).0 == Corrections(e, k, p, b).0
    ensures Same(Corrections(d, k, p, a).1, Corrections(e, k, p, b).1, dw)
    decreases p.Se + 1 - k
  {
    hide *;
    if k > p.Se {
      CorrEnd(d, k, p, a);
      CorrEnd(e, k, p, b);
      GrownSame(d, e, k, p.Al);
    } else if d[k] != 0 {
      var c := Correct(d[k], p, a);
      CorrNonzero(d, k, p, a);
      CorrOnesBounds(d[k := c], k + 1, p, a.Drop(1));
      var ones := CorrOnes(d[k := c], k + 1, p, a.Drop(1));
      assert CorrOnes(d, k, p, a) + {} == CorrOnes(d, k, p, a);
      GrownCorrect(d, e, k, CorrOnes(d, k, p, a), {}, p, a, b, dw);
      CorrNonzero(e, k, p, b);
      GrownLess(d[k := c], e[k := c], k, if a.Peek(1) == 1 then {k} else {}, ones, CorrOnes(d, k, p, a) + {}, p.Al);
      SameTake(a, b, 1, dw);
      CorrAgain(d[k := c], e[k := c], k + 1, p, a.Drop(1), b.Drop(1), dw);
    } else {
      GrownZero(d, e, k, CorrOnes(d, k, p, a), p.Al);
      CorrZero(d, k, p, a);
      CorrZero(e, k, p, b);
      CorrAgain(d, e, k + 1, p, a, b, dw);
    }
  }

  lemma GrownZero(d: Block, e: Block, k: nat, at: set<nat>, al: nat)
    requires k < 64 && Grown(d, e, k, at, al) && d[k] == 0
    ensures e[k] == 0 && Grown(d, e, k + 1, at, al)
  {
  }

  /** The coefficient loop and what follows it. */
  function RefRun(t: Table, d: Block, k: nat, p: Params, s: Src): (Block, nat, Src)
    requires p.Se < 64
  {
    FinishBand(RefLoop(t, d, k, p, s), p)
  }

  lemma RefLoopMore(t: Table, d: Block, k: nat, p: Params, s: Src, sym: byte, s1: Src)
    requires k <= p.Se < 64 && DecodeSym(t, s) == (sym, s1)
    ensures var r, z := sym / 16, sym % 16;
            RefLoop(t, d, k, p, s) ==
            if z == 0 && r != 15 then (d, k, RunLength(r, s1), s1.Drop(r))
            else
              var s2 := if z > 1 then s1.Warn() else s1;
              var s3 := if z > 0 then s2.Drop(1) else s2;
              var (d1, k1, s4) := Skip(d, k, r, p, s3);
              RefLoop(t, if z > 0 then d1[Clamp(k1) := NewCoef(s2, p)] else d1, k1 + 1, p, s4)
  {
    hide DecodeSym;
    hide Skip;
    hide RunLength;
    hide Clamp;
    hide NewCoef;
  }

  lemma RunPositive(r: nat, s: Src)
    ensures RunLength(r, s) > 0
  {
  }

  lemma RefRunMore(t: Table, d: Block, k: nat, p: Params, s: Src, sym: byte, s1: Src)
    requires k <= p.Se < 64 && DecodeSym(t, s) == (sym, s1)
    ensures var r, z := sym / 16, sym % 16;
            RefRun(t, d, k, p, s) ==
            if z == 0 && r != 15 then
              var c := Corrections(d, k, p, s1.Drop(r));
              (c.0, RunLength(r, s1) - 1, c.1)
            else
              var s2 := if z > 1 then s1.Warn() else s1;
              var s3 := if z > 0 then s2.Drop(1) else s2;
              var (d1, k1, s4) := Skip(d, k, r, p, s3);
              RefRun(t, if z > 0 then d1[Clamp(k1) := NewCoef(s2, p)] else d1, k1 + 1, p, s4)
  {
    RefLoopMore(t, d, k, p, s, sym, s1);
    RunPositive(sym / 16, s1);
    hide DecodeSym;
    hide Skip;
    hide RefLoop;
    hide Corrections;
    hide Clamp;
    hide NewCoef;
    hide RunLength;
  }

  lemma RefRunEnd(t: Table, d: Block, k: nat, p: Params, s: Src)
    requires p.Se < 64 && k > p.Se
    ensures RefRun(t, d, k, p, s) == (d, 0, s) && RefOnes(t, d, k, p, s) == {}
  {
  }

  // Where data is asked for.

  ghost predicate SomeNonzero(d: Block, k: nat, p: Params)
    requires p.Se < 64
  {
    exists j :: k <= j <= p.Se && d[j] != 0
  }

  /** The requests after the coefficient loop: correction bits, if there is anything to correct. */
  ghost function BandPoints(d: Block, k: nat, p: Params, s: Src): (r: seq<Src>)
    requires p.Se < 64
    ensures |r| > 0 && r[0] == s
  {
    [s] + if SomeNonzero(d, k, p) then [Corrections(d, k, p, s).1] else []
  }

  /** The stream at the requests of a refinement block, and at its end. The requests for the
      bits of one symbol, between which there is no warning, are taken together. */
  ghost function RunPoints(t: Table, d: Block, k: nat, p: Params, s: Src): (r: seq<Src>)
    requires p.Se < 64
    ensures |r| > 0 && r[0] == s
    decreases p.Se + 1 - k
  {
    if k > p.Se then [s]
    else
      var (sym, s1) := DecodeSym(t, s);
      var r, z := sym / 16, sym % 16;
      if z == 0 && r != 15 then [s] + BandPoints(d, k, p, s1.Drop(r))
      else
        var s2 := if z > 1 then s1.Warn() else s1;
        var s3 := if z > 0 then s2.Drop(1) else s2;
        var next := Skip(d, k, r, p, s3);
        SkipBounds(d, k, r, p, s3);
        var rest := RunPoints(t, if z > 0 then next.0[Clamp(next.1) := NewCoef(s2, p)] else next.0, next.1 + 1, p, next.2);
        [s] + if z > 0 then [s2] + rest else rest
  }

  lemma RunPointsMore(t: Table, d: Block, k: nat, p: Params, s: Src, sym: byte, s1: Src)
    requires k <= p.Se < 64 && DecodeSym(t, s) == (sym, s1)
    ensures var r, z := sym / 16, sym % 16;
            RunPoints(t, d, k, p, s) ==
            if z == 0 && r != 15 then [s] + BandPoints(d, k, p, s1.Drop(r))
            else
              var s2 := if z > 1 then s1.Warn() else s1;
              var s3 := if z > 0 then s2.Drop(1) else s2;
              var (d1, k1, s4) := Skip(d, k, r, p, s3);
              var rest := RunPoints(t, if z > 0 then d1[Clamp(k1) := NewCoef(s2, p)] else d1, k1 + 1, p, s4);
              [s] + if z > 0 then [s2] + rest else rest
  {
    hide DecodeSym;
    hide Skip;
    hide Corrections;
    hide BandPoints;
    hide Clamp;
    hide NewCoef;
  }

  lemma RunPointsEnd(t: Table, d: Block, k: nat, p: Params, s: Src)
    requires p.Se < 64 && k > p.Se
    ensures RunPoints(t, d, k, p, s) == [s]
  {
  }

  lemma BandAgain(d: Block, e: Block, k: nat, p: Params, a: Src, b: Src, dw: int)
    requires p.Se < 64 && p.Al <= 13 && Same(a, b, dw) && Grown(d, e, k, CorrOnes(d, k, p, a), p.Al)
    ensures SamePoints(BandPoints(d, k, p, a), BandPoints(e, k, p, b), dw)
  {
    hide Corrections;
    hide CorrOnes;
    hide Grow;
    CorrAgain(d, e, k, p, a, b, dw);
    forall j | 0 <= j < 64 ensures d[j] == 0 <==> e[j] == 0 {
      if d[j] != 0 { GrowTwice(d[j], p.Al); }
    }
  }

  lemma GrownNew(d: Block, e: Block, k: nat, at: set<nat>, al: nat, i: nat, v: Coef)
    requires Grown(d, e, k, at, al) && i < 64 && AtLeast(at, k + 1)
    ensures Grown(d, e, k + 1, at, al) && (i == k || k > 63 ==> Grown(d[i := v], e[i := v], k + 1, at, al))
  {
  }

  /** Corrections already applied are not applied again, and change nothing else. */
  lemma {:induction false} RefAgain(t: Table, d: Block, e: Block, k: nat, p: Params, a: Src, b: Src, dw: int)
    requires p.Se < 64 && p.Al <= 13 && Same(a, b, dw) && Grown(d, e, k, RefOnes(t, d, k, p, a), p.Al)
    ensures var x, y := RefRun(t, d, k, p, a), RefRun(t, e, k, p, b);
            x.0 == y.0 && x.1 == y.1 && Same(x.2, y.2, dw)
    ensures SamePoints(RunPoints(t, d, k, p, a), RunPoints(t, e, k, p, b), dw)
    decreases p.Se + 1 - k
  {
    hide *;
    if k > p.Se {
      RefRunEnd(t, d, k, p, a);
      RefRunEnd(t, e, k, p, b);
      GrownSame(d, e, k, p.Al);
      RunPointsEnd(t, d, k, p, a);
      RunPointsEnd(t, e, k, p, b);
      PointsNone(dw);
      PointsCons(a, b, [], [], dw);
      assert [a] + [] == [a] && [b] + [] == [b];
    } else {
      SymSame(t, a, b, dw);
      var (sym, a1) := DecodeSym(t, a);
      var b1 := DecodeSym(t, b).1;
      RefOnesMore(t, d, k, p, a, sym, a1);
      RefRunMore(t, d, k, p, a, sym, a1);
      RefRunMore(t, e, k, p, b, sym, b1);
      RunPointsMore(t, d, k, p, a, sym, a1);
      RunPointsMore(t, e, k, p, b, sym, b1);
      var r, z := sym / 16, sym % 16;
      if z == 0 && r != 15 {
        SameTake(a1, b1, r, dw);
        SameRun(a1, b1, r, dw);
        CorrAgain(d, e, k, p, a1.Drop(r), b1.Drop(r), dw);
        BandAgain(d, e, k, p, a1.Drop(r), b1.Drop(r), dw);
        PointsCons(a, b, BandPoints(d, k, p, a1.Drop(r)), BandPoints(e, k, p, b1.Drop(r)), dw);
      } else {
        SameTake(a1, b1, 0, dw);
        var a2 := if z > 1 then a1.Warn() else a1;
        var b2 := if z > 1 then b1.Warn() else b1;
        SameTake(a2, b2, 1, dw);
        var a3 := if z > 0 then a2.Drop(1) else a2;
        var b3 := if z > 0 then b2.Drop(1) else b2;
        var (d1, k1, a4) := Skip(d, k, r, p, a3);
        var (e1, l1, b4) := Skip(e, k, r, p, b3);
        var v := NewCoef(a2, p);
        NewSame(a2, b2, p, dw);
        var d2 := if z > 0 then d1[Clamp(k1) := v] else d1;
        var later := RefOnes(t, d2, k1 + 1, p, a4);
        RefOnesBounds(t, d2, k1 + 1, p, a4);
        AtLess(later, k1);
        SkipAgain(d, e, k, r, p, a3, b3, later, dw);
        var e2 := if z > 0 then e1[Clamp(k1) := v] else e1;
        ClampIs(k1);
        GrownNew(d1, e1, k1, later, p.Al, Clamp(k1), v);
        SkipBounds(d, k, r, p, a3);
        RefAgain(t, d2, e2, k1 + 1, p, a4, b4, dw);
        var ps, qs := RunPoints(t, d2, k1 + 1, p, a4), RunPoints(t, e2, k1 + 1, p, b4);
        PointsCons(a2, b2, ps, qs, dw);
        PointsCons(a, b, if z > 0 then [a2] + ps else ps, if z > 0 then [b2] + qs else qs, dw);
      }
    }
  }

  lemma AtLess(at: set<nat>, k: nat)
    requires AtLeast(at, k + 1)
    ensures AtLeast(at, k)
  {
  }

  lemma SameRun(a: Src, b: Src, r: nat, dw: int)
    requires Same(a, b, dw)
    ensures RunLength(r, a) == RunLength(r, b)
  {
    SameTake(a, b, r, dw);
  }

  lemma NewSame(a: Src, b: Src, p: Params, dw: int)
    requires Same(a, b, dw)
    ensures NewCoef(a, p) == NewCoef(b, p)
  {
    SameTake(a, b, 1, dw);
  }

  // The loops one position at a time.

  lemma SkipZero(d: Block, k: nat, r: nat, p: Params, s: Src)
    requires k <= p.Se < 64 && d[k] == 0
    ensures if r == 0 then Skip(d, k, r, p, s) == (d, k, s) && SkipOnes(d, k, r, p, s) == {}
            else Skip(d, k, r, p, s) == Skip(d, k + 1, r - 1, p, s) && SkipOnes(d, k, r, p, s) == SkipOnes(d, k + 1, r - 1, p, s)
  {
  }

  lemma SkipNonzero(d: Block, k: nat, r: nat, p: Params, s: Src)
    requires k <= p.Se < 64 && d[k] != 0
    ensures var c := d[k := Correct(d[k], p, s)];
            && Skip(d, k, r, p, s) == Skip(c, k + 1, r, p, s.Drop(1))
            && SkipOnes(d, k, r, p, s) == (if s.Peek(1) == 1 then {k} else {}) + SkipOnes(c, k + 1, r, p, s.Drop(1))
  {
    hide Correct;
  }

  lemma SkipEnd(d: Block, k: nat, r: nat, p: Params, s: Src)
    requires p.Se < 64 && k > p.Se
    ensures Skip(d, k, r, p, s) == (d, k, s) && SkipOnes(d, k, r, p, s) == {}
  {
  }

  lemma CorrZero(d: Block, k: nat, p: Params, s: Src)
    requires k <= p.Se < 64 && d[k] == 0
    ensures Corrections(d, k, p, s) == Corrections(d, k + 1, p, s) && CorrOnes(d, k, p, s) == CorrOnes(d, k + 1, p, s)
  {
  }

  lemma CorrNonzero(d: Block, k: nat, p: Params, s: Src)
    requires k <= p.Se < 64 && d[k] != 0
    ensures var c := d[k := Correct(d[k], p, s)];
            && Corrections(d, k, p, s) == Corrections(c, k + 1, p, s.Drop(1))
            && CorrOnes(d, k, p, s) == (if s.Peek(1) == 1 then {k} else {}) + CorrOnes(c, k + 1, p, s.Drop(1))
  {
    hide Correct;
  }

  lemma CorrEnd(d: Block, k: nat, p: Params, s: Src)
    requires p.Se < 64 && k > p.Se
    ensures Corrections(d, k, p, s) == (d, s) && CorrOnes(d, k, p, s) == {}
  {
  }

  /** Positions lo to k - 1 of was have been looked at, and b is the outcome. */
  ghost predicate Grew(was: Block, b: Block, lo: nat, k: nat, at: set<nat>, al: nat)
  {
    Grown(was, b, lo, at, al) && forall j :: k <= j < 64 ==> b[j] == was[j]
  }

  lemma GrewStart(b: Block, lo: nat, at: set<nat>, al: nat)
    ensures Grew(b, b, lo, lo, at, al)
  {
  }

  lemma GrewNext(was: Block, b: Block, lo: nat, k: nat, at: set<nat>, al: nat)
    requires Grew(was, b, lo, k, at, al)
    ensures Grew(was, b, lo, k + 1, at, al) && Grown(was, b, lo, at, al)
  {
  }

  lemma GrewCorrect(was: Block, b: Block, lo: nat, k: nat, at: set<nat>, p: Params, s: Src)
    requires Grew(was, b, lo, k, at, p.Al) && lo <= k < 64 && b[k] != 0 && (s.Peek(1) == 1 ==> k in at)
    ensures Grew(was, b[k := Correct(b[k], p, s)], lo, k + 1, at, p.Al)
  {
    hide Grow;
  }

  // What an attempt at a refinement block has done to it, and how it is undone.

  /** The block with the newly nonzero coefficients zeroed again. */
  function Undone(b: Block, newnz: set<nat>): Block
  {
    seq(64, j requires 0 <= j < 64 => if j in newnz then 0 else b[j])
  }

  /** From d, the attempt has made b; undoing leaves only corrections that will be found done. */
  ghost predicate Undoable(d: Block, b: Block, newnz: set<nat>, lo: nat, ones: set<nat>, al: nat)
  {
    (forall j :: j in newnz ==> j < 64 && d[j] == 0) && Grown(d, Undone(b, newnz), lo, ones, al)
  }

  /** Moreover the attempt has not touched anything from k on. */
  ghost predicate Tried(d: Block, b: Block, newnz: set<nat>, k: nat, lo: nat, ones: set<nat>, al: nat)
  {
    Undoable(d, b, newnz, lo, ones, al) && lo <= k && forall j :: k <= j < 64 ==> b[j] == d[j]
  }

  lemma TriedStart(d: Block, lo: nat, ones: set<nat>, al: nat)
    ensures Tried(d, d, {}, lo, lo, ones, al)
  {
  }

  /** More corrections from k on, all of them due. */
  lemma TriedMore(d: Block, b: Block, c: Block, newnz: set<nat>, k: nat, lo: nat, here: set<nat>, ones: set<nat>, al: nat)
    requires Tried(d, b, newnz, k, lo, ones, al) && Grown(b, c, k, here, al) && here <= ones
    ensures Undoable(d, c, newnz, lo, ones, al)
  {
    hide Grow;
  }

  lemma TriedSkip(d: Block, b: Block, c: Block, newnz: set<nat>, k: nat, l: nat, lo: nat, here: set<nat>, ones: set<nat>, al: nat)
    requires Tried(d, b, newnz, k, lo, ones, al) && Grown(b, c, k, here, al) && here <= ones
    requires k <= l && forall j :: j in here ==> j < l
    ensures Tried(d, c, newnz, l, lo, ones, al)
  {
    TriedMore(d, b, c, newnz, k, lo, here, ones, al);
  }

  lemma TriedNew(d: Block, b: Block, newnz: set<nat>, k: nat, lo: nat, ones: set<nat>, al: nat, v: Coef)
    requires Tried(d, b, newnz, k, lo, ones, al) && k < 64 && b[k] == 0
    ensures Tried(d, b[k := v], newnz + {k}, k + 1, lo, ones, al)
  {
    assert Undone(b[k := v], newnz + {k}) == Undone(b, newnz);
  }

  lemma TriedUndoable(d: Block, b: Block, newnz: set<nat>, k: nat, lo: nat, ones: set<nat>, al: nat)
    requires Tried(d, b, newnz, k, lo, ones, al)
    ensures Undoable(d, b, newnz, lo, ones, al)
  {
  }

  lemma {:induction false} SkipStops(d: Block, k: nat, r: nat, p: Params, s: Src)
    requires p.Se < 64
    ensures Skip(d, k, r, p, s).1 <= p.Se ==> Skip(d, k, r, p, s).0[Skip(d, k, r, p, s).1] == 0
    decreases p.Se + 1 - k
  {
    hide Correct;
    if k > p.Se {
    } else if d[k] != 0 {
      SkipStops(d[k := Correct(d[k], p, s)], k + 1, r, p, s.Drop(1));
    } else if r > 0 {
      SkipStops(d, k + 1, r - 1, p, s);
    }
  }

  /** The newly nonzero coefficients recorded so far. */
  function Positions(ps: seq<nat>): set<nat> { set x | x in ps }

  lemma PositionsSnoc(ps: seq<nat>, x: nat)
    ensures Positions(ps + [x]) == Positions(ps) + {x} && Positions([]) == {}
  {
  }

  lemma TriedNext(d: Block, b: Block, newnz: set<nat>, k: nat, lo: nat, ones: set<nat>, al: nat)
    requires Tried(d, b, newnz, k, lo, ones, al)
    ensures Tried(d, b, newnz, k + 1, lo, ones, al)
  {
  }

  // ---- DC scans ----

  /** Some blocks already hold their results. */
  ghost predicate Mixed(ds: seq<Block>, es: seq<Block>, rs: seq<Block>)
  {
    |ds| == |es| == |rs| && forall i :: 0 <= i < |ds| ==> es[i] == ds[i] || es[i] == rs[i]
  }

  lemma MixedTail(ds: seq<Block>, es: seq<Block>, r: Block, rest: seq<Block>)
    requires ds != [] && Mixed(ds, es, [r] + rest)
    ensures Mixed(ds[1..], es[1..], rest) && (es[0] == ds[0] || es[0] == r)
  {
    assert ([r] + rest)[1..] == rest;
    forall i | 0 <= i < |ds[1..]| ensures es[1..][i] == ds[1..][i] || es[1..][i] == rest[i] {
      assert ([r] + rest)[i + 1] == rest[i];
      assert es[i + 1] == ds[i + 1] || es[i + 1] == ([r] + rest)[i + 1];
    }
  }

  lemma {:induction false} DcFirstAgain(tbls: seq<Table>, dcTbl: seq<nat>, cis: seq<nat>, ds: seq<Block>, es: seq<Block>,
                                        preds: seq<int>, al: nat, a: Src, b: Src, dw: int)
    requires |cis| == |ds| == |es| && |dcTbl| == |preds| && forall i :: 0 <= i < |cis| ==> cis[i] < |preds|
    requires forall i :: 0 <= i < |dcTbl| ==> dcTbl[i] < |tbls|
    requires Same(a, b, dw) && Mixed(ds, es, DcScan.DecFirst(tbls, dcTbl, cis, ds, preds, al, a).0)
    ensures var x, y := DcScan.DecFirst(tbls, dcTbl, cis, ds, preds, al, a), DcScan.DecFirst(tbls, dcTbl, cis, es, preds, al, b);
            x.0 == y.0 && x.1 == y.1 && Same(x.2, y.2, dw)
    decreases ds
  {
    if ds != [] {
      hide *;
      var (z, a1) := DecodeSym(tbls[dcTbl[cis[0]]], a);
      var b1 := DecodeSym(tbls[dcTbl[cis[0]]], b).1;
      SymSame(tbls[dcTbl[cis[0]]], a, b, dw);
      SameTake(a1, b1, z, dw);
      var v := DcScan.DiffValue(z, a1) + preds[cis[0]];
      DiffSame(z, a1, b1, dw);
      DcScan.DecFirstCons(tbls, dcTbl, cis, ds, preds, al, a, z, a1, v);
      DcScan.DecFirstCons(tbls, dcTbl, cis, es, preds, al, b, z, b1, v);
      MixedTail(ds, es, ds[0][0 := Jcoef(Shl(v, al))], DcScan.DecFirst(tbls, dcTbl, cis[1..], ds[1..], preds[cis[0] := v], al, a1.Drop(z)).0);
      DcFirstAgain(tbls, dcTbl, cis[1..], ds[1..], es[1..], preds[cis[0] := v], al, a1.Drop(z), b1.Drop(z), dw);
      assert es[0][0 := Jcoef(Shl(v, al))] == ds[0][0 := Jcoef(Shl(v, al))];
    }
  }

  lemma DiffSame(z: nat, a: Src, b: Src, dw: int)
    requires Same(a, b, dw)
    ensures DcScan.DiffValue(z, a) == DcScan.DiffValue(z, b)
  {
    SameTake(a, b, z, dw);
  }

  /** Setting a bit that is set is safe to repeat. */
  lemma SetTwice(v: Coef, al: nat)
    requires al <= 13
    ensures DcScan.SetBit(DcScan.SetBit(v, al), al) == DcScan.SetBit(v, al)
  {
    SetBitIs(v, al);
    SetBitIs(DcScan.SetBit(v, al), al);
    if !BitSet(v, al) {
      hide *;
      Pow2Small(al);
      BitFlips(v, v + Pow2(al), al);
      JcoefBit(v + Pow2(al), al);
    }
  }

  lemma SetBitIs(v: Coef, al: nat)
    ensures DcScan.SetBit(v, al) == if BitSet(v, al) then v else Jcoef(v + Pow2(al))
  {
    hide Shr;
    hide Jcoef;
  }

  lemma {:induction false} DcRefineAgain(ds: seq<Block>, es: seq<Block>, al: nat, a: Src, b: Src, dw: int)
    requires Same(a, b, dw) && al <= 13 && Mixed(ds, es, DcScan.DecRefine(ds, al, a).0)
    ensures DcScan.DecRefine(ds, al, a).0 == DcScan.DecRefine(es, al, b).0
    ensures Same(DcScan.DecRefine(ds, al, a).1, DcScan.DecRefine(es, al, b).1, dw)
    decreases ds
  {
    if ds != [] {
      hide DcScan.SetBit;
      hide Mixed;
      hide Same;
      SameTake(a, b, 1, dw);
      SetTwice(ds[0][0], al);
      var d := if a.Peek(1) == 1 then ds[0][0 := DcScan.SetBit(ds[0][0], al)] else ds[0];
      var e := if b.Peek(1) == 1 then es[0][0 := DcScan.SetBit(es[0][0], al)] else es[0];
      MixedTail(ds, es, d, DcScan.DecRefine(ds[1..], al, a.Drop(1)).0);
      assert e == d by { if es[0] != ds[0] { assert es[0] == d; } }
      DcRefineAgain(ds[1..], es[1..], al, a.Drop(1), b.Drop(1), dw);
    }
  }

  // ---- DC scans block by block ----

  ghost predicate DcShape(sc: Scan, tbls: Tables, m: Mcu, preds: seq<int>)
  {
    && |m| == |sc.members| && |preds| == |sc.dcTbl|
    && (forall i :: 0 <= i < |sc.members| ==> sc.members[i] < |sc.dcTbl|)
    && (forall i :: 0 <= i < |sc.dcTbl| ==> sc.dcTbl[i] < |tbls|)
  }

  /** decode_mcu_DC_first from block i on. */
  ghost function RestRun(sc: Scan, tbls: Tables, m: Mcu, i: nat, preds: seq<int>, s: Src): (Mcu, seq<int>, Src)
    requires DcShape(sc, tbls, m, preds) && i <= |m|
  {
    DcScan.DecFirst(tbls, sc.dcTbl, sc.members[i..], m[i..], preds, sc.p.Al, s)
  }

  lemma RestRunNext(sc: Scan, tbls: Tables, m: Mcu, i: nat, preds: seq<int>, s: Src, z: byte, s1: Src)
    requires DcShape(sc, tbls, m, preds) && i < |m|
    ensures sc.members[i] < |preds| && sc.dcTbl[sc.members[i]] < |tbls|
    ensures var c := sc.members[i];
            var v := DcScan.DiffValue(z, s1) + preds[c];
            DecodeSym(tbls[sc.dcTbl[c]], s) == (z, s1) ==>
              var y := RestRun(sc, tbls, m, i + 1, preds[c := v], s1.Drop(z));
              RestRun(sc, tbls, m, i, preds, s) == ([m[i][0 := Jcoef(Shl(v, sc.p.Al))]] + y.0, y.1, y.2)
  {
    hide DcScan.DecFirst;
    hide DecodeSym;
    hide DcScan.DiffValue;
    assert sc.members[i..][1..] == sc.members[i + 1..] && m[i..][1..] == m[i + 1..];
    if DecodeSym(tbls[sc.dcTbl[sc.members[i]]], s) == (z, s1) {
      DcScan.DecFirstCons(tbls, sc.dcTbl, sc.members[i..], m[i..], preds, sc.p.Al, s, z, s1,
                          DcScan.DiffValue(z, s1) + preds[sc.members[i]]);
    }
  }

  lemma RestRunEnd(sc: Scan, tbls: Tables, m: Mcu, preds: seq<int>, s: Src)
    requires DcShape(sc, tbls, m, preds)
    ensures RestRun(sc, tbls, m, |m|, preds, s) == ([], preds, s)
  {
  }

  lemma {:induction false} RestRunLength(sc: Scan, tbls: Tables, m: Mcu, i: nat, preds: seq<int>, s: Src)
    requires DcShape(sc, tbls, m, preds) && i <= |m|
    ensures |RestRun(sc, tbls, m, i, preds, s).0| == |m| - i && |RestRun(sc, tbls, m, i, preds, s).1| == |preds|
    decreases |m| - i
  {
    hide *;
    if i < |m| {
      ShapeAt(sc, tbls, m, preds, i);
      var (z, s1) := DecodeSym(tbls[sc.dcTbl[sc.members[i]]], s);
      RestRunNext(sc, tbls, m, i, preds, s, z, s1);
      var v := DcScan.DiffValue(z, s1) + preds[sc.members[i]];
      ShapeSet(sc, tbls, m, preds, sc.members[i], v);
      RestRunLength(sc, tbls, m, i + 1, preds[sc.members[i] := v], s1.Drop(z));
    } else {
      assert i == |m|;
      RestRunEnd(sc, tbls, m, preds, s);
    }
  }

  lemma ShapeAt(sc: Scan, tbls: Tables, m: Mcu, preds: seq<int>, i: nat)
    requires DcShape(sc, tbls, m, preds) && i < |m|
    ensures |m| == |sc.members| && sc.members[i] < |preds| == |sc.dcTbl| && sc.dcTbl[sc.members[i]] < |tbls|
  {
  }

  lemma ShapeSet(sc: Scan, tbls: Tables, m: Mcu, preds: seq<int>, c: nat, v: int)
    requires DcShape(sc, tbls, m, preds) && c < |preds|
    ensures DcShape(sc, tbls, m, preds[c := v])
  {
  }

  /** One MCU of a first DC scan; past the end of the data it is left alone. */
  ghost function DcFirstRun(sc: Scan, tbls: Tables, m: Mcu, preds: seq<int>, s: Src): (Mcu, seq<int>, Src)
    requires DcShape(sc, tbls, m, preds)
  {
    if s.starved then (m, preds, s) else RestRun(sc, tbls, m, 0, preds, s)
  }

  lemma DcFirstRunIs(sc: Scan, tbls: Tables, m: Mcu, preds: seq<int>, s: Src)
    requires DcShape(sc, tbls, m, preds)
    ensures DcFirstRun(sc, tbls, m, preds, s) == if s.starved then (m, preds, s) else RestRun(sc, tbls, m, 0, preds, s)
  {
  }

  /** What the front of a list of results leaves for its tail. */
  lemma TailOf(rs: Mcu, i: nat, r: Block, rest: Mcu)
    requires i < |rs| && rs[i..] == [r] + rest
    ensures rs[i] == r && rs[i + 1..] == rest
  {
    assert rs[i..][0] == r;
    assert rs[i..][1..] == rest;
  }

  lemma DcFirstRunAgain(sc: Scan, tbls: Tables, m: Mcu, e: Mcu, preds: seq<int>, a: Src, b: Src, dw: int)
    requires DcShape(sc, tbls, m, preds) && DcShape(sc, tbls, e, preds) && Same(a, b, dw) && !a.starved
    requires Mixed(m, e, DcFirstRun(sc, tbls, m, preds, a).0)
    ensures var x, y := DcFirstRun(sc, tbls, m, preds, a), DcFirstRun(sc, tbls, e, preds, b);
            x.0 == y.0 && x.1 == y.1 && Same(x.2, y.2, dw)
  {
    hide Mixed;
    hide DcScan.DecFirst;
    assert sc.members[0..] == sc.members && m[0..] == m && e[0..] == e;
    DcFirstAgain(tbls, sc.dcTbl, sc.members, m, e, preds, sc.p.Al, a, b, dw);
  }

  /** decode_mcu_DC_refine from block i on. */
  function RestRefine(m: Mcu, i: nat, al: nat, s: Src): (Mcu, Src)
    requires i <= |m|
  {
    DcScan.DecRefine(m[i..], al, s)
  }

  lemma RestRefineNext(m: Mcu, i: nat, al: nat, s: Src)
    requires i < |m|
    ensures var b := if s.Peek(1) == 1 then m[i][0 := DcScan.SetBit(m[i][0], al)] else m[i];
            var y := RestRefine(m, i + 1, al, s.Drop(1));
            RestRefine(m, i, al, s) == ([b] + y.0, y.1)
  {
    hide DcScan.SetBit;
    assert m[i..][1..] == m[i + 1..];
  }

  lemma RestRefineEnds(m: Mcu, al: nat, s: Src)
    ensures RestRefine(m, |m|, al, s) == ([], s) && RestRefine(m, 0, al, s) == DcScan.DecRefine(m, al, s)
  {
    assert m[0..] == m;
  }

  lemma {:induction false} RefineLength(m: Mcu, al: nat, s: Src)
    ensures |DcScan.DecRefine(m, al, s).0| == |m|
    decreases m
  {
    hide DcScan.SetBit;
    if m != [] { RefineLength(m[1..], al, s.Drop(1)); }
  }
}
