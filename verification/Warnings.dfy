/** How many warnings a decoder issues: one for running past the end of a segment, and one for
    each bad code or impossible coefficient size. */
module Warnings {
  import opened Bits
  import opened BitStream
  import opened HuffTable
  import opened Tokens
  import opened Blocks
  import opened AcFirst
  import opened AcRefine
  import opened AcScan
  import opened Scans
  import opened DecodeAgain
  import opened SequentialAgain
  import DcScan
  import Sequential

  /** 1 if the end of the segment was passed between a and b. */
  function Hit(a: Src, b: Src): nat { if b.starved && !a.starved then 1 else 0 }

  /** b comes after a in the same segment: no warning and no bit is ever taken back. */
  ghost predicate Later(a: Src, b: Src)
  {
    (a.starved ==> b.starved) && b.warnings >= a.warnings + Hit(a, b) && |b.bits| <= |a.bits|
  }

  /** From a to b there was no warning but for passing the end of the segment. */
  ghost predicate Quiet(a: Src, b: Src) { b.warnings == a.warnings + Hit(a, b) }

  lemma LaterSelf(a: Src)
    ensures Later(a, a)
  {
  }

  lemma LaterTrans(a: Src, b: Src, c: Src)
    requires Later(a, b) && Later(b, c)
    ensures Later(a, c)
  {
  }

  lemma LaterDrop(a: Src, n: nat)
    ensures Later(a, a.Drop(n)) && Later(a, a.Warn())
  {
  }

  lemma {:induction false} LaterSerial(t: Table, code: nat, l: nat, s: Src)
    requires 1 <= l <= 17
    ensures Later(s, Serial(t, code, l, s).1)
    ensures Serial(t, code, l, s).0 != 0 ==> Quiet(s, Serial(t, code, l, s).1)
    decreases 17 - l
  {
    hide MaxCode;
    hide SymAt;
    if l <= 16 && code > MaxCode(t, l) { LaterSerial(t, 2 * code + s.Peek(1), l + 1, s.Drop(1)); }
  }

  /** Only the symbol 0 can stand for a bad code. */
  lemma LaterSym(t: Table, s: Src)
    ensures Later(s, DecodeSym(t, s).1)
    ensures DecodeSym(t, s).0 != 0 ==> Quiet(s, DecodeSym(t, s).1)
  {
    hide Serial;
    LaterSerial(t, s.Peek(1), 1, s.Drop(1));
  }

  lemma {:induction false} FirstLater(t: Table, d: Block, k: nat, p: Params, s: Src)
    ensures Later(s, DecFirst(t, d, k, p, s).2)
    ensures k <= p.Se ==> Later(DecodeSym(t, s).1, DecFirst(t, d, k, p, s).2)
    decreases p.Se + 1 - k
  {
    hide DecodeSym;
    hide Later;
    if k > p.Se {
      LaterSelf(s);
    } else {
      LaterSym(t, s);
      var (sym, s1) := DecodeSym(t, s);
      var r, z := sym / 16, sym % 16;
      LaterDrop(s1, z);
      LaterDrop(s1, r);
      if z != 0 {
        var v := Shl(Extend(s1.Peek(z), z), p.Al);
        FirstLater(t, d[Clamp(k + r) := Jcoef(v)], k + r + 1, p, s1.Drop(z));
        LaterTrans(s1, s1.Drop(z), DecFirst(t, d, k, p, s).2);
      } else if r == 15 {
        FirstLater(t, d, k + 16, p, s1);
      }
      LaterTrans(s, s1, DecFirst(t, d, k, p, s).2);
    }
  }

  lemma {:induction false} SkipLater(d: Block, k: nat, r: nat, p: Params, s: Src)
    requires p.Se < 64
    ensures Later(s, Skip(d, k, r, p, s).2)
    decreases p.Se + 1 - k
  {
    hide Later;
    hide Correct;
    LaterSelf(s);
    if k <= p.Se {
      if d[k] != 0 {
        SkipLater(d[k := Correct(d[k], p, s)], k + 1, r, p, s.Drop(1));
        LaterDrop(s, 1);
        LaterTrans(s, s.Drop(1), Skip(d, k, r, p, s).2);
      } else if r > 0 {
        SkipLater(d, k + 1, r - 1, p, s);
      }
    }
  }

  lemma {:induction false} CorrLater(d: Block, k: nat, p: Params, s: Src)
    requires p.Se < 64
    ensures Later(s, Corrections(d, k, p, s).1)
    decreases p.Se + 1 - k
  {
    hide Later;
    hide Correct;
    LaterSelf(s);
    if k <= p.Se {
      if d[k] != 0 {
        CorrLater(d[k := Correct(d[k], p, s)], k + 1, p, s.Drop(1));
        LaterDrop(s, 1);
        LaterTrans(s, s.Drop(1), Corrections(d, k, p, s).1);
      } else {
        CorrLater(d, k + 1, p, s);
      }
    }
  }

  lemma {:induction false} RefLater(t: Table, d: Block, k: nat, p: Params, s: Src)
    requires p.Se < 64
    ensures Later(s, RefLoop(t, d, k, p, s).3)
    ensures k <= p.Se ==> Later(DecodeSym(t, s).1, RefLoop(t, d, k, p, s).3)
    ensures k <= p.Se && DecodeSym(t, s).0 % 16 > 0 ==>
      Later(if DecodeSym(t, s).0 % 16 > 1 then DecodeSym(t, s).1.Warn() else DecodeSym(t, s).1, RefLoop(t, d, k, p, s).3)
    decreases p.Se + 1 - k
  {
    hide DecodeSym;
    hide Later;
    hide Skip;
    hide NewCoef;
    LaterSelf(s);
    if k <= p.Se {
      LaterSym(t, s);
      var (sym, s1) := DecodeSym(t, s);
      RefLoopMore(t, d, k, p, s, sym, s1);
      var r, z := sym / 16, sym % 16;
      LaterDrop(s1, r);
      if !(z == 0 && r != 15) {
        var s2 := if z > 1 then s1.Warn() else s1;
        var s3 := if z > 0 then s2.Drop(1) else s2;
        LaterSelf(s1);
        LaterDrop(s1, 1);
        LaterDrop(s2, 1);
        LaterSelf(s2);
        var (d1, k1, s4) := Skip(d, k, r, p, s3);
        SkipBounds(d, k, r, p, s3);
        SkipLater(d, k, r, p, s3);
        RefLater(t, if z > 0 then d1[Clamp(k1) := NewCoef(s2, p)] else d1, k1 + 1, p, s4);
        LaterTrans(s2, s3, s4);
        LaterTrans(s2, s4, RefLoop(t, d, k, p, s).3);
        LaterTrans(s1, s2, RefLoop(t, d, k, p, s).3);
      }
      LaterTrans(s, s1, RefLoop(t, d, k, p, s).3);
    }
  }

  lemma BandLater(x: (Block, nat, nat, Src), p: Params)
    requires p.Se < 64
    ensures Later(x.3, FinishBand(x, p).2)
  {
    hide Corrections;
    hide Later;
    LaterSelf(x.3);
    CorrLater(x.0, x.1, p, x.3);
  }

  lemma AcLater(t: Table, d: Block, eobrun: nat, p: Params, s: Src)
    requires AcParams(p)
    ensures Later(s, AcDecode(t, d, eobrun, p, s).2)
  {
    hide DecFirst;
    hide RefLoop;
    hide Corrections;
    hide Later;
    LaterSelf(s);
    if !s.starved {
      if p.Ah == 0 {
        if eobrun == 0 { FirstLater(t, d, p.Ss, p, s); }
      } else {
        var x := if eobrun == 0 then RefLoop(t, d, p.Ss, p, s) else (d, p.Ss, eobrun, s);
        RefLater(t, d, p.Ss, p, s);
        BandLater(x, p);
        LaterTrans(s, x.3, AcDecode(t, d, eobrun, p, s).2);
      }
    }
  }

  lemma {:induction false} DcRefineLater(ds: seq<Block>, al: nat, s: Src)
    ensures Later(s, DcScan.DecRefine(ds, al, s).1)
    decreases ds
  {
    hide Later;
    hide DcScan.SetBit;
    LaterSelf(s);
    if ds != [] {
      DcRefineLater(ds[1..], al, s.Drop(1));
      LaterDrop(s, 1);
      LaterTrans(s, s.Drop(1), DcScan.DecRefine(ds, al, s).1);
    }
  }

  lemma {:induction false} AcCoefsLater(t: Table, d: Block, k: nat, s: Src)
    ensures Later(s, Sequential.DecAc(t, d, k, s).1)
    ensures k <= 63 ==> Later(DecodeSym(t, s).1, Sequential.DecAc(t, d, k, s).1)
    decreases 64 - k
  {
    hide *;
    if k > 63 {
      AcEnd(t, d, k, s);
      LaterSelf(s);
    } else {
      LaterSym(t, s);
      var (sym, s1) := DecodeSym(t, s);
      AcMore(t, d, k, s, sym, s1);
      var r, z := sym / 16, sym % 16;
      if z != 0 {
        var v := Jcoef(Extend(s1.Peek(z), z));
        AcCoefsLater(t, d[Clamp(k + r) := v], k + r + 1, s1.Drop(z));
        LaterDrop(s1, z);
        LaterTrans(s1, s1.Drop(z), Sequential.DecAc(t, d, k, s).1);
      } else if r == 15 {
        AcCoefsLater(t, d, k + 16, s1);
      } else {
        LaterSelf(s1);
      }
      LaterTrans(s, s1, Sequential.DecAc(t, d, k, s).1);
    }
  }

  lemma AfterLater(dct: Table, s: Src)
    ensures Later(s, AfterDc(dct, s))
  {
    hide DecodeSym;
    hide Later;
    LaterSym(dct, s);
    var (z, s1) := DecodeSym(dct, s);
    LaterDrop(s1, z);
    LaterTrans(s, s1, s1.Drop(z));
  }

}
