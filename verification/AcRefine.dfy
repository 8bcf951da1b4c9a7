/** AC refinement scans (section G.1.2.3 of T.81): encode_mcu_AC_refine and
    decode_mcu_AC_refine on one block. */
module AcRefine {
  import opened Bits
  import opened BitStream
  import opened HuffTable
  import opened Tokens
  import opened EobRun
  import opened Blocks
  import opened AcFirst

  /** EOB: the last coefficient from k on that becomes nonzero in this scan, or `last`. */
  function EobPos(b: Block, k: nat, last: nat, p: Params): nat
    requires p.Se < 64
    decreases p.Se + 1 - k
  {
    if k > p.Se then last else EobPos(b, k + 1, if Mag(b[k], p.Al) == 1 then k else last, p)
  }

  /** Encoding from position k on, after r zeroes and with the correction bits br not yet
      attached to a symbol. */
  function RefineCode(tbl: nat, b: Block, k: nat, r: nat, br: Bits, eob: nat, p: Params): BlockCode
    requires p.Se < 64
    decreases p.Se + 1 - k, r
  {
    if k > p.Se then BlockCode([], r > 0 || |br| > 0, br)
    else
      var t := Mag(b[k], p.Al);
      if t == 0 then RefineCode(tbl, b, k + 1, r + 1, br, eob, p)
      else if r > 15 && k <= eob then
        var rest := RefineCode(tbl, b, k, r - 16, [], eob, p);
        rest.(head := ([Sym(tbl, 0xF0)] + Raws(br)) + rest.head)
      else if t > 1 then RefineCode(tbl, b, k + 1, r, br + [t % 2 == 1], eob, p)
      else
        var rest := RefineCode(tbl, b, k + 1, 0, [], eob, p);
        rest.(head := (NewTokens(tbl, r, b[k]) + Raws(br)) + rest.head)
  }

  /** The symbol of a newly nonzero coefficient and its sign bit. */
  function NewTokens(tbl: nat, r: nat, v: int): seq<Token>
  {
    [Sym(tbl, 16 * r + 1), Raw(if v < 0 then 0 else 1, 1)]
  }

  /** Bit al of the two's complement of v. */
  predicate BitSet(v: int, al: nat) { Shr(v, al) % 2 == 1 }

  /** One more bit of magnitude, unless it is there already. */
  function Grow(v: int, al: nat): Coef
  {
    Jcoef(if BitSet(v, al) then v else if v >= 0 then v + Pow2(al) else v - Pow2(al))
  }

  /** The correction bit of a coefficient that is already nonzero. */
  function Correct(v: Coef, p: Params, s: Src): Coef
  {
    if s.Peek(1) == 1 then Grow(v, p.Al) else v
  }

  /** Pass r zero coefficients, correcting the nonzero ones on the way. */
  function Skip(d: Block, k: nat, r: nat, p: Params, s: Src): (Block, nat, Src)
    requires p.Se < 64
    decreases p.Se + 1 - k
  {
    if k > p.Se then (d, k, s)
    else if d[k] != 0 then Skip(d[k := Correct(d[k], p, s)], k + 1, r, p, s.Drop(1))
    else if r == 0 then (d, k, s)
    else Skip(d, k + 1, r - 1, p, s)
  }

  /** The coefficient loop up to an EOBn symbol or the end of the band. */
  function RefLoop(t: Table, d: Block, k: nat, p: Params, s: Src): (Block, nat, nat, Src)
    requires p.Se < 64
    decreases p.Se + 1 - k
  {
    if k > p.Se then (d, k, 0, s)
    else
      var (sym, s1) := DecodeSym(t, s);
      RefSym(t, d, k, p, sym, s1)
  }

  /** The same once its symbol has been read. */
  function RefSym(t: Table, d: Block, k: nat, p: Params, sym: nat, s1: Src): (Block, nat, nat, Src)
    requires k <= p.Se < 64
    decreases p.Se + 1 - k, 0
  {
    var r, z := sym / 16, sym % 16;
    if z == 0 && r != 15 then (d, k, RunLength(r, s1), s1.Drop(r))
    else
      var s2 := if z > 1 then s1.Warn() else s1;
      var s3 := if z > 0 then s2.Drop(1) else s2;
      var (d1, k1, s4) := Skip(d, k, r, p, s3);
      SkipBounds(d, k, r, p, s3);
      RefLoop(t, if z > 0 then d1[Clamp(k1) := NewCoef(s2, p)] else d1, k1 + 1, p, s4)
  }

  /** The newly nonzero coefficient for the sign bit that comes next. */
  function NewCoef(s: Src, p: Params): Coef
  {
    Jcoef(if s.Peek(1) == 1 then Pow2(p.Al) else 0 - Pow2(p.Al))
  }

  lemma SkipBounds(d: Block, k: nat, r: nat, p: Params, s: Src)
    requires k <= p.Se < 64
    ensures k <= Skip(d, k, r, p, s).1 <= p.Se + 1
    decreases p.Se + 1 - k
  {
    if d[k] != 0 {
      if k < p.Se { SkipBounds(d[k := Correct(d[k], p, s)], k + 1, r, p, s.Drop(1)); }
    } else if r > 0 && k < p.Se {
      SkipBounds(d, k + 1, r - 1, p, s);
    }
  }

  /** Correction bits for all remaining nonzero coefficients of the band. */
  function Corrections(d: Block, k: nat, p: Params, s: Src): (Block, Src)
    requires p.Se < 64
    decreases p.Se + 1 - k
  {
    if k > p.Se then (d, s)
    else if d[k] != 0 then Corrections(d[k := Correct(d[k], p, s)], k + 1, p, s.Drop(1))
    else Corrections(d, k + 1, p, s)
  }

  /** What follows the coefficient loop: the end-of-band part of the block. */
  function FinishBand(x: (Block, nat, nat, Src), p: Params): (Block, nat, Src)
    requires p.Se < 64
  {
    if x.2 > 0 then
      var (d, s) := Corrections(x.0, x.1, p, x.3);
      (d, x.2 - 1, s)
    else (x.0, 0, x.3)
  }

  /** One block of an AC refinement scan. */
  function DecRefineBlock(t: Table, d: Block, eobrun: nat, p: Params, s: Src): (Block, nat, Src)
    requires p.Se < 64
  {
    FinishBand(if eobrun == 0 then RefLoop(t, d, p.Ss, p, s) else (d, p.Ss, eobrun, s), p)
  }

  // ---- What the decoder knows before the scan, and what the encoder sends for it ----

  /** From k on, d holds the coefficients of b as known after the previous scans. */
  ghost predicate HasOld(d: Block, b: Block, k: nat, p: Params)
  {
    forall j :: k <= j <= p.Se && j < 64 ==> d[j] == TruncAc(b[j], p.Al + 1)
  }

  /** No coefficient in the range becomes nonzero in this scan. */
  ghost predicate NoNew(b: Block, lo: nat, hi: nat, p: Params)
    requires hi <= 64
  {
    forall j :: lo <= j < hi ==> Mag(b[j], p.Al) != 1
  }

  /** The correction bits of the coefficients in a range. */
  function Corr(b: Block, lo: nat, hi: nat, p: Params): Bits
    requires hi <= 64
    decreases hi - lo
  {
    if lo >= hi then []
    else (if Mag(b[lo], p.Al) > 1 then [Mag(b[lo], p.Al) % 2 == 1] else []) + Corr(b, lo + 1, hi, p)
  }

  /** How many coefficients in a range stay zero. */
  function Zeros(b: Block, lo: nat, hi: nat, p: Params): nat
    requires hi <= 64
    decreases hi - lo
  {
    if lo >= hi then 0 else (if Mag(b[lo], p.Al) == 0 then 1 else 0) + Zeros(b, lo + 1, hi, p)
  }

  lemma {:induction false} RangeSplit(b: Block, lo: nat, mid: nat, hi: nat, p: Params)
    requires lo <= mid <= hi <= 64
    ensures Corr(b, lo, hi, p) == Corr(b, lo, mid, p) + Corr(b, mid, hi, p)
    ensures Zeros(b, lo, hi, p) == Zeros(b, lo, mid, p) + Zeros(b, mid, hi, p)
    decreases mid - lo
  {
    hide Mag;
    if lo < mid { RangeSplit(b, lo + 1, mid, hi, p); }
  }

  lemma {:induction false} RangeCount(b: Block, lo: nat, hi: nat, p: Params)
    requires lo <= hi <= 64 && NoNew(b, lo, hi, p)
    ensures Zeros(b, lo, hi, p) + |Corr(b, lo, hi, p)| == hi - lo
    decreases hi - lo
  {
    if lo < hi { RangeCount(b, lo + 1, hi, p); }
  }

  lemma {:induction false} NoCorr(b: Block, lo: nat, hi: nat, p: Params)
    requires lo <= hi <= 64 && forall j :: lo <= j < hi ==> Mag(b[j], p.Al) <= 1
    ensures Corr(b, lo, hi, p) == []
    decreases hi - lo
  {
    if lo < hi { NoCorr(b, lo + 1, hi, p); }
  }

  lemma {:induction false} FindZero(b: Block, lo: nat, hi: nat, n: nat, p: Params) returns (z: nat)
    requires lo <= hi <= 64 && n < Zeros(b, lo, hi, p)
    ensures lo <= z < hi && Mag(b[z], p.Al) == 0 && Zeros(b, lo, z, p) == n
    decreases hi - lo
  {
    if Mag(b[lo], p.Al) != 0 {
      z := FindZero(b, lo + 1, hi, n, p);
    } else if n == 0 {
      z := lo;
    } else {
      z := FindZero(b, lo + 1, hi, n - 1, p);
    }
  }

  // ---- Single coefficients ----

  /** The bits of a known coefficient below its last known bit are zero. */
  lemma OldBitClear(v: Coef, al: nat)
    ensures !BitSet(TruncAc(v, al + 1), al)
  {
    var m := PtAc(v, al + 1);
    ShlDouble(m, al);
    ShrShl(2 * m, al);
  }

  /** Adding the next bit of magnitude. */
  lemma GrowOne(v: Coef, al: nat)
    requires al <= 13 && Mag(v, al) > 1 && Mag(v, al) % 2 == 1
    ensures Grow(TruncAc(v, al + 1), al) == TruncAc(v, al)
  {
    OldBitClear(v, al);
    TruncFits(v, al);
    var m: nat := Mag(v, al + 1);
    ShlDouble(m, al);
    ShlSucc(2 * m, al);
    ShlNonzero(m, al + 1);
    if v < 0 { ShlNeg(m, al + 1); ShlNeg(2 * m + 1, al); }
  }

  lemma KeepZero(v: Coef, al: nat)
    requires Mag(v, al) % 2 == 0
    ensures TruncAc(v, al + 1) == TruncAc(v, al)
  {
    var m: nat := Mag(v, al + 1);
    ShlDouble(m, al);
    ShlDouble(0 - m, al);
  }

  /** Already nonzero means a magnitude above one. */
  lemma OldNonzero(v: Coef, al: nat)
    ensures (TruncAc(v, al + 1) != 0) == (Mag(v, al) > 1)
  {
    ShlNonzero(PtAc(v, al + 1), al + 1);
  }

  /** A correction bit read back completes the coefficient. */
  lemma CorrectRead(tbls: Tables, v: Coef, p: Params, ts: seq<Token>, rest: Bits, w: nat)
    requires p.Al <= 13 && Mag(v, p.Al) > 1
    requires AllWritable(tbls, [Raw(if Mag(v, p.Al) % 2 == 1 then 1 else 0, 1)] + ts)
    ensures AllWritable(tbls, ts) && -32768 <= TruncAc(v, p.Al + 1) <= 32767 && TruncAc(v, p.Al + 1) != 0
    ensures var s := Feed(tbls, [Raw(if Mag(v, p.Al) % 2 == 1 then 1 else 0, 1)] + ts, rest, w);
            Correct(TruncAc(v, p.Al + 1), p, s) == TruncAc(v, p.Al) && s.Drop(1) == Feed(tbls, ts, rest, w)
  {
    var bit := if Mag(v, p.Al) % 2 == 1 then 1 else 0;
    FeedRaw(tbls, bit, 1, ts, rest, w);
    assert Low(bit, 1) == bit by { LowFits(bit, 1); }
    OldNonzero(v, p.Al);
    TruncFits(v, p.Al + 1);
    if bit == 1 { GrowOne(v, p.Al); } else { KeepZero(v, p.Al); }
  }

  // ---- Stretches of coefficients ----

  lemma RawsCons(bit: bool, c: Bits, ts: seq<Token>)
    ensures Raws([bit] + c) + ts == [Raw(if bit then 1 else 0, 1)] + (Raws(c) + ts)
  {
  }

  lemma CorrFirst(b: Block, lo: nat, hi: nat, p: Params, ts: seq<Token>)
    requires lo < hi <= 64
    ensures Mag(b[lo], p.Al) > 1 ==>
      Raws(Corr(b, lo, hi, p)) + ts
      == [Raw(if Mag(b[lo], p.Al) % 2 == 1 then 1 else 0, 1)] + (Raws(Corr(b, lo + 1, hi, p)) + ts)
    ensures Mag(b[lo], p.Al) <= 1 ==> Corr(b, lo, hi, p) == Corr(b, lo + 1, hi, p)
    ensures Zeros(b, lo, hi, p) == (if Mag(b[lo], p.Al) == 0 then 1 else 0) + Zeros(b, lo + 1, hi, p)
  {
    RawsCons(Mag(b[lo], p.Al) % 2 == 1, Corr(b, lo + 1, hi, p), ts);
  }

  lemma OldNext(d: Block, b: Block, k: nat, p: Params, v: Coef)
    requires k <= p.Se < 64 && HasOld(d, b, k, p)
    ensures d[k] == TruncAc(b[k], p.Al + 1)
    ensures HasOld(d, b, k + 1, p) && HasOld(d[k := v], b, k + 1, p)
  {
  }

  lemma SkipStep(d: Block, k: nat, r: nat, p: Params, s: Src)
    requires k <= p.Se < 64
    ensures Skip(d, k, r, p, s) ==
      if d[k] != 0 then Skip(d[k := Correct(d[k], p, s)], k + 1, r, p, s.Drop(1))
      else if r == 0 then (d, k, s) else Skip(d, k + 1, r - 1, p, s)
  {
  }

  lemma CorrectionsStep(d: Block, k: nat, p: Params, s: Src)
    requires p.Se < 64
    ensures Corrections(d, k, p, s) ==
      if k > p.Se then (d, s)
      else if d[k] != 0 then Corrections(d[k := Correct(d[k], p, s)], k + 1, p, s.Drop(1))
      else Corrections(d, k + 1, p, s)
  {
  }

  /** Skipping to a zero coefficient z eats exactly the correction bits in between. */
  lemma {:induction false} SkipReads(tbls: Tables, d: Block, b: Block, k: nat, z: nat, p: Params,
                                     ts: seq<Token>, rest: Bits, w: nat)
    requires k <= z <= p.Se < 64 && p.Al <= 13 && HasOld(d, b, k, p) && NoNew(b, k, z, p) && Mag(b[z], p.Al) <= 1
    requires AllWritable(tbls, Raws(Corr(b, k, z, p)) + ts)
    ensures AllWritable(tbls, ts)
    ensures Skip(d, k, Zeros(b, k, z, p), p, Feed(tbls, Raws(Corr(b, k, z, p)) + ts, rest, w))
            == (FillRange(d, b, k, z, p.Al), z, Feed(tbls, ts, rest, w))
    decreases z - k
  {
    hide *;
    OldNext(d, b, k, p, d[k]);
    OldNonzero(b[k], p.Al);
    SkipStep(d, k, Zeros(b, k, z, p), p, Feed(tbls, Raws(Corr(b, k, z, p)) + ts, rest, w));
    if k == z {
      EmptyStretch(b, k, p, ts);
      FillEmpty(d, b, k, p.Al);
    } else {
      CorrFirst(b, k, z, p, ts);
      NoNewNext(b, k, z, p);
      if Mag(b[k], p.Al) > 1 {
        CorrectRead(tbls, b[k], p, Raws(Corr(b, k + 1, z, p)) + ts, rest, w);
        TruncFits(b[k], p.Al);
        OldNext(d, b, k, p, TruncAc(b[k], p.Al));
        SkipReads(tbls, d[k := TruncAc(b[k], p.Al)], b, k + 1, z, p, ts, rest, w);
        FillFirst(d, b, k, z, p.Al);
      } else {
        SkipReads(tbls, d, b, k + 1, z, p, ts, rest, w);
        TruncOfZero(b[k], p.Al);
        FillSame(d, b, k, z, p.Al);
      }
    }
  }

  lemma EmptyStretch(b: Block, k: nat, p: Params, ts: seq<Token>)
    requires k <= 64
    ensures Corr(b, k, k, p) == [] && Zeros(b, k, k, p) == 0 && Raws(Corr(b, k, k, p)) + ts == ts
  {
  }

  lemma NoNewNext(b: Block, lo: nat, hi: nat, p: Params)
    requires lo < hi <= 64 && NoNew(b, lo, hi, p)
    ensures Mag(b[lo], p.Al) != 1 && NoNew(b, lo + 1, hi, p)
  {
  }

  /** The correction bits after the last new coefficient. */
  lemma {:induction false} CorrectionsRead(tbls: Tables, d: Block, b: Block, k: nat, p: Params,
                                           ts: seq<Token>, rest: Bits, w: nat)
    requires k <= p.Se + 1 <= 64 && p.Al <= 13 && HasOld(d, b, k, p) && NoNew(b, k, p.Se + 1, p)
    requires AllWritable(tbls, Raws(Corr(b, k, p.Se + 1, p)) + ts)
    ensures AllWritable(tbls, ts)
    ensures Corrections(d, k, p, Feed(tbls, Raws(Corr(b, k, p.Se + 1, p)) + ts, rest, w))
            == (FillRange(d, b, k, p.Se + 1, p.Al), Feed(tbls, ts, rest, w))
    decreases p.Se + 1 - k
  {
    hide *;
    CorrectionsStep(d, k, p, Feed(tbls, Raws(Corr(b, k, p.Se + 1, p)) + ts, rest, w));
    if k > p.Se {
      EmptyStretch(b, k, p, ts);
      FillEmpty(d, b, k, p.Al);
    } else {
      OldNext(d, b, k, p, d[k]);
      OldNonzero(b[k], p.Al);
      CorrFirst(b, k, p.Se + 1, p, ts);
      NoNewNext(b, k, p.Se + 1, p);
      if Mag(b[k], p.Al) > 1 {
        CorrectRead(tbls, b[k], p, Raws(Corr(b, k + 1, p.Se + 1, p)) + ts, rest, w);
        TruncFits(b[k], p.Al);
        OldNext(d, b, k, p, TruncAc(b[k], p.Al));
        CorrectionsRead(tbls, d[k := TruncAc(b[k], p.Al)], b, k + 1, p, ts, rest, w);
        FillFirst(d, b, k, p.Se + 1, p.Al);
      } else {
        CorrectionsRead(tbls, d, b, k + 1, p, ts, rest, w);
        TruncOfZero(b[k], p.Al);
        FillSame(d, b, k, p.Se + 1, p.Al);
      }
    }
  }

  // ---- The symbols ----

  /** The block from k0 on, as the decoder leaves it for the stream s. */
  function Rest(t: Table, d: Block, k0: nat, p: Params, s: Src): (Block, nat, Src)
    requires p.Se < 64
  {
    FinishBand(RefLoop(t, d, k0, p, s), p)
  }

  lemma RestEnd(t: Table, d: Block, k0: nat, p: Params, s: Src)
    requires p.Se < k0 && p.Se < 64
    ensures Rest(t, d, k0, p, s) == (d, 0, s)
  {
  }

  lemma RestEob(t: Table, d: Block, k0: nat, p: Params, s: Src, sym: byte, s1: Src)
    requires k0 <= p.Se < 64 && DecodeSym(t, s) == (sym, s1) && sym % 16 == 0 && sym / 16 <= 14
    requires RunLength(sym / 16, s1) > 0
    ensures var c := Corrections(d, k0, p, s1.Drop(sym / 16));
            Rest(t, d, k0, p, s) == (c.0, RunLength(sym / 16, s1) - 1, c.1)
  {
    hide DecodeSym;
    hide Skip;
    hide Corrections;
    hide RunLength;
    assert RefLoop(t, d, k0, p, s) == RefSym(t, d, k0, p, sym, s1) == (d, k0, RunLength(sym / 16, s1), s1.Drop(sym / 16));
  }

  lemma RestZrl(t: Table, d: Block, k0: nat, p: Params, s: Src, s1: Src, d1: Block, k1: nat, s2: Src)
    requires k0 <= p.Se < 64 && DecodeSym(t, s) == (0xF0, s1) && Skip(d, k0, 15, p, s1) == (d1, k1, s2)
    ensures Rest(t, d, k0, p, s) == Rest(t, d1, k1 + 1, p, s2)
  {
    hide DecodeSym;
    hide Skip;
    hide FinishBand;
    SkipBounds(d, k0, 15, p, s1);
    assert RefLoop(t, d, k0, p, s) == RefSym(t, d, k0, p, 0xF0, s1);
  }

  lemma RestNew(t: Table, d: Block, k0: nat, r: nat, p: Params, s: Src, s1: Src, d1: Block, k1: nat, s2: Src)
    requires k0 <= p.Se < 64 && r <= 15 && DecodeSym(t, s) == (16 * r + 1, s1)
    requires Skip(d, k0, r, p, s1.Drop(1)) == (d1, k1, s2) && k1 < 64
    ensures Rest(t, d, k0, p, s) == Rest(t, d1[k1 := NewCoef(s1, p)], k1 + 1, p, s2)
  {
    hide DecodeSym;
    hide Skip;
    hide FinishBand;
    hide NewCoef;
    SkipBounds(d, k0, r, p, s1.Drop(1));
    SymParts(r, 1);
    ClampIs(k1);
    assert RefLoop(t, d, k0, p, s) == RefSym(t, d, k0, p, 16 * r + 1, s1);
  }

  /** The new coefficient read back. */
  lemma NewRead(tbls: Tables, v: Coef, p: Params, ts: seq<Token>, rest: Bits, w: nat)
    requires p.Al <= 13 && Mag(v, p.Al) == 1
    requires AllWritable(tbls, [Raw(if v < 0 then 0 else 1, 1)] + ts)
    ensures AllWritable(tbls, ts)
    ensures var s := Feed(tbls, [Raw(if v < 0 then 0 else 1, 1)] + ts, rest, w);
            NewCoef(s, p) == TruncAc(v, p.Al) && s.Drop(1) == Feed(tbls, ts, rest, w)
  {
    var bit := if v < 0 then 0 else 1;
    FeedRaw(tbls, bit, 1, ts, rest, w);
    LowFits(bit, 1);
    ShlPow2(0, p.Al);
    ShlNeg(1, p.Al);
    TruncFits(v, p.Al);
  }

  /** What the encoder's variables mean at position k: the decoder stands at k0. */
  ghost predicate Standing(b: Block, k0: nat, k: nat, r: nat, br: Bits, eob: nat, p: Params)
  {
    && k0 <= k <= p.Se + 1 <= 64 && p.Al <= 13
    && NoNew(b, k0, k, p) && r == Zeros(b, k0, k, p) && br == Corr(b, k0, k, p)
    && (k <= eob ==> forall j :: k0 <= j < k && Mag(b[j], p.Al) > 1 ==> Zeros(b, k0, j, p) <= 15)
    && forall j :: k <= j <= p.Se && Mag(b[j], p.Al) == 1 ==> j <= eob
  }

  lemma StandZero(b: Block, k0: nat, k: nat, r: nat, br: Bits, eob: nat, p: Params)
    requires Standing(b, k0, k, r, br, eob, p) && k <= p.Se && Mag(b[k], p.Al) == 0
    ensures Standing(b, k0, k + 1, r + 1, br, eob, p)
  {
    RangeSplit(b, k0, k, k + 1, p);
    EmptyStretch(b, k + 1, p, []);
  }

  lemma StandOld(b: Block, k0: nat, k: nat, r: nat, br: Bits, eob: nat, p: Params)
    requires Standing(b, k0, k, r, br, eob, p) && k <= p.Se && Mag(b[k], p.Al) > 1 && (r <= 15 || k > eob)
    ensures Standing(b, k0, k + 1, r, br + [Mag(b[k], p.Al) % 2 == 1], eob, p)
  {
    RangeSplit(b, k0, k, k + 1, p);
    EmptyStretch(b, k + 1, p, []);
  }

  lemma StandNew(b: Block, k0: nat, k: nat, r: nat, br: Bits, eob: nat, p: Params)
    requires Standing(b, k0, k, r, br, eob, p) && k <= p.Se && Mag(b[k], p.Al) == 1
    ensures k <= eob && Standing(b, k + 1, k + 1, 0, [], eob, p)
  {
    EmptyStretch(b, k + 1, p, []);
  }

  /** After a ZRL the decoder stands just past the 16th zero z. */
  lemma StandZrl(b: Block, k0: nat, k: nat, r: nat, br: Bits, eob: nat, p: Params) returns (z: nat)
    requires Standing(b, k0, k, r, br, eob, p) && k <= p.Se && r > 15 && k <= eob
    ensures k0 <= z < k && Mag(b[z], p.Al) == 0 && Zeros(b, k0, z, p) == 15 && Corr(b, k0, z, p) == br && NoNew(b, k0, z, p)
    ensures Standing(b, z + 1, k, r - 16, [], eob, p)
  {
    z := FindZero(b, k0, k, 15, p);
    RangeSplit(b, k0, z, k, p);
    CorrFirst(b, z, k, p, []);
    forall j | z < j < k ensures Mag(b[j], p.Al) <= 1 {
      RangeSplit(b, k0, z, j, p);
      CorrFirst(b, z, j, p, []);
    }
    NoCorr(b, z + 1, k, p);
  }

  // ---- The whole block ----

  lemma CodeStep(tbl: nat, b: Block, k: nat, r: nat, br: Bits, eob: nat, m: nat, p: Params, ts: seq<Token>)
    requires p.Se < 64
    ensures var c := RefineCode(tbl, b, k, r, br, eob, p);
            var t := c.head + (Tail(tbl, c, m) + ts);
            if k > p.Se then
              c.trailing == (r > 0 || |br| > 0) && t == (if c.trailing then EobTokens(tbl, 1 + m) + (Raws(br) + ts) else ts)
            else if Mag(b[k], p.Al) == 0 then c == RefineCode(tbl, b, k + 1, r + 1, br, eob, p)
            else if r > 15 && k <= eob then
              var c1 := RefineCode(tbl, b, k, r - 16, [], eob, p);
              c.trailing == c1.trailing && t == [Sym(tbl, 0xF0)] + (Raws(br) + (c1.head + (Tail(tbl, c1, m) + ts)))
            else if Mag(b[k], p.Al) > 1 then c == RefineCode(tbl, b, k + 1, r, br + [Mag(b[k], p.Al) % 2 == 1], eob, p)
            else
              var c1 := RefineCode(tbl, b, k + 1, 0, [], eob, p);
              && c.trailing == c1.trailing
              && t == [Sym(tbl, 16 * r + 1)] + ([Raw(if b[k] < 0 then 0 else 1, 1)]
                      + (Raws(br) + (c1.head + (Tail(tbl, c1, m) + ts))))
  {
    hide Raws;
    hide EobTokens;
  }

  /** Decoding a refinement scan's bits for one block adds exactly one bit of magnitude. */
  lemma {:induction false} RefineReads(tbls: Tables, tbl: nat, b: Block, k0: nat, k: nat, r: nat, br: Bits, eob: nat,
                                       d: Block, m: nat, p: Params, ts: seq<Token>, rest: Bits, w: nat)
    requires tbl < |tbls| && m < 0x7FFF && Standing(b, k0, k, r, br, eob, p) && HasOld(d, b, k0, p)
    requires p.Se < 64 && k <= p.Se + 1 && k0 <= k && p.Al <= 13
    requires var c := RefineCode(tbl, b, k, r, br, eob, p); AllWritable(tbls, c.head + (Tail(tbl, c, m) + ts))
    ensures AllWritable(tbls, ts)
    ensures var c := RefineCode(tbl, b, k, r, br, eob, p);
            Rest(tbls[tbl], d, k0, p, Feed(tbls, c.head + (Tail(tbl, c, m) + ts), rest, w))
            == (FillRange(d, b, k0, p.Se + 1, p.Al), if c.trailing then m else 0, Feed(tbls, ts, rest, w))
    decreases p.Se + 1 - k, r
  {
    hide *;
    CodeStep(tbl, b, k, r, br, eob, m, p, ts);
    if k > p.Se {
      RefineReadsEnd(tbls, tbl, b, k0, k, r, br, eob, d, m, p, ts, rest, w);
    } else if Mag(b[k], p.Al) == 0 {
      StandZero(b, k0, k, r, br, eob, p);
      RefineReads(tbls, tbl, b, k0, k + 1, r + 1, br, eob, d, m, p, ts, rest, w);
    } else if r > 15 && k <= eob {
      var z := StandZrl(b, k0, k, r, br, eob, p);
      var c1 := RefineCode(tbl, b, k, r - 16, [], eob, p);
      var more := c1.head + (Tail(tbl, c1, m) + ts);
      ZrlRead(tbls, tbl, b, k0, z, br, d, p, more, rest, w);
      RefineReads(tbls, tbl, b, z + 1, k, r - 16, [], eob, FillRange(d, b, k0, z + 1, p.Al), m, p, ts, rest, w);
      FillSplit(d, b, k0, z + 1, p.Se + 1, p.Al);
    } else if Mag(b[k], p.Al) > 1 {
      StandOld(b, k0, k, r, br, eob, p);
      RefineReads(tbls, tbl, b, k0, k + 1, r, br + [Mag(b[k], p.Al) % 2 == 1], eob, d, m, p, ts, rest, w);
    } else {
      StandNew(b, k0, k, r, br, eob, p);
      var c1 := RefineCode(tbl, b, k + 1, 0, [], eob, p);
      var more := c1.head + (Tail(tbl, c1, m) + ts);
      StandFacts(b, k0, k, r, br, eob, p);
      NewCoefRead(tbls, tbl, b, k0, k, r, br, d, p, more, rest, w);
      RefineReads(tbls, tbl, b, k + 1, k + 1, 0, [], eob, FillRange(d, b, k0, k + 1, p.Al), m, p, ts, rest, w);
      FillSplit(d, b, k0, k + 1, p.Se + 1, p.Al);
    }
  }

  lemma StandFacts(b: Block, k0: nat, k: nat, r: nat, br: Bits, eob: nat, p: Params)
    requires Standing(b, k0, k, r, br, eob, p)
    ensures p.Se < 64 && NoNew(b, k0, k, p) && r == Zeros(b, k0, k, p) && br == Corr(b, k0, k, p)
  {
  }

  lemma HasOldFill(d: Block, b: Block, k0: nat, k: nat, p: Params)
    requires p.Al <= 13 && HasOld(d, b, k0, p) && k0 <= k
    ensures HasOld(FillRange(d, b, k0, k, p.Al), b, k, p)
  {
  }

  /** The decoder's reading of a ZRL. */
  lemma ZrlRead(tbls: Tables, tbl: nat, b: Block, k0: nat, z: nat, br: Bits, d: Block, p: Params,
                more: seq<Token>, rest: Bits, w: nat)
    requires tbl < |tbls| && p.Al <= 13 && k0 <= z <= p.Se < 64 && HasOld(d, b, k0, p) && NoNew(b, k0, z, p)
    requires Mag(b[z], p.Al) == 0 && Zeros(b, k0, z, p) == 15 && Corr(b, k0, z, p) == br
    requires AllWritable(tbls, [Sym(tbl, 0xF0)] + (Raws(br) + more))
    ensures AllWritable(tbls, more) && HasOld(FillRange(d, b, k0, z + 1, p.Al), b, z + 1, p)
    ensures Rest(tbls[tbl], d, k0, p, Feed(tbls, [Sym(tbl, 0xF0)] + (Raws(br) + more), rest, w))
            == Rest(tbls[tbl], FillRange(d, b, k0, z + 1, p.Al), z + 1, p, Feed(tbls, more, rest, w))
  {
    hide *;
    var s := Feed(tbls, [Sym(tbl, 0xF0)] + (Raws(br) + more), rest, w);
    FeedSym(tbls, tbl, 0xF0, Raws(br) + more, rest, w);
    SkipReads(tbls, d, b, k0, z, p, more, rest, w);
    RestZrl(tbls[tbl], d, k0, p, s, Feed(tbls, Raws(br) + more, rest, w),
            FillRange(d, b, k0, z, p.Al), z, Feed(tbls, more, rest, w));
    FillLastZero(d, b, k0, z, p);
    HasOldFill(d, b, k0, z + 1, p);
  }

  lemma FillLastZero(d: Block, b: Block, k0: nat, z: nat, p: Params)
    requires p.Al <= 13 && k0 <= z <= p.Se < 64 && HasOld(d, b, k0, p) && Mag(b[z], p.Al) == 0
    ensures FillRange(d, b, k0, z, p.Al) == FillRange(d, b, k0, z + 1, p.Al)
  {
    TruncOfZero(b[z], p.Al);
    MagNext(b[z], p.Al);
    TruncOfZero(b[z], p.Al + 1);
  }

  /** The decoder's reading of a newly nonzero coefficient. */
  lemma NewCoefRead(tbls: Tables, tbl: nat, b: Block, k0: nat, k: nat, r: nat, br: Bits, d: Block, p: Params,
                    more: seq<Token>, rest: Bits, w: nat)
    requires tbl < |tbls| && p.Al <= 13 && k0 <= k <= p.Se < 64 && HasOld(d, b, k0, p) && NoNew(b, k0, k, p)
    requires Mag(b[k], p.Al) == 1 && r == Zeros(b, k0, k, p) && r <= 15 && br == Corr(b, k0, k, p)
    requires AllWritable(tbls, [Sym(tbl, 16 * r + 1)] + ([Raw(if b[k] < 0 then 0 else 1, 1)] + (Raws(br) + more)))
    ensures AllWritable(tbls, more) && HasOld(FillRange(d, b, k0, k + 1, p.Al), b, k + 1, p)
    ensures Rest(tbls[tbl], d, k0, p,
                 Feed(tbls, [Sym(tbl, 16 * r + 1)] + ([Raw(if b[k] < 0 then 0 else 1, 1)] + (Raws(br) + more)), rest, w))
            == Rest(tbls[tbl], FillRange(d, b, k0, k + 1, p.Al), k + 1, p, Feed(tbls, more, rest, w))
  {
    hide *;
    var sign := [Raw(if b[k] < 0 then 0 else 1, 1)] + (Raws(br) + more);
    FeedSym(tbls, tbl, 16 * r + 1, sign, rest, w);
    NewRead(tbls, b[k], p, Raws(br) + more, rest, w);
    SkipReads(tbls, d, b, k0, k, p, more, rest, w);
    RestNew(tbls[tbl], d, k0, r, p, Feed(tbls, [Sym(tbl, 16 * r + 1)] + sign, rest, w), Feed(tbls, sign, rest, w),
            FillRange(d, b, k0, k, p.Al), k, Feed(tbls, more, rest, w));
    FillLast(d, b, k0, k, p.Al);
    HasOldFill(d, b, k0, k + 1, p);
  }

  lemma FillLast(d: Block, b: Block, lo: nat, k: nat, al: nat)
    requires lo <= k < 64 && al <= 13
    ensures -32768 <= TruncAc(b[k], al) <= 32767
    ensures FillRange(d, b, lo, k, al)[k := TruncAc(b[k], al)] == FillRange(d, b, lo, k + 1, al)
  {
    TruncFits(b[k], al);
  }

  /** The end of the band: nothing left, or an end-of-band and its correction bits. */
  lemma RefineReadsEnd(tbls: Tables, tbl: nat, b: Block, k0: nat, k: nat, r: nat, br: Bits, eob: nat,
                       d: Block, m: nat, p: Params, ts: seq<Token>, rest: Bits, w: nat)
    requires tbl < |tbls| && m < 0x7FFF && Standing(b, k0, k, r, br, eob, p) && HasOld(d, b, k0, p)
    requires k == p.Se + 1 <= 64 && k0 <= k && p.Al <= 13
    requires var c := RefineCode(tbl, b, k, r, br, eob, p); AllWritable(tbls, c.head + (Tail(tbl, c, m) + ts))
    ensures AllWritable(tbls, ts)
    ensures var c := RefineCode(tbl, b, k, r, br, eob, p);
            Rest(tbls[tbl], d, k0, p, Feed(tbls, c.head + (Tail(tbl, c, m) + ts), rest, w))
            == (FillRange(d, b, k0, p.Se + 1, p.Al), if c.trailing then m else 0, Feed(tbls, ts, rest, w))
  {
    hide *;
    CodeStep(tbl, b, k, r, br, eob, m, p, ts);
    StandFacts(b, k0, k, r, br, eob, p);
    RangeCount(b, k0, k, p);
    if r > 0 || |br| > 0 {
      EobRead(tbls, tbl, 1 + m, Raws(br) + ts, rest, w);
      SymParts(NBits(1 + m) - 1, 0);
      RestEob(tbls[tbl], d, k0, p, Feed(tbls, EobTokens(tbl, 1 + m) + (Raws(br) + ts), rest, w),
              16 * (NBits(1 + m) - 1), Feed(tbls, EobBits(1 + m) + (Raws(br) + ts), rest, w));
      CorrectionsRead(tbls, d, b, k0, p, ts, rest, w);
    } else {
      RestEnd(tbls[tbl], d, k0, p, Feed(tbls, ts, rest, w));
      FillEmpty(d, b, k0, p.Al);
    }
  }

  // ---- Which symbols a block has ----

  /** The first coefficient from k on that becomes nonzero in this scan, or Se + 1. */
  function NextNew(b: Block, k: nat, p: Params): (n: nat)
    requires k <= p.Se + 1 <= 64
    ensures k <= n <= p.Se + 1 && NoNew(b, k, n, p) && (n <= p.Se ==> Mag(b[n], p.Al) == 1)
    decreases p.Se + 1 - k
  {
    if k > p.Se || Mag(b[k], p.Al) == 1 then k else NextNew(b, k + 1, p)
  }

  /** The symbols that section G.1.2.3 of T.81 asks for from k on, after r zeroes: for each
      coefficient that becomes nonzero its run of coefficients that stay zero, sixteen at a time,
      and nothing after the last one. */
  function NewSymbols(b: Block, k: nat, r: nat, p: Params): seq<nat>
    requires k <= p.Se + 1 <= 64
    decreases p.Se + 1 - k
  {
    var n := NextNew(b, k, p);
    if n > p.Se then []
    else
      var z := r + Zeros(b, k, n, p);
      Times(0xF0, z / 16) + [16 * (z % 16) + 1] + NewSymbols(b, n + 1, 0, p)
  }

  /** eob is the last coefficient that becomes nonzero, if there is one from k on. */
  ghost predicate LastNew(b: Block, k: nat, eob: nat, p: Params)
    requires p.Se < 64
  {
    && (forall j :: k <= j <= p.Se && Mag(b[j], p.Al) == 1 ==> j <= eob)
    && (k <= eob ==> eob <= p.Se && Mag(b[eob], p.Al) == 1)
  }

  /** EOB is the last newly nonzero coefficient of the band, or 0 if there is none. */
  lemma {:induction false} EobPosIs(b: Block, k: nat, last: nat, p: Params)
    requires p.Se < 64 && last < k <= p.Se + 1
    ensures var eob := EobPos(b, k, last, p);
            if NoNew(b, k, p.Se + 1, p) then eob == last
            else k <= eob <= p.Se && Mag(b[eob], p.Al) == 1 && NoNew(b, eob + 1, p.Se + 1, p)
    decreases p.Se + 1 - k
  {
    if k <= p.Se { EobPosIs(b, k + 1, if Mag(b[k], p.Al) == 1 then k else last, p); }
  }

  /** One round of the pre-pass. */
  lemma EobPosStep(b: Block, k: nat, last: nat, p: Params)
    requires p.Se < 64
    ensures k > p.Se ==> EobPos(b, k, last, p) == last
    ensures k <= p.Se ==> EobPos(b, k, last, p) == EobPos(b, k + 1, if Mag(b[k], p.Al) == 1 then k else last, p)
    ensures k <= p.Se ==> Mag(b[k], p.Al) == Shr(if b[k] < 0 then 0 - (b[k] as int) else b[k] as int, p.Al)
  {
  }

  lemma SymbolsZero(b: Block, k: nat, r: nat, p: Params)
    requires k <= p.Se < 64 && Mag(b[k], p.Al) != 1
    ensures NewSymbols(b, k, r, p) == NewSymbols(b, k + 1, if Mag(b[k], p.Al) == 0 then r + 1 else r, p)
  {
    hide Mag;
    var n := NextNew(b, k, p);
    assert n == NextNew(b, k + 1, p);
  }

  lemma SymbolsZrl(b: Block, k: nat, r: nat, p: Params)
    requires k <= p.Se < 64 && r > 15 && NextNew(b, k, p) <= p.Se
    ensures NewSymbols(b, k, r, p) == [0xF0] + NewSymbols(b, k, r - 16, p)
  {
    hide Mag;
    hide Zeros;
    var n := NextNew(b, k, p);
    var z := r + Zeros(b, k, n, p);
    assert (z - 16) / 16 == z / 16 - 1 && (z - 16) % 16 == z % 16;
    assert Times(0xF0, z / 16) == [0xF0] + Times(0xF0, z / 16 - 1);
  }

  lemma SymbolsNew(b: Block, k: nat, r: nat, p: Params)
    requires k <= p.Se < 64 && Mag(b[k], p.Al) == 1 && r <= 15
    ensures NewSymbols(b, k, r, p) == [16 * r + 1] + NewSymbols(b, k + 1, 0, p)
  {
    hide Mag;
    assert NextNew(b, k, p) == k;
    assert Zeros(b, k, k, p) == 0;
    assert Times(0xF0, 0) == [];
  }

  lemma NewAhead(b: Block, k: nat, n: nat, p: Params)
    requires k <= n <= p.Se < 64 && Mag(b[n], p.Al) == 1
    ensures NextNew(b, k, p) <= n
  {
    hide Mag;
  }

  lemma SymbolsNone(b: Block, k: nat, r: nat, p: Params)
    requires k <= p.Se + 1 <= 64 && NoNew(b, k, p.Se + 1, p)
    ensures NewSymbols(b, k, r, p) == []
  {
    hide Mag;
  }

  /** The symbols of one group of tokens. */
  lemma GroupSymbols(tbl: nat, s: nat, v: int, br: Bits, rest: seq<Token>)
    ensures Symbols(([Sym(tbl, s)] + Raws(br)) + rest) == [s] + Symbols(rest)
    ensures Symbols(([Sym(tbl, s), Raw(v, 1)] + Raws(br)) + rest) == [s] + Symbols(rest)
  {
    NoSymbols(Raws(br));
    NoSymbols([Raw(v, 1)] + Raws(br));
    SymbolsConcat([Sym(tbl, s)] + Raws(br), rest);
    SymbolsConcat([Sym(tbl, s)], Raws(br));
    SymbolsConcat([Sym(tbl, s), Raw(v, 1)] + Raws(br), rest);
    assert [Sym(tbl, s), Raw(v, 1)] + Raws(br) == [Sym(tbl, s)] + ([Raw(v, 1)] + Raws(br));
    SymbolsConcat([Sym(tbl, s)], [Raw(v, 1)] + Raws(br));
    assert Symbols([Sym(tbl, s)]) == [s] by { assert [Sym(tbl, s)][1..] == []; }
  }

  /** The encoder writes exactly those symbols. */
  lemma {:induction false} RefineSymbols(tbl: nat, b: Block, k: nat, r: nat, br: Bits, eob: nat, p: Params)
    requires k <= p.Se + 1 <= 64 && LastNew(b, k, eob, p)
    requires k <= p.Se && Mag(b[k], p.Al) == 1 ==> k <= eob
    ensures Symbols(RefineCode(tbl, b, k, r, br, eob, p).head) == NewSymbols(b, k, r, p)
    decreases p.Se + 1 - k, r
  {
    hide Mag;
    hide Zeros;
    hide NextNew;
    hide NewSymbols;
    hide Symbols;
    hide Raws;
    if k > p.Se {
      SymbolsNone(b, k, r, p);
      NoSymbols([]);
    } else {
      var t := Mag(b[k], p.Al);
      if t == 0 {
        SymbolsZero(b, k, r, p);
        RefineSymbols(tbl, b, k + 1, r + 1, br, eob, p);
      } else if r > 15 && k <= eob {
        NewAhead(b, k, eob, p);
        SymbolsZrl(b, k, r, p);
        RefineSymbols(tbl, b, k, r - 16, [], eob, p);
        GroupSymbols(tbl, 0xF0, 0, br, RefineCode(tbl, b, k, r - 16, [], eob, p).head);
      } else if t > 1 {
        SymbolsZero(b, k, r, p);
        RefineSymbols(tbl, b, k + 1, r, br + [t % 2 == 1], eob, p);
      } else {
        SymbolsNew(b, k, r, p);
        RefineSymbols(tbl, b, k + 1, 0, [], eob, p);
        GroupSymbols(tbl, 16 * r + 1, if b[k] < 0 then 0 else 1, br, RefineCode(tbl, b, k + 1, 0, [], eob, p).head);
      }
    }
  }

  // ---- The bits after a symbol ----

  /** A coefficient that becomes nonzero after at most 15 that stay zero: its symbol, a sign bit
      that is 1 for a positive one, and only then bit al of each nonzero coefficient passed. */
  lemma {:induction false} NewInPlace(tbl: nat, b: Block, k: nat, n: nat, r: nat, br: Bits, eob: nat, p: Params)
    requires k <= n <= p.Se < 64 && NoNew(b, k, n, p) && Mag(b[n], p.Al) == 1 && r + Zeros(b, k, n, p) <= 15
    ensures ToBits(if b[n] > 0 then 1 else 0, 1) == [b[n] > 0]
    ensures RefineCode(tbl, b, k, r, br, eob, p).head
            == [Sym(tbl, 16 * (r + Zeros(b, k, n, p)) + 1), Raw(if b[n] > 0 then 1 else 0, 1)] + Raws(br + Corr(b, k, n, p))
               + RefineCode(tbl, b, n + 1, 0, [], eob, p).head
    decreases n - k
  {
    hide Mag;
    hide Raws;
    MagZero(p.Al);
    if k < n {
      var t := Mag(b[k], p.Al);
      if t == 0 {
        assert Corr(b, k, n, p) == Corr(b, k + 1, n, p);
        NewInPlace(tbl, b, k + 1, n, r + 1, br, eob, p);
      } else {
        NewInPlace(tbl, b, k + 1, n, r, br + [t % 2 == 1], eob, p);
        assert br + [t % 2 == 1] + Corr(b, k + 1, n, p) == br + Corr(b, k, n, p);
      }
    } else {
      assert br + [] == br;
    }
  }

  lemma MagZero(al: nat)
    ensures Mag(0, al) == 0
  {
  }

  /** The correction bits are bit al of the magnitudes above 1, in order. */
  lemma CorrIs(b: Block, k: nat, p: Params)
    requires k < 64
    ensures Corr(b, k, k + 1, p) == if Mag(b[k], p.Al) > 1 then [Mag(b[k], p.Al) % 2 == 1] else []
    ensures Raws(Corr(b, k, k + 1, p)) == if Mag(b[k], p.Al) > 1 then [Raw(Mag(b[k], p.Al) % 2, 1)] else []
  {
  }
}
