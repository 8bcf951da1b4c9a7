/** Coefficient blocks in zigzag order, and the point transforms of successive
    approximation (section G.1.2 of T.81). */
module Blocks {
  import opened Bits

  /** JCOEF, a 16-bit signed integer. */
  type Coef = c: int | -32768 <= c <= 32767

  type Block = b: seq<Coef> | |b| == 64 witness seq(64, i => 0)

  /** What storing v in a JCOEF keeps. */
  function Jcoef(v: int): Coef { (v + 32768) % 65536 - 32768 }

  /** Ss, Se, Ah and Al of the current scan. */
  datatype Params = Params(Ss: nat, Se: nat, Ah: nat, Al: nat)

  /** |v| >> al. */
  function Mag(v: int, al: nat): nat { Shr(Abs(v), al) }

  /** The AC point transform: v divided by 1 << al, rounding towards zero. */
  function PtAc(v: int, al: nat): int { if v < 0 then 0 - Mag(v, al) else Mag(v, al) }

  /** What is known of an AC coefficient after its bits down to al have been sent. */
  function TruncAc(v: int, al: nat): int { Shl(PtAc(v, al), al) }

  /** What is known of a DC coefficient after its bits down to al have been sent. */
  function TruncDc(v: int, al: nat): int { Shl(Shr(v, al), al) }

  lemma {:induction false} ShlShr(v: int, n: nat)
    ensures v - Pow2(n) < Shl(Shr(v, n), n) <= v
    decreases n
  {
    if n > 0 {
      ShlShr(v / 2, n - 1);
      ShrHalf(v, n);
    }
  }

  /** The truncated coefficients of a JCOEF are JCOEFs. */
  lemma TruncFits(v: Coef, al: nat)
    requires al <= 14
    ensures -32768 <= TruncAc(v, al) <= 32767 && -32768 <= TruncDc(v, al) <= 32767
    ensures (v >= 0 ==> 0 <= TruncAc(v, al)) && (v <= 0 ==> TruncAc(v, al) <= 0)
  {
    ShlShr(v, al);
    ShlShr(Abs(v), al);
    ShlShr(v + 32768, al);
    ShlNeg(Mag(v, al), al);
    ShlZeroMono(Mag(v, al), al);
    DcFloor(v, al);
  }

  lemma ShlZeroMono(v: nat, n: nat)
    ensures Shl(v, n) >= 0
  {
  }

  /** -32768 is a multiple of 1 << al, so truncating a JCOEF never goes below it. */
  lemma {:induction false} DcFloor(v: int, al: nat)
    requires v >= -32768 && al <= 15
    ensures Shl(Shr(v, al), al) >= -32768
  {
    ShrMono(-32768, v, al);
    ShlShr(-32768, al);
    ShrShl(0 - Pow2(15 - al), al);
    ShlNeg(Pow2(15 - al), al);
    ShlPow2(15 - al, al);
    assert Pow2(15) == 32768 by { Pow15(); }
    ShlMono(Shr(-32768, al), Shr(v, al), al);
  }

  lemma Pow15()
    ensures Pow2(15) == 32768
  {
    assert Pow2(5) == 32;
    assert Pow2(10) == 1024;
  }

  lemma {:induction false} TruncZero(v: int)
    ensures TruncAc(v, 0) == v && TruncDc(v, 0) == v
  {
  }

  /** A coefficient is known to be nonzero exactly when its magnitude is. */
  lemma {:induction false} ShlNonzero(v: int, n: nat)
    ensures (Shl(v, n) == 0) == (v == 0) && (Shl(v, n) > 0) == (v > 0)
    decreases n
  {
    if n > 0 { ShlNonzero(v, n - 1); }
  }

  /** One more bit of magnitude. */
  lemma MagNext(v: int, al: nat)
    ensures Mag(v, al + 1) == Mag(v, al) / 2
    ensures Mag(v, al) == 2 * Mag(v, al + 1) + Mag(v, al) % 2
  {
  }

  /** d with positions lo to hi - 1 replaced by the truncated AC coefficients of b. */
  function FillRange(d: Block, b: Block, lo: nat, hi: nat, al: nat): (r: Block)
    requires al <= 13
  {
    seq(64, j requires 0 <= j < 64 => FillAt(d, b, lo, hi, al, j))
  }

  function FillAt(d: Block, b: Block, lo: nat, hi: nat, al: nat, j: nat): Coef
    requires al <= 13 && j < 64
  {
    TruncFits(b[j], al);
    if lo <= j < hi then TruncAc(b[j], al) else d[j]
  }

  lemma FillEmpty(d: Block, b: Block, lo: nat, al: nat)
    requires al <= 13
    ensures FillRange(d, b, lo, lo, al) == d
  {
  }

  lemma FillFirst(d: Block, b: Block, lo: nat, hi: nat, al: nat)
    requires lo < hi <= 64 && al <= 13 && -32768 <= TruncAc(b[lo], al) <= 32767
    ensures FillRange(d[lo := TruncAc(b[lo], al)], b, lo + 1, hi, al) == FillRange(d, b, lo, hi, al)
  {
  }

  lemma FillSame(d: Block, b: Block, lo: nat, hi: nat, al: nat)
    requires lo < hi <= 64 && al <= 13 && d[lo] == TruncAc(b[lo], al)
    ensures FillRange(d, b, lo + 1, hi, al) == FillRange(d, b, lo, hi, al)
  {
  }

  lemma FillSplit(d: Block, b: Block, lo: nat, mid: nat, hi: nat, al: nat)
    requires lo <= mid <= hi <= 64 && al <= 13
    ensures FillRange(FillRange(d, b, lo, mid, al), b, mid, hi, al) == FillRange(d, b, lo, hi, al)
  {
  }

  /** A coefficient whose magnitude vanishes is known to be zero. */
  lemma TruncOfZero(v: int, al: nat)
    requires Mag(v, al) == 0
    ensures TruncAc(v, al) == 0
  {
    ShlNonzero(0, al);
  }

  lemma {:induction false} ShlTimes(v: int, n: nat)
    ensures Shl(v, n) == v * Pow2(n)
    decreases n
  {
    if n > 0 {
      ShlTimes(v, n - 1);
      var p := Pow2(n - 1);
      assert 2 * (v * p) == v * (2 * p);
    }
  }

  /** The point transforms keep the multiple of 1 << al nearest from below, for AC coefficients
      in magnitude. */
  lemma PointTransforms(v: Coef, al: nat)
    ensures PtAc(v, al) * Pow2(al) == TruncAc(v, al) && Shr(v, al) * Pow2(al) == TruncDc(v, al)
    ensures TruncDc(v, al) <= v < TruncDc(v, al) + Pow2(al)
    ensures Abs(TruncAc(v, al)) <= Abs(v) < Abs(TruncAc(v, al)) + Pow2(al)
    ensures if v >= 0 then TruncAc(v, al) >= 0 else TruncAc(v, al) <= 0
  {
    ShlShr(v, al);
    ShlShr(Abs(v), al);
    ShlNeg(Mag(v, al), al);
    ShlZeroMono(Mag(v, al), al);
    ShlTimes(PtAc(v, al), al);
    ShlTimes(Shr(v, al), al);
  }

  /** Storing a value in a JCOEF keeps its low 16 bits. */
  lemma JcoefIs(v: int)
    ensures (Jcoef(v) - v) % 65536 == 0 && (-32768 <= v <= 32767 ==> Jcoef(v) == v)
  {
    var q := (v + 32768) / 65536;
    assert v + 32768 == 65536 * q + (v + 32768) % 65536;
    assert Jcoef(v) - v == 65536 * (0 - q);
  }
}
