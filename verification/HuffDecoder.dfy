/** The decoder's derived tables: jpeg_make_d_derived_tbl and the lookahead
    layout of jdhuff.h, shown equivalent to reading one bit at a time. */
module HuffDecoder {
  import opened Bits
  import opened BitStream
  import opened HuffTable

  const HUFF_LOOKAHEAD: nat := 8

  /** x, the next 8 bits, starts with a code of length l. */
  ghost predicate Hit(t: Table, x: nat, l: nat)
  {
    1 <= l <= 8 && First(t, l) <= Shr(x, 8 - l) <= MaxCode(t, l)
  }

  ghost function HitSym(t: Table, x: nat, l: nat): byte
    requires Hit(t, x, l)
  {
    SymAt(t, l, Shr(x, 8 - l))
  }

  /** The lookahead entry for x: either the code x starts with, or 0 when there is none. */
  ghost predicate LookEntry(t: Table, x: nat, nbits: nat, sym: byte)
  {
    if nbits == 0 then forall l :: !Hit(t, x, l) else Hit(t, x, nbits) && sym == HitSym(t, x, nbits)
  }

  /** The left-justified value just past all codes shorter than l bits. */
  function Bound(t: Table, l: nat): int
    requires 1 <= l <= 9
  {
    if l == 1 then 0 else Shl(First(t, l - 1) + t.bits[l - 1], 9 - l)
  }

  /** All entries below b are right, and the rest are still empty. */
  ghost predicate Filled(t: Table, b: nat, nb: seq<nat>, sy: seq<byte>)
    requires Total(t) <= 256
  {
    && |nb| == |sy| == 256
    && (forall x :: 0 <= x < b <= 256 ==> nb[x] != 0 && LookEntry(t, x, nb[x], sy[x]))
    && (forall x :: b <= x < 256 ==> nb[x] == 0)
  }

  lemma BoundFirst(t: Table, l: nat)
    requires 1 <= l <= 8
    ensures Bound(t, l) == Shl(First(t, l), 8 - l)
  {
    if l == 1 { ShlZero(7); } else { ShlDouble(First(t, l - 1) + t.bits[l - 1], 8 - l); }
  }

  lemma BoundMono(t: Table, k: nat, l: nat)
    requires 1 <= k <= l <= 9
    ensures Bound(t, k) <= Bound(t, l)
    decreases l - k
  {
    if k < l {
      BoundFirst(t, k);
      ShlMono(First(t, k), First(t, k) + t.bits[k], 8 - k);
      BoundMono(t, k + 1, l);
    }
  }

  lemma LookRange(t: Table, p: nat, l: nat)
    requires LegalTree(t) && p < Total(t) && Len(t, p) == l <= 8
    ensures 0 <= Shl(CodeVal(t, p), 8 - l) < Shl(CodeVal(t, p) + 1, 8 - l) <= 256
    ensures Shl(CodeVal(t, p) + 1, 8 - l) == Shl(CodeVal(t, p), 8 - l) + Pow2(8 - l)
  {
    CodeFits(t, p);
    ShlMono(CodeVal(t, p) + 1, Pow2(l), 8 - l);
    ShlPow2(l, 8 - l);
    ShlSucc(CodeVal(t, p), 8 - l);
    ShlZero(8 - l);
    ShlMono(0, CodeVal(t, p), 8 - l);
    assert Pow2(8) == 256;
  }

  lemma FillOne(t: Table, p: nat, x: nat, nb: seq<nat>, sy: seq<byte>)
    requires LegalTree(t) && p < Total(t) && Len(t, p) <= 8 && x < 256
    requires Shl(CodeVal(t, p), 8 - Len(t, p)) <= x < Shl(CodeVal(t, p) + 1, 8 - Len(t, p))
    requires Filled(t, x, nb, sy)
    ensures Filled(t, x + 1, nb[x := Len(t, p)], sy[x := t.huffval[p]])
  {
    var l := Len(t, p);
    ShrShlAdd(CodeVal(t, p), 8 - l, x);
    assert Start(t, l + 1) == Start(t, l) + t.bits[l];
    assert Hit(t, x, l);
  }

  lemma FilledDone(t: Table, nb: seq<nat>, sy: seq<byte>)
    requires Total(t) <= 256 && 0 <= Bound(t, 9) <= 256 && Filled(t, Bound(t, 9), nb, sy)
    ensures forall x :: 0 <= x < 256 ==> LookEntry(t, x, nb[x], sy[x])
  {
    forall x: nat, l: nat | Bound(t, 9) <= x < 256 ensures !Hit(t, x, l) {
      if 1 <= l <= 8 {
        BoundMono(t, l + 1, 9);
        ShrGe(First(t, l) + t.bits[l], 8 - l, x);
      }
    }
  }

  /** maxcode[] and valoffset[] are right for lengths below l. */
  ghost predicate MaxCodes(t: Table, l: nat, maxcode: seq<int>, valoffset: seq<int>)
  {
    && |maxcode| == 18 && |valoffset| == 17
    && forall k {:trigger maxcode[k]} :: 1 <= k < l <= 17 ==> maxcode[k] == MaxCode(t, k) && (t.bits[k] > 0 ==> valoffset[k] == Start(t, k) - First(t, k))
  }

  lemma MaxCodesStep(t: Table, l: nat, maxcode: seq<int>, valoffset: seq<int>, v: int)
    requires 1 <= l <= 16 && MaxCodes(t, l, maxcode, valoffset)
    requires t.bits[l] > 0 ==> v == Start(t, l) - First(t, l)
    ensures MaxCodes(t, l + 1, maxcode[l := MaxCode(t, l)], valoffset[l := v])
  {
  }

  lemma EndCodes(t: Table, l: nat)
    requires 1 <= l <= 16 && t.bits[l] > 0
    ensures Start(t, l) + t.bits[l] <= Total(t)
    ensures CodeVal(t, Start(t, l)) == First(t, l)
    ensures CodeVal(t, Start(t, l) + t.bits[l] - 1) == MaxCode(t, l)
  {
    hide *;
    MaxCodeIs(t, l);
    StartBound(t, l);
    CodeAt(t, l, Start(t, l));
    CodeAt(t, l, Start(t, l) + t.bits[l] - 1);
  }

  lemma MaxCodesKeep(t: Table, maxcode: seq<int>, valoffset: seq<int>, v: int)
    requires |maxcode| == 18 && MaxCodes(t, 17, maxcode, valoffset)
    ensures MaxCodes(t, 17, maxcode[17 := v], valoffset)
  {
  }

  lemma MaxCodeIs(t: Table, l: nat)
    requires 1 <= l <= 16 && t.bits[l] > 0
    ensures |t.bits| == 17 && MaxCode(t, l) == First(t, l) + t.bits[l] - 1
  {
  }

  /** The codes of one length are consecutive. */
  lemma CodeAt(t: Table, l: nat, p: nat)
    requires 1 <= l <= 16 && p < Total(t) && Start(t, l) <= p < Start(t, l) + t.bits[l]
    ensures CodeVal(t, p) == First(t, l) + (p - Start(t, l))
  {
    LenUnique(t, p, l);
  }

  class DDerivedTbl {
    const pub: Table
    const maxcode: array<int>
    const valoffset: array<int>
    const lookNbits: array<nat>
    const lookSym: array<byte>

    ghost predicate ValidCodes()
      reads maxcode, valoffset
    {
      && Total(pub) <= 256
      && maxcode.Length == 18 && valoffset.Length == 17
      && maxcode[17] == 0xFFFFF
      && MaxCodes(pub, 17, maxcode[..], valoffset[..])
    }

    ghost predicate Valid()
      reads maxcode, valoffset, lookNbits, lookSym
    {
      && ValidCodes() && LegalTree(pub)
      && lookNbits.Length == lookSym.Length == 256
      && (forall x :: 0 <= x < 256 ==> LookEntry(pub, x, lookNbits[x], lookSym[x]))
    }

    lemma MaxcodeAt(l: nat)
      requires ValidCodes() && 1 <= l <= 17
      ensures Total(pub) <= 256 && |pub.huffval| == 256 && maxcode.Length == 18 && valoffset.Length == 17
      ensures maxcode[l] == if l == 17 then 0xFFFFF else MaxCode(pub, l)
      ensures l <= 16 && pub.bits[l] > 0 ==> valoffset[l] == Start(pub, l) - First(pub, l)
    {
      assert maxcode[l] == maxcode[..][l];
    }

    constructor (t: Table)
      ensures pub == t && fresh(maxcode) && fresh(valoffset) && fresh(lookNbits) && fresh(lookSym)
      ensures maxcode.Length == 18 && valoffset.Length == 17 && lookNbits.Length == lookSym.Length == 256
      ensures forall x :: 0 <= x < 256 ==> lookNbits[x] == 0
    {
      pub := t;
      maxcode := new int[18](i => 0);
      valoffset := new int[17](i => 0);
      lookNbits := new nat[256](i => 0);
      lookSym := new byte[256](i => 0);
    }

    /** Figure F.15. */
    method FillMaxCodes(huffcode: seq<nat>)
      requires LegalTree(pub) && |huffcode| >= Total(pub)
      requires forall p :: 0 <= p < Total(pub) ==> huffcode[p] == CodeVal(pub, p)
      requires maxcode.Length == 18 && valoffset.Length == 17
      modifies maxcode, valoffset
      ensures maxcode[17] == 0xFFFFF
      ensures MaxCodes(pub, 17, maxcode[..], valoffset[..])
    {
      var p, l: nat := 0, 1;
      while l <= 16
        invariant 1 <= l <= 17 && p == Start(pub, l)
        invariant MaxCodes(pub, l, maxcode[..], valoffset[..])
      {
        p := FillMaxCode(l, p, huffcode);
        l := l + 1;
      }
      ghost var mc := maxcode[..];
      maxcode[17] := 0xFFFFF;
      assert maxcode[..] == mc[17 := 0xFFFFF];
      MaxCodesKeep(pub, mc, valoffset[..], 0xFFFFF);
    }

    method FillMaxCode(l: nat, p: nat, huffcode: seq<nat>) returns (p': nat)
      requires 1 <= l <= 16 && p == Start(pub, l) && |huffcode| >= Total(pub)
      requires forall p :: 0 <= p < Total(pub) ==> huffcode[p] == CodeVal(pub, p)
      requires maxcode.Length == 18 && valoffset.Length == 17 && MaxCodes(pub, l, maxcode[..], valoffset[..])
      modifies maxcode, valoffset
      ensures p' == Start(pub, l + 1) && MaxCodes(pub, l + 1, maxcode[..], valoffset[..])
    {
      ghost var mc, vo := maxcode[..], valoffset[..];
      p' := p + pub.bits[l];
      if pub.bits[l] != 0 {
        EndCodes(pub, l);
        valoffset[l] := p - huffcode[p];
        maxcode[l] := huffcode[p' - 1];
      } else {
        maxcode[l] := -1;
      }
      assert maxcode[..] == mc[l := MaxCode(pub, l)];
      assert valoffset[..] == vo[l := valoffset[l]];
      MaxCodesStep(pub, l, mc, vo, valoffset[l]);
    }

    /** The lookahead entries: those whose index starts with a short code hold its symbol. */
    method FillLookahead(huffcode: seq<nat>)
      requires LegalTree(pub) && |huffcode| >= Total(pub)
      requires forall p :: 0 <= p < Total(pub) ==> huffcode[p] == CodeVal(pub, p)
      requires lookNbits.Length == lookSym.Length == 256
      requires forall x :: 0 <= x < 256 ==> lookNbits[x] == 0
      modifies lookNbits, lookSym
      ensures forall x :: 0 <= x < 256 ==> LookEntry(pub, x, lookNbits[x], lookSym[x])
    {
      var p, l: nat := 0, 1;
      ghost var bound: nat := 0;
      while l <= HUFF_LOOKAHEAD
        modifies lookNbits, lookSym
        invariant 1 <= l <= 9 && p == Start(pub, l)
        invariant bound == Bound(pub, l) <= 256
        invariant Filled(pub, bound, lookNbits[..], lookSym[..])
      {
        BoundFirst(pub, l);
        var i: int, n: int := 1, pub.bits[l];
        while i <= n
          modifies lookNbits, lookSym
          invariant 1 <= i <= n + 1 && p == Start(pub, l) + i - 1
          invariant bound == Shl(First(pub, l) + i - 1, 8 - l) <= 256
          invariant Filled(pub, bound, lookNbits[..], lookSym[..])
        {
          StartBound(pub, l);
          LenUnique(pub, p, l);
          LookRange(pub, p, l);
          FillCode(p, l, Shl(huffcode[p], HUFF_LOOKAHEAD - l));
          bound := Shl(CodeVal(pub, p) + 1, 8 - l);
          p, i := p + 1, i + 1;
        }
        l := l + 1;
      }
      FilledDone(pub, lookNbits[..], lookSym[..]);
    }

    method FillCode(p: nat, l: nat, first: nat)
      requires LegalTree(pub) && p < Total(pub) && Len(pub, p) == l <= 8
      requires lookNbits.Length == lookSym.Length == 256
      requires first == Shl(CodeVal(pub, p), 8 - l) && Shl(CodeVal(pub, p) + 1, 8 - l) == first + Pow2(8 - l) <= 256
      requires Filled(pub, first, lookNbits[..], lookSym[..])
      modifies lookNbits, lookSym
      ensures Filled(pub, first + Pow2(8 - l), lookNbits[..], lookSym[..])
    {
      var lookbits := first;
      var ctr: int := Pow2(HUFF_LOOKAHEAD - l);
      while ctr > 0
        invariant 0 <= ctr <= Pow2(8 - l) && lookbits == first + Pow2(8 - l) - ctr
        invariant Filled(pub, lookbits, lookNbits[..], lookSym[..])
      {
        FillOne(pub, p, lookbits, lookNbits[..], lookSym[..]);
        ghost var nb, sy := lookNbits[..], lookSym[..];
        lookNbits[lookbits] := l;
        lookSym[lookbits] := pub.huffval[p];
        assert lookNbits[..] == nb[lookbits := l] && lookSym[..] == sy[lookbits := pub.huffval[p]];
        lookbits, ctr := lookbits + 1, ctr - 1;
      }
    }
  }

  /** jpeg_make_d_derived_tbl. */
  method MakeDDerivedTbl(tbls: seq<Option<Table>>, isDC: bool, tblno: int) returns (d: Option<DDerivedTbl>)
    requires |tbls| == NUM_HUFF_TBLS
    ensures d.Some? <==> 0 <= tblno < NUM_HUFF_TBLS && tbls[tblno].Some? && LegalD(tbls[tblno].value, isDC)
    ensures d.Some? ==> fresh(d.value) && d.value.Valid() && d.value.pub == tbls[tblno].value
    ensures d.Some? ==> fresh(d.value.maxcode) && fresh(d.value.valoffset) && fresh(d.value.lookNbits) && fresh(d.value.lookSym)
  {
    if tblno < 0 || tblno >= NUM_HUFF_TBLS || tbls[tblno].None? { return None; }
    var t := tbls[tblno].value;
    var fits, huffsize, numsymbols := HuffSizes(t);
    if !fits { return None; }
    var legal, huffcode := HuffCodes(t, huffsize, numsymbols);
    if !legal { return None; }
    var dtbl := new DDerivedTbl(t);
    dtbl.FillMaxCodes(huffcode[..]);
    dtbl.FillLookahead(huffcode[..]);
    if isDC {
      for i := 0 to numsymbols
        invariant forall p :: 0 <= p < i ==> t.huffval[p] <= 15
      {
        if t.huffval[i] > 15 { return None; }
      }
    }
    return Some(dtbl);
  }

  /** A code longer than l bits: one more bit is read. */
  lemma SerialMore(t: Table, code: nat, l: nat, s: Src)
    requires 1 <= l <= 16 && MaxCode(t, l) < code
    ensures Serial(t, code, l, s) == Serial(t, 2 * code + s.Peek(1), l + 1, s.Drop(1))
    ensures First(t, l) <= code ==> First(t, l + 1) <= 2 * code
  {
  }

  lemma PeekOne(s: Src, k: nat)
    ensures s.Peek(k + 1) == 2 * s.Peek(k) + s.Drop(k).Peek(1) && s.Drop(k + 1) == s.Drop(k).Drop(1)
  {
    TakeSplit(s, k, 1);
    assert Shl(s.Peek(k), 1) == 2 * Shl(s.Peek(k), 0);
  }

  lemma SerialFromOne(t: Table, s: Src)
    ensures First(t, 1) == 0 && DecodeSym(t, s) == Serial(t, s.Peek(1), 1, s.Drop(1))
  {
    hide Serial;
  }

  /** As long as no code has ended, serial decoding has just read more bits. */
  lemma {:induction false} SerialSkip(t: Table, s: Src, k: nat)
    requires 1 <= k <= 17
    requires forall j {:trigger s.Peek(j)} :: 1 <= j < k ==> MaxCode(t, j) < s.Peek(j)
    ensures First(t, k) <= s.Peek(k)
    ensures DecodeSym(t, s) == Serial(t, s.Peek(k), k, s.Drop(k))
  {
    hide *;
    if k == 1 {
      SerialFromOne(t, s);
    } else {
      SerialSkip(t, s, k - 1);
      PeekOne(s, k - 1);
      SerialMore(t, s.Peek(k - 1), k - 1, s.Drop(k - 1));
    }
  }

  lemma PeekShr(s: Src, m: nat, n: nat)
    ensures Shr(s.Peek(m + n), n) == s.Peek(m)
  {
    TakeSplit(s, m, n);
    ShlSucc(s.Peek(m), n);
    ShrShlAdd(s.Peek(m), n, s.Peek(m + n));
  }

  lemma HitPeek(t: Table, s: Src, l: nat, j: nat)
    requires Hit(t, s.Peek(8), l) && 1 <= j <= l
    ensures if j < l then MaxCode(t, j) < s.Peek(j) else First(t, l) <= s.Peek(l) <= MaxCode(t, l)
  {
    hide *;
    var x := s.Peek(l);
    HitRange(t, s.Peek(8), l);
    PeekShr(s, l, 8 - l);
    if j < l {
      PeekShr(s, j, l - j);
      Earlier(t, x, l, j);
    }
  }

  lemma HitRange(t: Table, x: nat, l: nat)
    ensures Hit(t, x, l) ==> 1 <= l <= 8 && First(t, l) <= Shr(x, 8 - l) <= MaxCode(t, l)
  {
    hide Shr;
    hide First;
    hide MaxCode;
  }

  lemma Earlier(t: Table, x: nat, l: nat, j: nat)
    requires 1 <= j < l <= 16 && First(t, l) <= x
    ensures MaxCode(t, j) < Shr(x, l - j)
  {
    Later(t, j, l);
    ShrMono(First(t, l), x, l - j);
  }

  /** A lookahead hit is the symbol serial decoding finds, and it eats as many bits. */
  lemma LookaheadHit(t: Table, s: Src, l: nat)
    requires Hit(t, s.Peek(8), l)
    ensures 1 <= l <= 8 && DecodeSym(t, s) == (HitSym(t, s.Peek(8), l), s.Drop(l))
  {
    hide *;
    HitLength(t, s.Peek(8), l);
    forall j {:trigger s.Peek(j)} | 1 <= j < l ensures MaxCode(t, j) < s.Peek(j) {
      HitPeek(t, s, l, j);
    }
    HitPeek(t, s, l, l);
    SerialSkip(t, s, l);
    SerialHit(t, s.Peek(l), l, s.Drop(l));
    PeekShr(s, l, 8 - l);
    HitIs(t, s.Peek(8), l);
  }

  lemma HitLength(t: Table, x: nat, l: nat)
    requires Hit(t, x, l)
    ensures 1 <= l <= 8
  {
  }

  lemma HitIs(t: Table, x: nat, l: nat)
    requires Hit(t, x, l)
    ensures HitSym(t, x, l) == SymAt(t, l, Shr(x, 8 - l))
  {
    hide SymAt;
  }

  lemma SerialHit(t: Table, code: nat, l: nat, s: Src)
    requires 1 <= l <= 16 && code <= MaxCode(t, l)
    ensures Serial(t, code, l, s) == (SymAt(t, l, code), s)
  {
    hide SymAt;
    hide MaxCode;
  }

  /** With no hit the code is longer than 8 bits, and decoding may start at 9. */
  lemma {:induction false} LookaheadMiss(t: Table, s: Src, k: nat)
    requires 1 <= k <= 9 && forall l :: !Hit(t, s.Peek(8), l)
    ensures forall j {:trigger s.Peek(j)} :: 1 <= j < k ==> MaxCode(t, j) < s.Peek(j)
    ensures First(t, k) <= s.Peek(k)
    ensures DecodeSym(t, s) == Serial(t, s.Peek(k), k, s.Drop(k))
  {
    hide *;
    if k > 1 {
      LookaheadMiss(t, s, k - 1);
      PeekShr(s, k - 1, 9 - k);
      NotHit(t, s.Peek(8), k - 1);
    }
    SerialSkip(t, s, k);
  }

  lemma NotHit(t: Table, x: nat, l: nat)
    requires 1 <= l <= 8 && !Hit(t, x, l) && First(t, l) <= Shr(x, 8 - l)
    ensures MaxCode(t, l) < Shr(x, 8 - l)
  {
  }
}
