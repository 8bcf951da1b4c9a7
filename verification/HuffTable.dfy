/** Huffman tables: the canonical codes of figures C.1 and C.2 of T.81, the
    encoder's table (figure C.3), and bit-serial decoding (figure F.16). */
module HuffTable {
  import opened Bits
  import opened BitStream

  datatype Option<T> = None | Some(value: T)

  /** bits[l] codes of length l for 1 <= l <= 16; huffval lists the symbols by length. */
  datatype HuffTbl = HuffTbl(bits: seq<byte>, huffval: seq<byte>)

  /** The C arrays UINT8 bits[17] and UINT8 huffval[256]. */
  ghost predicate Shape(t: HuffTbl) { |t.bits| == 17 && |t.huffval| == 256 }

  type Table = t: HuffTbl | Shape(t) witness HuffTbl(seq(17, i => 0), seq(256, i => 0))

  /** Index in huffval of the first symbol of length l. */
  function Start(t: Table, l: nat): nat
    requires 1 <= l <= 17
  {
    if l == 1 then 0 else Start(t, l - 1) + t.bits[l - 1]
  }

  const MAX_LEN: nat := 16

  function Total(t: Table): nat { Start(t, MAX_LEN + 1) }

  /** The first code of length l. */
  function First(t: Table, l: nat): nat
    requires 1 <= l <= 17
  {
    if l == 1 then 0 else 2 * (First(t, l - 1) + t.bits[l - 1])
  }

  /** The counts fit a binary tree with at least one slot left at every length. */
  ghost predicate LegalTree(t: Table)
  {
    && Total(t) <= 256
    && forall l :: 1 <= l <= 16 ==> FitsAt(t, l)
  }

  /** After the codes of length l, one more still fits in l bits. */
  predicate FitsAt(t: Table, l: nat)
    requires 1 <= l <= 16
  {
    First(t, l) + t.bits[l] < Pow2(l)
  }

  function MaxSymbol(isDC: bool): nat { if isDC then 15 else 255 }

  /** What jpeg_make_c_derived_tbl accepts. */
  ghost predicate LegalC(t: Table, isDC: bool)
  {
    && LegalTree(t)
    && (forall p :: 0 <= p < Total(t) ==> t.huffval[p] <= MaxSymbol(isDC))
    && (forall p, q :: 0 <= p < q < Total(t) ==> t.huffval[p] != t.huffval[q])
  }

  /** What jpeg_make_d_derived_tbl accepts. */
  ghost predicate LegalD(t: Table, isDC: bool)
  {
    LegalTree(t) && (isDC ==> forall p :: 0 <= p < Total(t) ==> t.huffval[p] <= 15)
  }

  /** The p'th symbol has a code of length l. */
  ghost predicate HasLen(t: Table, p: nat, l: nat)
  {
    1 <= l <= 16 && Start(t, l) <= p < Start(t, l + 1)
  }

  /** The length of the p'th code: huffsize[p]. */
  ghost function Len(t: Table, p: nat): (l: nat)
    requires p < Total(t)
    ensures HasLen(t, p, l)
  {
    LenExists(t, p, MAX_LEN);
    var l :| HasLen(t, p, l);
    l
  }

  lemma LenExists(t: Table, p: nat, m: nat)
    requires m <= 16 && p < Start(t, m + 1)
    ensures exists l :: HasLen(t, p, l)
  {
    if Start(t, m) <= p {
      assert HasLen(t, p, m);
    } else {
      LenExists(t, p, m - 1);
    }
  }

  lemma LenUnique(t: Table, p: nat, l: nat)
    requires HasLen(t, p, l) && p < Total(t)
    ensures Len(t, p) == l
  {
    var r := Len(t, p);
    if r < l { StartMono(t, r + 1, l); } else if l < r { StartMono(t, l + 1, r); }
  }

  /** The value of the p'th code. */
  ghost function CodeVal(t: Table, p: nat): nat
    requires p < Total(t)
  {
    First(t, Len(t, p)) + p - Start(t, Len(t, p))
  }

  ghost function CodeBits(t: Table, p: nat): Bits
    requires p < Total(t)
  {
    ToBits(CodeVal(t, p), Len(t, p))
  }

  /** The largest code of length l, or -1; maxcode[] of the decoder. */
  function MaxCode(t: Table, l: nat): int
    requires 1 <= l <= 16
  {
    if t.bits[l] == 0 then -1 else First(t, l) + t.bits[l] - 1
  }

  /** The symbol of a code of length l; the index is in range whenever
      First(t, l) <= code <= MaxCode(t, l). */
  function SymAt(t: Table, l: nat, code: nat): byte
    requires 1 <= l <= 16
  {
    var i := Start(t, l) + code - First(t, l);
    if 0 <= i < 256 then t.huffval[i] else 0
  }

  /** Figure F.16 from length l on, with the bits so far in code. */
  function Serial(t: Table, code: nat, l: nat, s: Src): (r: (byte, Src))
    requires 1 <= l <= 17
    decreases 17 - l, code
  {
    if l > 16 then (0, s.Warn())
    else if code <= MaxCode(t, l) then (SymAt(t, l, code), s)
    else Serial(t, 2 * code + s.Peek(1), l + 1, s.Drop(1))
  }

  /** One Huffman symbol, decoded one bit at a time. */
  function DecodeSym(t: Table, s: Src): (r: (byte, Src))
  {
    Serial(t, s.Peek(1), 1, s.Drop(1))
  }

  lemma StartBound(t: Table, l: nat)
    requires 1 <= l <= 16
    ensures Start(t, l) + t.bits[l] <= Total(t)
    decreases 16 - l
  {
    if l < 16 { StartBound(t, l + 1); }
  }

  lemma StartMono(t: Table, k: nat, l: nat)
    requires 1 <= k <= l <= 17
    ensures Start(t, k) <= Start(t, l)
  {
    if k < l { StartMono(t, k, l - 1); }
  }

  /** Left-justified, every code of a longer length lies beyond all codes of length k. */
  lemma {:induction false} Later(t: Table, k: nat, l: nat)
    requires 1 <= k < l <= 17
    ensures First(t, k) + t.bits[k] <= Shr(First(t, l), l - k)
  {
    if k + 1 < l {
      Later(t, k, l - 1);
      ShrHalf(First(t, l), l - k);
      ShrMono(First(t, l - 1), First(t, l) / 2, l - 1 - k);
    }
  }

  lemma CodeFits(t: Table, p: nat)
    requires LegalTree(t) && p < Total(t)
    ensures CodeVal(t, p) + 1 < Pow2(Len(t, p))
  {
    assert Start(t, Len(t, p) + 1) == Start(t, Len(t, p)) + t.bits[Len(t, p)];
    assert FitsAt(t, Len(t, p));
  }

  /** No code is all ones. */
  lemma NeverAllOnes(t: Table, p: nat)
    requires LegalTree(t) && p < Total(t)
    ensures CodeBits(t, p) != Repeat(true, Len(t, p))
  {
    CodeFits(t, p);
    FromTo(CodeVal(t, p), Len(t, p));
    LowFits(CodeVal(t, p), Len(t, p));
    FromRepeat(Len(t, p));
  }

  /** The leading k bits of the p'th code, which decoding has seen after k bits. */
  ghost function Lead(t: Table, p: nat, k: nat): nat
    requires p < Total(t) && 1 <= k <= Len(t, p)
  {
    Shr(CodeVal(t, p), Len(t, p) - k)
  }

  /** While only part of a code has been read, the decoder keeps reading. */
  lemma PartialCode(t: Table, p: nat, k: nat)
    requires p < Total(t) && 1 <= k < Len(t, p)
    ensures MaxCode(t, k) < Lead(t, p, k)
    ensures First(t, k) <= Lead(t, p, k)
  {
    var l := Len(t, p);
    Later(t, k, l);
    ShrMono(First(t, l), CodeVal(t, p), l - k);
  }

  lemma {:induction false} SerialCode(t: Table, p: nat, k: nat, rest: Bits, starved: bool, warnings: nat)
    requires p < Total(t) <= 256 && 1 <= k <= Len(t, p)
    ensures First(t, k) <= Lead(t, p, k)
    ensures Serial(t, Lead(t, p, k), k, Src(ToBits(CodeVal(t, p), Len(t, p) - k) + rest, starved, warnings))
            == (t.huffval[p], Src(rest, starved, warnings))
    decreases Len(t, p) - k
  {
    hide *;
    var l, v := Len(t, p), CodeVal(t, p);
    LeadIs(t, p, k);
    if k == l {
      WholeCode(t, p, rest);
      SerialCases(t, v, l, Src(rest, starved, warnings));
    } else {
      PartialCode(t, p, k);
      LeadIs(t, p, k + 1);
      SerialCode(t, p, k + 1, rest, starved, warnings);
      NextBit(v, l - k - 1, rest, starved, warnings);
      SerialCases(t, Lead(t, p, k), k, Src(ToBits(v, l - k) + rest, starved, warnings));
    }
  }

  lemma LeadIs(t: Table, p: nat, k: nat)
    requires p < Total(t) && 1 <= k <= Len(t, p)
    ensures Len(t, p) <= 16 && Lead(t, p, k) == Shr(CodeVal(t, p), Len(t, p) - k)
  {
  }

  /** One round of bit-serial decoding. */
  lemma SerialCases(t: Table, code: nat, l: nat, s: Src)
    requires 1 <= l <= 16
    ensures Serial(t, code, l, s) ==
            if code <= MaxCode(t, l) then (SymAt(t, l, code), s) else Serial(t, 2 * code + s.Peek(1), l + 1, s.Drop(1))
  {
    hide MaxCode;
    hide SymAt;
  }

  /** When the whole code has been read it is recognised. */
  lemma WholeCode(t: Table, p: nat, rest: Bits)
    requires p < Total(t) <= 256
    ensures var l, v := Len(t, p), CodeVal(t, p);
            First(t, l) <= v <= MaxCode(t, l) && SymAt(t, l, v) == t.huffval[p] && Shr(v, 0) == v && ToBits(v, 0) + rest == rest
  {
    assert [] + rest == rest;
  }

  /** Reading one more bit of a partly read value. */
  lemma NextBit(v: nat, n: nat, rest: Bits, starved: bool, warnings: nat)
    ensures var s := Src(ToBits(v, n + 1) + rest, starved, warnings);
            && 2 * Shr(v, n + 1) + s.Peek(1) == Shr(v, n)
            && s.Drop(1) == Src(ToBits(v, n) + rest, starved, warnings)
  {
    ToBitsSplit(v, 1, n);
    TakeWritten(Shr(v, n), 1, ToBits(v, n) + rest, starved, warnings);
    assert ToBits(v, 1 + n) + rest == ToBits(Shr(v, n), 1) + (ToBits(v, n) + rest);
    assert Low(Shr(v, n), 1) == 2 * Low(Shr(v, n) / 2, 0) + Shr(v, n) % 2;
  }

  lemma FirstBit(t: Table, p: nat, rest: Bits, starved: bool, warnings: nat)
    requires LegalTree(t) && p < Total(t)
    ensures var s := Src(CodeBits(t, p) + rest, starved, warnings);
            s.Peek(1) == Lead(t, p, 1) && s.Drop(1) == Src(ToBits(CodeVal(t, p), Len(t, p) - 1) + rest, starved, warnings)
  {
    NextBit(CodeVal(t, p), Len(t, p) - 1, rest, starved, warnings);
    CodeFits(t, p);
    ShrFits(CodeVal(t, p), 0, Len(t, p));
  }

  /** Decoding the bits of the p'th code gives the p'th symbol and eats exactly those bits. */
  lemma DecodeCode(t: Table, p: nat, rest: Bits, starved: bool, warnings: nat)
    requires LegalTree(t) && p < Total(t)
    ensures DecodeSym(t, Src(CodeBits(t, p) + rest, starved, warnings))
            == (t.huffval[p], Src(rest, starved, warnings))
  {
    var s := Src(CodeBits(t, p) + rest, starved, warnings);
    FirstBit(t, p, rest, starved, warnings);
    SerialCode(t, p, 1, rest, starved, warnings);
    assert DecodeSym(t, s) == Serial(t, s.Peek(1), 1, s.Drop(1));
  }

  /** No code is a prefix of another. */
  lemma PrefixFree(t: Table, isDC: bool, p: nat, q: nat)
    requires LegalC(t, isDC) && p < Total(t) && q < Total(t) && p != q
    ensures !(CodeBits(t, p) <= CodeBits(t, q))
  {
    if CodeBits(t, p) <= CodeBits(t, q) {
      var rest := CodeBits(t, q)[|CodeBits(t, p)|..];
      assert CodeBits(t, q) + [] == CodeBits(t, p) + rest;
      DecodeCode(t, p, rest, false, 0);
      DecodeCode(t, q, [], false, 0);
      assert false;
    }
  }

  /** Some code stands for symbol s. */
  ghost predicate HasCode(t: Table, s: nat)
  {
    exists p :: 0 <= p < Total(t) <= 256 && t.huffval[p] == s
  }

  ghost function IndexOf(t: Table, s: nat): (p: nat)
    requires HasCode(t, s)
    ensures p < Total(t) <= 256 && t.huffval[p] == s
  {
    var p :| 0 <= p < Total(t) <= 256 && t.huffval[p] == s; p
  }

  /** The bits the encoder writes for symbol s. */
  ghost function SymBits(t: Table, s: nat): Bits
    requires HasCode(t, s)
  {
    CodeBits(t, IndexOf(t, s))
  }

  /** What the encoder writes for a symbol, the decoder reads as that symbol. */
  lemma DecodeSymBits(t: Table, s: nat, rest: Bits, starved: bool, warnings: nat)
    requires LegalTree(t) && HasCode(t, s)
    ensures DecodeSym(t, Src(SymBits(t, s) + rest, starved, warnings)) == (s, Src(rest, starved, warnings))
  {
    DecodeCode(t, IndexOf(t, s), rest, starved, warnings);
  }

  /** Figure C.1: the code length of each symbol, in order, closed by a zero. */
  method HuffSizes(t: Table) returns (ok: bool, huffsize: array<nat>, lastp: nat)
    ensures fresh(huffsize) && huffsize.Length == 257
    ensures ok <==> Total(t) <= 256
    ensures ok ==> lastp == Total(t) && huffsize[lastp] == 0 && forall p :: 0 <= p < lastp ==> huffsize[p] == Len(t, p)
  {
    huffsize := new nat[257](i => 0);
    var p, l := 0, 1;
    while l <= 16
      invariant 1 <= l <= 17 && p == Start(t, l) <= 256
      invariant forall q :: 0 <= q < p ==> HasLen(t, q, huffsize[q])
    {
      var i: int := t.bits[l];
      if p + i > 256 {
        StartMono(t, l + 1, 17);
        return false, huffsize, 0;
      }
      while i > 0
        invariant 0 <= i <= t.bits[l] && p == Start(t, l) + t.bits[l] - i <= 256 - i
        invariant forall q :: 0 <= q < p ==> HasLen(t, q, huffsize[q])
      {
        huffsize[p] := l;
        p, i := p + 1, i - 1;
      }
      l := l + 1;
    }
    huffsize[p] := 0;
    forall q | 0 <= q < p ensures huffsize[q] == Len(t, q) {
      LenUnique(t, q, huffsize[q]);
    }
    return true, huffsize, p;
  }

  /** Figure C.2: the codes themselves, with the check that they fit their length. */
  method HuffCodes(t: Table, huffsize: array<nat>, lastp: nat) returns (ok: bool, huffcode: array<nat>)
    requires huffsize.Length == 257 && lastp == Total(t) <= 256 && huffsize[lastp] == 0
    requires forall p :: 0 <= p < lastp ==> huffsize[p] == Len(t, p)
    ensures fresh(huffcode) && huffcode.Length == 257
    ensures ok <==> LegalTree(t)
    ensures ok ==> forall p :: 0 <= p < lastp ==> huffcode[p] == CodeVal(t, p)
  {
    huffcode := new nat[257](i => 0);
    var code: nat, si: int, p: nat := 0, huffsize[0], 0;
    if lastp > 0 { NoShorter(t, si); }
    while huffsize[p] != 0
      invariant p <= lastp
      invariant lastp > 0 ==> 1 <= si <= 17 && p == Start(t, si) && code == First(t, si)
      invariant lastp > 0 ==> forall l :: 1 <= l < si <= 17 ==> FitsAt(t, l)
      invariant forall q :: 0 <= q < p ==> huffcode[q] == CodeVal(t, q)
      decreases 17 - si
    {
      assert si <= 16;
      StartBound(t, si);
      while huffsize[p] == si
        invariant Start(t, si) <= p <= Start(t, si + 1) <= lastp && code == First(t, si) + p - Start(t, si)
        invariant forall q :: 0 <= q < p ==> huffcode[q] == CodeVal(t, q)
        decreases lastp - p
      {
        assert HasLen(t, p, si);
        huffcode[p] := code;
        LenUnique(t, p, si);
        code, p := code + 1, p + 1;
      }
      if p < Start(t, si + 1) { LenUnique(t, p, si); }
      if code >= Pow2(si) {
        assert !FitsAt(t, si);
        return false, huffcode;
      }
      code, si := 2 * code, si + 1;
    }
    if lastp > 0 { TailLegal(t, si); } else { NoShorter(t, 17); }
    return true, huffcode;
  }

  lemma NoShorter(t: Table, l: nat)
    requires 1 <= l <= 17 && Start(t, l) == 0
    ensures First(t, l) == 0
    ensures forall k :: 1 <= k < l ==> FitsAt(t, k)
  {
    if l > 1 { NoShorter(t, l - 1); }
  }

  lemma TailLegal(t: Table, si: nat)
    requires 1 <= si <= 17 && Start(t, si) == Total(t) <= 256
    requires forall l :: 1 <= l < si <= 17 ==> FitsAt(t, l)
    ensures LegalTree(t)
    decreases 17 - si
  {
    if si <= 16 {
      StartMono(t, si + 1, 17);
      if si > 1 { assert FitsAt(t, si - 1); }
      assert FitsAt(t, si);
      TailLegal(t, si + 1);
    }
  }

  /** jpeg_make_c_derived_tbl: code and size of each symbol, size 0 when it has no code. */
  method MakeCDerivedTbl(tbls: seq<Option<Table>>, isDC: bool, tblno: int)
    returns (ok: bool, ehufco: array<nat>, ehufsi: array<nat>)
    requires |tbls| == NUM_HUFF_TBLS
    ensures fresh(ehufco) && fresh(ehufsi) && ehufco.Length == ehufsi.Length == 256
    ensures ok <==> 0 <= tblno < NUM_HUFF_TBLS && tbls[tblno].Some? && LegalC(tbls[tblno].value, isDC)
    ensures ok ==> Encodes(tbls[tblno].value, ehufco[..], ehufsi[..])
  {
    ehufco, ehufsi := new nat[256](i => 0), new nat[256](i => 0);
    if tblno < 0 || tblno >= NUM_HUFF_TBLS || tbls[tblno].None? { return false, ehufco, ehufsi; }
    var t := tbls[tblno].value;
    var fits, huffsize, lastp := HuffSizes(t);
    if !fits { return false, ehufco, ehufsi; }
    var legal, huffcode := HuffCodes(t, huffsize, lastp);
    if !legal { return false, ehufco, ehufsi; }
    ok := IndexBySymbol(t, isDC, huffcode, huffsize, ehufco, ehufsi);
    if ok {
      Indexed(t, isDC, ehufco[..], ehufsi[..]);
    }
  }

  /** Figure C.3, refusing symbols that are out of range or listed twice. */
  method IndexBySymbol(t: Table, isDC: bool, huffcode: array<nat>, huffsize: array<nat>,
                       ehufco: array<nat>, ehufsi: array<nat>) returns (ok: bool)
    requires LegalTree(t) && huffcode.Length == huffsize.Length == 257
    requires forall p :: 0 <= p < Total(t) ==> huffcode[p] == CodeVal(t, p) && huffsize[p] == Len(t, p)
    requires ehufco.Length == ehufsi.Length == 256 && forall s :: 0 <= s < 256 ==> ehufsi[s] == 0
    requires ehufco != ehufsi && {ehufco, ehufsi} !! {huffcode, huffsize}
    modifies ehufco, ehufsi
    ensures ok <==> LegalC(t, isDC)
    ensures ok ==> IndexedUpTo(t, Total(t), ehufco[..], ehufsi[..])
  {
    var p := 0;
    assert IndexedUpTo(t, 0, ehufco[..], ehufsi[..]);
    while p < Total(t)
      invariant 0 <= p <= Total(t)
      invariant forall q :: 0 <= q < p ==> t.huffval[q] <= MaxSymbol(isDC)
      invariant forall q, r :: 0 <= q < r < p ==> t.huffval[q] != t.huffval[r]
      invariant IndexedUpTo(t, p, ehufco[..], ehufsi[..])
    {
      var i := t.huffval[p];
      if i > MaxSymbol(isDC) || ehufsi[i] != 0 {
        return false;
      }
      ghost var co, sz := ehufco[..], ehufsi[..];
      ehufco[i], ehufsi[i] := huffcode[p], huffsize[p];
      assert ehufco[..] == co[i := CodeVal(t, p)] && ehufsi[..] == sz[i := Len(t, p)];
      IndexStep(t, p, co, sz);
      p := p + 1;
    }
    ok := true;
  }

  ghost predicate IndexedUpTo(t: Table, p: nat, co: seq<nat>, si: seq<nat>)
    requires p <= Total(t) <= 256
  {
    && |co| == |si| == 256
    && (forall q :: 0 <= q < p ==> co[t.huffval[q]] == CodeVal(t, q) && si[t.huffval[q]] == Len(t, q))
    && (forall s :: 0 <= s < 256 && si[s] != 0 ==> exists q :: 0 <= q < p && t.huffval[q] == s)
  }

  lemma IndexStep(t: Table, p: nat, co: seq<nat>, si: seq<nat>)
    requires p < Total(t) <= 256 && IndexedUpTo(t, p, co, si) && si[t.huffval[p]] == 0
    ensures IndexedUpTo(t, p + 1, co[t.huffval[p] := CodeVal(t, p)], si[t.huffval[p] := Len(t, p)])
    ensures forall q :: 0 <= q < p ==> t.huffval[q] != t.huffval[p]
  {
    assert forall q :: 0 <= q < p ==> si[t.huffval[q]] == Len(t, q) > 0;
  }

  lemma Indexed(t: Table, isDC: bool, co: seq<nat>, si: seq<nat>)
    requires LegalC(t, isDC) && IndexedUpTo(t, Total(t), co, si)
    ensures Encodes(t, co, si)
  {
    forall s | 0 <= s < 256 && HasCode(t, s) ensures si[s] == |SymBits(t, s)| > 0 && ToBits(co[s], si[s]) == SymBits(t, s) {
      var p := IndexOf(t, s);
      assert si[t.huffval[p]] == Len(t, p) && co[t.huffval[p]] == CodeVal(t, p);
    }
  }

  const NUM_HUFF_TBLS: nat := 4

  /** The arrays hold the code of every symbol that has one, and size 0 elsewhere. */
  ghost predicate Encodes(t: Table, ehufco: seq<nat>, ehufsi: seq<nat>)
  {
    && |ehufco| == |ehufsi| == 256
    && forall s :: 0 <= s < 256 ==>
         if HasCode(t, s) then ehufsi[s] == |SymBits(t, s)| > 0 && ToBits(ehufco[s], ehufsi[s]) == SymBits(t, s)
         else ehufsi[s] == 0
  }

  // ---- The canonical code ----

  lemma {:induction false} FirstSkip(t: Table, l: nat, m: nat)
    requires 1 <= l < m <= 17 && Start(t, l + 1) == Start(t, m)
    ensures First(t, m) == Shl(First(t, l) + t.bits[l], m - l)
    decreases m
  {
    if m > l + 1 {
      StartMono(t, l + 1, m - 1);
      FirstSkip(t, l, m - 1);
    }
  }

  /** The codes in order of their symbols: the first is all zeroes, and each is the one before it
      plus one, lengthened with zeroes where the length grows. */
  lemma Canonical(t: Table, p: nat)
    requires p < Total(t)
    ensures p == 0 ==> CodeVal(t, p) == 0
    ensures p > 0 ==> Len(t, p - 1) <= Len(t, p) && CodeVal(t, p) == Shl(CodeVal(t, p - 1) + 1, Len(t, p) - Len(t, p - 1))
  {
    var l := Len(t, p);
    if p == 0 {
      NoShorter(t, l);
    } else {
      var k := Len(t, p - 1);
      if l < k { StartMono(t, l + 1, k); }
      if k < l {
        StartMono(t, k + 1, l);
        FirstSkip(t, k, l);
      }
    }
  }

  /** bits[l] symbols have a code of length l. */
  lemma LengthCount(t: Table, p: nat, l: nat)
    requires p < Total(t) && 1 <= l <= 16
    ensures Len(t, p) == l <==> Start(t, l) <= p < Start(t, l) + t.bits[l]
  {
    if Start(t, l) <= p < Start(t, l) + t.bits[l] { LenUnique(t, p, l); }
  }

  lemma {:induction false} TooMany(t: Table, l: nat) returns (p: nat)
    requires 1 <= l <= 16 && !FitsAt(t, l)
    ensures p < Total(t) && CodeVal(t, p) + 1 >= Pow2(Len(t, p))
    decreases l
  {
    if t.bits[l] > 0 {
      StartBound(t, l);
      p := Start(t, l) + t.bits[l] - 1;
      LenUnique(t, p, l);
    } else {
      p := TooMany(t, l - 1);
    }
  }

  /** The refusals in terms of the codes: more than 256 of them, or one that is all ones or does
      not fit its length; for the encoder also a repeated symbol, and in a DC table one above 15. */
  lemma LegalIs(t: Table)
    ensures LegalTree(t) <==> Total(t) <= 256 && forall p :: 0 <= p < Total(t) ==> CodeVal(t, p) + 1 < Pow2(Len(t, p))
    ensures LegalC(t, false) <==> LegalTree(t) && forall p, q :: 0 <= p < q < Total(t) ==> t.huffval[p] != t.huffval[q]
    ensures LegalC(t, true) <==> LegalC(t, false) && forall p :: 0 <= p < Total(t) ==> t.huffval[p] <= 15
    ensures LegalD(t, false) <==> LegalTree(t)
    ensures LegalD(t, true) <==> LegalTree(t) && forall p :: 0 <= p < Total(t) ==> t.huffval[p] <= 15
  {
    if LegalTree(t) {
      forall p | 0 <= p < Total(t) ensures CodeVal(t, p) + 1 < Pow2(Len(t, p)) { CodeFits(t, p); }
    } else if Total(t) <= 256 {
      var l :| 1 <= l <= 16 && !FitsAt(t, l);
      var p := TooMany(t, l);
    }
  }
}
