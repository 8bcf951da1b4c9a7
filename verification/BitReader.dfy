/** The bit reader of jdhuff.c and jdhuff.h: jpeg_fill_bit_buffer, GET_BITS and
    HUFF_DECODE over a source that may run out for a while. */
module BitReader {
  import opened Bits
  import opened Bytes
  import opened BitStream
  import opened HuffTable
  import opened HuffDecoder

  const MIN_GET_BITS: nat := 25

  /** A call that suspends has fewer arrived bits than this before it: the longest code and
      the bits that a refill asks for. */
  const MAX_AT_HAND: nat := 42

  /** bitread_working_state: the reading position, copied at the start of an MCU and
      stored back only when the MCU is complete. getBuffer is a 32-bit register of
      which only the low bitsLeft bits matter. */
  datatype BitState = BitState(next: nat, getBuffer: nat, bitsLeft: nat)

  /** The data bits the source holds from position p up to the next marker; none
      once a marker has been reached. */
  ghost function Ahead(data: seq<byte>, p: nat, unread: nat): Bits
    requires p <= |data|
  {
    if unread == 0 then Unpack(NextMarker(data[p..]).payload) else []
  }

  /** The marker that ends the segment being read at position p, and the bytes after it;
      marker 0 when there is none. */
  ghost function Closing(data: seq<byte>, p: nat, unread: nat): (nat, seq<byte>)
    requires p <= |data|
  {
    if unread == 0 then (NextMarker(data[p..]).marker, NextMarker(data[p..]).after) else (unread, data[p..])
  }

  /** The last `fake` of the `left` buffered bits are inserted zeroes. */
  ghost predicate Padded(buf: nat, left: nat, fake: nat)
  {
    fake <= left && forall i :: left - fake <= i < left ==> !ToBits(buf, left)[i]
  }

  /** How many bits of a segment are still to come, at least and at most. */
  datatype Gap = Gap(least: nat, most: nat)

  /** The bits from the first byte that has not arrived. The last byte that has may be an FF that
      is not complete without it. */
  ghost function Coming(data: seq<byte>, avail: nat): Gap
    requires avail <= |data|
  {
    var most := |Ahead(data, avail, 0)|;
    Gap(if avail > 0 && data[avail - 1] == 0xFF then |Unpack(AfterFF(data[avail..]).payload)| else most, most)
  }

  /** A reader may run out of data between a and b. */
  ghost predicate Between(a: Src, b: Src, g: Gap) { g.least <= |a.bits| && |b.bits| < MAX_AT_HAND + g.most }

  /** The buffered bits that came from the source. */
  ghost function Real(buf: nat, left: nat, fake: nat): (b: Bits)
    requires fake <= left
    ensures |b| == left - fake
  {
    ToBits(buf, left)[..left - fake]
  }

  /** The parts of the decompression object the bit reader shares with the marker
      reader. `data` is everything the source will ever deliver; the bytes from
      `avail` on have not arrived yet, and a read there is refused. */
  class Decompress {
    const data: seq<byte>
    var avail: nat
    var saved: BitState            // source position and bit buffer at the start of the MCU
    var unreadMarker: nat          // 0 when none is pending
    var insufficientData: bool
    var warnings: nat
    ghost var fake: nat            // inserted zeroes in the bit buffer

    ghost predicate Valid(st: BitState)
      reads `avail, `unreadMarker, `insufficientData, `fake
    {
      && st.next <= avail <= |data| && unreadMarker < 256
      && st.bitsLeft <= 32 && Padded(st.getBuffer, st.bitsLeft, fake)
      && (fake > 0 ==> unreadMarker != 0 && insufficientData)
    }

    /** What is still to be read from st in this segment. */
    ghost function Stream(st: BitState): Src
      requires Valid(st)
      reads `avail, `unreadMarker, `insufficientData, `fake, `warnings
    {
      Src(Real(st.getBuffer, st.bitsLeft, fake) + Ahead(data, st.next, unreadMarker), insufficientData, warnings)
    }

    /** The marker after the current segment, and what follows it. */
    ghost function Tail(st: BitState): (nat, seq<byte>)
      requires Valid(st)
      reads `avail, `unreadMarker, `insufficientData, `fake
    {
      Closing(data, st.next, unreadMarker)
    }

    ghost function ToCome(): Gap
      requires avail <= |data|
      reads `avail
    {
      Coming(data, avail)
    }

    constructor (data: seq<byte>)
      ensures this.data == data && Valid(saved) && saved == BitState(0, 0, 0)
      ensures avail == unreadMarker == warnings == fake == 0 && !insufficientData
    {
      this.data := data;
      avail, saved, unreadMarker, insufficientData, warnings, fake := 0, BitState(0, 0, 0), 0, false, 0, 0;
    }

    /** The source gets n more bytes, or all that are left. */
    method Arrive(n: nat)
      requires avail <= |data|
      modifies `avail
      ensures avail == if old(avail) + n <= |data| then old(avail) + n else |data|
      ensures forall st {:trigger Valid(st)} {:trigger Stream(st)} {:trigger Tail(st)} :: old(Valid(st)) ==>
        Valid(st) && Stream(st) == old(Stream(st)) && Tail(st) == old(Tail(st))
    {
      avail := if avail + n <= |data| then avail + n else |data|;
    }

    /** jpeg_fill_bit_buffer. A refusal changes nothing, and can only happen while
        no marker has been reached. */
    method FillBitBuffer(st: BitState, nbits: nat) returns (ok: bool, st': BitState)
      requires Valid(st) && st.bitsLeft < MIN_GET_BITS && nbits <= MIN_GET_BITS
      modifies `unreadMarker, `insufficientData, `warnings, `fake
      ensures !ok ==> unreadMarker == 0 && (avail < |data| || old(Tail(st)).0 == 0)
      ensures !ok ==> ToCome().least <= |old(Stream(st)).bits| < MIN_GET_BITS + ToCome().most
      ensures unreadMarker == 0 ==> unchanged(this)
      ensures ok ==> Valid(st') && Stream(st') == old(Stream(st)).Need(nbits) && Tail(st') == old(Tail(st))
      ensures warnings >= old(warnings)
      ensures ok ==> st'.bitsLeft >= nbits && (st'.bitsLeft >= MIN_GET_BITS || unreadMarker != 0)
    {
      hide Closing;
      hide Low;
      hide Shl;
      hide Real;
      hide Padded;
      ok, st' := true, st;
      if unreadMarker == 0 {
        ok, st' := Load(st);
        if !ok { return; }
      }
      if st'.bitsLeft < MIN_GET_BITS && nbits > st'.bitsLeft {
        if !insufficientData {
          warnings := warnings + 1;
          insufficientData := true;
        }
        var n := MIN_GET_BITS - st'.bitsLeft;
        PadZeroes(st'.getBuffer, st'.bitsLeft, fake, n);
        fake := fake + n;
        st' := st'.(getBuffer := Low(Shl(st'.getBuffer, n), 32), bitsLeft := MIN_GET_BITS);
      }
    }

    /** The loading loop: stops with a full buffer or at a marker. */
    method Load(st: BitState) returns (ok: bool, st': BitState)
      requires Valid(st) && unreadMarker == 0 && st.bitsLeft < MIN_GET_BITS
      modifies `unreadMarker
      ensures !ok ==> unchanged(this) && (avail < |data| || old(Tail(st)).0 == 0)
      ensures !ok ==> ToCome().least <= |old(Stream(st)).bits| < MIN_GET_BITS + ToCome().most
      ensures ok ==> Valid(st') && Stream(st') == old(Stream(st)) && Tail(st') == old(Tail(st))
      ensures ok ==> st'.bitsLeft >= MIN_GET_BITS || unreadMarker != 0
    {
      hide Real;
      hide Padded;
      hide Low;
      hide Shl;
      st' := st;
      while st'.bitsLeft < MIN_GET_BITS
        modifies `unreadMarker
        invariant unreadMarker == 0 && Valid(st') && Stream(st') == old(Stream(st)) && Tail(st') == old(Tail(st))
        decreases 32 - st'.bitsLeft
      {
        var arrived, c, pos, isMarker := NextByte(st'.next);
        if !arrived { return false, st; }
        if isMarker {
          unreadMarker := c;
          return true, st'.(next := pos);
        }
        LoadOne(st', c, pos);
        st' := BitState(pos, Low(Shl(st'.getBuffer, 8) + c, 32), st'.bitsLeft + 8);
      }
      return true, st';
    }

    /** Loading a data byte leaves what is to be read as it was. */
    lemma LoadOne(st: BitState, c: byte, pos: nat)
      requires Valid(st) && unreadMarker == 0 && st.bitsLeft < MIN_GET_BITS && pos <= avail
      requires Ahead(data, st.next, 0) == ToBits(c, 8) + Ahead(data, pos, 0) && Closing(data, st.next, 0) == Closing(data, pos, 0)
      ensures Shl(st.getBuffer, 8) + c >= 0
      ensures var st' := BitState(pos, Low(Shl(st.getBuffer, 8) + c, 32), st.bitsLeft + 8);
              Valid(st') && Stream(st') == Stream(st) && Tail(st') == Tail(st)
    {
      hide Ahead;
      hide Closing;
      hide Real;
      hide Padded;
      hide Low;
      hide Shl;
      LoadByte(st.getBuffer, st.bitsLeft, c, Ahead(data, pos, 0));
    }

    /** The next data byte, with stuffing removed, or the marker that ends the segment. */
    method NextByte(p: nat) returns (arrived: bool, c: byte, pos: nat, isMarker: bool)
      requires p <= avail <= |data|
      ensures !arrived ==> avail < |data| || Closing(data, p, 0).0 == 0
      ensures !arrived ==> ToCome().least <= |Ahead(data, p, 0)| <= ToCome().most
      ensures arrived ==> p < pos <= avail
      ensures arrived && !isMarker ==> Ahead(data, p, 0) == ToBits(c, 8) + Ahead(data, pos, 0)
      ensures arrived && !isMarker ==> Closing(data, p, 0) == Closing(data, pos, 0)
      ensures arrived && isMarker ==> c != 0 && Ahead(data, p, 0) == [] && Closing(data, p, 0) == (c, data[pos..])
    {
      if p == avail {
        LeastMost(data, p);
        return false, 0, p, false;
      }
      if data[p] != 0xFF {
        ScanPlain(data, p);
        return true, data[p], p + 1, false;
      }
      arrived, c, pos := SkipFF(p + 1);
      if !arrived {
        if avail == |data| { ScanAllFF(data, p); }
        ScanSomeFF(data, p, avail);
        return false, 0, p, false;
      }
      ScanFF(data, p, pos, c);
      if c == 0 {
        return true, 0xFF, pos, false;
      }
      return true, c, pos, true;
    }

    /** After an FF: skip further FFs and return the byte that follows. */
    method SkipFF(first: nat) returns (arrived: bool, c: byte, pos: nat)
      requires first <= avail <= |data|
      ensures !arrived ==> forall i :: first <= i < avail ==> data[i] == 0xFF
      ensures arrived ==> first < pos <= avail && c == data[pos - 1] != 0xFF
      ensures arrived ==> forall i :: first <= i < pos - 1 ==> data[i] == 0xFF
    {
      c, pos := 0xFF, first;
      while c == 0xFF
        invariant first <= pos <= avail
        invariant forall i :: first <= i < pos - 1 ==> data[i] == 0xFF
        invariant pos > first ==> c == data[pos - 1]
        invariant pos == first ==> c == 0xFF
        decreases avail - pos
      {
        if pos == avail { return false, 0, pos; }
        c := data[pos];
        pos := pos + 1;
      }
      return true, c, pos;
    }

    /** CHECK_BIT_BUFFER followed by GET_BITS. */
    method GetBits(st: BitState, nbits: nat) returns (ok: bool, r: nat, st': BitState)
      requires Valid(st) && nbits <= 16
      modifies `unreadMarker, `insufficientData, `warnings, `fake
      ensures !ok ==> unreadMarker == 0 && (avail < |data| || old(Tail(st)).0 == 0)
      ensures !ok ==> ToCome().least <= |old(Stream(st)).bits| < MIN_GET_BITS + ToCome().most
      ensures !ok ==> Between(old(Stream(st)), old(Stream(st)), ToCome())
      ensures unreadMarker == 0 ==> unchanged(this)
      ensures warnings >= old(warnings)
      ensures ok ==> Valid(st') && r == old(Stream(st)).Peek(nbits) && Stream(st') == old(Stream(st)).Drop(nbits) && Tail(st') == old(Tail(st))
    {
      hide *;
      ok, r, st' := true, 0, st;
      NeedTake(Stream(st), nbits);
      Taken(Stream(st), 0);
      RunsOut(Stream(st));
      if st.bitsLeft < nbits {
        ok, st' := FillBitBuffer(st, nbits);
        if !ok { return; }
      }
      r, st' := Fetch(st', nbits);
    }

    /** GET_BITS from a buffer that holds enough. */
    method Fetch(st: BitState, nbits: nat) returns (r: nat, st': BitState)
      requires Valid(st) && nbits <= st.bitsLeft
      modifies `fake
      ensures unreadMarker == 0 ==> unchanged(this)
      ensures Valid(st') && r == old(Stream(st)).Peek(nbits) && Stream(st') == old(Stream(st)).Drop(nbits) && Tail(st') == old(Tail(st))
    {
      TakeBits(st.getBuffer, st.bitsLeft, fake, nbits, Ahead(data, st.next, unreadMarker), insufficientData, warnings);
      var left := st.bitsLeft - nbits;
      r, st' := Low(Shr(st.getBuffer, left), nbits), st.(bitsLeft := left);
      fake := if fake <= left then fake else left;
    }

    /** jpeg_huff_decode: the code is known to be at least minBits long. */
    method SlowDecode(st: BitState, htbl: DDerivedTbl, minBits: nat, ghost goal: (byte, Src)) returns (ok: bool, sym: byte, st': BitState)
      requires Valid(st) && htbl.ValidCodes() && 1 <= minBits <= 9
      requires First(htbl.pub, minBits) <= Stream(st).Peek(minBits)
      requires goal == Serial(htbl.pub, Stream(st).Peek(minBits), minBits, Stream(st).Drop(minBits))
      modifies `unreadMarker, `insufficientData, `warnings, `fake
      ensures !ok ==> unreadMarker == 0 && unchanged(this) && (avail < |data| || old(Tail(st)).0 == 0)
      ensures !ok ==> Between(old(Stream(st)), old(Stream(st)), ToCome())
      ensures unreadMarker == 0 ==> unchanged(`unreadMarker) && unchanged(`insufficientData) && unchanged(`fake)
      ensures warnings >= old(warnings)
      ensures ok ==> Valid(st') && (sym, Stream(st')) == goal && Tail(st') == old(Tail(st))
    {
      hide *;
      var code: nat, l: nat;
      sym := 0;
      Taken(Stream(st), minBits);
      RunsOut(Stream(st));
      ok, code, st' := GetBits(st, minBits);
      if !ok { return; }
      ok, code, l, st' := CodeLoop(st', htbl, code, minBits);
      if !ok { return; }
      htbl.MaxcodeAt(l);
      SerialStop(htbl.pub, code, l, Stream(st'));
      if l > 16 {
        Warn(st');
      } else {
        sym := htbl.pub.huffval[code + htbl.valoffset[l]];
      }
    }

    /** Lengthen the code bit by bit until its value is within the range of its length. */
    method CodeLoop(st: BitState, htbl: DDerivedTbl, code0: nat, l0: nat) returns (ok: bool, code: nat, l: nat, st': BitState)
      requires Valid(st) && htbl.ValidCodes() && 1 <= l0 <= 17 && First(htbl.pub, l0) <= code0 < Pow2(l0)
      modifies `unreadMarker, `insufficientData, `warnings, `fake
      ensures !ok ==> unreadMarker == 0 && (avail < |data| || old(Tail(st)).0 == 0)
      ensures !ok ==> ToCome().least <= |old(Stream(st)).bits| < MIN_GET_BITS + 17 - l0 + ToCome().most
      ensures unreadMarker == 0 ==> unchanged(this)
      ensures warnings >= old(warnings)
      ensures ok ==> Valid(st') && Tail(st') == old(Tail(st)) && 1 <= l <= 17 && First(htbl.pub, l) <= code < Pow2(l)
      ensures ok ==> code <= if l == 17 then 0xFFFFF else MaxCode(htbl.pub, l)
      ensures ok ==> Serial(htbl.pub, code, l, Stream(st')) == Serial(htbl.pub, code0, l0, old(Stream(st)))
    {
      hide Serial;
      hide First;
      hide MaxCode;
      hide Pow2;
      ok, code, l, st' := true, code0, l0, st;
      htbl.MaxcodeAt(l);
      while code > htbl.maxcode[l]
        invariant Valid(st') && Tail(st') == old(Tail(st)) && l0 <= l <= 17 && First(htbl.pub, l) <= code < Pow2(l)
        invariant htbl.maxcode[l] == if l == 17 then 0xFFFFF else MaxCode(htbl.pub, l)
        invariant Serial(htbl.pub, code, l, Stream(st')) == Serial(htbl.pub, code0, l0, old(Stream(st)))
        invariant |Stream(st').bits| <= |old(Stream(st)).bits| <= |Stream(st').bits| + l - l0
        invariant unreadMarker == 0 ==> unchanged(this)
        invariant warnings >= old(warnings)
        decreases 17 - l
      {
        ok, code, st' := NextCodeBit(st', htbl.pub, code, l);
        if !ok { return; }
        l := l + 1;
        htbl.MaxcodeAt(l);
      }
    }

    /** One round of the code loop: append a bit to the code. */
    method NextCodeBit(st: BitState, ghost t: Table, code: nat, l: nat) returns (ok: bool, code': nat, st': BitState)
      requires Valid(st) && Total(t) <= 256 && 1 <= l <= 17 && First(t, l) <= code < Pow2(l)
      requires code > if l == 17 then 0xFFFFF else MaxCode(t, l)
      modifies `unreadMarker, `insufficientData, `warnings, `fake
      ensures !ok ==> unreadMarker == 0 && (avail < |data| || old(Tail(st)).0 == 0)
      ensures !ok ==> l <= 16 && ToCome().least <= |old(Stream(st)).bits| < MIN_GET_BITS + ToCome().most
      ensures unreadMarker == 0 ==> unchanged(this)
      ensures warnings >= old(warnings)
      ensures ok ==> Valid(st') && Tail(st') == old(Tail(st)) && l <= 16 && First(t, l + 1) <= code' < Pow2(l + 1)
      ensures ok ==> |Stream(st').bits| <= |old(Stream(st)).bits| <= |Stream(st').bits| + 1
      ensures ok ==> Serial(t, code', l + 1, Stream(st')) == Serial(t, code, l, old(Stream(st)))
    {
      SerialStep(t, code, l, Stream(st));
      ok, code', st' := GetBits(st, 1);
      code' := 2 * code + code';
    }

    /** WARNMS. */
    method Warn(st: BitState)
      requires Valid(st)
      modifies `warnings
      ensures Valid(st) && Stream(st) == old(Stream(st)).Warn() && Tail(st) == old(Tail(st)) && warnings == old(warnings) + 1
    {
      warnings := warnings + 1;
    }

    /** HUFF_DECODE: lookahead on the next 8 bits, and the slow way when that fails. */
    method HuffDecode(st: BitState, htbl: DDerivedTbl) returns (ok: bool, sym: byte, st': BitState)
      requires Valid(st) && htbl.Valid()
      modifies `unreadMarker, `insufficientData, `warnings, `fake
      ensures !ok ==> unreadMarker == 0 && unchanged(this) && (avail < |data| || old(Tail(st)).0 == 0)
      ensures !ok ==> Between(old(Stream(st)), old(Stream(st)), ToCome())
      ensures unreadMarker == 0 ==> unchanged(`unreadMarker) && unchanged(`insufficientData) && unchanged(`fake)
      ensures warnings >= old(warnings)
      ensures ok ==> Valid(st') && (sym, Stream(st')) == DecodeSym(htbl.pub, old(Stream(st))) && Tail(st') == old(Tail(st))
    {
      hide Serial;
      hide First;
      hide Hit;
      hide HitSym;
      hide DecodeSym;
      hide Ahead;
      hide Closing;
      hide Real;
      hide Padded;
      ghost var goal := DecodeSym(htbl.pub, Stream(st));
      ok, sym, st' := true, 0, st;
      if st.bitsLeft < HUFF_LOOKAHEAD {
        ok, st' := FillBitBuffer(st, 0);
        if !ok { return; }
        if st'.bitsLeft < HUFF_LOOKAHEAD {
          SerialSkip(htbl.pub, Stream(st'), 1);
          ok, sym, st' := SlowDecode(st', htbl, 1, goal);
          return;
        }
      }
      ghost var s := Stream(st');
      var look := PeekBits(st', HUFF_LOOKAHEAD);
      var nb := htbl.lookNbits[look];
      if nb != 0 {
        LookaheadHit(htbl.pub, s, nb);
        sym := htbl.lookSym[look];
        var _, st2 := Fetch(st', nb);
        st' := st2;
      } else {
        LookaheadMiss(htbl.pub, s, HUFF_LOOKAHEAD + 1);
        ok, sym, st' := SlowDecode(st', htbl, HUFF_LOOKAHEAD + 1, goal);
      }
    }

    /** PEEK_BITS. */
    method PeekBits(st: BitState, nbits: nat) returns (r: nat)
      requires Valid(st) && nbits <= st.bitsLeft
      ensures r == Stream(st).Peek(nbits)
    {
      TakeBits(st.getBuffer, st.bitsLeft, fake, nbits, Ahead(data, st.next, unreadMarker), insufficientData, warnings);
      r := Low(Shr(st.getBuffer, st.bitsLeft - nbits), nbits);
    }
  }

  lemma Taken(s: Src, n: nat)
    ensures |s.Drop(n).bits| <= |s.bits| <= |s.Drop(n).bits| + n && MAX_AT_HAND == MIN_GET_BITS + 17
  {
  }

  /** Running out while reading at s. */
  lemma RunsOut(s: Src)
    ensures forall g :: Between(s, s, g) <==> g.least <= |s.bits| < MAX_AT_HAND + g.most
  {
  }

  /** Requesting bits before taking them is taking them. */
  lemma NeedTake(s: Src, n: nat)
    ensures s.Need(n).Peek(n) == s.Peek(n) && s.Need(n).Drop(n) == s.Drop(n) && MIN_GET_BITS == 25
  {
  }

  /** maxcode[17] stops every decoding attempt. */
  lemma Sentinel()
    ensures Pow2(17) == 0x20000
  {
    assert Pow2(5) == 32;
    assert Pow2(9) == 512;
    assert Pow2(13) == 8192;
  }

  /** One round of the code loop. */
  lemma SerialStep(t: Table, code: nat, l: nat, s: Src)
    requires Total(t) <= 256 && 1 <= l <= 17 && First(t, l) <= code < Pow2(l)
    requires code > if l == 17 then 0xFFFFF else MaxCode(t, l)
    ensures l <= 16 && First(t, l + 1) <= 2 * code + s.Peek(1) < Pow2(l + 1)
    ensures Serial(t, code, l, s) == Serial(t, 2 * code + s.Peek(1), l + 1, s.Drop(1))
  {
    hide Serial;
    StepBounds(t, code, l, s.Peek(1));
    SerialMore(t, code, l, s);
  }

  lemma StepBounds(t: Table, code: nat, l: nat, bit: nat)
    requires 1 <= l <= 17 && First(t, l) <= code < Pow2(l) && bit < Pow2(1)
    requires code > if l == 17 then 0xFFFFF else MaxCode(t, l)
    ensures l <= 16 && First(t, l + 1) <= 2 * code + bit < Pow2(l + 1)
  {
    Sentinel();
    assert Pow2(1) == 2;
  }

  /** The end of the code loop. */
  lemma SerialStop(t: Table, code: nat, l: nat, s: Src)
    requires Total(t) <= 256 && 1 <= l <= 17 && First(t, l) <= code < Pow2(l)
    requires code <= if l == 17 then 0xFFFFF else MaxCode(t, l)
    ensures l <= 16 ==> 0 <= Start(t, l) + code - First(t, l) < 256 && t.bits[l] > 0
    ensures Serial(t, code, l, s) == if l == 17 then (0, s.Warn()) else (t.huffval[Start(t, l) + code - First(t, l)], s)
  {
    if l <= 16 { StartBound(t, l); }
  }

  /** A byte other than FF is one byte of data. */
  lemma ScanPlain(data: seq<byte>, p: nat)
    requires p < |data| && data[p] != 0xFF
    ensures Ahead(data, p, 0) == ToBits(data[p], 8) + Ahead(data, p + 1, 0)
    ensures Closing(data, p, 0) == Closing(data, p + 1, 0)
  {
    assert data[p..][1..] == data[p + 1..];
    UnpackCons(data[p], NextMarker(data[p + 1..]).payload);
  }

  /** FF, more FFs and then a zero are one data byte FF; with anything else they are a marker. */
  lemma ScanFF(data: seq<byte>, p: nat, q: nat, c: byte)
    requires p < |data| && data[p] == 0xFF && p + 1 < q <= |data| && c == data[q - 1] != 0xFF
    requires forall i :: p < i < q - 1 ==> data[i] == 0xFF
    ensures Ahead(data, p, 0) == if c == 0 then ToBits(0xFF, 8) + Ahead(data, q, 0) else []
    ensures Closing(data, p, 0) == if c == 0 then Closing(data, q, 0) else (c, data[q..])
  {
    assert data[p..][1..] == data[p + 1..];
    SkipFFs(data, p + 1, q - 1);
    assert data[q - 1..][1..] == data[q..];
    if c == 0 { UnpackCons(0xFF, NextMarker(data[q..]).payload); }
  }

  /** FFs to the very end: no marker. */
  lemma ScanAllFF(data: seq<byte>, p: nat)
    requires p < |data| && forall i :: p <= i < |data| ==> data[i] == 0xFF
    ensures Closing(data, p, 0).0 == 0
  {
    assert data[p..][1..] == data[p + 1..];
    SkipFFs(data, p + 1, |data|);
  }

  /** An unfinished run of FFs holds no more data than what follows it. */
  lemma ScanSomeFF(data: seq<byte>, p: nat, q: nat)
    requires p < q <= |data| && forall i :: p <= i < q ==> data[i] == 0xFF
    ensures Coming(data, q).least == |Ahead(data, p, 0)| <= |Ahead(data, q, 0)|
  {
    assert data[p..][1..] == data[p + 1..];
    SkipFFs(data, p + 1, q);
    var s := data[q..];
    assert |AfterFF(s).payload| <= |NextMarker(s).payload|;
  }

  lemma LeastMost(data: seq<byte>, q: nat)
    requires q <= |data|
    ensures Coming(data, q).least <= |Ahead(data, q, 0)|
  {
    var s := data[q..];
    assert |AfterFF(s).payload| <= |NextMarker(s).payload|;
  }

  lemma {:induction false} SkipFFs(data: seq<byte>, p: nat, q: nat)
    requires p <= q <= |data| && forall i :: p <= i < q ==> data[i] == 0xFF
    ensures AfterFF(data[p..]) == AfterFF(data[q..])
    decreases q - p
  {
    if p < q {
      assert data[p..][1..] == data[p + 1..];
      SkipFFs(data, p + 1, q);
    }
  }

  lemma UnpackCons(c: byte, s: seq<byte>)
    ensures Unpack([c] + s) == ToBits(c, 8) + Unpack(s)
  {
    assert ([c] + s)[1..] == s;
  }

  /** Shifting a byte into the buffer appends its bits. */
  lemma LoadByte(buf: nat, left: nat, c: byte, ahead: Bits)
    requires left <= 24
    ensures Shl(buf, 8) + c >= 0 && Padded(Low(Shl(buf, 8) + c, 32), left + 8, 0)
    ensures Real(Low(Shl(buf, 8) + c, 32), left + 8, 0) + ahead == Real(buf, left, 0) + (ToBits(c, 8) + ahead)
  {
    ToBitsConcat(buf, left, c, 8);
    ToBitsLow(Shl(buf, 8) + c, left + 8, 32);
    ShlNonneg(buf, 8);
  }

  lemma ShlNonneg(v: nat, n: nat)
    ensures Shl(v, n) >= 0
  {
  }

  /** Shifting in zeroes at a marker: the real bits stay in front. */
  lemma PadZeroes(buf: nat, left: nat, fake: nat, n: nat)
    requires left + n <= 32 && Padded(buf, left, fake)
    ensures Padded(Low(Shl(buf, n), 32), left + n, fake + n)
    ensures Real(Low(Shl(buf, n), 32), left + n, fake + n) == Real(buf, left, fake)
  {
    ToBitsConcat(buf, left, 0, n);
    ZeroBits(n);
    ToBitsLow(Shl(buf, n), left + n, 32);
  }

  /** Fetching n buffered bits: what they are worth, and what stays. */
  lemma TakeBits(buf: nat, left: nat, fake: nat, n: nat, ahead: Bits, starved: bool, warnings: nat)
    requires n <= left && Padded(buf, left, fake)
    requires fake > 0 ==> ahead == [] && starved
    ensures var s := Src(Real(buf, left, fake) + ahead, starved, warnings);
            var fake' := if fake <= left - n then fake else left - n;
            && Low(Shr(buf, left - n), n) == s.Peek(n)
            && Padded(buf, left - n, fake')
            && Src(Real(buf, left - n, fake') + ahead, starved, warnings) == s.Drop(n)
  {
    var s := Src(Real(buf, left, fake) + ahead, starved, warnings);
    var head, tail := ToBits(Shr(buf, left - n), n), ToBits(buf, left - n);
    ToBitsSplit(buf, n, left - n);
    FromTo(Shr(buf, left - n), n);
    TakeFrom(ToBits(buf, left), left, head, tail, fake, n, ahead, starved, warnings);
    assert s.Ext(n) == head;
  }

  lemma TakeFrom(b: Bits, left: nat, head: Bits, tail: Bits, fake: nat, n: nat, ahead: Bits, starved: bool, warnings: nat)
    requires fake <= left == |b| && b == head + tail && |head| == n
    requires forall i :: left - fake <= i < left ==> !b[i]
    requires fake > 0 ==> ahead == [] && starved
    ensures Src(b[..left - fake] + ahead, starved, warnings).Ext(n) == head
    ensures var fake' := if fake <= left - n then fake else left - n;
            && (forall i :: left - n - fake' <= i < left - n ==> !tail[i])
            && Src(tail[..left - n - fake'] + ahead, starved, warnings) == Src(b[..left - fake] + ahead, starved, warnings).Drop(n)
  {
    assert forall i :: 0 <= i < left - n ==> tail[i] == b[n + i];
    assert forall i :: 0 <= i < n ==> head[i] == b[i];
    if fake <= left - n {
      assert (b[..left - fake] + ahead)[n..] == tail[..left - n - fake] + ahead;
    }
  }
}
