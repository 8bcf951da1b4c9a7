/** emit_bits and flush_bits of jchuff.c and jcphuff.c: the put_buffer that
    turns codes into stuffed bytes. */
module BitWriter {
  import opened Bits
  import opened Bytes

  class Writer {
    var out: seq<byte>       // bytes delivered to the destination
    var putBuffer: nat       // 24 bits wide; those that are pending come first
    var putBits: nat
    ghost var done: seq<byte>  // bytes of earlier segments and markers
    ghost var whole: Bits      // bits of this segment already written as bytes
    ghost var part: Bits       // bits still in putBuffer

    ghost predicate Valid()
      reads this
    {
      && |whole| % 8 == 0 && putBits == |part| < 8
      && out == done + Stuff(Pack(whole))
      && ToBits(putBuffer, 24) == part + Repeat(false, 24 - putBits)
    }

    /** The bits emitted so far in this segment. */
    ghost function Contents(): Bits
      reads this
    {
      whole + part
    }

    constructor ()
      ensures Valid() && Contents() == [] && done == []
    {
      out, putBuffer, putBits := [], 0, 0;
      done, whole, part := [], [], [];
      new;
      ZeroBits(24);
    }

    /** Fails only for size 0, the mark of a symbol without a code. */
    method EmitBits(code: int, size: nat) returns (ok: bool)
      requires Valid() && size <= 16
      modifies this
      ensures ok <==> size != 0
      ensures Valid() && done == old(done)
      ensures Contents() == old(Contents()) + ToBits(code, size)
    {
      hide Pack;
      hide Stuff;
      hide ToBits;
      hide Low;
      hide Shl;
      NoBits(code);
      if size == 0 { return false; }
      var pb: nat := Low(code, size);
      var n := putBits + size;
      MergeBits(pb, size, putBuffer, part);
      pb := Shl(pb, 24 - n);
      pb := pb + putBuffer;    // or-ing disjoint bit fields is addition
      ToBitsLow(code, size, size);
      WriteWholeBytes(pb, n, part + ToBits(code, size));
      return true;
    }

    /** The output loop of emit_bits: n bits are buffered in pb. */
    method WriteWholeBytes(pb0: nat, n0: nat, ghost all: Bits)
      requires |whole| % 8 == 0 && out == done + Stuff(Pack(whole))
      requires n0 == |all| <= 23 && ToBits(pb0, 24) == all + Repeat(false, 24 - n0)
      modifies this
      ensures Valid() && done == old(done)
      ensures Contents() == old(whole) + all
    {
      hide Pack;
      hide Stuff;
      hide ToBits;
      hide FromBits;
      hide Low;
      hide Shl;
      hide Shr;
      var bytes, pb, n := out, pb0, n0;
      ghost var w, p := whole, all;
      while n >= 8
        modifies {}
        invariant n == |p| <= 23 && |w| % 8 == 0 && w + p == whole + all
        invariant bytes == done + Stuff(Pack(w))
        invariant ToBits(pb, 24) == p + Repeat(false, 24 - n)
      {
        var c := Low(Shr(pb, 16), 8);
        TopByte(pb, p);
        bytes := bytes + [c];
        if c == 0xFF {
          bytes := bytes + [0];
        }
        ByteOut(done, w, p);
        w, p := w + p[..8], p[8..];
        pb := Low(Shl(pb, 8), 32);
        n := n - 8;
      }
      out, putBuffer, putBits := bytes, pb, n;
      whole, part := w, p;
    }

    /** Pad to a byte boundary with ones. */
    method FlushBits()
      requires Valid()
      modifies this
      ensures Valid() && Contents() == []
      ensures out == done == old(done) + SegBytes(old(Contents()))
    {
      hide Pack;
      hide Stuff;
      hide PadOnes;
      hide Low;
      hide Shl;
      ghost var before := Contents();
      var _ := EmitBits(0x7F, 7);
      SevenOnes();
      FlushPads(before, whole, part);
      putBuffer, putBits := 0, 0;
      done, whole, part := out, [], [];
      ZeroBits(24);
      NoBytes();
    }

    /** A marker follows a flushed segment. */
    method EmitMarker(m: byte)
      requires Valid() && Contents() == []
      modifies this
      ensures Valid() && Contents() == []
      ensures out == done == old(out) + [0xFF, m]
    {
      out := out + [0xFF] + [m];
      done := out;
    }
  }

  lemma NoBits(v: int)
    ensures ToBits(v, 0) == []
  {
  }

  lemma NoBytes()
    ensures Stuff(Pack([])) == []
  {
  }

  /** Moving the first 8 buffered bits to the output. */
  lemma ByteOut(done: seq<byte>, whole: Bits, part: Bits)
    requires |whole| % 8 == 0 && |part| >= 8
    ensures |whole + part[..8]| % 8 == 0 && whole + part[..8] + part[8..] == whole + part
    ensures done + Stuff(Pack(whole + part[..8])) == done + Stuff(Pack(whole)) + StuffByte(FromBits(part[..8]))
  {
    var group := part[..8];
    PackSnoc(whole, group);
    StuffConcat(Pack(whole), [FromBits(group)]);
    assert Stuff([FromBits(group)]) == StuffByte(FromBits(group)) + [];
  }

  lemma SevenOnes()
    ensures ToBits(0x7F, 7) == Repeat(true, 7)
  {
    assert ToBits(1, 1) == ToBits(0, 0) + [true] == [true];
    assert ToBits(3, 2) == [true, true];
    assert ToBits(7, 3) == [true, true, true];
    assert ToBits(15, 4) == [true, true, true, true];
    assert ToBits(31, 5) == [true, true, true, true, true];
    assert ToBits(63, 6) == [true, true, true, true, true, true];
  }

  lemma {:induction false} LowZeros(y: nat, n: nat)
    requires ToBits(y, n) == Repeat(false, n)
    ensures y == Shl(Shr(y, n), n)
  {
    if n > 0 {
      assert ToBits(y, n)[n - 1] == (y % 2 == 1);
      assert ToBits(y / 2, n - 1) == ToBits(y, n)[..n - 1] == Repeat(false, n - 1);
      LowZeros(y / 2, n - 1);
      ShrHalf(y, n);
    }
  }

  /** Or-ing an s-bit code in just below the bits already buffered. */
  lemma MergeBits(c: nat, s: nat, y: nat, part: Bits)
    requires |part| < 8 && s <= 16 && c < Pow2(s)
    requires ToBits(y, 24) == part + Repeat(false, 24 - |part|)
    ensures 0 <= Shl(c, 24 - |part| - s)
    ensures ToBits(Shl(c, 24 - |part| - s) + y, 24) == part + ToBits(c, s) + Repeat(false, 24 - |part| - s)
  {
    var p := |part|;
    var n := 24 - p - s;
    var q := Shr(y, 24 - p);
    ToBitsSplit(y, p, 24 - p);
    assert ToBits(y, 24)[..p] == part && ToBits(y, 24)[p..] == Repeat(false, 24 - p);
    LowZeros(y, 24 - p);
    ToBitsConcat(c, s, 0, n);
    ZeroBits(n);
    ShlRange(c, s, n);
    ToBitsConcat(q, p, Shl(c, n), 24 - p);
  }

  lemma ShlRange(c: nat, s: nat, n: nat)
    requires c < Pow2(s)
    ensures 0 <= Shl(c, n) < Pow2(s + n)
  {
    ShlMono(c + 1, Pow2(s), n);
    ShlPow2(s, n);
    ShlSucc(c, n);
    ShlMono(0, c, n);
    ShlZero(n);
  }

  lemma TopByte(pb: nat, part: Bits)
    requires 8 <= |part| <= 23
    requires ToBits(pb, 24) == part + Repeat(false, 24 - |part|)
    ensures Low(Shr(pb, 16), 8) == FromBits(part[..8])
    ensures ToBits(Low(Shl(pb, 8), 32), 24) == part[8..] + Repeat(false, 32 - |part|)
  {
    ToBitsSplit(pb, 8, 16);
    FromTo(Shr(pb, 16), 8);
    assert ToBits(pb, 24)[..8] == part[..8];
    assert ToBits(pb, 24)[8..] == part[8..] + Repeat(false, 24 - |part|);
    ShiftByte(pb);
    assert part[8..] + Repeat(false, 24 - |part|) + Repeat(false, 8) == part[8..] + Repeat(false, 32 - |part|);
  }

  lemma ShiftByte(pb: nat)
    ensures ToBits(Low(Shl(pb, 8), 32), 24) == ToBits(pb, 16) + Repeat(false, 8)
  {
    ShlMono(0, pb, 8);
    ShlZero(8);
    ToBitsConcat(pb, 16, 0, 8);
    ZeroBits(8);
    ToBitsLow(Shl(pb, 8), 24, 32);
  }

  /** Seven ones either complete the last byte or are dropped with nothing to complete. */
  lemma FlushPads(before: Bits, whole: Bits, part: Bits)
    requires |whole| % 8 == 0 && |part| < 8 && whole + part == before + Repeat(true, 7)
    ensures whole == PadOnes(before)
  {
    assert whole == (whole + part)[..|whole|];
  }
}
