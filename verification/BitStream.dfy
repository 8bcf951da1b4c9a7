/** The bits an entropy decoder still has before the next marker, as
    jpeg_fill_bit_buffer doles them out: past the end it reads zeroes, and the
    first such read in a segment raises one warning. */
module BitStream {
  import opened Bits

  datatype Src = Src(bits: Bits, starved: bool, warnings: nat) {
    /** The first n bits, zero-extended. */
    function Ext(n: nat): (b: Bits)
      ensures |b| == n
    {
      if n <= |bits| then bits[..n] else bits + Repeat(false, n - |bits|)
    }

    function Peek(n: nat): (v: nat)
      ensures v < Pow2(n)
    {
      FromBits(Ext(n))
    }

    /** The stream after n bits have been requested: too few of them starve it. */
    function Need(n: nat): Src
    {
      if n <= |bits| then this else Src(bits, true, if starved then warnings else warnings + 1)
    }

    /** The stream after n bits have been requested and removed. */
    function Drop(n: nat): Src
    {
      if n <= |bits| then Src(bits[n..], starved, warnings)
      else Src([], true, if starved then warnings else warnings + 1)
    }

    function Warn(): Src { this.(warnings := warnings + 1) }
  }

  /** Requesting m + n bits is requesting m and then n. */
  lemma TakeSplit(s: Src, m: nat, n: nat)
    ensures s.Drop(m + n) == s.Drop(m).Drop(n)
    ensures s.Ext(m + n) == s.Ext(m) + s.Drop(m).Ext(n)
    ensures s.Peek(m + n) == Shl(s.Peek(m), n) + s.Drop(m).Peek(n)
  {
    assert s.Ext(m + n) == s.Ext(m) + s.Drop(m).Ext(n);
    FromBitsConcat(s.Ext(m), s.Drop(m).Ext(n));
    if m + n <= |s.bits| {
      assert s.bits[m + n..] == s.bits[m..][n..];
    }
  }

  /** Bits that were just written come back, and nothing after them is touched. */
  lemma TakeWritten(v: int, n: nat, rest: Bits, starved: bool, warnings: nat)
    ensures var s := Src(ToBits(v, n) + rest, starved, warnings);
            s.Peek(n) == Low(v, n) && s.Drop(n) == Src(rest, starved, warnings)
  {
    var s := Src(ToBits(v, n) + rest, starved, warnings);
    assert s.Ext(n) == ToBits(v, n);
    assert s.bits[n..] == rest;
    FromTo(v, n);
  }
}
