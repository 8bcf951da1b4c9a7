/** Entropy-coded segments as bytes: packing, zero stuffing and padding
    (section B.1.1.5 of T.81), and finding the marker that ends a segment. */
module Bytes {
  import opened Bits

  /** Whole bytes of a bit string; up to 7 trailing bits are left out. */
  function Pack(b: Bits): seq<byte>
  {
    if |b| < 8 then [] else [FromBits(b[..8])] + Pack(b[8..])
  }

  function Unpack(s: seq<byte>): (b: Bits)
    ensures |b| == 8 * |s|
  {
    if s == [] then [] else ToBits(s[0], 8) + Unpack(s[1..])
  }

  /** A zero follows each FF so that no data byte looks like a marker. */
  function Stuff(s: seq<byte>): seq<byte>
  {
    if s == [] then [] else StuffByte(s[0]) + Stuff(s[1..])
  }

  function StuffByte(c: byte): seq<byte> { if c == 0xFF then [c, 0] else [c] }

  function PadOnes(b: Bits): (r: Bits)
    ensures |r| % 8 == 0 && b <= r && |r| < |b| + 8
    ensures forall i :: |b| <= i < |r| ==> r[i]
  {
    b + Repeat(true, (8 - |b| % 8) % 8)
  }

  /** The bytes of one entropy-coded segment. */
  function SegBytes(b: Bits): seq<byte> { Stuff(Pack(PadOnes(b))) }

  /** The data bytes before the next marker, the marker (0 if the data ends first),
      and what follows it. */
  datatype Segment = Segment(payload: seq<byte>, marker: byte, after: seq<byte>)

  function NextMarker(s: seq<byte>): Segment
  {
    if s == [] then Segment([], 0, [])
    else if s[0] != 0xFF then
      var g := NextMarker(s[1..]);
      g.(payload := [s[0]] + g.payload)
    else AfterFF(s[1..])
  }

  /** Further FFs are skipped; FF 00 is a data byte FF. */
  function AfterFF(s: seq<byte>): Segment
  {
    if s == [] then Segment([], 0, [])
    else if s[0] == 0xFF then AfterFF(s[1..])
    else if s[0] == 0 then
      var g := NextMarker(s[1..]);
      g.(payload := [0xFF] + g.payload)
    else Segment([], s[0], s[1..])
  }

  lemma {:induction false} PackSnoc(a: Bits, g: Bits)
    requires |a| % 8 == 0 && |g| == 8
    ensures Pack(a + g) == Pack(a) + [FromBits(g)]
  {
    if a == [] {
      assert a + g == g && g[..8] == g && Pack(g[8..]) == [];
    } else {
      assert (a + g)[..8] == a[..8] && (a + g)[8..] == a[8..] + g;
      PackSnoc(a[8..], g);
    }
  }

  lemma {:induction false} UnpackPack(b: Bits)
    requires |b| % 8 == 0
    ensures Unpack(Pack(b)) == b
  {
    if b != [] {
      UnpackPack(b[8..]);
      ToFrom(b[..8]);
      assert Pack(b)[1..] == Pack(b[8..]);
      assert b == b[..8] + b[8..];
    }
  }

  lemma {:induction false} StuffConcat(a: seq<byte>, b: seq<byte>)
    ensures Stuff(a + b) == Stuff(a) + Stuff(b)
  {
    if a == [] {
      assert a + b == b;
    } else {
      StuffConcat(a[1..], b);
      assert (a + b)[1..] == a[1..] + b;
      assert StuffByte(a[0]) + (Stuff(a[1..]) + Stuff(b)) == Stuff(a) + Stuff(b);
    }
  }

  /** Scanning stuffed bytes followed by a marker gives the bytes back. */
  lemma {:induction false} ScanStuff(p: seq<byte>, m: byte, rest: seq<byte>)
    requires m != 0 && m != 0xFF
    ensures NextMarker(Stuff(p) + [0xFF, m] + rest) == Segment(p, m, rest)
  {
    var s := Stuff(p) + [0xFF, m] + rest;
    if p == [] {
      assert s[1..] == [m] + rest && s[1..][1..] == rest;
    } else {
      ScanStuff(p[1..], m, rest);
      var t := Stuff(p[1..]) + [0xFF, m] + rest;
      if p[0] == 0xFF {
        assert s == [0xFF, 0] + t && s[1..][1..] == t && s[1..][0] == 0;
      } else {
        assert s == [p[0]] + t && s[1..] == t;
      }
      assert p == [p[0]] + p[1..];
    }
  }

  /** A segment written and then scanned is its bits, padded with fewer than 8 ones. */
  lemma ScanSegment(b: Bits, m: byte, rest: seq<byte>)
    requires m != 0 && m != 0xFF
    ensures var g := NextMarker(SegBytes(b) + [0xFF, m] + rest);
            Unpack(g.payload) == PadOnes(b) && g.marker == m && g.after == rest
  {
    ScanStuff(Pack(PadOnes(b)), m, rest);
    UnpackPack(PadOnes(b));
  }

  /** Bytes without FF are left alone by stuffing and by scanning, and any number of further FFs
      may stand before the code of a marker. */
  lemma {:induction false} FillBytes(p: seq<byte>, n: nat, m: byte, rest: seq<byte>)
    requires 0xFF !in p && m != 0 && m != 0xFF
    ensures Stuff(p) == p
    ensures NextMarker(p + seq(n + 1, i => 0xFF) + [m] + rest) == Segment(p, m, rest)
  {
    var s := p + seq(n + 1, i => 0xFF) + [m] + rest;
    if p == [] {
      FillsSkipped(n, m, rest);
      assert s[1..] == seq(n, i => 0xFF) + [m] + rest;
    } else {
      FillBytes(p[1..], n, m, rest);
      assert s[1..] == p[1..] + seq(n + 1, i => 0xFF) + [m] + rest;
      assert p == [p[0]] + p[1..];
    }
  }

  lemma {:induction false} FillsSkipped(n: nat, m: byte, rest: seq<byte>)
    requires m != 0 && m != 0xFF
    ensures AfterFF(seq(n, i => 0xFF) + [m] + rest) == Segment([], m, rest)
  {
    var s := seq(n, i => 0xFF) + [m] + rest;
    if n == 0 {
      assert s[1..] == rest;
    } else {
      FillsSkipped(n - 1, m, rest);
      assert s[1..] == seq(n - 1, i => 0xFF) + [m] + rest;
    }
  }
}
