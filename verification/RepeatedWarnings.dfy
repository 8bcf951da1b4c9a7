/** A file that a suspended decoder warns about more often than one that gets it at once: a
    baseline scan of one MCU with four blocks, each of which begins with a bad code. */
module RepeatedWarnings {
  import opened Bits
  import opened Bytes
  import opened BitStream
  import opened HuffTable
  import opened BitReader
  import opened Tokens
  import opened Blocks
  import opened Scans
  import opened DecodeAgain
  import opened SequentialAgain
  import opened DecodeRun
  import opened Requests
  import opened EntropyDecoder
  import DcScan
  import Sequential

  const M_EOI: byte := 0xD9

  // ---- A bad code ----

  lemma FirstBit(b: bool, rest: Bits, starved: bool, w: nat)
    ensures var s := Src([b] + rest, starved, w);
            s.Peek(1) == (if b then 1 else 0) && s.Drop(1) == Src(rest, starved, w)
  {
    var s := Src([b] + rest, starved, w);
    assert s.Ext(1) == [b] && s.bits[1..] == rest;
    assert [b][..0] == [];
  }

  lemma RepeatMore(x: bool, n: nat, rest: Bits)
    requires n > 0
    ensures Repeat(x, n) + rest == [x] + (Repeat(x, n - 1) + rest)
  {
    assert Repeat(x, n) == [x] + Repeat(x, n - 1);
  }

  lemma {:induction false} SerialOnes(t: Table, l: nat, rest: Bits, w: nat)
    requires LegalTree(t) && 1 <= l <= 17
    ensures Serial(t, Pow2(l) - 1, l, Src(Repeat(true, 17 - l) + rest, false, w)) == (0, Src(rest, false, w + 1))
    decreases 17 - l
  {
    var s := Src(Repeat(true, 17 - l) + rest, false, w);
    if l == 17 {
      assert Repeat(true, 0) + rest == rest;
    } else {
      assert FitsAt(t, l);
      RepeatMore(true, 17 - l, rest);
      FirstBit(true, Repeat(true, 16 - l) + rest, false, w);
      SerialOnes(t, l + 1, rest, w);
    }
  }

  /** No table has a code for seventeen ones: they are skipped with a warning. */
  lemma OnesAreBad(t: Table, rest: Bits, w: nat)
    requires LegalTree(t)
    ensures DecodeSym(t, Src(Repeat(true, 17) + rest, false, w)) == (0, Src(rest, false, w + 1))
  {
    hide Serial;
    RepeatMore(true, 17, rest);
    FirstBit(true, Repeat(true, 16) + rest, false, w);
    SerialOnes(t, 1, rest, w);
  }

  // ---- The table ----

  /** One code, of seven zeroes, for the symbol 0: no difference, or end of block. */
  function OneCode(): Table
  {
    HuffTbl(seq(17, l => if l == 7 then 1 else 0), seq(256, i => 0))
  }

  lemma {:induction false} OneFits(l: nat)
    requires 1 <= l <= 16
    ensures FitsAt(OneCode(), l) && (l <= 7 ==> First(OneCode(), l) == 0)
  {
    if l > 1 { OneFits(l - 1); }
  }

  lemma {:induction false} OneStart(l: nat)
    requires 1 <= l <= 17
    ensures Start(OneCode(), l) == if l <= 7 then 0 else 1
  {
    if l > 1 { OneStart(l - 1); }
  }

  lemma OneLegal()
    ensures LegalTree(OneCode()) && LegalD(OneCode(), true) && LegalD(OneCode(), false)
  {
    OneStart(17);
    forall l | 1 <= l <= 16 ensures FitsAt(OneCode(), l) { OneFits(l); }
  }

  lemma {:induction false} SerialZeroes(l: nat, rest: Bits, w: nat)
    requires 1 <= l <= 7
    ensures Serial(OneCode(), 0, l, Src(Repeat(false, 7 - l) + rest, false, w)) == (0, Src(rest, false, w))
    decreases 7 - l
  {
    OneFits(l);
    if l == 7 {
      OneStart(7);
      assert Repeat(false, 0) + rest == rest;
    } else {
      RepeatMore(false, 7 - l, rest);
      FirstBit(false, Repeat(false, 6 - l) + rest, false, w);
      SerialZeroes(l + 1, rest, w);
    }
  }

  lemma ZeroesAreZero(rest: Bits, w: nat)
    ensures DecodeSym(OneCode(), Src(Repeat(false, 7) + rest, false, w)) == (0, Src(rest, false, w))
  {
    hide Serial;
    RepeatMore(false, 7, rest);
    FirstBit(false, Repeat(false, 6) + rest, false, w);
    SerialZeroes(1, rest, w);
  }

  // ---- The data ----

  /** n blocks of a bad code and an end of block, as bits and as bytes. */
  function BadBits(n: nat): (b: Bits)
    ensures |b| == 24 * n
  {
    if n == 0 then [] else Repeat(true, 17) + (Repeat(false, 7) + BadBits(n - 1))
  }

  function BadBytes(n: nat): (s: seq<byte>)
    ensures |s| == 5 * n + 2
  {
    if n == 0 then [0xFF, M_EOI] else [0xFF, 0, 0xFF, 0, 0x80] + BadBytes(n - 1)
  }

  lemma OnesByte()
    ensures ToBits(0xFF, 8) == Repeat(true, 8)
  {
    FromRepeat(8);
    assert Pow2(8) == 256 by { assert Pow2(4) == 16; }
    ToFrom(Repeat(true, 8));
  }

  lemma TopByte()
    ensures ToBits(0x80, 8) == [true] + Repeat(false, 7)
  {
    hide ToBits;
    ZeroBits(7);
    ToBitsConcat(1, 1, 0, 7);
    assert Shl(1, 7) == 0x80 by { assert Shl(1, 4) == 16; }
    assert ToBits(1, 1) == [true] by { OneBit(); }
  }

  lemma OneBit()
    ensures ToBits(1, 1) == [true]
  {
    assert ToBits(0, 0) == [];
  }

  lemma BlockBits(rest: Bits)
    ensures ToBits(0xFF, 8) + (ToBits(0xFF, 8) + (ToBits(0x80, 8) + rest)) == Repeat(true, 17) + (Repeat(false, 7) + rest)
  {
    hide ToBits;
    OnesByte();
    TopByte();
  }

  lemma Stuffed(s: seq<byte>)
    ensures NextMarker([0xFF, 0] + s) == NextMarker(s).(payload := [0xFF] + NextMarker(s).payload)
  {
    assert ([0xFF, 0] + s)[1..] == [0] + s && ([0] + s)[1..] == s;
  }

  lemma Plain(c: byte, s: seq<byte>)
    requires c != 0xFF
    ensures NextMarker([c] + s) == NextMarker(s).(payload := [c] + NextMarker(s).payload)
  {
    assert ([c] + s)[1..] == s;
  }

  lemma OneBlock(t: seq<byte>)
    ensures NextMarker([0xFF, 0, 0xFF, 0, 0x80] + t)
            == NextMarker(t).(payload := [0xFF] + ([0xFF] + ([0x80] + NextMarker(t).payload)))
    ensures Unpack([0xFF] + ([0xFF] + ([0x80] + NextMarker(t).payload)))
            == Repeat(true, 17) + (Repeat(false, 7) + Unpack(NextMarker(t).payload))
  {
    hide *;
    var p := NextMarker(t).payload;
    assert [0xFF, 0, 0xFF, 0, 0x80] + t == [0xFF, 0] + ([0xFF, 0] + ([0x80] + t));
    Stuffed([0xFF, 0] + ([0x80] + t));
    Stuffed([0x80] + t);
    Plain(0x80, t);
    UnpackCons(0xFF, [0xFF] + ([0x80] + p));
    UnpackCons(0xFF, [0x80] + p);
    UnpackCons(0x80, p);
    BlockBits(Unpack(p));
  }

  lemma {:induction false} BadData(n: nat)
    ensures var g := NextMarker(BadBytes(n)); Unpack(g.payload) == BadBits(n) && g.marker == M_EOI && g.after == []
  {
    if n == 0 {
      var s := BadBytes(0);
      assert s[1..] == [M_EOI] && s[1..][1..] == [];
    } else {
      hide NextMarker;
      hide Unpack;
      BadData(n - 1);
      OneBlock(BadBytes(n - 1));
    }
  }

  lemma FourBlocks()
    ensures BadBytes(4) == [0xFF, 0, 0xFF, 0, 0x80, 0xFF, 0, 0xFF, 0, 0x80, 0xFF, 0, 0xFF, 0, 0x80, 0xFF, 0, 0xFF, 0, 0x80, 0xFF, M_EOI]
    ensures BadBytes(4)[15..] == BadBytes(1)
  {
    assert BadBytes(1) == [0xFF, 0, 0xFF, 0, 0x80, 0xFF, M_EOI];
    assert BadBytes(2) == [0xFF, 0, 0xFF, 0, 0x80, 0xFF, 0, 0xFF, 0, 0x80, 0xFF, M_EOI];
    assert BadBytes(3) == [0xFF, 0, 0xFF, 0, 0x80, 0xFF, 0, 0xFF, 0, 0x80, 0xFF, 0, 0xFF, 0, 0x80, 0xFF, M_EOI];
  }

  // ---- Decoding it ----

  lemma BadBlock(d: Block, pred: int, n: nat, w: nat)
    requires n > 0
    ensures Sequential.DecBlock(OneCode(), OneCode(), d, pred, Src(BadBits(n), false, w)).2 == Src(BadBits(n - 1), false, w + 1)
  {
    hide *;
    var t, s := OneCode(), Src(BadBits(n), false, w);
    BadDifference(n, w);
    BlockIs(t, t, d, pred, s);
    ZeroesAreZero(BadBits(n - 1), w + 1);
    AcMore(t, d[0 := Jcoef(DiffOf(t, s) + pred)], 1, AfterDc(t, s), 0, Src(BadBits(n - 1), false, w + 1));
  }

  lemma BadDifference(n: nat, w: nat)
    requires n > 0
    ensures AfterDc(OneCode(), Src(BadBits(n), false, w)) == Src(Repeat(false, 7) + BadBits(n - 1), false, w + 1)
  {
    hide DecodeSym;
    hide OneCode;
    OneLegal();
    OnesAreBad(OneCode(), Repeat(false, 7) + BadBits(n - 1), w);
    var s1 := Src(Repeat(false, 7) + BadBits(n - 1), false, w + 1);
    assert s1.bits[0..] == s1.bits;
  }

  /** Four components of one block each, all with table 0. */
  function FourComponents(): Scan { WholeScan([0, 1, 2, 3], [0, 0, 0, 0], [0, 0, 0, 0], 0) }

  function TableZero(): (r: seq<Option<Table>>)
    ensures |r| == NUM_HUFF_TBLS
  {
    [Some(OneCode()), None, None, None]
  }

  lemma {:induction false} BadUpto(tbls: Tables, m: Mcu, preds: seq<int>, n: nat)
    requires tbls == PassTables(TableZero() + TableZero()) && WholeShape(FourComponents(), tbls, m, preds) && n <= 4 == |m|
    ensures Upto(FourComponents(), tbls, m, preds, Src(BadBits(4), false, 0), n).1 == Src(BadBits(4 - n), false, n)
  {
    hide *;
    var sc, s := FourComponents(), Src(BadBits(4), false, 0);
    if n == 0 {
      UptoStart(sc, tbls, m, preds, s);
    } else {
      BadUpto(tbls, m, preds, n - 1);
      UptoNext(sc, tbls, m, preds, s, n - 1);
      ZeroTables(tbls, n - 1);
      BadBlock(m[n - 1], Upto(sc, tbls, m, preds, s, n - 1).0[sc.members[n - 1]], 5 - n, n - 1);
    }
  }

  lemma ZeroTables(tbls: Tables, i: nat)
    requires tbls == PassTables(TableZero() + TableZero()) && i < 4
    ensures var sc := FourComponents();
            && |sc.members| == |sc.dcTbl| == |sc.acTbls| == 4 && sc.members[i] == i && sc.dcTbl[i] == 0 && sc.acTbls[i] == 4
            && |tbls| == 8 && tbls[0] == tbls[4] == OneCode()
  {
  }

  /** No reading position within the first nineteen bytes is the end of the data. */
  lemma MoreLeft(d: Decompress, st: BitState)
    requires d.Valid(st) && d.data == BadBytes(4) && d.avail <= 19
    ensures !(d.Stream(st).bits == [] && d.Tail(st) == (M_EOI as nat, []))
  {
    FourBlocks();
    var p := st.next;
    if d.unreadMarker == 0 {
      if d.data[p] != 0xFF { ScanPlain(d.data, p); } else { ScanFF(d.data, p, p + 2, 0); }
    }
  }

  /** A decoder at the start of the scan, with so many bytes arrived. */
  method Begin(arrived: nat) returns (dec: Decoder, blocks: seq<array<Coef>>)
    requires arrived <= 22
    ensures fresh(dec) && fresh(dec.d) && forall i :: 0 <= i < |blocks| ==> fresh(blocks[i])
    ensures dec.d.data == BadBytes(4) && dec.d.avail == arrived && dec.d.warnings == 0
    ensures dec.sc == FourComponents() && dec.tbls == PassTables(TableZero() + TableZero())
    ensures dec.d.Valid(dec.d.saved) && dec.d.Stream(dec.d.saved) == Src(BadBits(4), false, 0)
    ensures dec.d.Tail(dec.d.saved) == (M_EOI as nat, [])
    ensures dec.Apart(blocks) && dec.DcReady() && dec.AcsReady() && |blocks| == 4
    ensures WholeShape(dec.sc, dec.tbls, Contents(blocks), dec.lastDc) && dec.lastDc == [0, 0, 0, 0]
    ensures Contents(blocks) == Zeroed()
  {
    hide *;
    SourceStart();
    var d := new Decompress(BadBytes(4));
    d.Arrive(arrived);
    TablesFit();
    var ok, made := StartPassHuff(SEQUENTIAL, [0, 1, 2, 3], [0, 0, 0, 0], [0, 0, 0, 0], 0, TableZero(), TableZero(), d);
    dec := made.value;
    SourceBegun(d);
    FourIs();
    ZeroedIs();
    blocks := NewBlocks(seq(4, i => seq(64, j => 0 as Coef)));
    dec.FreshApart(blocks);
    ScanBegun(dec, Contents(blocks));
    dec.ReadyIs(Contents(blocks));
  }

  lemma ZeroedIs()
    ensures Zeroed() == seq(4, i => seq(64, j => 0 as Coef))
  {
  }

  lemma FourIs()
    ensures FourComponents() == WholeScan([0, 1, 2, 3], [0, 0, 0, 0], [0, 0, 0, 0], 0)
  {
  }

  lemma TablesFit()
    ensures BothUsable(TableZero(), TableZero(), [0, 0, 0, 0], [0, 0, 0, 0])
  {
    OneLegal();
  }

  lemma SourceStart()
    ensures |BadBytes(4)| == 22 && M_EOI != 0
  {
  }

  lemma SourceBegun(d: Decompress)
    requires d.data == BadBytes(4) && d.Valid(d.saved) && d.saved == BitState(0, 0, 0) && d.unreadMarker == 0 && !d.insufficientData
    ensures d.Stream(d.saved) == Src(BadBits(4), false, d.warnings) && d.Tail(d.saved) == (M_EOI as nat, [])
  {
    BadData(4);
    assert d.data[0..] == d.data;
    assert Real(0, 0, 0) == [];
    assert [] + BadBits(4) == BadBits(4);
  }

  lemma ScanBegun(dec: Decoder, m: Mcu)
    requires dec.sc == FourComponents() && dec.tbls == PassTables(TableZero() + TableZero()) && |m| == 4
    requires dec.Saved() == StartState(dec.sc)
    ensures dec.sc.p.Ss == 0 && dec.sc.p.Ah == 0 && dec.sc.p.Se != 0 && |m| == |dec.sc.members| && dec.lastDc == [0, 0, 0, 0]
    ensures WholeShape(dec.sc, dec.tbls, m, dec.lastDc)
  {
  }

  /** The uninterrupted decoding of the MCU. */
  lemma RunEnds(tbls: Tables, m: Mcu, preds: seq<int>)
    requires tbls == PassTables(TableZero() + TableZero()) && WholeShape(FourComponents(), tbls, m, preds) && |m| == 4
    ensures WholeRun(FourComponents(), tbls, m, preds, Src(BadBits(4), false, 0)).2 == Src([], false, 4)
  {
    hide Upto;
    hide WholeRun;
    WholeRunIs(FourComponents(), tbls, m, preds, Src(BadBits(4), false, 0));
    BadUpto(tbls, m, preds, 4);
  }

  /** From within the last block, less than a block is still to come. */
  lemma LessThanABlock(split: nat)
    requires 15 <= split <= 19
    ensures split <= |BadBytes(4)| && Coming(BadBytes(4), split).most <= 24
  {
    FourBlocks();
    LastBlock(BadBytes(4), split);
  }

  lemma LastBlock(data: seq<byte>, split: nat)
    requires 15 <= split <= 19 && |data| == 22 && data[15] == data[17] == data[20] == 0xFF
    requires data[16] == data[18] == 0 && data[19] == 0x80 && data[21] == M_EOI
    ensures |Ahead(data, split, 0)| <= 24
  {
    hide *;
    AtMarker(data, 20);
    OneByte(data, 19);
    OneByte(data, 18);
    StuffedByte(data, 17);
    OneByte(data, 16);
    StuffedByte(data, 15);
  }

  lemma AtMarker(data: seq<byte>, p: nat)
    requires p + 2 <= |data| && data[p] == 0xFF && data[p + 1] == M_EOI
    ensures Ahead(data, p, 0) == []
  {
    hide Ahead;
    hide Closing;
    ScanFF(data, p, p + 2, M_EOI);
  }

  lemma OneByte(data: seq<byte>, p: nat)
    requires p < |data| && data[p] != 0xFF
    ensures |Ahead(data, p, 0)| == 8 + |Ahead(data, p + 1, 0)|
  {
    hide Ahead;
    hide Closing;
    ScanPlain(data, p);
  }

  lemma StuffedByte(data: seq<byte>, p: nat)
    requires p + 2 <= |data| && data[p] == 0xFF && data[p + 1] == 0
    ensures |Ahead(data, p, 0)| == 8 + |Ahead(data, p + 2, 0)|
  {
    hide Ahead;
    hide Closing;
    ScanFF(data, p, p + 2, 0);
  }

  /** An attempt with only the last block missing gets beyond the first block. */
  lemma PastFirst(tbls: Tables, m: Mcu, preds: seq<int>, split: nat, w: nat)
    requires tbls == PassTables(TableZero() + TableZero()) && |m| == 4 && WholeShape(FourComponents(), tbls, m, preds)
    requires 15 <= split <= 19
    requires Stops(WholePoints(FourComponents(), tbls, m, preds, Src(BadBits(4), false, 0), 0), w, Coming(BadBytes(4), split))
    ensures w > 0
  {
    hide *;
    var sc, s := FourComponents(), Src(BadBits(4), false, 0);
    var ps := WholePoints(sc, tbls, m, preds, s, 0);
    WholeChain(sc, tbls, m, preds, s, 0);
    WholePointsMore(sc, tbls, m, preds, s, 0);
    assert ps[2] == WholePoints(sc, tbls, m, preds, s, 1)[0];
    BadUpto(tbls, m, preds, 1);
    LessThanABlock(split);
    HandIs();
    PastRepeats(ps, w, Coming(BadBytes(4), split), 2);
  }

  lemma HandIs()
    ensures MAX_AT_HAND == 42
  {
  }

  ghost function Zeroed(): Mcu { seq(4, i => seq(64, j => 0 as Coef)) }

  /** The blocks that come out. */
  ghost function Outcome(): Mcu
  {
    RunShape();
    WholeRun(FourComponents(), PassTables(TableZero() + TableZero()), Zeroed(), [0, 0, 0, 0], Src(BadBits(4), false, 0)).0
  }

  lemma RunShape()
    ensures WholeShape(FourComponents(), PassTables(TableZero() + TableZero()), Zeroed(), [0, 0, 0, 0])
  {
  }

  lemma OutcomeIs()
    ensures WholeShape(FourComponents(), PassTables(TableZero() + TableZero()), Zeroed(), [0, 0, 0, 0])
    ensures var x := WholeRun(FourComponents(), PassTables(TableZero() + TableZero()), Zeroed(), [0, 0, 0, 0], Src(BadBits(4), false, 0));
            x.0 == Outcome() && x.2 == Src([], false, 4)
  {
    hide WholeRun;
    hide BadBits;
    RunShape();
    RunEnds(PassTables(TableZero() + TableZero()), Zeroed(), [0, 0, 0, 0]);
  }

  /** Given all at once, the scan raises four warnings. */
  method AtOnce() returns (dec: Decoder, m: Mcu)
    ensures dec.sc == FourComponents() && dec.d.data == BadBytes(4)
    ensures dec.d.warnings == 4 && m == Outcome()
  {
    hide *;
    SourceStart();
    OutcomeIs();
    var blocks;
    dec, blocks := Begin(22);
    dec.ApartIs(blocks);
    var ok := dec.DecodeSequential(blocks);
    dec.StreamOf(dec.d.saved);
    m := ReadBlocks(blocks);
  }

  /** When it arrives in two pieces, the second of which begins within the last block, it raises
      more. */
  method InTwoPieces(split: nat) returns (dec: Decoder, m: Mcu)
    requires 15 <= split <= 19
    ensures dec.sc == FourComponents() && dec.d.data == BadBytes(4)
    ensures dec.d.warnings > 4 && m == Outcome()
  {
    hide *;
    SourceStart();
    OutcomeIs();
    var blocks;
    dec, blocks := Begin(split);
    dec.ApartIs(blocks);
    FirstAttempt(dec, blocks, split);
    ghost var early: int := dec.d.warnings;
    ghost var rest := WholeRun(dec.sc, dec.tbls, Contents(blocks), dec.lastDc, dec.d.Stream(dec.d.saved));
    dec.d.Arrive(22 - split);
    var ok := dec.DecodeSequential(blocks);
    dec.StreamOf(dec.d.saved);
    m := ReadBlocks(blocks);
  }

  /** The attempt with the first split bytes. */
  method FirstAttempt(dec: Decoder, blocks: seq<array<Coef>>, ghost split: nat)
    requires dec.d.data == BadBytes(4) && dec.d.avail == split && 15 <= split <= 19 && dec.d.warnings == 0
    requires dec.sc == FourComponents() && dec.tbls == PassTables(TableZero() + TableZero())
    requires dec.d.Valid(dec.d.saved) && dec.d.Stream(dec.d.saved) == Src(BadBits(4), false, 0)
    requires dec.d.Tail(dec.d.saved) == (M_EOI as nat, [])
    requires dec.Apart(blocks) && dec.DcReady() && dec.AcsReady() && |blocks| == 4
    requires WholeShape(dec.sc, dec.tbls, Contents(blocks), dec.lastDc) && dec.lastDc == [0, 0, 0, 0]
    requires Contents(blocks) == Zeroed()
    modifies blocks, dec`lastDc, dec.d`saved, dec.d`unreadMarker, dec.d`insufficientData, dec.d`warnings, dec.d`fake
    ensures dec.d.Valid(dec.d.saved) && WholeShape(dec.sc, dec.tbls, Contents(blocks), dec.lastDc)
    ensures dec.Apart(blocks) && dec.DcReady() && dec.AcsReady()
    ensures dec.d.Tail(dec.d.saved) == (M_EOI as nat, []) && dec.d.warnings > 0
    ensures var x := WholeRun(dec.sc, dec.tbls, Contents(blocks), dec.lastDc, dec.d.Stream(dec.d.saved));
            x.0 == Outcome() && x.2.warnings == 4 + dec.d.warnings
  {
    hide *;
    SourceStart();
    OutcomeIs();
    dec.ApartIs(blocks);
    ghost var start := Src(BadBits(4), false, 0);
    ghost var whole := WholeRun(dec.sc, dec.tbls, Zeroed(), dec.lastDc, start);
    ghost var points := WholePoints(dec.sc, dec.tbls, Zeroed(), dec.lastDc, start, 0);
    dec.BlockApart(blocks);
    var ok := dec.DecodeSequential(blocks);
    dec.HandIs(dec.d.saved);
    if ok { MoreLeft(dec.d, dec.d.saved); }
    ghost var early: nat, left: Gap := dec.d.warnings, dec.d.ToCome();
    dec.ToComeIs();
    StoppedAfter(points, WholePoints(dec.sc, dec.tbls, Contents(blocks), dec.lastDc, dec.d.Stream(dec.d.saved), 0), left);
    UptoStart(dec.sc, dec.tbls, Contents(blocks), dec.lastDc, dec.d.Stream(dec.d.saved));
    dec.StreamOf(dec.d.saved);
    PastFirst(dec.tbls, Zeroed(), dec.lastDc, split, early);
    ghost var rest := WholeRun(dec.sc, dec.tbls, Contents(blocks), dec.lastDc, dec.d.Stream(dec.d.saved));
    Alike3Is(rest, whole, 0 - early);
    MoreAfter(rest.2, whole.2, early);
  }

  lemma StoppedAfter(ps: seq<Src>, qs: seq<Src>, g: Gap)
    requires GaveUp(ps, qs, g)
    ensures |qs| > 0 && Stops(ps, qs[0].warnings, g)
  {
  }

  lemma MoreAfter(x: Src, y: Src, early: int)
    requires Same(x, y, 0 - early)
    ensures x.warnings == y.warnings + early
  {
  }

  /** The counterexample: the same data and the same blocks, but more warnings. */
  method RetryWarnsAgain(split: nat) returns (once: Decoder, a: Mcu, again: Decoder, b: Mcu)
    requires 15 <= split <= 19
    ensures once.sc == again.sc == FourComponents() && once.d.data == again.d.data == BadBytes(4)
    ensures once.d.warnings == 4 && again.d.warnings > 4 && a == b == Outcome()
  {
    once, a := AtOnce();
    again, b := InTwoPieces(split);
  }
}
