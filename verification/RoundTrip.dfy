/** The two entropy coders end to end: what an encoding pass has written, a decoder that gets
    it in any pieces turns back into the blocks that were sent, without a warning. */
module RoundTrip {
  import opened Bits
  import opened Bytes
  import opened BitStream
  import opened HuffTable
  import opened Tokens
  import opened Blocks
  import opened AcScan
  import opened Scans
  import opened Restart
  import opened SegmentCode
  import opened BitReader
  import opened MarkerReader
  import opened DecodeRun
  import E = EntropyEncoder
  import D = EntropyDecoder
  import Sequential

  // ---- What was accepted is in range ----

  ghost predicate Ranged(sc: Scan, ms: seq<Mcu>)
  {
    forall i, j :: 0 <= i < |ms| && 0 <= j < |ms[i]| ==> InRange(sc, ms[i][j])
  }

  lemma {:induction false} DcRanged(sc: Scan, tbls: Tables, ms: seq<Mcu>, preds: seq<int>)
    requires ScanOk(sc, tbls) && Shaped(sc, ms) && |preds| == |sc.dcTbl| && sc.p.Ss == 0 && DcRanges(sc, tbls, ms, preds)
    ensures Ranged(sc, ms)
    decreases ms
  {
    hide DcInRange;
    hide DcMcuPreds;
    hide Sequential.AcInRange;
    if ms != [] {
      DcRanged(sc, tbls, ms[1..], DcMcuPreds(sc, ms[0], preds));
      forall i, j | 0 <= i < |ms| && 0 <= j < |ms[i]| ensures InRange(sc, ms[i][j]) {
        if i > 0 { assert ms[i] == ms[1..][i - 1]; }
      }
    }
  }

  lemma SegRanged(sc: Scan, tbls: Tables, ms: seq<Mcu>)
    requires ScanOk(sc, tbls) && Shaped(sc, ms) && Ranges(sc, tbls, ms)
    ensures Ranged(sc, ms)
  {
    if sc.p.Ss == 0 {
      DcRanged(sc, tbls, ms, StartState(sc).preds);
    } else {
      hide AcScan.AcInRange;
      forall i, j | 0 <= i < |ms| && 0 <= j < |ms[i]| ensures InRange(sc, ms[i][j]) {
        assert |ms[i]| == 1;
      }
    }
  }

  lemma {:induction false} FlatRanged(sc: Scan, tbls: Tables, gather: bool, segs: seq<seq<Mcu>>)
    requires ScanOk(sc, tbls) && SegsOk(sc, tbls, gather, segs)
    ensures Ranged(sc, Flat(segs))
    decreases segs
  {
    hide Ranges;
    hide InRange;
    hide SegTokens;
    if segs != [] {
      assert Shaped(sc, segs[0]) && SegOk(sc, tbls, gather, segs[0]);
      SegRanged(sc, tbls, segs[0]);
      FlatRanged(sc, tbls, gather, segs[1..]);
      BothRanged(sc, segs[0], Flat(segs[1..]));
    }
  }

  lemma BothRanged(sc: Scan, a: seq<Mcu>, b: seq<Mcu>)
    requires Ranged(sc, a) && Ranged(sc, b)
    ensures Ranged(sc, a + b)
  {
    hide InRange;
  }

  /** The decoder's blocks hold what the earlier scans have sent. */
  ghost predicate Awaits(sc: Scan, dm: seq<Mcu>, bm: seq<Mcu>)
  {
    && |dm| == |bm| && Shaped(sc, dm) && Shaped(sc, bm)
    && forall i, j :: 0 <= i < |bm| && 0 <= j < |sc.members| ==> OldOk(sc, dm[i][j], bm[i][j])
  }

  lemma AwaitsReady(sc: Scan, tbls: Tables, gather: bool, dm: seq<Mcu>, bm: seq<Mcu>)
    requires ScanOk(sc, tbls) && Awaits(sc, dm, bm) && SegsOk(sc, tbls, gather, Segments(bm, sc.interval))
    ensures Ready(sc, dm, bm)
  {
    hide OldOk;
    hide InRange;
    hide ScanOk;
    hide SegsOk;
    SegmentsFlat(bm, sc.interval);
    FlatRanged(sc, tbls, gather, Segments(bm, sc.interval));
  }

  // ---- The decoder's run over what was written ----

  /** The position of a decoder at the start of a scan. */
  ghost predicate AtStart(sc: Scan, x: Position, bytes: seq<byte>, w: nat)
  {
    x == Position(StartState(sc), sc.interval, 0, Open(bytes, false, w))
  }

  /** The uninterrupted decoding of a written scan gives the targets, and nothing to warn about. */
  lemma WrittenReads(sc: Scan, tbls: Tables, dm: seq<Mcu>, bm: seq<Mcu>, m: byte, after: seq<byte>, w: nat, x: Position)
    requires ScanOk(sc, tbls) && sc.p.Al <= 13 && Ready(sc, dm, bm) && |dm| == |bm| && Shaped(sc, dm)
    requires forall i :: 0 <= i < |bm| ==> |dm[i]| == |bm[i]|
    requires SegsWritable(sc, tbls, Segments(bm, sc.interval)) && m != 0 && m != 0xFF
    requires AtStart(sc, x, ScanBytes(sc, tbls, bm) + [0xFF, m] + after, w)
    ensures StateOk(sc, x.st) && ScanBlocks(sc, tbls, dm, x) == Some(Targets(sc, dm, bm))
    ensures ScanInput(sc, tbls, dm, x).Some? && AtMarker(ScanInput(sc, tbls, dm, x).value, m, after, w)
    ensures NeverAsks(sc, tbls, dm, x)
  {
    hide *;
    var bytes := ScanBytes(sc, tbls, bm) + [0xFF, m] + after;
    ScanRoundTrip(sc, tbls, dm, bm, m, after, w);
    StartIs(sc, tbls, dm, x, bytes, w);
    AtMarkerFacts(ScanInput(sc, tbls, dm, x).value, m, after, w);
    ScanSilent(sc, tbls, dm, x);
  }

  lemma StartIs(sc: Scan, tbls: Tables, dm: seq<Mcu>, x: Position, bytes: seq<byte>, w: nat)
    requires ScanOk(sc, tbls) && Shaped(sc, dm) && AtStart(sc, x, bytes, w)
    ensures StateOk(sc, x.st) && x.inp.src.warnings == w
    ensures var r := DecodeScan(sc, tbls, dm, bytes, w);
            && ScanBlocks(sc, tbls, dm, x) == (if r.None? then None else Some(r.value.0))
            && ScanInput(sc, tbls, dm, x) == (if r.None? then None else Some(r.value.1))
  {
    hide DecScan;
    hide NextMarker;
  }

  /** The scan is followed by a marker, and the data ends with EOI or the like. */
  ghost predicate Closed(m: byte, after: seq<byte>)
  {
    if after == [] then M_SOF0 <= m < 0xFF && !(M_RST0 <= m <= M_RST0 + 7) else m != 0 && m != 0xFF && Ends(after)
  }

  lemma ClosedEnds(before: seq<byte>, bytes: seq<byte>, m: byte, after: seq<byte>)
    requires Closed(m, after)
    ensures m != 0 && m != 0xFF && Ends(before + (bytes + [0xFF, m] + after))
    ensures (before + (bytes + [0xFF, m] + after))[|before|..] == bytes + [0xFF, m] + after
  {
    var data := before + (bytes + [0xFF, m] + after);
    if after == [] {
      assert data == (before + bytes) + [0xFF, m];
    } else {
      assert data[|data| - 1] == after[|after| - 1] && data[|data| - 2] == after[|after| - 2];
    }
  }

  /** The decoder stands at a scan that an encoder has written. */
  ghost predicate Standing(dec: D.Decoder, bytes: seq<byte>)
    reads dec, dec.d, dec.cells
  {
    && dec.d.Valid(dec.d.saved) && dec.Ready() && dec.nextRestartNum == 0 && dec.restartsToGo == dec.sc.interval
    && dec.Saved() == StartState(dec.sc) && (dec.d as object) !in dec.cells && (dec as object) !in dec.cells
    && dec.d.saved.bitsLeft == 0 && dec.d.unreadMarker == 0 && !dec.d.insufficientData
    && dec.d.data[dec.d.saved.next..] == bytes
  }

  lemma StandingStart(dec: D.Decoder, bytes: seq<byte>)
    requires Standing(dec, bytes)
    ensures dec.d.Valid(dec.d.saved) && dec.Ready() && dec.nextRestartNum < 8
    ensures (dec.d as object) !in dec.cells && (dec as object) !in dec.cells
    ensures AtStart(dec.sc, dec.Now(), bytes, dec.d.warnings)
  {
    hide NextMarker;
    dec.EmptyBuffer();
  }

  lemma StandingSound(dec: D.Decoder, bytes: seq<byte>)
    requires Standing(dec, bytes) && Ends(dec.d.data) && |bytes| >= 2
    ensures Sound(dec.d.data, dec.Now().inp.marker, dec.Now().inp.after)
  {
    hide NextMarker;
    hide Sound;
    dec.EmptyBuffer();
    MarkerFound(dec.d.data, dec.d.saved.next);
  }

  /** Decoding what was written, in any pieces. */
  method DecodeWritten(dec: D.Decoder, dm: seq<Mcu>, ghost bm: seq<Mcu>, m: byte, ghost after: seq<byte>, arrivals: seq<nat>)
    returns (out: seq<Mcu>)
    requires ScanOk(dec.sc, dec.tbls) && Ready(dec.sc, dm, bm) && SegsWritable(dec.sc, dec.tbls, Segments(bm, dec.sc.interval))
    requires Closed(m, after) && Ends(dec.d.data)
    requires Standing(dec, ScanBytes(dec.sc, dec.tbls, bm) + [0xFF, m] + after)
    modifies dec, dec.d
    ensures |dm| == |bm| && dec.sc.p.Al <= 13 && forall i :: 0 <= i < |bm| ==> |dm[i]| == |bm[i]|
    ensures out == Targets(dec.sc, dm, bm)
    ensures dec.d.Valid(dec.d.saved) && AtMarker(dec.Before(), m, after, old(dec.d.warnings)) && dec.d.warnings == old(dec.d.warnings)
  {
    hide *;
    ReadyShapes(dec.sc, dec.tbls, dm, bm);
    ghost var bytes := ScanBytes(dec.sc, dec.tbls, bm) + [0xFF, m] + after;
    StandingStart(dec, bytes);
    StandingSound(dec, bytes);
    ClosedEnds([], bytes, m, after);
    ghost var x := dec.Now();
    WrittenReads(dec.sc, dec.tbls, dm, bm, m, after, dec.d.warnings, x);
    var ok;
    ghost var tries;
    ok, out, tries := D.DecodeInPieces(dec, dm, arrivals);
    SameNone(dec.Before(), ScanInput(dec.sc, dec.tbls, dm, x));
    AtMarkerFacts(dec.Before(), m, after, old(dec.d.warnings));
    dec.NowIs();
  }

  lemma SameNone(a: Input, b: Option<Input>)
    requires SameInput(Some(a), b, 0)
    ensures b == Some(a)
  {
  }

  lemma ReadyShapes(sc: Scan, tbls: Tables, dm: seq<Mcu>, bm: seq<Mcu>)
    requires ScanOk(sc, tbls) && Ready(sc, dm, bm)
    ensures sc.p.Al <= 13 && |dm| == |bm| && Shaped(sc, dm) && forall i :: 0 <= i < |bm| ==> |dm[i]| == |bm[i]|
  {
  }

  // ---- Both ends ----

  /** A decompression object whose source has been read up to the entropy-coded data, as the
      header readers leave it; nothing more than that has arrived. */
  method OpenSource(before: seq<byte>, rest: seq<byte>) returns (d: Decompress)
    ensures fresh(d) && d.data == before + rest && d.Valid(d.saved) && d.avail == |before|
    ensures d.saved == BitState(|before|, 0, 0) && d.unreadMarker == d.warnings == 0 && !d.insufficientData
  {
    d := new Decompress(before + rest);
    d.Arrive(|before|);
    d.saved := BitState(|before|, 0, 0);
  }

  lemma StandingNow(dec: D.Decoder, before: seq<byte>, bytes: seq<byte>)
    requires dec.d.Valid(dec.d.saved) && dec.Ready() && dec.nextRestartNum == 0 && dec.restartsToGo == dec.sc.interval
    requires dec.Saved() == StartState(dec.sc) && (dec.d as object) !in dec.cells && (dec as object) !in dec.cells
    requires dec.d.saved == BitState(|before|, 0, 0) && dec.d.unreadMarker == 0 && !dec.d.insufficientData
    requires dec.d.data == before + bytes
    ensures Standing(dec, bytes)
  {
    assert (before + bytes)[|before|..] == bytes;
  }

  /** The tables that an encoding pass of a progressive scan needs. */
  ghost predicate TablesReady(p: Params, dcNos: seq<nat>, acNo: nat, ptrs: seq<Option<Table>>)
  {
    if p.Ss != 0 then E.Usable(ptrs, false, false, acNo)
    else p.Ah == 0 ==> forall i :: 0 <= i < |dcNos| ==> E.Usable(ptrs, true, false, dcNos[i])
  }

  /** What the encoder can use the decoder can use. */
  lemma ReadyBoth(p: Params, members: seq<nat>, dcNos: seq<nat>, acNo: nat, ptrs: seq<Option<Table>>)
    requires TablesReady(p, dcNos, acNo, ptrs) && E.ScanParams(p, members, |dcNos|)
    ensures D.TablesUsable(p, dcNos, acNo, ptrs) && D.GoodParams(p, |dcNos|)
    ensures forall i :: 0 <= i < |members| ==> members[i] < |dcNos|
  {
  }

  lemma ReadyIs(p: Params, dcNos: seq<nat>, acNo: nat, ptrs: seq<Option<Table>>)
    ensures TablesReady(p, dcNos, acNo, ptrs) <==>
            if p.Ss != 0 then E.Usable(ptrs, false, false, acNo)
            else p.Ah == 0 ==> forall i :: 0 <= i < |dcNos| ==> E.Usable(ptrs, true, false, dcNos[i])
  {
  }

  /** Both ends keep the scan the same way. */
  lemma SameScan(sc: Scan, p: Params, members: seq<nat>, dcNos: seq<nat>, acNo: nat, interval: nat)
    requires sc.p == p && sc.members == members && sc.interval == interval && |sc.dcTbl| == |dcNos|
    requires (p.Ss != 0 ==> sc.acTbl == acNo) && (p.Ss == 0 && p.Ah == 0 ==> sc.dcTbl == dcNos) && E.Normal(sc)
    ensures sc == D.ScanFor(p, members, dcNos, acNo, interval)
  {
  }

  lemma ScanForIs(p: Params, members: seq<nat>, dcNos: seq<nat>, acNo: nat, interval: nat)
    ensures var sc := D.ScanFor(p, members, dcNos, acNo, interval); sc.p == p && sc.members == members && sc.interval == interval
  {
  }

  lemma AwaitsShapes(sc: Scan, dm: seq<Mcu>, bm: seq<Mcu>)
    requires Awaits(sc, dm, bm)
    ensures Shaped(sc, bm)
  {
  }

  /** A scan of a progressive image, sent and received. It is refused exactly when a table that
      it needs is unusable, or when a coefficient is out of range or without a code. */
  method SendScan(p: Params, members: seq<nat>, dcNos: seq<nat>, acNo: nat, interval: nat, ptrs: seq<Option<Table>>,
                  bm: seq<Mcu>, dm: seq<Mcu>, before: seq<byte>, m: byte, after: seq<byte>, arrivals: seq<nat>)
    returns (ok: bool, out: seq<Mcu>, warnings: nat)
    requires |ptrs| == NUM_HUFF_TBLS && E.ScanParams(p, members, |dcNos|) && (|dcNos| == 1 ==> |members| == 1)
    requires TablesReady(p, dcNos, acNo, ptrs) ==> Awaits(D.ScanFor(p, members, dcNos, acNo, interval), dm, bm)
    requires Closed(m, after)
    ensures var sc := D.ScanFor(p, members, dcNos, acNo, interval);
            && (ok <==> TablesReady(p, dcNos, acNo, ptrs) && ScanOk(sc, PassTables(ptrs))
                        && SegsOk(sc, PassTables(ptrs), false, Segments(bm, interval)))
            && (ok ==> sc.p.Al <= 13 && |dm| == |bm| && forall i :: 0 <= i < |bm| ==> |dm[i]| == |bm[i]|)
            && (ok ==> out == Targets(sc, dm, bm) && warnings == 0)
  {
    hide *;
    out, warnings := [], 0;
    ghost var sc := D.ScanFor(p, members, dcNos, acNo, interval);
    ScanForIs(p, members, dcNos, acNo, interval);
    ReadyIs(p, dcNos, acNo, ptrs);
    var begun, enc := E.StartPass(p, members, dcNos, acNo, interval, ptrs, false);
    ok := begun;
    if !ok { return; }
    AwaitsShapes(sc, dm, bm);
    var e := enc.value;
    SameScan(e.sc, p, members, dcNos, acNo, interval);
    ok := e.EncodePass(bm);
    if !ok { return; }
    AwaitsReady(sc, PassTables(ptrs), false, dm, bm);
    ReadyShapes(sc, PassTables(ptrs), dm, bm);
    var bytes := e.e.w.out + [0xFF, m] + after;
    ClosedEnds(before, e.e.w.out, m, after);
    var d := OpenSource(before, bytes);
    ReadyBoth(p, members, dcNos, acNo, ptrs);
    var dec;
    begun, dec := D.StartPass(p, members, dcNos, acNo, interval, ptrs, d);
    StandingNow(dec.value, before, bytes);
    out := DecodeWritten(dec.value, dm, bm, m, after, arrivals);
    warnings := d.warnings;
  }

  // ---- The same for a sequential scan ----

  ghost predicate AllReadyHuff(dc: seq<Option<Table>>, ac: seq<Option<Table>>, dcNos: seq<nat>, acNos: seq<nat>)
    requires |dcNos| == |acNos|
  {
    forall i :: 0 <= i < |dcNos| ==> E.BothUsable(dc, ac, false, dcNos[i], acNos[i])
  }

  lemma ReadyBothHuff(dc: seq<Option<Table>>, ac: seq<Option<Table>>, dcNos: seq<nat>, acNos: seq<nat>)
    requires |dcNos| == |acNos|
    ensures AllReadyHuff(dc, ac, dcNos, acNos) <==> forall i :: 0 <= i < |dcNos| ==> E.BothUsable(dc, ac, false, dcNos[i], acNos[i])
    ensures AllReadyHuff(dc, ac, dcNos, acNos) ==> D.BothUsable(dc, ac, dcNos, acNos)
  {
    hide LegalTree;
    if AllReadyHuff(dc, ac, dcNos, acNos) {
      forall i | 0 <= i < |dcNos| ensures D.Derivable(dc, true, dcNos[i]) && D.Derivable(ac, false, acNos[i]) {
        assert E.BothUsable(dc, ac, false, dcNos[i], acNos[i]);
      }
    }
  }

  lemma SameWhole(sc: Scan, members: seq<nat>, dcNos: seq<nat>, acNos: seq<nat>, interval: nat)
    requires sc.p == SEQUENTIAL && sc.members == members && sc.interval == interval && sc.dcTbl == dcNos && sc.acTbl == 0
    requires |sc.acTbls| == |acNos| && forall i :: 0 <= i < |acNos| ==> sc.acTbls[i] == NUM_HUFF_TBLS + acNos[i]
    ensures sc == D.WholeScan(members, dcNos, acNos, interval)
  {
    assert sc.acTbls == D.WholeScan(members, dcNos, acNos, interval).acTbls;
  }

  /** A scan of a sequential image, sent and received. */
  method SendSequentialScan(members: seq<nat>, dcNos: seq<nat>, acNos: seq<nat>, interval: nat,
                            dc: seq<Option<Table>>, ac: seq<Option<Table>>,
                            bm: seq<Mcu>, dm: seq<Mcu>, before: seq<byte>, m: byte, after: seq<byte>, arrivals: seq<nat>)
    returns (ok: bool, out: seq<Mcu>, warnings: nat)
    requires |dc| == |ac| == NUM_HUFF_TBLS && |dcNos| == |acNos| && forall i :: 0 <= i < |members| ==> members[i] < |dcNos|
    requires AllReadyHuff(dc, ac, dcNos, acNos) ==> Awaits(D.WholeScan(members, dcNos, acNos, interval), dm, bm)
    requires Closed(m, after)
    ensures var sc := D.WholeScan(members, dcNos, acNos, interval);
            && (ok <==> AllReadyHuff(dc, ac, dcNos, acNos) && ScanOk(sc, PassTables(dc + ac))
                        && SegsOk(sc, PassTables(dc + ac), false, Segments(bm, interval)))
            && (ok ==> sc.p.Al <= 13 && |dm| == |bm| && forall i :: 0 <= i < |bm| ==> |dm[i]| == |bm[i]|)
            && (ok ==> out == Targets(sc, dm, bm) && warnings == 0)
  {
    hide *;
    out, warnings := [], 0;
    ghost var sc := D.WholeScan(members, dcNos, acNos, interval);
    ReadyBothHuff(dc, ac, dcNos, acNos);
    var begun, enc := E.StartPassHuff(members, dcNos, acNos, interval, dc, ac, false);
    ok := begun;
    if !ok { return; }
    AwaitsShapes(sc, dm, bm);
    var e := enc.value;
    SameWhole(e.sc, members, dcNos, acNos, interval);
    ok := e.EncodePass(bm);
    if !ok { return; }
    AwaitsReady(sc, PassTables(dc + ac), false, dm, bm);
    ReadyShapes(sc, PassTables(dc + ac), dm, bm);
    var bytes := e.e.w.out + [0xFF, m] + after;
    ClosedEnds(before, e.e.w.out, m, after);
    var d := OpenSource(before, bytes);
    var dec;
    begun, dec := D.StartPassHuff(SEQUENTIAL, members, dcNos, acNos, interval, dc, ac, d);
    StandingNow(dec.value, before, bytes);
    out := DecodeWritten(dec.value, dm, bm, m, after, arrivals);
    warnings := d.warnings;
  }
}
