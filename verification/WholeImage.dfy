/** A whole image from one coefficient array to the other: for every scan of an accepted script
    the compressor's controller takes the MCUs from the padded arrays, the entropy encoder writes
    them, the entropy decoder reads them as they arrive, and consume_data stores them. */
module WholeImage {
  import opened Geometry
  import opened Layouts
  import opened Script
  import opened ScanSetup
  import opened Bits
  import opened HuffTable
  import opened Tokens
  import opened Blocks
  import opened AcScan
  import opened Scans
  import opened Restart
  import opened SegmentCode
  import opened Image
  import opened CoefControllers
  import opened ConsumeData
  import opened RoundTrip
  import E = EntropyEncoder
  import D = EntropyDecoder
  import S = SequentialImage
  import Sequential

  /** A script entry with the tables and restart settings that are in force for it: the table
      numbers of its components, restart_interval, restart_in_rows, and the table pointers. */
  datatype Job = Job(info: ScanInfo, dcNos: seq<nat>, acNos: seq<nat>, interval: nat, restartInRows: nat,
                     dc: seq<Option<Table>>, ac: seq<Option<Table>>)

  /** When things suspend: the entropy encoder, the decoder as its controller sees it, and the
      source. */
  datatype Timing = Timing(taking: seq<bool>, giving: seq<seq<Block>>, arrivals: seq<nat>)

  predicate JobOk(job: Job)
  {
    && |job.dc| == |job.ac| == NUM_HUFF_TBLS
    && (job.info.compsInScan > 0 ==> |job.dcNos| == |job.acNos| == job.info.compsInScan)
  }

  function JobInfos(jobs: seq<Job>): (r: seq<ScanInfo>)
    ensures |r| == |jobs| && forall i :: 0 <= i < |jobs| ==> r[i] == jobs[i].info
  {
    seq(|jobs|, i requires 0 <= i < |jobs| => jobs[i].info)
  }

  /** The entry is one that validate_script can accept for n components. */
  predicate InfoOk(info: ScanInfo, n: nat) { CompsOk(info, n) && (ProgOk(info) || SeqOk(info)) }

  function IntervalOf(f: Frame, cs: seq<nat>, job: Job): nat
    requires CompsIn(f, cs)
  {
    if job.restartInRows == 0 then job.interval
    else if job.restartInRows * McusPerRow(f, cs) <= 65535 then job.restartInRows * McusPerRow(f, cs) else 65535
  }

  function CompsOf(f: Frame, job: Job): (cs: seq<nat>)
    requires CompsOk(job.info, |f.comps|)
    ensures CompsIn(f, cs) && |cs| == job.info.compsInScan
  {
    ScanCompsIn(f, job.info);
    ScanComps(job.info, |f.comps|)
  }

  /** The tables that a progressive scan of this kind uses. */
  function TablesFor(job: Job): seq<Option<Table>> { if job.info.Ss == 0 then job.dc else job.ac }

  function ParamsOf(info: ScanInfo): Params
    requires ProgOk(info) || SeqOk(info)
  {
    Params(info.Ss, info.Se, info.Ah, info.Al)
  }

  /** The scan that select_scan_parameters, per_scan_setup and start_pass make of the entry. */
  ghost function PassOf(f: Frame, job: Job): Pass
    requires FrameOk(f) && JobOk(job) && InfoOk(job.info, |f.comps|)
  {
    var cs := CompsOf(f, job);
    if SeqOk(job.info) then
      Pass(job.info, D.WholeScan(Members(f, cs, 0), job.dcNos, job.acNos, IntervalOf(f, cs, job)), LayoutOf(f, cs), PassTables(job.dc + job.ac))
    else
      Pass(job.info, D.ScanFor(ParamsOf(job.info), Members(f, cs, 0), job.dcNos, job.acNos[0], IntervalOf(f, cs, job)), LayoutOf(f, cs),
           PassTables(TablesFor(job)))
  }

  /** The tables the scan needs are usable. */
  ghost predicate TablesThere(job: Job)
    requires JobOk(job) && job.info.compsInScan > 0 && (ProgOk(job.info) || SeqOk(job.info))
  {
    if SeqOk(job.info) then AllReadyHuff(job.dc, job.ac, job.dcNos, job.acNos)
    else TablesReady(ParamsOf(job.info), job.dcNos, job.acNos[0], TablesFor(job))
  }

  /** The scan can be sent: its MCUs are not too large, its tables are there, and its coefficients
      are in range and have codes. */
  ghost predicate Sendable(f: Frame, job: Job, pad: Coefs)
    requires FrameOk(f) && JobOk(job) && InfoOk(job.info, |f.comps|)
  {
    var cs, ps := CompsOf(f, job), PassOf(f, job);
    && (|cs| == 1 || |Members(f, cs, 0)| <= MAX_BLOCKS_IN_MCU)
    && TablesThere(job) && ScanOk(ps.sc, ps.tbls) && Inside(ps.layout, pad.Keys)
    && SegsOk(ps.sc, ps.tbls, false, Segments(Gather(pad, ps.layout), ps.sc.interval))
  }

  // ---- The controllers at both ends ----

  /** The MCUs of a scan as the compressor's controller sends them from the filled arrays. */
  method TakeMcus(f: Frame, cs: seq<nat>, dct: Coefs, whole: Coefs, taking: seq<bool>) returns (bm: seq<Mcu>)
    requires FrameOk(f) && CompsIn(f, cs) && RealOnes(f, dct) && IsPadded(f, dct, whole)
    ensures Inside(LayoutOf(f, cs), whole.Keys) && bm == Gather(whole, LayoutOf(f, cs))
  {
    hide *;
    var sink := new Sink(taking);
    var c := new Controller(Buffered, f, cs, dct, whole);
    c.CompressScan(sink, whole);
    bm := sink.sent;
  }

  /** The arrays after the first pass, which fills them. */
  method FillArrays(f: Frame, cs: seq<nat>, dct: Coefs, taking: seq<bool>) returns (whole: Coefs)
    requires FrameOk(f) && CompsIn(f, cs) && RealOnes(f, dct)
    ensures IsPadded(f, dct, whole) && whole == PaddedOf(f, dct)
  {
    hide *;
    var arrays := RequestArrays(f);
    ghost var pad := PaddedOf(f, dct);
    SameKeys(f, dct, arrays, pad);
    var sink := new Sink(taking);
    var c := new Controller(Buffered, f, cs, dct, arrays);
    c.FirstPassScan(sink, pad);
    whole := c.whole;
  }

  /** The blocks of a scan as the decompressor's arrays hold them. */
  method FetchMcus(f: Frame, cs: seq<nat>, stored: Coefs) returns (dm: seq<Mcu>)
    requires FrameOk(f) && CompsIn(f, cs) && Inside(LayoutOf(f, cs), stored.Keys)
    ensures dm == Gather(stored, LayoutOf(f, cs))
  {
    hide *;
    var lay := LayoutOf(f, cs);
    GatherLength(stored, lay);
    dm := [];
    while |dm| < |lay|
      invariant |dm| <= |lay| && forall i :: 0 <= i < |dm| ==> dm[i] == Gather(stored, lay)[i]
    {
      GatherAt(stored, lay, |dm|);
      var mcu := FetchMcu(lay[|dm|], stored);
      dm := dm + [mcu];
    }
  }

  lemma GatherLength(img: Coefs, lay: Layout)
    requires Inside(lay, img.Keys)
    ensures |Gather(img, lay)| == |lay|
  {
  }

  method FetchMcu(ids: seq<BlockId>, stored: Coefs) returns (mcu: Mcu)
    requires Within(ids, stored.Keys)
    ensures mcu == Gather1(stored, ids)
  {
    mcu := [];
    while |mcu| < |ids|
      invariant |mcu| <= |ids| && forall j :: 0 <= j < |mcu| ==> mcu[j] == stored[ids[j]]
    {
      mcu := mcu + [stored[ids[|mcu|]]];
    }
  }

  /** consume_data over the scan. */
  method StoreMcus(f: Frame, cs: seq<nat>, stored: Coefs, dm: seq<Mcu>, out: seq<Mcu>, giving: seq<seq<Block>>) returns (next: Coefs)
    requires FrameOk(f) && CompsIn(f, cs) && Inside(LayoutOf(f, cs), stored.Keys)
    requires dm == Gather(stored, LayoutOf(f, cs)) && Fill(LayoutOf(f, cs), out)
    ensures next == Scatter(stored, LayoutOf(f, cs), out)
  {
    hide *;
    FillLength(LayoutOf(f, cs), out);
    var src := new Source(dm, out, giving);
    var c := new Consumer(f, cs, stored);
    FitsSource(c, src);
    c.ConsumeScan(src);
    next := c.whole;
  }

  lemma FillLength(lay: Layout, out: seq<Mcu>)
    requires Fill(lay, out)
    ensures |out| == |lay|
  {
  }

  lemma FitsSource(c: Consumer, src: Source)
    requires FrameOk(c.f) && CompsIn(c.f, c.cs) && Inside(LayoutOf(c.f, c.cs), c.whole.Keys)
    requires src.given == Gather(c.whole, LayoutOf(c.f, c.cs)) && Fill(LayoutOf(c.f, c.cs), src.decoded)
    ensures c.Fits(src, c.whole)
  {
  }

  // ---- What a scan starts from ----

  lemma ProgressiveParams(f: Frame, job: Job, last: BitPos)
    requires FrameOk(f) && JobOk(job) && Accepts(job.info, last) && |last| == |f.comps|
    ensures InfoOk(job.info, |f.comps|) && !SeqOk(job.info)
    ensures var cs := CompsOf(f, job);
            && E.ScanParams(ParamsOf(job.info), Members(f, cs, 0), |job.dcNos|) && (|job.dcNos| == 1 ==> |Members(f, cs, 0)| == 1)
            && |job.dcNos| == |job.acNos| == |cs| > 0
  {
    var cs := CompsOf(f, job);
    MembersBelow(f, cs, 0);
    if |cs| == 1 { OneMember(f, cs); }
    assert RowOk(job.info, last[job.info.componentIndex[0]]);
    assert CoefOk(job.info, last[job.info.componentIndex[0]][job.info.Ss]);
    hide Members;
  }

  /** With its tables there, the entry is set up. */
  lemma ProgressiveSetUp(f: Frame, job: Job)
    requires FrameOk(f) && JobOk(job) && InfoOk(job.info, |f.comps|) && !SeqOk(job.info)
    requires E.ScanParams(ParamsOf(job.info), Members(f, CompsOf(f, job), 0), |job.dcNos|) && TablesThere(job)
    ensures SetUp(f, PassOf(f, job))
  {
    hide LayoutOf;
    hide Members;
    hide LegalTree;
  }

  lemma SequentialSetUp(f: Frame, job: Job)
    requires FrameOk(f) && JobOk(job) && InfoOk(job.info, |f.comps|) && SeqOk(job.info) && TablesThere(job)
    ensures SetUp(f, PassOf(f, job))
  {
    MembersBelow(f, CompsOf(f, job), 0);
    hide LayoutOf;
    hide Members;
    hide LegalTree;
  }

  /** The decompressor's arrays are ready for an accepted scan. */
  lemma PassAwaits(ps: Pass, n: nat, dec: Coefs, img: Coefs, last: BitPos, blocks: set<BlockId>)
    requires Image.Fits(ps, n, img.Keys, blocks) && Known(dec, img, last, blocks) && Accepts(ps.info, last) && n == |last|
    ensures Inside(ps.layout, dec.Keys) && Inside(ps.layout, img.Keys)
    ensures Awaits(ps.sc, Gather(dec, ps.layout), Gather(img, ps.layout))
  {
    var dm, bm := Gather(dec, ps.layout), Gather(img, ps.layout);
    forall i, j | 0 <= i < |bm| && 0 <= j < |ps.sc.members| ensures OldOk(ps.sc, dm[i][j], bm[i][j]) {
      var id := ps.layout[i][j];
      if ps.info.Ss != 0 {
        assert id in blocks;
        assert RowOk(ps.info, last[ps.info.componentIndex[ps.sc.members[j]]]);
        KnownOld(ps.sc, ps.info, dec[id], img[id], last[id.comp]);
      }
    }
  }

  lemma PassIs(f: Frame, job: Job)
    requires FrameOk(f) && JobOk(job) && InfoOk(job.info, |f.comps|)
    ensures var cs, ps := CompsOf(f, job), PassOf(f, job);
            && |job.dcNos| == |job.acNos| == |cs| == job.info.compsInScan > 0 && cs == ScanComps(job.info, |f.comps|)
            && ps.info == job.info && ps.layout == LayoutOf(f, cs)
            && (SeqOk(job.info) ==>
                  && ps.sc == D.WholeScan(Members(f, cs, 0), job.dcNos, job.acNos, IntervalOf(f, cs, job))
                  && ps.tbls == PassTables(job.dc + job.ac))
            && (!SeqOk(job.info) ==>
                  && ps.sc == D.ScanFor(ParamsOf(job.info), Members(f, cs, 0), job.dcNos, job.acNos[0], IntervalOf(f, cs, job))
                  && ps.tbls == PassTables(TablesFor(job)))
            && ps.sc.interval == IntervalOf(f, cs, job)
  {
    hide LayoutOf;
    hide Members;
    hide PassTables;
  }

  lemma SendableIs(f: Frame, job: Job, pad: Coefs)
    requires FrameOk(f) && JobOk(job) && InfoOk(job.info, |f.comps|)
    ensures var cs, ps := CompsOf(f, job), PassOf(f, job);
            Sendable(f, job, pad) <==>
              && (|cs| == 1 || |Members(f, cs, 0)| <= MAX_BLOCKS_IN_MCU)
              && TablesThere(job) && ScanOk(ps.sc, ps.tbls) && Inside(ps.layout, pad.Keys)
              && SegsOk(ps.sc, ps.tbls, false, Segments(Gather(pad, ps.layout), ps.sc.interval))
  {
    hide PassOf;
    hide CompsOf;
    hide TablesThere;
  }

  lemma ThereIs(job: Job)
    requires JobOk(job) && job.info.compsInScan > 0 && (ProgOk(job.info) || SeqOk(job.info))
    ensures |job.dcNos| == |job.acNos| > 0
    ensures SeqOk(job.info) ==> (TablesThere(job) <==> AllReadyHuff(job.dc, job.ac, job.dcNos, job.acNos))
    ensures !SeqOk(job.info) ==> (TablesThere(job) <==> TablesReady(ParamsOf(job.info), job.dcNos, job.acNos[0], TablesFor(job)))
    ensures |TablesFor(job)| == |job.dc| == |job.ac| == NUM_HUFF_TBLS
  {
  }

  /** The interval that per_scan_setup arrives at, and when it refuses. */
  method SetUpScan(f: Frame, job: Job) returns (ok: bool, members: seq<nat>, interval: nat)
    requires FrameOk(f) && CompsOk(job.info, |f.comps|)
    ensures var cs := CompsOf(f, job);
            && (ok <==> |cs| == 1 || |Members(f, cs, 0)| <= MAX_BLOCKS_IN_MCU)
            && (ok ==> members == Members(f, cs, 0) && interval == IntervalOf(f, cs, job))
  {
    hide Members;
    hide McusPerRow;
    var s;
    ok, s := PerScanSetup(f, CompsOf(f, job), job.interval, job.restartInRows);
    members, interval := [], 0;
    if ok { members, interval := s.membership, s.interval; }
  }

  lemma ArraysOf(f: Frame, dct: Coefs, whole: Coefs)
    requires FrameOk(f) && RealOnes(f, dct) && IsPadded(f, dct, whole)
    ensures Arrays(f, whole)
  {
  }

  // ---- A progressive scan ----

  lemma ProgressiveAwaits(f: Frame, job: Job, stored: Coefs, whole: Coefs, last: BitPos)
    requires FrameOk(f) && JobOk(job) && Accepts(job.info, last) && |last| == |f.comps| && Arrays(f, whole)
    requires Known(stored, whole, last, RealBlocks(f, whole)) && InfoOk(job.info, |f.comps|) && TablesThere(job)
    ensures var ps := PassOf(f, job);
            && Image.Fits(ps, |f.comps|, whole.Keys, RealBlocks(f, whole))
            && Inside(ps.layout, stored.Keys) && Inside(ps.layout, whole.Keys)
            && Awaits(ps.sc, Gather(stored, ps.layout), Gather(whole, ps.layout))
  {
    hide *;
    ProgressiveParams(f, job, last);
    ProgressiveSetUp(f, job);
    PassIs(f, job);
    SetUpFits(f, PassOf(f, job), whole);
    AcceptedKind(job.info, last);
    PassAwaits(PassOf(f, job), |f.comps|, stored, whole, last, RealBlocks(f, whole));
  }

  lemma AcceptedKind(info: ScanInfo, last: BitPos)
    requires Accepts(info, last)
    ensures ProgOk(info) && !SeqOk(info) && CompsOk(info, |last|)
  {
  }

  lemma FillTargets(ps: Pass, n: nat, dec: Coefs, img: Coefs, blocks: set<BlockId>)
    requires Image.Fits(ps, n, img.Keys, blocks) && dec.Keys == img.Keys
    ensures Inside(ps.layout, dec.Keys) && Inside(ps.layout, img.Keys) && ps.sc.p.Al <= 13
    ensures var dm, bm := Gather(dec, ps.layout), Gather(img, ps.layout);
            && |dm| == |bm| && (forall i :: 0 <= i < |bm| ==> |dm[i]| == |bm[i]|) && Fill(ps.layout, Targets(ps.sc, dm, bm))
  {
    hide *;
    PassShape(ps, n, dec, img, blocks);
    var dm, bm := Gather(dec, ps.layout), Gather(img, ps.layout);
    TargetsShape(ps.sc, dm, bm);
    FillIs(ps.layout, dm, Targets(ps.sc, dm, bm));
  }

  /** One progressive scan, from the compressor's arrays whole to the decompressor's. */
  method CarryProgressive(f: Frame, job: Job, dct: Coefs, whole: Coefs, stored: Coefs, time: Timing, before: seq<byte>, m: byte,
                          after: seq<byte>, ghost last: BitPos)
    returns (ok: bool, next: Coefs, warnings: nat)
    requires FrameOk(f) && JobOk(job) && RealOnes(f, dct) && IsPadded(f, dct, whole) && RoundTrip.Closed(m, after)
    requires Accepts(job.info, last) && |last| == |f.comps| && Known(stored, whole, last, RealBlocks(f, whole))
    ensures InfoOk(job.info, |f.comps|) && (ok <==> Sendable(f, job, whole))
    ensures ok ==> Rows(last, |last|) && job.info.compsInScan <= MAX_COMPS_IN_SCAN
    ensures ok ==> Known(next, whole, After(job.info, last), RealBlocks(f, whole)) && warnings == 0
  {
    hide *;
    next, warnings := stored, 0;
    AcceptedKind(job.info, last);
    ProgressiveParams(f, job, last);
    ArraysOf(f, dct, whole);
    DecKeys(stored, whole, last, RealBlocks(f, whole));
    PassIs(f, job);
    SendableIs(f, job, whole);
    ThereIs(job);
    ghost var ps := PassOf(f, job);
    var cs := CompsOf(f, job);
    var members, interval;
    ok, members, interval := SetUpScan(f, job);
    if !ok { return; }
    var bm := TakeMcus(f, cs, dct, whole, time.taking);
    var dm := FetchMcus(f, cs, stored);
    if TablesThere(job) { ProgressiveAwaits(f, job, stored, whole, last); }
    var out;
    ok, out, warnings := SendScan(ParamsOf(job.info), members, job.dcNos, job.acNos[0], interval, TablesFor(job), bm, dm, before, m, after,
                                  time.arrivals);
    if !ok { return; }
    FillTargets(ps, |f.comps|, stored, whole, RealBlocks(f, whole));
    next := StoreMcus(f, cs, stored, dm, out, time.giving);
    PassKnown(ps, |f.comps|, stored, whole, last, RealBlocks(f, whole));
    InfoBound(job.info, |f.comps|);
  }

  lemma InfoBound(info: ScanInfo, n: nat)
    requires CompsOk(info, n)
    ensures info.compsInScan <= MAX_COMPS_IN_SCAN
  {
  }

  // ---- A sequential scan ----

  lemma WholeAwaits(ps: Pass, n: nat, dec: Coefs, img: Coefs, sent: set<int>, blocks: set<BlockId>)
    requires S.FitsWhole(ps, n, img.Keys, blocks) && S.KnownWhole(dec, img, sent, blocks) && SentBy(ps.info) !! sent
    ensures Inside(ps.layout, dec.Keys) && Inside(ps.layout, img.Keys)
    ensures Awaits(ps.sc, Gather(dec, ps.layout), Gather(img, ps.layout))
  {
    hide Sequential.ZeroAc;
    var dm, bm := Gather(dec, ps.layout), Gather(img, ps.layout);
    forall i, j | 0 <= i < |bm| && 0 <= j < |ps.sc.members| ensures OldOk(ps.sc, dm[i][j], bm[i][j]) {
      S.Member(ps, n, img.Keys, blocks, i, j);
      assert ps.layout[i][j] in dec;
    }
  }

  lemma SequentialAwaits(f: Frame, job: Job, stored: Coefs, whole: Coefs, sent: set<int>)
    requires FrameOk(f) && JobOk(job) && InfoOk(job.info, |f.comps|) && SeqOk(job.info) && Arrays(f, whole) && TablesThere(job)
    requires SentBy(job.info) !! sent && S.KnownWhole(stored, whole, sent, RealBlocks(f, whole))
    ensures var ps := PassOf(f, job);
            && S.FitsWhole(ps, |f.comps|, whole.Keys, RealBlocks(f, whole))
            && Inside(ps.layout, stored.Keys) && Inside(ps.layout, whole.Keys)
            && Awaits(ps.sc, Gather(stored, ps.layout), Gather(whole, ps.layout))
  {
    hide *;
    SequentialSetUp(f, job);
    PassIs(f, job);
    SetUpFits(f, PassOf(f, job), whole);
    WholeAwaits(PassOf(f, job), |f.comps|, stored, whole, sent, RealBlocks(f, whole));
  }

  lemma SequentialMembers(f: Frame, job: Job)
    requires FrameOk(f) && JobOk(job) && InfoOk(job.info, |f.comps|)
    ensures var cs := CompsOf(f, job); forall i :: 0 <= i < |Members(f, cs, 0)| ==> Members(f, cs, 0)[i] < |job.dcNos|
  {
    MembersBelow(f, CompsOf(f, job), 0);
  }

  /** One sequential scan. */
  method CarrySequential(f: Frame, job: Job, dct: Coefs, whole: Coefs, stored: Coefs, time: Timing, before: seq<byte>, m: byte,
                         after: seq<byte>, ghost sent: set<int>)
    returns (ok: bool, next: Coefs, warnings: nat)
    requires FrameOk(f) && JobOk(job) && RealOnes(f, dct) && IsPadded(f, dct, whole) && RoundTrip.Closed(m, after)
    requires CompsOk(job.info, |f.comps|) && SeqOk(job.info) && job.info.compsInScan <= MAX_COMPS_IN_SCAN
    requires SentBy(job.info) !! sent && S.KnownWhole(stored, whole, sent, RealBlocks(f, whole))
    ensures InfoOk(job.info, |f.comps|) && (ok <==> Sendable(f, job, whole))
    ensures ok ==> S.KnownWhole(next, whole, sent + SentBy(job.info), RealBlocks(f, whole)) && warnings == 0
  {
    hide *;
    next, warnings := stored, 0;
    MakeInfoOk(job.info, |f.comps|);
    SequentialMembers(f, job);
    ArraysOf(f, dct, whole);
    S.WholeKeys(stored, whole, sent, RealBlocks(f, whole));
    PassIs(f, job);
    SendableIs(f, job, whole);
    ThereIs(job);
    ghost var ps := PassOf(f, job);
    var cs := CompsOf(f, job);
    var members, interval;
    ok, members, interval := SetUpScan(f, job);
    if !ok { return; }
    var bm := TakeMcus(f, cs, dct, whole, time.taking);
    var dm := FetchMcus(f, cs, stored);
    if TablesThere(job) { SequentialAwaits(f, job, stored, whole, sent); }
    var out;
    ok, out, warnings := SendSequentialScan(members, job.dcNos, job.acNos, interval, job.dc, job.ac, bm, dm, before, m, after, time.arrivals);
    if !ok { return; }
    S.WholeShapes(ps, |f.comps|, stored, whole, RealBlocks(f, whole));
    S.WholeTargets(ps.sc, dm, bm);
    FillIs(ps.layout, dm, bm);
    next := StoreMcus(f, cs, stored, dm, out, time.giving);
    S.WholeStored(ps, |f.comps|, stored, whole, sent, RealBlocks(f, whole));
  }

  lemma MakeInfoOk(info: ScanInfo, n: nat)
    requires CompsOk(info, n) && SeqOk(info)
    ensures InfoOk(info, n)
  {
  }

  // ---- The whole script ----

  ghost predicate AllSendable(f: Frame, jobs: seq<Job>, pad: Coefs, n: nat)
    requires FrameOk(f) && n <= |jobs|
  {
    forall i :: 0 <= i < n ==> JobOk(jobs[i]) && InfoOk(jobs[i].info, |f.comps|) && Sendable(f, jobs[i], pad)
  }

  /** Coefficient k of block id is known down to its bit position in last. */
  ghost predicate KnownAt(last: BitPos, dct: Coefs, out: Coefs, id: BlockId, k: nat)
  {
    && id in out && id in dct && id.comp < |last| && k < 64 && k < |last[id.comp]|
    && out[id][k] == KnownCoef(dct[id], k, last[id.comp][k])
  }

  ghost predicate KnownDownTo(f: Frame, last: BitPos, dct: Coefs, out: Coefs)
  {
    forall id, k: nat :: RealId(f, id) && k < 64 ==> KnownAt(last, dct, out, id, k)
  }

  /** The last bit position that the script sends is what counts. */
  ghost predicate KnownToTheEnd(f: Frame, infos: seq<ScanInfo>, dct: Coefs, out: Coefs)
    requires AcceptsAll(infos, Unseen(|f.comps|))
  {
    KnownDownTo(f, Final(infos, Unseen(|f.comps|)), dct, out)
  }

  ghost predicate Unchanged(f: Frame, dct: Coefs, out: Coefs)
  {
    forall id :: RealId(f, id) ==> id in out && id in dct && out[id] == dct[id]
  }

  lemma NextInfo(infos: seq<ScanInfo>, i: nat, last: BitPos)
    requires i < |infos| && Rows(last, |last|) && AcceptsAll(infos[i..], last)
    ensures infos[i].compsInScan <= MAX_COMPS_IN_SCAN && Accepts(infos[i], last)
    ensures var next := After(infos[i], last);
            |next| == |last| && Rows(next, |next|) && AcceptsAll(infos[i + 1..], next) && Final(infos[i + 1..], next) == Final(infos[i..], last)
  {
    assert infos[i..][0] == infos[i] && infos[i..][1..] == infos[i + 1..];
  }

  lemma NoInfos(infos: seq<ScanInfo>, last: BitPos)
    requires Rows(last, |last|)
    ensures AcceptsAll(infos[|infos|..], last) && Final(infos[|infos|..], last) == last
  {
  }

  lemma StartProgressive(f: Frame, dct: Coefs, whole: Coefs, stored: Coefs)
    requires FrameOk(f) && RealOnes(f, dct) && IsPadded(f, dct, whole) && Arrays(f, stored) && Blank(stored)
    ensures Rows(Unseen(|f.comps|), |f.comps|) && Known(stored, whole, Unseen(|f.comps|), RealBlocks(f, whole))
  {
    SameKeys(f, dct, stored, whole);
    RealInComps(f, whole);
    hide RealBlocks;
    hide IsPadded;
  }

  lemma RealKnown(f: Frame, dct: Coefs, whole: Coefs, out: Coefs, last: BitPos, id: BlockId, k: nat)
    requires FrameOk(f) && RealOnes(f, dct) && IsPadded(f, dct, whole) && |last| == |f.comps| && RealId(f, id) && k < 64
    requires Known(out, whole, last, RealBlocks(f, whole))
    ensures KnownAt(last, dct, out, id, k)
  {
    hide KnownCoef;
    hide RealBlocks;
    RealInArrays(f, whole, id);
    assert KnownBlock(out[id], whole[id], last[id.comp]);
  }

  lemma AllKnown(f: Frame, dct: Coefs, whole: Coefs, out: Coefs, last: BitPos)
    requires FrameOk(f) && RealOnes(f, dct) && IsPadded(f, dct, whole) && |last| == |f.comps|
    requires Known(out, whole, last, RealBlocks(f, whole))
    ensures KnownDownTo(f, last, dct, out)
  {
    hide KnownAt;
    hide RealBlocks;
    hide Known;
    hide RealId;
    forall id, k: nat | RealId(f, id) && k < 64 ensures KnownAt(last, dct, out, id, k) {
      RealKnown(f, dct, whole, out, last, id, k);
    }
  }

  lemma EndProgressive(f: Frame, infos: seq<ScanInfo>, dct: Coefs, whole: Coefs, out: Coefs, last: BitPos)
    requires FrameOk(f) && RealOnes(f, dct) && IsPadded(f, dct, whole) && AcceptsAll(infos, Unseen(|f.comps|))
    requires |last| == |f.comps| && last == Final(infos, Unseen(|f.comps|)) && Known(out, whole, last, RealBlocks(f, whole))
    ensures KnownToTheEnd(f, infos, dct, out)
  {
    AllKnown(f, dct, whole, out, last);
    hide KnownDownTo;
    hide Final;
  }

  lemma StartSequential(f: Frame, dct: Coefs, whole: Coefs, stored: Coefs)
    requires FrameOk(f) && RealOnes(f, dct) && IsPadded(f, dct, whole) && Arrays(f, stored) && Blank(stored)
    ensures S.KnownWhole(stored, whole, {}, RealBlocks(f, whole))
  {
    SameKeys(f, dct, stored, whole);
    hide RealBlocks;
    hide IsPadded;
  }

  lemma EndSequential(f: Frame, dct: Coefs, whole: Coefs, out: Coefs, sent: set<int>)
    requires FrameOk(f) && RealOnes(f, dct) && IsPadded(f, dct, whole) && S.KnownWhole(out, whole, sent, RealBlocks(f, whole))
    requires forall c :: 0 <= c < |f.comps| ==> c in sent
    ensures Unchanged(f, dct, out)
  {
    hide RealBlocks;
    forall id | RealId(f, id) ensures id in out && id in dct && out[id] == dct[id] {
      RealInArrays(f, whole, id);
      assert whole[id] == dct[id];
    }
  }

  lemma NextSequential(infos: seq<ScanInfo>, i: nat, n: nat, sent: set<int>)
    requires i < |infos| && SendsRest(infos[i..], n, sent)
    ensures CompsOk(infos[i], n) && SeqOk(infos[i]) && infos[i].compsInScan <= MAX_COMPS_IN_SCAN && SentBy(infos[i]) !! sent
    ensures SendsRest(infos[i + 1..], n, sent + SentBy(infos[i]))
  {
    assert infos[i..][0] == infos[i] && infos[i..][1..] == infos[i + 1..];
  }

  lemma LastSequential(infos: seq<ScanInfo>, n: nat, sent: set<int>)
    requires SendsRest(infos[|infos|..], n, sent)
    ensures forall c :: 0 <= c < n ==> c in sent
  {
    assert infos[|infos|..] == [];
  }

  lemma OneMoreSent(f: Frame, jobs: seq<Job>, pad: Coefs, n: nat)
    requires FrameOk(f) && n < |jobs| && AllSendable(f, jobs, pad, n)
    requires JobOk(jobs[n]) && InfoOk(jobs[n].info, |f.comps|)
    ensures AllSendable(f, jobs, pad, n + 1) <==> Sendable(f, jobs[n], pad)
  {
    hide Sendable;
    hide InfoOk;
  }

  lemma NotAllSent(f: Frame, jobs: seq<Job>, pad: Coefs, n: nat)
    requires FrameOk(f) && n <= |jobs| && !AllSendable(f, jobs, pad, n)
    ensures !AllSendable(f, jobs, pad, |jobs|)
  {
    hide Sendable;
    hide InfoOk;
  }

  lemma NoneSent(f: Frame, jobs: seq<Job>, pad: Coefs)
    requires FrameOk(f)
    ensures AllSendable(f, jobs, pad, 0)
  {
  }

  /** The scans of a progressive script in order. */
  method CarryScans(f: Frame, jobs: seq<Job>, dct: Coefs, whole: Coefs, times: seq<Timing>, before: seq<byte>, m: byte, after: seq<byte>)
    returns (ok: bool, out: Coefs, warnings: nat)
    requires FrameOk(f) && (forall i :: 0 <= i < |jobs| ==> JobOk(jobs[i])) && RealOnes(f, dct) && IsPadded(f, dct, whole)
    requires |times| == |jobs| && RoundTrip.Closed(m, after)
    requires Rows(Unseen(|f.comps|), |f.comps|) && AcceptsAll(JobInfos(jobs), Unseen(|f.comps|))
    ensures ok <==> AllSendable(f, jobs, whole, |jobs|)
    ensures ok ==> KnownToTheEnd(f, JobInfos(jobs), dct, out) && warnings == 0
  {
    hide *;
    ghost var infos := JobInfos(jobs);
    ghost var last := Unseen(|f.comps|);
    var i := 0;
    warnings := 0;
    out := RequestArrays(f);
    StartProgressive(f, dct, whole, out);
    UnseenSize(|f.comps|);
    NoneSent(f, jobs, whole);
    assert infos[0..] == infos;
    while i < |jobs|
      invariant 0 <= i <= |jobs| && warnings == 0
      invariant |last| == |f.comps| && Rows(last, |last|) && AcceptsAll(infos[i..], last)
      invariant Final(infos[i..], last) == Final(infos, Unseen(|f.comps|))
      invariant Known(out, whole, last, RealBlocks(f, whole)) && AllSendable(f, jobs, whole, i)
    {
      NextInfo(infos, i, last);
      var w;
      ok, out, w := CarryProgressive(f, jobs[i], dct, whole, out, times[i], before, m, after, last);
      OneMoreSent(f, jobs, whole, i);
      if !ok {
        NotAllSent(f, jobs, whole, i + 1);
        return;
      }
      warnings := warnings + w;
      last := After(infos[i], last);
      i := i + 1;
    }
    NoInfos(infos, last);
    EndProgressive(f, infos, dct, whole, out, last);
    ok := true;
  }

  lemma UnseenSize(n: nat)
    ensures |Unseen(n)| == n
  {
  }

  /** The scans of a sequential script in order. */
  method CarrySequentialScans(f: Frame, jobs: seq<Job>, dct: Coefs, whole: Coefs, times: seq<Timing>, before: seq<byte>, m: byte, after: seq<byte>)
    returns (ok: bool, out: Coefs, warnings: nat)
    requires FrameOk(f) && (forall i :: 0 <= i < |jobs| ==> JobOk(jobs[i])) && RealOnes(f, dct) && IsPadded(f, dct, whole)
    requires |times| == |jobs| && RoundTrip.Closed(m, after) && SendsRest(JobInfos(jobs), |f.comps|, {})
    ensures ok <==> AllSendable(f, jobs, whole, |jobs|)
    ensures ok ==> Unchanged(f, dct, out) && warnings == 0
  {
    hide *;
    ghost var infos := JobInfos(jobs);
    ghost var sent: set<int> := {};
    var i := 0;
    warnings := 0;
    out := RequestArrays(f);
    StartSequential(f, dct, whole, out);
    NoneSent(f, jobs, whole);
    assert infos[0..] == infos;
    while i < |jobs|
      invariant 0 <= i <= |jobs| && warnings == 0
      invariant SendsRest(infos[i..], |f.comps|, sent) && S.KnownWhole(out, whole, sent, RealBlocks(f, whole))
      invariant AllSendable(f, jobs, whole, i)
    {
      NextSequential(infos, i, |f.comps|, sent);
      var w;
      ok, out, w := CarrySequential(f, jobs[i], dct, whole, out, times[i], before, m, after, sent);
      OneMoreSent(f, jobs, whole, i);
      if !ok {
        NotAllSent(f, jobs, whole, i + 1);
        return;
      }
      warnings := warnings + w;
      sent := sent + SentBy(infos[i]);
      i := i + 1;
    }
    LastSequential(infos, |f.comps|, sent);
    EndSequential(f, dct, whole, out, sent);
    ok := true;
  }

  /** A whole image, sent and received: however the coders suspend and the data arrives, an image
      with a script that validate_script accepts is refused only if a scan cannot be sent, and
      otherwise every real block comes back without a warning: bit for bit if the script is
      sequential, and down to the last bit sent if it is progressive. */
  method CarryImage(f: Frame, jobs: seq<Job>, dct: Coefs, times: seq<Timing>, before: seq<byte>, m: byte, after: seq<byte>)
    returns (ok: bool, out: Coefs, warnings: nat)
    requires FrameOk(f) && (forall i :: 0 <= i < |jobs| ==> JobOk(jobs[i])) && RealOnes(f, dct)
    requires |times| == |jobs| && RoundTrip.Closed(m, after)
    ensures ok <==> ValidScript(JobInfos(jobs), |f.comps|) && AllSendable(f, jobs, PaddedOf(f, dct), |jobs|)
    ensures ok && IsProgressive(JobInfos(jobs)) ==>
      AcceptsAll(JobInfos(jobs), Unseen(|f.comps|)) && KnownToTheEnd(f, JobInfos(jobs), dct, out)
    ensures ok && !IsProgressive(JobInfos(jobs)) ==> Unchanged(f, dct, out)
    ensures ok ==> warnings == 0
  {
    hide *;
    out, warnings := map[], 0;
    var progressive;
    ok, progressive := ValidateScript(JobInfos(jobs), |f.comps|);
    if !ok { return; }
    ScriptKinds(JobInfos(jobs), |f.comps|);
    FirstComps(f, JobInfos(jobs));
    var whole := FillArrays(f, CompsOf(f, jobs[0]), dct, times[0].taking);
    if progressive {
      ok, out, warnings := CarryScans(f, jobs, dct, whole, times, before, m, after);
    } else {
      ok, out, warnings := CarrySequentialScans(f, jobs, dct, whole, times, before, m, after);
    }
  }

  lemma ScriptKinds(infos: seq<ScanInfo>, n: nat)
    requires ValidScript(infos, n)
    ensures infos != [] && Rows(Unseen(n), n)
    ensures IsProgressive(infos) ==> AcceptsAll(infos, Unseen(n))
    ensures !IsProgressive(infos) ==> SendsRest(infos, n, {})
  {
  }

  lemma FirstComps(f: Frame, infos: seq<ScanInfo>)
    requires ValidScript(infos, |f.comps|)
    ensures infos != [] && CompsOk(infos[0], |f.comps|)
  {
  }
}
