/** per_scan_setup of jcmaster.c and jdinput.c, and what it makes of a whole script: with the
    layouts it sets up, the scans of an accepted script reconstruct the image. */
module ScanSetup {
  import opened Geometry
  import opened Layouts
  import opened Script
  import opened Bits
  import opened Blocks
  import opened AcScan
  import opened Scans
  import opened Image
  import SequentialImage

  /** What per_scan_setup computes; the last two are kept for each component of the scan. */
  datatype Setup = Setup(mcusPerRow: nat, mcuRows: nat, membership: seq<nat>, interval: nat, lastColWidth: seq<nat>, lastRowHeight: seq<nat>)

  /** Real blocks across in the last MCU column. */
  function LastColWidth(f: Frame, cs: seq<nat>, c: nat): nat
    requires FrameOk(f) && c < |f.comps|
  {
    if |cs| == 1 then 1 else LastPart(WidthInBlocks(f, c), f.comps[c].h)
  }

  /** Real block rows in the last row of interleaved MCUs. */
  function LastRowHeight(f: Frame, c: nat): nat
    requires FrameOk(f) && c < |f.comps|
  {
    LastPart(HeightInBlocks(f, c), f.comps[c].v)
  }

  /** The last MCU column and row are the only ones with dummy blocks. */
  lemma LastParts(f: Frame, cs: seq<nat>, c: nat)
    requires FrameOk(f) && CompsIn(f, cs) && c in cs
    ensures var w := McuWidth(f, cs, c);
            && 0 < LastColWidth(f, cs, c) <= w && McusPerRow(f, cs) > 0
            && WidthInBlocks(f, c) == (McusPerRow(f, cs) - 1) * w + LastColWidth(f, cs, c)
    ensures var v := f.comps[c].v;
            && 0 < LastRowHeight(f, c) <= v && ImcuRows(f) > 0
            && HeightInBlocks(f, c) == (ImcuRows(f) - 1) * v + LastRowHeight(f, c)
  {
    BlockRows(f, c);
    BlockCols(f, c);
    RowsPositive(f, cs);
    LastPartIs(HeightInBlocks(f, c), f.comps[c].v, ImcuRows(f));
    if |cs| > 1 { LastPartIs(WidthInBlocks(f, c), f.comps[c].h, ImcuCols(f)); }
  }

  /** The membership list so far, from the end of the recursion. */
  lemma {:induction false} MembersFrom(f: Frame, cs: seq<nat>, ci: nat, front: seq<nat>)
    requires FrameOk(f) && CompsIn(f, cs) && ci < |cs|
    ensures front + Members(f, cs, ci) == front + Same(ci, McuSize(f, cs, cs[ci])) + Members(f, cs, ci + 1)
    ensures |Members(f, cs, ci)| == McuSize(f, cs, cs[ci]) + |Members(f, cs, ci + 1)|
    ensures Members(f, cs, |cs|) == []
  {
  }

  /** The last column and row of each component of the scan so far. */
  ghost predicate LastOnes(f: Frame, cs: seq<nat>, cols: seq<nat>, rows: seq<nat>, n: nat)
    requires FrameOk(f) && CompsIn(f, cs)
  {
    && |cols| == |rows| == n <= |cs|
    && forall i :: 0 <= i < n ==> cols[i] == LastColWidth(f, cs, cs[i]) && rows[i] == LastRowHeight(f, cs[i])
  }

  /** The part of per_scan_setup for an interleaved scan. */
  method InterleavedSetup(f: Frame, cs: seq<nat>) returns (ok: bool, members: seq<nat>, cols: seq<nat>, rows: seq<nat>)
    requires FrameOk(f) && CompsIn(f, cs) && |cs| > 1
    ensures ok <==> |cs| <= MAX_COMPS_IN_SCAN && |Members(f, cs, 0)| <= MAX_BLOCKS_IN_MCU
    ensures ok ==> members == Members(f, cs, 0) && LastOnes(f, cs, cols, rows, |cs|)
  {
    hide Members;
    hide LastPart;
    hide WidthInBlocks;
    hide HeightInBlocks;
    members, cols, rows := [], [], [];
    if |cs| > MAX_COMPS_IN_SCAN { return false, members, cols, rows; }
    assert [] + Members(f, cs, 0) == Members(f, cs, 0);
    var ci := 0;
    while ci < |cs|
      invariant 0 <= ci <= |cs| && LastOnes(f, cs, cols, rows, ci) && |members| <= MAX_BLOCKS_IN_MCU
      invariant members + Members(f, cs, ci) == Members(f, cs, 0)
    {
      var comp := f.comps[cs[ci]];
      cols := cols + [Remainder(WidthInBlocks(f, cs[ci]), comp.h)];
      rows := rows + [Remainder(HeightInBlocks(f, cs[ci]), comp.v)];
      MembersFrom(f, cs, ci, members);
      members := AppendMember(members, ci, comp.h * comp.v);
      if |members| > MAX_BLOCKS_IN_MCU {
        assert |Members(f, cs, 0)| >= |members|;
        return false, members, cols, rows;
      }
      ci := ci + 1;
    }
    MembersFrom(f, cs, 0, []);
    assert members + [] == members;
    ok := true;
  }

  /** The loop that enters one component's blocks in MCU_membership. */
  method AppendMember(members0: seq<nat>, ci: nat, n: nat) returns (members: seq<nat>)
    ensures members == members0 + Same(ci, n)
  {
    members := members0;
    var mcublks := n;
    while mcublks > 0
      invariant 0 <= mcublks <= n && members == members0 + Same(ci, n - mcublks)
    {
      members := members + [ci];
      mcublks := mcublks - 1;
    }
  }

  /** per_scan_setup: refused exactly when there are too many components or too many blocks. */
  method PerScanSetup(f: Frame, cs: seq<nat>, interval0: nat, restartInRows: nat) returns (ok: bool, s: Setup)
    requires FrameOk(f) && CompsIn(f, cs)
    ensures ok <==> |cs| == 1 || (|cs| <= 4 && |Members(f, cs, 0)| <= 10)
    ensures ok ==> s.mcusPerRow == McusPerRow(f, cs) && s.mcuRows == McuRows(f, cs) && s.membership == Members(f, cs, 0)
    ensures ok ==> LastOnes(f, cs, s.lastColWidth, s.lastRowHeight, |cs|)
    ensures ok ==> s.interval == if restartInRows == 0 then interval0
                                 else if restartInRows * McusPerRow(f, cs) <= 65535 then restartInRows * McusPerRow(f, cs) else 65535
  {
    hide WidthInBlocks;
    hide HeightInBlocks;
    hide ImcuCols;
    hide ImcuRows;
    hide LastPart;
    hide Members;
    s := Setup(0, 0, [], interval0, [], []);
    if |cs| == 1 {
      OneMember(f, cs);
      s := Setup(WidthInBlocks(f, cs[0]), HeightInBlocks(f, cs[0]), [0], interval0, [1], [Remainder(HeightInBlocks(f, cs[0]), f.comps[cs[0]].v)]);
    } else {
      var members, cols, rows;
      ok, members, cols, rows := InterleavedSetup(f, cs);
      if !ok { return; }
      s := Setup(ImcuCols(f), ImcuRows(f), members, interval0, cols, rows);
    }
    if restartInRows > 0 {
      var nominal := restartInRows * s.mcusPerRow;
      s := s.(interval := if nominal < 65535 then nominal else 65535);
    }
    ok := true;
  }

  lemma OneMember(f: Frame, cs: seq<nat>)
    requires FrameOk(f) && CompsIn(f, cs) && |cs| == 1
    ensures Members(f, cs, 0) == [0]
  {
    MembersFrom(f, cs, 0, []);
    assert Same(0, 1) == [0];
  }

  /** The remainder, or the whole factor when there is none. */
  function Remainder(n: nat, factor: nat): (r: nat)
    requires factor > 0
    ensures r == LastPart(n, factor)
  {
    var tmp := n % factor;
    if tmp == 0 then factor else tmp
  }

  // ---- Scripts with these layouts ----

  /** cur_comp_info as select_scan_parameters fills it. */
  function ScanComps(info: ScanInfo, n: nat): (cs: seq<nat>)
    requires CompsOk(info, n)
    ensures |cs| == info.compsInScan && forall i :: 0 <= i < |cs| ==> cs[i] == info.componentIndex[i]
  {
    seq(info.compsInScan, i requires 0 <= i < info.compsInScan => info.componentIndex[i])
  }

  lemma ScanCompsIn(f: Frame, info: ScanInfo)
    requires CompsOk(info, |f.comps|)
    ensures CompsIn(f, ScanComps(info, |f.comps|))
    ensures forall c: nat :: InScan(info, c) <==> c in ScanComps(info, |f.comps|)
  {
    var cs := ScanComps(info, |f.comps|);
    assert forall i :: 1 <= i < |cs| ==> cs[i - 1] < cs[i];
    Increasing(cs);
    forall c: nat ensures InScan(info, c) <==> c in cs {
      if InScan(info, c) {
        var ci :| 0 <= ci < info.compsInScan && info.componentIndex[ci] == c;
        assert cs[ci] == c;
      }
    }
  }

  lemma {:induction false} Increasing(cs: seq<nat>)
    requires forall i :: 1 <= i < |cs| ==> cs[i - 1] < cs[i]
    ensures forall i, j :: 0 <= i < j < |cs| ==> cs[i] < cs[j]
  {
    if |cs| > 1 {
      Increasing(cs[..|cs| - 1]);
      assert cs[|cs| - 2] < cs[|cs| - 1];
    }
  }

  /** The pass is what select_scan_parameters and per_scan_setup make of its script entry. */
  ghost predicate SetUp(f: Frame, ps: Pass)
  {
    && FrameOk(f) && CompsOk(ps.info, |f.comps|)
    && CompsIn(f, ScanComps(ps.info, |f.comps|))
    && (ProgOk(ps.info) || SeqOk(ps.info))
    && ps.sc.p == Params(ps.info.Ss, ps.info.Se, ps.info.Ah, ps.info.Al)
    && ScanOk(ps.sc, ps.tbls) && |ps.sc.dcTbl| == ps.info.compsInScan
    && ps.sc.members == Members(f, ScanComps(ps.info, |f.comps|), 0)
    && ps.layout == LayoutOf(f, ScanComps(ps.info, |f.comps|))
  }

  /** The arrays hold the padded components. */
  ghost predicate Arrays(f: Frame, img: Coefs)
  {
    forall id :: id in img <==> PaddedId(f, id)
  }

  ghost function RealBlocks(f: Frame, img: Coefs): (r: set<BlockId>)
    ensures r <= img.Keys && forall id :: id in r <==> id in img && RealId(f, id)
  {
    set id | id in img && RealId(f, id)
  }

  lemma SetUpLayout(f: Frame, ps: Pass, img: Coefs)
    requires SetUp(f, ps) && Arrays(f, img)
    ensures ps.info.compsInScan <= MAX_COMPS_IN_SCAN
    ensures Distinct(ps.layout) && PlacedAll(f, ps, img)
    ensures forall i :: 0 <= i < |ps.layout| ==> |ps.layout[i]| == |ps.sc.members|
    ensures forall id :: id in RealBlocks(f, img) && InScan(ps.info, id.comp) ==> Visits(ps.layout, id)
  {
    hide *;
    SetUpIs(f, ps);
    var cs := ScanComps(ps.info, |f.comps|);
    ScanCompsIn(f, ps.info);
    LayoutDistinct(f, cs);
    forall i: nat, j: nat | i < |ps.layout| && j < |ps.layout[i]|
      ensures PlacedAt(f, ps, img, i, j)
    {
      LayoutInside(f, cs, i, j);
      InArrays(f, img, ps.layout[i][j]);
      MakePlaced(f, ps, img, i, j);
    }
    MakePlacedAll(f, ps, img);
    forall i | 0 <= i < |ps.layout| ensures |ps.layout[i]| == |ps.sc.members| {
      var r, col := LayoutPlace(f, cs, i);
      SameLengths(f, cs, r, col, 0);
    }
    forall id | id in RealBlocks(f, img) && InScan(ps.info, id.comp) ensures Visits(ps.layout, id) {
      RealVisited(f, cs, id);
    }
  }

  ghost predicate PlacedAt(f: Frame, ps: Pass, img: Coefs, i: nat, j: nat)
  {
    && i < |ps.layout| && j < |ps.layout[i]| && j < |ps.sc.members| && ps.sc.members[j] < ps.info.compsInScan <= MAX_COMPS_IN_SCAN
    && ps.layout[i][j].comp == ps.info.componentIndex[ps.sc.members[j]]
    && ps.layout[i][j] in img && (ps.info.compsInScan == 1 ==> ps.layout[i][j] in RealBlocks(f, img))
  }

  lemma MakePlaced(f: Frame, ps: Pass, img: Coefs, i: nat, j: nat)
    requires i < |ps.layout| && j < |ps.layout[i]| && j < |ps.sc.members| && ps.sc.members[j] < ps.info.compsInScan <= MAX_COMPS_IN_SCAN
    requires ps.layout[i][j].comp == ps.info.componentIndex[ps.sc.members[j]]
    requires ps.layout[i][j] in img && (ps.info.compsInScan == 1 ==> ps.layout[i][j] in RealBlocks(f, img))
    ensures PlacedAt(f, ps, img, i, j)
  {
  }

  ghost predicate PlacedAll(f: Frame, ps: Pass, img: Coefs)
  {
    forall i, j {:trigger ps.layout[i][j]} :: 0 <= i < |ps.layout| && 0 <= j < |ps.layout[i]| ==> PlacedAt(f, ps, img, i, j)
  }

  lemma PlacedIs(f: Frame, ps: Pass, img: Coefs, i: nat, j: nat)
    requires PlacedAll(f, ps, img) && i < |ps.layout| && j < |ps.layout[i]|
    ensures PlacedAt(f, ps, img, i, j)
    ensures j < |ps.sc.members| && ps.sc.members[j] < ps.info.compsInScan <= MAX_COMPS_IN_SCAN == 4
    ensures ps.layout[i][j].comp == ps.info.componentIndex[ps.sc.members[j]]
    ensures ps.layout[i][j] in img && (ps.info.compsInScan == 1 ==> ps.layout[i][j] in RealBlocks(f, img))
  {
    hide RealBlocks;
    var id := ps.layout[i][j];
  }

  lemma PlacedInside(f: Frame, ps: Pass, img: Coefs)
    requires PlacedAll(f, ps, img)
    ensures Inside(ps.layout, img.Keys)
    ensures ps.info.compsInScan == 1 ==> Inside(ps.layout, RealBlocks(f, img))
  {
    hide PlacedAll;
    hide PlacedAt;
    hide RealBlocks;
    forall i: nat, j: nat | i < |ps.layout| && j < |ps.layout[i]|
      ensures ps.layout[i][j] in img && (ps.info.compsInScan == 1 ==> ps.layout[i][j] in RealBlocks(f, img))
    {
      PlacedIs(f, ps, img, i, j);
    }
  }

  /** Each block of the layout belongs to the component its place is for. */
  lemma PlacedComp(f: Frame, ps: Pass, img: Coefs)
    requires PlacedAll(f, ps, img) && ps.info.compsInScan <= MAX_COMPS_IN_SCAN
    requires forall i :: 0 <= i < |ps.layout| ==> |ps.layout[i]| == |ps.sc.members|
    requires forall j :: 0 <= j < |ps.sc.members| ==> ps.sc.members[j] < ps.info.compsInScan
    ensures forall i, j {:trigger ps.layout[i][j]} :: 0 <= i < |ps.layout| && 0 <= j < |ps.layout[i]| ==>
      ps.layout[i][j].comp == ps.info.componentIndex[ps.sc.members[j]]
  {
    hide PlacedAll;
    hide PlacedAt;
    forall i, j {:trigger ps.layout[i][j]} | 0 <= i < |ps.layout| && 0 <= j < |ps.layout[i]|
      ensures ps.layout[i][j].comp == ps.info.componentIndex[ps.sc.members[j]]
    {
      PlacedIs(f, ps, img, i, j);
    }
  }

  lemma MakePlacedAll(f: Frame, ps: Pass, img: Coefs)
    requires forall i: nat, j: nat :: i < |ps.layout| && j < |ps.layout[i]| ==> PlacedAt(f, ps, img, i, j)
    ensures PlacedAll(f, ps, img)
  {
    hide PlacedAt;
  }

  lemma MembersBelow(f: Frame, cs: seq<nat>, ci: nat)
    requires FrameOk(f) && CompsIn(f, cs) && ci <= |cs|
    ensures forall j :: 0 <= j < |Members(f, cs, ci)| ==> Members(f, cs, ci)[j] < |cs|
    decreases |cs| - ci
  {
    if ci < |cs| { MembersBelow(f, cs, ci + 1); }
  }

  lemma SetUpIs(f: Frame, ps: Pass)
    requires SetUp(f, ps)
    ensures FrameOk(f) && CompsOk(ps.info, |f.comps|) && ps.info.compsInScan <= MAX_COMPS_IN_SCAN
    ensures ps.sc.members == Members(f, ScanComps(ps.info, |f.comps|), 0)
    ensures ps.layout == LayoutOf(f, ScanComps(ps.info, |f.comps|))
    ensures |ScanComps(ps.info, |f.comps|)| == ps.info.compsInScan
  {
  }

  lemma InArrays(f: Frame, img: Coefs, id: BlockId)
    requires Arrays(f, img) && PaddedId(f, id)
    ensures id in img && (RealId(f, id) ==> id in RealBlocks(f, img))
  {
  }

  lemma SentIs(info: ScanInfo)
    requires info.compsInScan <= MAX_COMPS_IN_SCAN
    ensures forall c :: c in SentBy(info) <==> InScan(info, c)
  {
  }

  lemma SetUpFits(f: Frame, ps: Pass, img: Coefs)
    requires SetUp(f, ps) && Arrays(f, img)
    ensures ProgOk(ps.info) ==> Fits(ps, |f.comps|, img.Keys, RealBlocks(f, img))
    ensures SeqOk(ps.info) ==> SequentialImage.FitsWhole(ps, |f.comps|, img.Keys, RealBlocks(f, img))
  {
    SetUpLayout(f, ps, img);
    MembersBelow(f, ScanComps(ps.info, |f.comps|), 0);
    PlacedInside(f, ps, img);
    PlacedComp(f, ps, img);
    SentIs(ps.info);
    hide PlacedAll;
    hide Distinct;
    hide Inside;
    hide Visits;
    hide RealBlocks;
    hide LayoutOf;
    hide Members;
  }

  /** Passes set up from their script entries, each with codes for all its symbols. */
  ghost predicate AllSetUp(f: Frame, script: seq<Pass>, img: Coefs)
  {
    forall i :: 0 <= i < |script| ==> SetUp(f, script[i]) && Encodable(script[i], img)
  }

  lemma {:induction false} AcceptedProgOk(script: seq<Pass>, last: BitPos, i: nat)
    requires Rows(last, |last|) && AcceptsAll(Infos(script), last) && i < |script|
    ensures ProgOk(script[i].info)
    decreases |script|
  {
    assert Infos(script)[0] == script[0].info && Infos(script)[1..] == Infos(script[1..]);
    if i > 0 { AcceptedProgOk(script[1..], After(script[0].info, last), i - 1); }
  }

  lemma {:induction false} SentSeqOk(script: seq<Pass>, n: nat, sent: set<int>, i: nat)
    requires SendsRest(Infos(script), n, sent) && i < |script|
    ensures SeqOk(script[i].info)
    decreases |script|
  {
    assert Infos(script)[0] == script[0].info && Infos(script)[1..] == Infos(script[1..]);
    if i > 0 { SentSeqOk(script[1..], n, sent + SentBy(script[0].info), i - 1); }
  }

  /** Every coefficient of every real block is known down to the last bit position sent. */
  ghost predicate ComesBack(f: Frame, script: seq<Pass>, img: Coefs, out: Coefs)
    requires AcceptsAll(Infos(script), Unseen(|f.comps|))
  {
    forall id, k :: RealId(f, id) && 0 <= k < 64 ==>
      && id in out && id in img
      && out[id][k] == KnownCoef(img[id], k, Final(Infos(script), Unseen(|f.comps|))[id.comp][k])
  }

  lemma ScriptCodable(f: Frame, script: seq<Pass>, img: Coefs)
    requires FrameOk(f) && ValidProgressive(Infos(script), |f.comps|) && AllSetUp(f, script, img) && Arrays(f, img)
    ensures AllCodable(script, |f.comps|, img, RealBlocks(f, img))
  {
    hide SetUp;
    hide Fits;
    hide Encodable;
    hide RealBlocks;
    hide AcceptsAll;
    forall i | 0 <= i < |script| ensures Codable(script[i], |f.comps|, img, RealBlocks(f, img)) {
      AcceptedProgOk(script, Unseen(|f.comps|), i);
      SetUpFits(f, script[i], img);
    }
  }

  /** A progressive image of any size and sampling: every coefficient of every real block comes
      back down to the last bit sent. */
  lemma FrameReconstructs(f: Frame, script: seq<Pass>, dec: Coefs, img: Coefs, m: byte)
    requires FrameOk(f) && ValidProgressive(Infos(script), |f.comps|) && AllSetUp(f, script, img)
    requires Arrays(f, img) && dec.Keys == img.Keys && Blank(dec) && m != 0 && m != 0xFF
    ensures AllCodable(script, |f.comps|, img, RealBlocks(f, img)) && AcceptsAll(Infos(script), Unseen(|f.comps|))
    ensures var r := DecodeScript(script, ScriptBytes(script, |f.comps|, img, RealBlocks(f, img), m), dec);
            r.Some? && ComesBack(f, script, img, r.value)
  {
    hide *;
    ScriptCodable(f, script, img);
    ValidAccepts(script, |f.comps|);
    RealInComps(f, img);
    ScriptReconstructs(script, dec, img, |f.comps|, RealBlocks(f, img), m);
    AllComeBack(f, script, img, DecodeScript(script, ScriptBytes(script, |f.comps|, img, RealBlocks(f, img), m), dec).value);
  }

  lemma ValidAccepts(script: seq<Pass>, n: nat)
    requires ValidProgressive(Infos(script), n)
    ensures AcceptsAll(Infos(script), Unseen(n))
  {
  }

  lemma RealInComps(f: Frame, img: Coefs)
    ensures forall id :: id in RealBlocks(f, img) ==> id.comp < |f.comps|
  {
  }

  lemma AllComeBack(f: Frame, script: seq<Pass>, img: Coefs, out: Coefs)
    requires FrameOk(f) && Arrays(f, img) && AcceptsAll(Infos(script), Unseen(|f.comps|)) && out.Keys == img.Keys
    requires forall id, k :: id in RealBlocks(f, img) && 0 <= k < 64 ==>
      id.comp < |f.comps| && out[id][k] == KnownCoef(img[id], k, Final(Infos(script), Unseen(|f.comps|))[id.comp][k])
    ensures ComesBack(f, script, img, out)
  {
    hide Arrays;
    hide RealBlocks;
    hide RealId;
    hide KnownCoef;
    hide Final;
    forall id | RealId(f, id) ensures id in img && id in RealBlocks(f, img) { RealInArrays(f, img, id); }
  }

  lemma RealInArrays(f: Frame, img: Coefs, id: BlockId)
    requires FrameOk(f) && Arrays(f, img) && RealId(f, id)
    ensures id in img && id in RealBlocks(f, img) && id.comp < |f.comps|
  {
    RealPadded(f, id);
  }

  lemma ScriptWhole(f: Frame, script: seq<Pass>, img: Coefs)
    requires FrameOk(f) && SendsRest(Infos(script), |f.comps|, {}) && AllSetUp(f, script, img) && Arrays(f, img)
    ensures SequentialImage.AllWhole(script, |f.comps|, img, RealBlocks(f, img))
  {
    hide SetUp;
    hide SequentialImage.FitsWhole;
    hide Encodable;
    hide RealBlocks;
    forall i | 0 <= i < |script| ensures SequentialImage.WholeCodable(script[i], |f.comps|, img, RealBlocks(f, img)) {
      SentSeqOk(script, |f.comps|, {}, i);
      SetUpFits(f, script[i], img);
    }
  }

  /** A sequential image of any size and sampling comes back bit for bit. */
  lemma SequentialFrameIsLossless(f: Frame, script: seq<Pass>, dec: Coefs, img: Coefs, m: byte)
    requires FrameOk(f) && ValidScript(Infos(script), |f.comps|) && !IsProgressive(Infos(script)) && AllSetUp(f, script, img)
    requires Arrays(f, img) && dec.Keys == img.Keys && Blank(dec) && m != 0 && m != 0xFF
    ensures SequentialImage.AllWhole(script, |f.comps|, img, RealBlocks(f, img))
    ensures var r := DecodeScript(script, SequentialImage.WholeBytes(script, |f.comps|, img, RealBlocks(f, img), m), dec);
            r.Some? && forall id :: RealId(f, id) ==> id in r.value && id in img && r.value[id] == img[id]
  {
    hide *;
    SentSequentially(script, |f.comps|);
    ScriptWhole(f, script, img);
    RealInComps(f, img);
    SequentialImage.SequentialScriptIsLossless(script, dec, img, |f.comps|, RealBlocks(f, img), m);
    forall id | RealId(f, id) ensures id in img && id in RealBlocks(f, img) { RealInArrays(f, img, id); }
  }

  lemma SentSequentially(script: seq<Pass>, n: nat)
    requires ValidScript(Infos(script), n) && !IsProgressive(Infos(script))
    ensures SendsRest(Infos(script), n, {})
  {
  }
}
