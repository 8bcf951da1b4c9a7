/** A whole progressive image: the coefficient arrays, the scans of an accepted script
    written and read back one after the other, and what the decoder ends up with. */
module Image {
  import opened Bits
  import opened Bytes
  import opened HuffTable
  import opened Tokens
  import opened Blocks
  import opened AcRefine
  import opened AcScan
  import DcScan
  import opened Scans
  import opened Restart
  import opened Script

  /** A DCT block of the image: component, block row, block column. */
  datatype BlockId = BlockId(comp: nat, row: nat, col: nat)

  /** The virtual coefficient arrays of all components. */
  type Coefs = map<BlockId, Block>

  /** The MCUs of a scan, in order, as lists of blocks. */
  type Layout = seq<seq<BlockId>>

  /** One scan of the script with everything in force while it is coded. */
  datatype Pass = Pass(info: ScanInfo, sc: Scan, layout: Layout, tbls: Tables)

  ghost predicate Distinct(lay: Layout)
  {
    forall i, j, i', j' {:trigger lay[i][j], lay[i'][j']} ::
      0 <= i < |lay| && 0 <= j < |lay[i]| && 0 <= i' < |lay| && 0 <= j' < |lay[i']| && lay[i][j] == lay[i'][j'] ==> i == i' && j == j'
  }

  ghost predicate Within(row: seq<BlockId>, ids: set<BlockId>)
  {
    forall j :: 0 <= j < |row| ==> row[j] in ids
  }

  ghost predicate Inside(lay: Layout, ids: set<BlockId>)
  {
    forall i :: 0 <= i < |lay| ==> Within(lay[i], ids)
  }

  ghost predicate Visits(lay: Layout, id: BlockId)
  {
    exists i, j {:trigger lay[i][j]} :: 0 <= i < |lay| && 0 <= j < |lay[i]| && lay[i][j] == id
  }

  /** The pass codes what its script entry says: each real block of the scan's components
      exactly once, each block under its own component; AC scans visit real blocks only. */
  ghost predicate Fits(ps: Pass, n: nat, ids: set<BlockId>, blocks: set<BlockId>)
  {
    && CompsOk(ps.info, n) && ProgOk(ps.info)
    && ps.sc.p == Params(ps.info.Ss, ps.info.Se, ps.info.Ah, ps.info.Al)
    && ScanOk(ps.sc, ps.tbls) && |ps.sc.dcTbl| == ps.info.compsInScan
    && Distinct(ps.layout) && Inside(ps.layout, ids)
    && (forall i :: 0 <= i < |ps.layout| ==> |ps.layout[i]| == |ps.sc.members|)
    && (forall i, j {:trigger ps.layout[i][j]} :: 0 <= i < |ps.layout| && 0 <= j < |ps.layout[i]| ==>
          ps.layout[i][j].comp == ps.info.componentIndex[ps.sc.members[j]])
    && (forall id :: id in blocks && InScan(ps.info, id.comp) ==> Visits(ps.layout, id))
    && (ps.info.Ss != 0 ==> Inside(ps.layout, blocks))
  }

  ghost function Gather1(img: Coefs, ids: seq<BlockId>): (b: Mcu)
    requires Within(ids, img.Keys)
    ensures |b| == |ids| && forall j :: 0 <= j < |ids| ==> b[j] == img[ids[j]]
  {
    if ids == [] then [] else [img[ids[0]]] + Gather1(img, ids[1..])
  }

  /** The MCUs of a scan as the coefficient controller fetches them. */
  ghost function Gather(img: Coefs, lay: Layout): (ms: seq<Mcu>)
    requires Inside(lay, img.Keys)
    ensures |ms| == |lay|
    ensures forall i :: 0 <= i < |lay| ==> |ms[i]| == |lay[i]|
    ensures forall i, j {:trigger ms[i][j]} {:trigger lay[i][j]} :: 0 <= i < |lay| && 0 <= j < |lay[i]| ==> ms[i][j] == img[lay[i][j]]
  {
    if lay == [] then []
    else [Gather1(img, lay[0])] + Gather(img, lay[1..])
  }

  ghost predicate Fill(lay: Layout, ms: seq<Mcu>)
  {
    |ms| == |lay| && forall i :: 0 <= i < |lay| ==> |ms[i]| == |lay[i]|
  }

  ghost function Scatter1(img: Coefs, ids: seq<BlockId>, mcu: Mcu): (r: Coefs)
    requires |mcu| == |ids| && Within(ids, img.Keys)
    ensures r.Keys == img.Keys
    decreases ids
  {
    if ids == [] then img else Scatter1(img[ids[0] := mcu[0]], ids[1..], mcu[1..])
  }

  /** Storing decoded MCUs in place, in the order they are decoded. */
  ghost function Scatter(img: Coefs, lay: Layout, ms: seq<Mcu>): (r: Coefs)
    requires Fill(lay, ms)
    requires Inside(lay, img.Keys)
    ensures r.Keys == img.Keys
    decreases lay
  {
    if lay == [] then img
    else Scatter(Scatter1(img, lay[0], ms[0]), lay[1..], ms[1..])
  }

  lemma {:induction false} Scatter1At(img: Coefs, ids: seq<BlockId>, mcu: Mcu, id: BlockId)
    requires |mcu| == |ids| && Within(ids, img.Keys) && id in img
    requires forall j, k :: 0 <= j < k < |ids| ==> ids[j] != ids[k]
    ensures id !in ids ==> Scatter1(img, ids, mcu)[id] == img[id]
    ensures forall j :: 0 <= j < |ids| && ids[j] == id ==> Scatter1(img, ids, mcu)[id] == mcu[j]
    decreases ids
  {
    if ids != [] {
      Scatter1At(img[ids[0] := mcu[0]], ids[1..], mcu[1..], id);
      forall j | 0 <= j < |ids| && ids[j] == id ensures Scatter1(img, ids, mcu)[id] == mcu[j] {
        if j > 0 { assert ids[1..][j - 1] == id && mcu[1..][j - 1] == mcu[j]; }
      }
    }
  }

  lemma DistinctTail(lay: Layout)
    requires lay != [] && Distinct(lay)
    ensures Distinct(lay[1..])
    ensures forall j, k :: 0 <= j < k < |lay[0]| ==> lay[0][j] != lay[0][k]
    ensures forall i, j, k :: 0 <= i < |lay[1..]| && 0 <= j < |lay[1..][i]| && 0 <= k < |lay[0]| ==> lay[1..][i][j] != lay[0][k]
  {
    forall i, j, i', j' | 0 <= i < |lay[1..]| && 0 <= j < |lay[1..][i]| && 0 <= i' < |lay[1..]| && 0 <= j' < |lay[1..][i']| && lay[1..][i][j] == lay[1..][i'][j']
      ensures i == i' && j == j'
    {
      assert lay[i + 1][j] == lay[i' + 1][j'];
    }
    forall i, j, k | 0 <= i < |lay[1..]| && 0 <= j < |lay[1..][i]| && 0 <= k < |lay[0]| ensures lay[1..][i][j] != lay[0][k] {
      assert lay[1..][i][j] == lay[i + 1][j];
    }
  }

  /** Every block of the layout ends up as decoded; every other block is untouched. */
  lemma {:induction false} ScatterAt(img: Coefs, lay: Layout, ms: seq<Mcu>, id: BlockId)
    requires Fill(lay, ms)
    requires Inside(lay, img.Keys) && Distinct(lay) && id in img
    ensures !Visits(lay, id) ==> Scatter(img, lay, ms)[id] == img[id]
    ensures forall i, j {:trigger lay[i][j]} :: 0 <= i < |lay| && 0 <= j < |lay[i]| && lay[i][j] == id ==> Scatter(img, lay, ms)[id] == ms[i][j]
    decreases lay
  {
    if lay != [] {
      DistinctTail(lay);
      var next := Scatter1(img, lay[0], ms[0]);
      ScatterStep(img, lay, ms);
      hide Scatter;
      hide Inside;
      hide Distinct;
      Scatter1At(img, lay[0], ms[0], id);
      ScatterAt(next, lay[1..], ms[1..], id);
      if Visits(lay[1..], id) {
        var i, j :| 0 <= i < |lay[1..]| && 0 <= j < |lay[1..][i]| && lay[1..][i][j] == id;
        assert lay[i + 1][j] == id;
      } else if id in lay[0] {
        var j :| 0 <= j < |lay[0]| && lay[0][j] == id;
        assert Visits(lay, id);
      }
      forall i, j | 0 <= i < |lay| && 0 <= j < |lay[i]| && lay[i][j] == id ensures Scatter(img, lay, ms)[id] == ms[i][j] {
        if i > 0 {
          assert lay[1..][i - 1][j] == id && ms[1..][i - 1] == ms[i];
        } else {
          assert !Visits(lay[1..], id);
        }
      }
    }
  }

  lemma ScatterStep(img: Coefs, lay: Layout, ms: seq<Mcu>)
    requires Fill(lay, ms)
    requires Inside(lay, img.Keys) && lay != []
    ensures Within(lay[0], img.Keys) && Inside(lay[1..], img.Keys)
    ensures Scatter(img, lay, ms) == Scatter(Scatter1(img, lay[0], ms[0]), lay[1..], ms[1..])
  {
  }

  /** What the encoder needs to write the scan: codes for its symbols, coefficients in range. */
  ghost predicate Encodable(ps: Pass, img: Coefs)
  {
    && Inside(ps.layout, img.Keys)
    && ScanOk(ps.sc, ps.tbls)
    && SegsWritable(ps.sc, ps.tbls, Segments(Gather(img, ps.layout), ps.sc.interval))
    && forall i, j {:trigger ps.layout[i][j]} :: 0 <= i < |ps.layout| && 0 <= j < |ps.layout[i]| ==> InRange(ps.sc, img[ps.layout[i][j]])
  }

  /** The entropy-coded bytes of the scan. */
  ghost function PassBytes(ps: Pass, img: Coefs): seq<byte>
    requires Encodable(ps, img)
  {
    ScanBytes(ps.sc, ps.tbls, Gather(img, ps.layout))
  }

  /** Decoding one scan into the coefficient arrays. */
  ghost function DecodePass(ps: Pass, img: Coefs, bytes: seq<byte>): (r: Option<Coefs>)
    ensures r.Some? ==> r.value.Keys == img.Keys
  {
    if !(Inside(ps.layout, img.Keys) && ScanOk(ps.sc, ps.tbls) && Shaped(ps.sc, Gather(img, ps.layout))) then None
    else match DecodeScan(ps.sc, ps.tbls, Gather(img, ps.layout), bytes, 0)
    case None => None
    case Some(x) => if Fill(ps.layout, x.0) then Some(Scatter(img, ps.layout, x.0)) else None
  }

  /** A coefficient after scans that have sent its bits down to al (none yet if al < 0). */
  function KnownCoef(b: Block, k: nat, al: int): int
    requires k < 64
  {
    if al < 0 then 0 else if k == 0 then TruncDc(b[0], al) else TruncAc(b[k], al)
  }

  ghost predicate KnownBlock(d: Block, b: Block, row: seq<int>)
  {
    |row| == 64 && forall k :: 0 <= k < 64 ==> d[k] == KnownCoef(b, k, row[k])
  }

  /** The decoder's arrays hold exactly what has been sent of every real block. */
  ghost predicate Known(dec: Coefs, img: Coefs, last: BitPos, blocks: set<BlockId>)
  {
    && dec.Keys == img.Keys && blocks <= img.Keys && Rows(last, |last|)
    && forall id :: id in blocks ==> id.comp < |last| && KnownBlock(dec[id], img[id], last[id.comp])
  }

  // ---- One block ----

  lemma KnownOld(sc: Scan, s: ScanInfo, d: Block, b: Block, row: seq<int>)
    requires ProgOk(s) && sc.p == Params(s.Ss, s.Se, s.Ah, s.Al) && RowOk(s, row) && KnownBlock(d, b, row) && s.Ss != 0
    ensures OldOk(sc, d, b)
  {
    forall j | s.Ss <= j <= s.Se ensures d[j] == if s.Ah == 0 then 0 else TruncAc(b[j], s.Al + 1) {
      assert CoefOk(s, row[j]);
    }
  }

  lemma KnownTarget(sc: Scan, s: ScanInfo, d: Block, b: Block, row: seq<int>)
    requires ProgOk(s) && sc.p == Params(s.Ss, s.Se, s.Ah, s.Al) && RowOk(s, row) && KnownBlock(d, b, row)
    ensures sc.p.Al <= 13 && KnownBlock(Target(sc, d, b), b, RowAfter(s, row))
  {
    if s.Ss == 0 {
      assert CoefOk(s, row[0]);
      if s.Ah != 0 { DcScan.RefineCompletes(d, b, s.Al); }
    }
  }

  // ---- One scan ----

  lemma PassReady(ps: Pass, n: nat, dec: Coefs, img: Coefs, last: BitPos, blocks: set<BlockId>)
    requires Fits(ps, n, img.Keys, blocks) && Known(dec, img, last, blocks) && Accepts(ps.info, last) && n == |last|
    requires Encodable(ps, img)
    ensures Inside(ps.layout, dec.Keys) && Ready(ps.sc, Gather(dec, ps.layout), Gather(img, ps.layout))
  {
    var dm, bm := Gather(dec, ps.layout), Gather(img, ps.layout);
    forall i, j | 0 <= i < |bm| && 0 <= j < |ps.sc.members| ensures OldOk(ps.sc, dm[i][j], bm[i][j]) && InRange(ps.sc, bm[i][j]) {
      var id := ps.layout[i][j];
      if ps.info.Ss != 0 {
        assert id in blocks;
        assert RowOk(ps.info, last[ps.info.componentIndex[ps.sc.members[j]]]);
        KnownOld(ps.sc, ps.info, dec[id], img[id], last[id.comp]);
      }
    }
  }

  /** Reading one accepted scan takes the arrays from what was known to what is known next. */
  lemma PassReads(ps: Pass, n: nat, dec: Coefs, img: Coefs, last: BitPos, blocks: set<BlockId>, m: byte, after: seq<byte>)
    requires Fits(ps, n, img.Keys, blocks) && Known(dec, img, last, blocks) && Accepts(ps.info, last) && n == |last|
    requires Encodable(ps, img) && m != 0 && m != 0xFF
    ensures Inside(ps.layout, dec.Keys) && Shaped(ps.sc, Gather(dec, ps.layout))
    ensures var r := DecodePass(ps, dec, PassBytes(ps, img) + [0xFF, m] + after);
            r.Some? && Known(r.value, img, After(ps.info, last), blocks)
  {
    hide *;
    PassReady(ps, n, dec, img, last, blocks);
    DecKeys(dec, img, last, blocks);
    PassShape(ps, n, dec, img, blocks);
    PassBytesAre(ps, img);
    var dm, bm := Gather(dec, ps.layout), Gather(img, ps.layout);
    ScanRoundTrip(ps.sc, ps.tbls, dm, bm, m, after, 0);
    TargetsShape(ps.sc, dm, bm);
    FillIs(ps.layout, dm, Targets(ps.sc, dm, bm));
    DecodePassIs(ps, dec, PassBytes(ps, img) + [0xFF, m] + after);
    PassKnown(ps, n, dec, img, last, blocks);
  }

  lemma PassBytesAre(ps: Pass, img: Coefs)
    requires Encodable(ps, img)
    ensures Inside(ps.layout, img.Keys) && ScanOk(ps.sc, ps.tbls) && SegsWritable(ps.sc, ps.tbls, Segments(Gather(img, ps.layout), ps.sc.interval))
    ensures PassBytes(ps, img) == ScanBytes(ps.sc, ps.tbls, Gather(img, ps.layout))
  {
  }

  lemma FillIs(lay: Layout, dm: seq<Mcu>, ms: seq<Mcu>)
    requires |dm| == |lay| == |ms| && forall i :: 0 <= i < |lay| ==> |dm[i]| == |lay[i]| == |ms[i]|
    ensures Fill(lay, ms)
  {
  }

  lemma DecodePassIs(ps: Pass, img: Coefs, bytes: seq<byte>)
    requires Inside(ps.layout, img.Keys) && ScanOk(ps.sc, ps.tbls) && Shaped(ps.sc, Gather(img, ps.layout))
    ensures match DecodeScan(ps.sc, ps.tbls, Gather(img, ps.layout), bytes, 0)
            case None => true
            case Some(x) => Fill(ps.layout, x.0) ==> DecodePass(ps, img, bytes) == Some(Scatter(img, ps.layout, x.0))
  {
    hide DecodeScan;
    hide Scatter;
    hide Fill;
  }

  lemma PassShape(ps: Pass, n: nat, dec: Coefs, img: Coefs, blocks: set<BlockId>)
    requires Fits(ps, n, img.Keys, blocks) && dec.Keys == img.Keys
    ensures Inside(ps.layout, dec.Keys) && Inside(ps.layout, img.Keys) && ps.sc.p.Al <= 13 && ScanOk(ps.sc, ps.tbls)
    ensures Shaped(ps.sc, Gather(dec, ps.layout)) && |Gather(dec, ps.layout)| == |Gather(img, ps.layout)|
    ensures |Gather(dec, ps.layout)| == |ps.layout|
    ensures forall i :: 0 <= i < |ps.layout| ==> |Gather(dec, ps.layout)[i]| == |Gather(img, ps.layout)[i]| == |ps.layout[i]|
  {
  }

  lemma TargetsShape(sc: Scan, dm: seq<Mcu>, bm: seq<Mcu>)
    requires |dm| == |bm| && sc.p.Al <= 13 && forall i :: 0 <= i < |bm| ==> |dm[i]| == |bm[i]|
    ensures forall i :: 0 <= i < |bm| ==> |Targets(sc, dm, bm)[i]| == |dm[i]|
    ensures forall i, j :: 0 <= i < |bm| && 0 <= j < |bm[i]| ==> Targets(sc, dm, bm)[i][j] == Target(sc, dm[i][j], bm[i][j])
  {
    hide Target;
  }

  lemma PassKnown(ps: Pass, n: nat, dec: Coefs, img: Coefs, last: BitPos, blocks: set<BlockId>)
    requires Fits(ps, n, img.Keys, blocks) && Known(dec, img, last, blocks) && Accepts(ps.info, last) && n == |last|
    requires Inside(ps.layout, dec.Keys) && Inside(ps.layout, img.Keys) && ps.sc.p.Al <= 13
    requires var dm, bm := Gather(dec, ps.layout), Gather(img, ps.layout);
             |dm| == |bm| && (forall i :: 0 <= i < |bm| ==> |dm[i]| == |bm[i]|) && Fill(ps.layout, Targets(ps.sc, dm, bm))
    ensures Known(Scatter(dec, ps.layout, Targets(ps.sc, Gather(dec, ps.layout), Gather(img, ps.layout))), img,
                  After(ps.info, last), blocks)
  {
    var dm, bm := Gather(dec, ps.layout), Gather(img, ps.layout);
    var ms := Targets(ps.sc, dm, bm);
    TargetsShape(ps.sc, dm, bm);
    hide Targets;
    hide Target;
    hide RowAfter;
    hide KnownBlock;
    forall id | id in blocks ensures KnownBlock(Scatter(dec, ps.layout, ms)[id], img[id], After(ps.info, last)[id.comp]) {
      if Visits(ps.layout, id) {
        VisitedKnown(ps, n, dec, img, last, blocks, id);
      } else {
        ScatterAt(dec, ps.layout, ms, id);
        assert !InScan(ps.info, id.comp);
      }
    }
  }

  lemma VisitedKnown(ps: Pass, n: nat, dec: Coefs, img: Coefs, last: BitPos, blocks: set<BlockId>, id: BlockId)
    requires Fits(ps, n, img.Keys, blocks) && Known(dec, img, last, blocks) && Accepts(ps.info, last) && n == |last|
    requires Inside(ps.layout, dec.Keys) && Inside(ps.layout, img.Keys) && ps.sc.p.Al <= 13 && id in blocks && Visits(ps.layout, id)
    requires var dm, bm := Gather(dec, ps.layout), Gather(img, ps.layout);
             |dm| == |bm| && (forall i :: 0 <= i < |bm| ==> |dm[i]| == |bm[i]|) && Fill(ps.layout, Targets(ps.sc, dm, bm))
    ensures KnownBlock(Scatter(dec, ps.layout, Targets(ps.sc, Gather(dec, ps.layout), Gather(img, ps.layout)))[id], img[id],
                       After(ps.info, last)[id.comp])
  {
    var dm, bm := Gather(dec, ps.layout), Gather(img, ps.layout);
    var i, j :| 0 <= i < |ps.layout| && 0 <= j < |ps.layout[i]| && ps.layout[i][j] == id;
    TargetsShape(ps.sc, dm, bm);
    hide Targets;
    hide Target;
    hide RowAfter;
    hide KnownBlock;
    ScatterAt(dec, ps.layout, Targets(ps.sc, dm, bm), id);
    var ci := ps.sc.members[j];
    assert ps.info.componentIndex[ci] == id.comp && InScan(ps.info, id.comp);
    assert RowOk(ps.info, last[ps.info.componentIndex[ci]]);
    KnownTarget(ps.sc, ps.info, dec[id], img[id], last[id.comp]);
  }

  // ---- The whole script ----

  function Infos(script: seq<Pass>): (r: seq<ScanInfo>)
    ensures |r| == |script|
  {
    if script == [] then [] else [script[0].info] + Infos(script[1..])
  }

  ghost predicate Codable(ps: Pass, n: nat, img: Coefs, blocks: set<BlockId>)
  {
    Fits(ps, n, img.Keys, blocks) && Encodable(ps, img)
  }

  ghost predicate AllCodable(script: seq<Pass>, n: nat, img: Coefs, blocks: set<BlockId>)
  {
    forall i :: 0 <= i < |script| ==> Codable(script[i], n, img, blocks)
  }

  /** The entropy-coded data of the scans; the marker m closes each. */
  ghost function ScriptBytes(script: seq<Pass>, n: nat, img: Coefs, blocks: set<BlockId>, m: byte): (r: seq<seq<byte>>)
    requires AllCodable(script, n, img, blocks)
    ensures |r| == |script|
    decreases script
  {
    if script == [] then []
    else
      assert Codable(script[0], n, img, blocks);
      [PassBytes(script[0], img) + [0xFF, m]] + ScriptBytes(script[1..], n, img, blocks, m)
  }

  /** Decoding the scans in order into the same arrays. */
  ghost function DecodeScript(script: seq<Pass>, data: seq<seq<byte>>, dec: Coefs): (r: Option<Coefs>)
    requires |data| == |script|
    ensures r.Some? ==> r.value.Keys == dec.Keys
    decreases script
  {
    if script == [] then Some(dec)
    else
      match DecodePass(script[0], dec, data[0])
      case None => None
      case Some(next) => DecodeScript(script[1..], data[1..], next)
  }

  lemma {:induction false} ScriptReads(script: seq<Pass>, dec: Coefs, img: Coefs, n: nat, blocks: set<BlockId>, last: BitPos, m: byte)
    requires AllCodable(script, n, img, blocks) && Known(dec, img, last, blocks) && n == |last| && AcceptsAll(Infos(script), last)
    requires m != 0 && m != 0xFF
    ensures var r := DecodeScript(script, ScriptBytes(script, n, img, blocks, m), dec);
            r.Some? && Known(r.value, img, Final(Infos(script), last), blocks)
    decreases script
  {
    hide *;
    if script == [] {
      ScriptDone(script, n, img, blocks, m, dec, last);
    } else {
      var ps := script[0];
      DecKeys(dec, img, last, blocks);
      ScriptStep(script, n, img, blocks, m, dec, last);
      PassReads(ps, n, dec, img, last, blocks, m, []);
      assert PassBytes(ps, img) + [0xFF, m] + [] == PassBytes(ps, img) + [0xFF, m];
      var next := DecodePass(ps, dec, PassBytes(ps, img) + [0xFF, m]).value;
      DecKeys(next, img, After(ps.info, last), blocks);
      ScriptReads(script[1..], next, img, n, blocks, After(ps.info, last), m);
    }
  }

  lemma ScriptDone(script: seq<Pass>, n: nat, img: Coefs, blocks: set<BlockId>, m: byte, dec: Coefs, last: BitPos)
    requires AllCodable(script, n, img, blocks) && Known(dec, img, last, blocks) && n == |last| && script == []
    ensures DecodeScript(script, ScriptBytes(script, n, img, blocks, m), dec) == Some(dec) && Final(Infos(script), last) == last
  {
  }

  lemma ScriptStep(script: seq<Pass>, n: nat, img: Coefs, blocks: set<BlockId>, m: byte, dec: Coefs, last: BitPos)
    requires AllCodable(script, n, img, blocks) && n == |last| && Rows(last, n) && AcceptsAll(Infos(script), last) && script != []
    ensures script[0].info.compsInScan <= MAX_COMPS_IN_SCAN && Rows(After(script[0].info, last), n) && |After(script[0].info, last)| == n
    ensures Fits(script[0], n, img.Keys, blocks) && Encodable(script[0], img) && AllCodable(script[1..], n, img, blocks)
    ensures Accepts(script[0].info, last) && AcceptsAll(Infos(script[1..]), After(script[0].info, last))
    ensures Final(Infos(script), last) == Final(Infos(script[1..]), After(script[0].info, last))
    ensures var data := PassBytes(script[0], img) + [0xFF, m];
            DecodePass(script[0], dec, data).Some? ==>
              DecodeScript(script, ScriptBytes(script, n, img, blocks, m), dec)
              == DecodeScript(script[1..], ScriptBytes(script[1..], n, img, blocks, m), DecodePass(script[0], dec, data).value)
  {
    assert Codable(script[0], n, img, blocks);
    assert Infos(script)[0] == script[0].info && Infos(script)[1..] == Infos(script[1..]);
    hide DecodePass;
    hide PassBytes;
    hide Fits;
    hide Encodable;
    hide Accepts;
  }

  lemma DecKeys(dec: Coefs, img: Coefs, last: BitPos, blocks: set<BlockId>)
    requires Known(dec, img, last, blocks)
    ensures dec.Keys == img.Keys && Rows(last, |last|)
  {
  }

  /** The virtual arrays are zero to begin with. */
  ghost predicate Blank(dec: Coefs)
  {
    forall id :: id in dec ==> forall k :: 0 <= k < 64 ==> dec[id][k] == 0
  }

  /** For every script that validate_script accepts, and every image the encoder accepts,
      decoding the scans in order gives each coefficient of each real block down to the
      last bit position sent for it. */
  lemma ScriptReconstructs(script: seq<Pass>, dec: Coefs, img: Coefs, n: nat, blocks: set<BlockId>, m: byte)
    requires ValidProgressive(Infos(script), n) && AllCodable(script, n, img, blocks)
    requires dec.Keys == img.Keys && Blank(dec) && blocks <= img.Keys && (forall id :: id in blocks ==> id.comp < n) && m != 0 && m != 0xFF
    ensures var r := DecodeScript(script, ScriptBytes(script, n, img, blocks, m), dec);
            && r.Some?
            && forall id, k :: id in blocks && 0 <= k < 64 ==>
                 r.value[id][k] == KnownCoef(img[id], k, Final(Infos(script), Unseen(n))[id.comp][k])
  {
    assert Known(dec, img, Unseen(n), blocks);
    ScriptReads(script, dec, img, n, blocks, Unseen(n), m);
  }

  /** A script that ends with every bit sent reconstructs the image exactly. */
  lemma CompleteScriptIsLossless(script: seq<Pass>, dec: Coefs, img: Coefs, n: nat, blocks: set<BlockId>, m: byte)
    requires ValidProgressive(Infos(script), n) && AllCodable(script, n, img, blocks)
    requires dec.Keys == img.Keys && Blank(dec) && blocks <= img.Keys && (forall id :: id in blocks ==> id.comp < n) && m != 0 && m != 0xFF
    requires forall c, k :: 0 <= c < n && 0 <= k < 64 ==> Final(Infos(script), Unseen(n))[c][k] == 0
    ensures var r := DecodeScript(script, ScriptBytes(script, n, img, blocks, m), dec);
            r.Some? && forall id :: id in blocks ==> r.value[id] == img[id]
  {
    ScriptReconstructs(script, dec, img, n, blocks, m);
    var out := DecodeScript(script, ScriptBytes(script, n, img, blocks, m), dec).value;
    forall id | id in blocks ensures out[id] == img[id] {
      forall k | 0 <= k < 64 ensures out[id][k] == img[id][k] { TruncZero(img[id][k]); }
    }
  }
}
