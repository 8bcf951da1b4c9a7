/** A sequential image of one or more scans: written and read back, every block of every
    component comes back whole. */
module SequentialImage {
  import opened Bits
  import opened Bytes
  import opened HuffTable
  import opened Tokens
  import opened Blocks
  import opened AcScan
  import opened Scans
  import opened Restart
  import opened Script
  import opened Image
  import Sequential

  /** The pass codes what its script entry says: each real block of the scan's components
      exactly once, each block under its own component. */
  ghost predicate FitsWhole(ps: Pass, n: nat, ids: set<BlockId>, blocks: set<BlockId>)
  {
    && CompsOk(ps.info, n) && SeqOk(ps.info) && ps.sc.p == SEQUENTIAL
    && ScanOk(ps.sc, ps.tbls) && |ps.sc.dcTbl| == ps.info.compsInScan
    && Distinct(ps.layout) && Inside(ps.layout, ids)
    && (forall i :: 0 <= i < |ps.layout| ==> |ps.layout[i]| == |ps.sc.members|)
    && (forall i, j {:trigger ps.layout[i][j]} :: 0 <= i < |ps.layout| && 0 <= j < |ps.layout[i]| ==>
          ps.layout[i][j].comp == ps.info.componentIndex[ps.sc.members[j]])
    && (forall id :: id in blocks && id.comp in SentBy(ps.info) ==> Visits(ps.layout, id))
  }

  /** The real blocks of the components already sent are there; nothing is stored yet for
      the components still to come. */
  ghost predicate KnownWhole(dec: Coefs, img: Coefs, sent: set<int>, blocks: set<BlockId>)
  {
    && dec.Keys == img.Keys && blocks <= img.Keys
    && forall id :: id in dec ==> if id.comp in sent then id in blocks ==> dec[id] == img[id] else Sequential.ZeroAc(dec[id])
  }

  /** A block of the layout belongs to a component of the scan. */
  lemma Member(ps: Pass, n: nat, ids: set<BlockId>, blocks: set<BlockId>, i: nat, j: nat)
    requires FitsWhole(ps, n, ids, blocks) && i < |ps.layout| && j < |ps.layout[i]|
    ensures ps.layout[i][j] in ids && ps.layout[i][j].comp in SentBy(ps.info)
  {
    assert Within(ps.layout[i], ids);
    var ci := ps.sc.members[j];
    assert 0 <= ci < ps.info.compsInScan;
  }

  lemma WholeReady(ps: Pass, n: nat, dec: Coefs, img: Coefs, sent: set<int>, blocks: set<BlockId>)
    requires FitsWhole(ps, n, img.Keys, blocks) && KnownWhole(dec, img, sent, blocks) && SentBy(ps.info) !! sent && Encodable(ps, img)
    ensures Inside(ps.layout, dec.Keys) && Ready(ps.sc, Gather(dec, ps.layout), Gather(img, ps.layout))
  {
    hide Sequential.ZeroAc;
    var dm, bm := Gather(dec, ps.layout), Gather(img, ps.layout);
    forall i, j | 0 <= i < |bm| && 0 <= j < |ps.sc.members| ensures OldOk(ps.sc, dm[i][j], bm[i][j]) && InRange(ps.sc, bm[i][j]) {
      Member(ps, n, img.Keys, blocks, i, j);
      assert ps.layout[i][j] in dec;
    }
  }

  lemma WholeShapes(ps: Pass, n: nat, dec: Coefs, img: Coefs, blocks: set<BlockId>)
    requires FitsWhole(ps, n, img.Keys, blocks) && dec.Keys == img.Keys
    ensures Inside(ps.layout, dec.Keys) && Inside(ps.layout, img.Keys) && ps.sc.p == SEQUENTIAL && ps.sc.p.Al == 0 && ScanOk(ps.sc, ps.tbls)
    ensures Shaped(ps.sc, Gather(dec, ps.layout)) && |Gather(dec, ps.layout)| == |Gather(img, ps.layout)| == |ps.layout|
    ensures forall i :: 0 <= i < |ps.layout| ==> |Gather(dec, ps.layout)[i]| == |Gather(img, ps.layout)[i]| == |ps.layout[i]|
  {
  }

  /** The targets of a sequential scan are the encoder's own blocks. */
  lemma WholeTargets(sc: Scan, dm: seq<Mcu>, bm: seq<Mcu>)
    requires sc.p == SEQUENTIAL && |dm| == |bm| && forall i :: 0 <= i < |bm| ==> |dm[i]| == |bm[i]|
    ensures Targets(sc, dm, bm) == bm
  {
    forall i | 0 <= i < |bm| ensures Targets(sc, dm, bm)[i] == bm[i] {
      assert McuTarget(sc, dm[i], bm[i]) == bm[i];
    }
  }

  lemma WholeStored(ps: Pass, n: nat, dec: Coefs, img: Coefs, sent: set<int>, blocks: set<BlockId>)
    requires FitsWhole(ps, n, img.Keys, blocks) && KnownWhole(dec, img, sent, blocks) && SentBy(ps.info) !! sent
    requires Inside(ps.layout, dec.Keys) && Inside(ps.layout, img.Keys) && Fill(ps.layout, Gather(img, ps.layout))
    ensures KnownWhole(Scatter(dec, ps.layout, Gather(img, ps.layout)), img, sent + SentBy(ps.info), blocks)
  {
    var ms := Gather(img, ps.layout);
    var r := Scatter(dec, ps.layout, ms);
    hide Sequential.ZeroAc;
    hide Scatter;
    hide Fill;
    forall id | id in r
      ensures if id.comp in sent + SentBy(ps.info) then id in blocks ==> r[id] == img[id] else Sequential.ZeroAc(r[id])
    {
      ScatterAt(dec, ps.layout, ms, id);
      if Visits(ps.layout, id) {
        var i, j :| 0 <= i < |ps.layout| && 0 <= j < |ps.layout[i]| && ps.layout[i][j] == id;
        Member(ps, n, img.Keys, blocks, i, j);
        assert ms[i][j] == img[id];
      }
    }
  }

  /** Reading one sequential scan completes its components. */
  lemma WholePassReads(ps: Pass, n: nat, dec: Coefs, img: Coefs, sent: set<int>, blocks: set<BlockId>, m: byte, after: seq<byte>)
    requires FitsWhole(ps, n, img.Keys, blocks) && KnownWhole(dec, img, sent, blocks) && SentBy(ps.info) !! sent
    requires Encodable(ps, img) && m != 0 && m != 0xFF
    ensures var r := DecodePass(ps, dec, PassBytes(ps, img) + [0xFF, m] + after);
            r.Some? && KnownWhole(r.value, img, sent + SentBy(ps.info), blocks)
  {
    hide *;
    WholeKeys(dec, img, sent, blocks);
    WholeReady(ps, n, dec, img, sent, blocks);
    WholeShapes(ps, n, dec, img, blocks);
    PassBytesAre(ps, img);
    var dm, bm := Gather(dec, ps.layout), Gather(img, ps.layout);
    ScanRoundTrip(ps.sc, ps.tbls, dm, bm, m, after, 0);
    WholeTargets(ps.sc, dm, bm);
    FillIs(ps.layout, dm, bm);
    DecodePassIs(ps, dec, PassBytes(ps, img) + [0xFF, m] + after);
    WholeStored(ps, n, dec, img, sent, blocks);
  }

  lemma WholeKeys(dec: Coefs, img: Coefs, sent: set<int>, blocks: set<BlockId>)
    requires KnownWhole(dec, img, sent, blocks)
    ensures dec.Keys == img.Keys
  {
  }

  // ---- The whole script ----

  ghost predicate WholeCodable(ps: Pass, n: nat, img: Coefs, blocks: set<BlockId>)
  {
    FitsWhole(ps, n, img.Keys, blocks) && Encodable(ps, img)
  }

  ghost predicate AllWhole(script: seq<Pass>, n: nat, img: Coefs, blocks: set<BlockId>)
  {
    forall i :: 0 <= i < |script| ==> WholeCodable(script[i], n, img, blocks)
  }

  /** The entropy-coded data of the scans; the marker m closes each. */
  ghost function WholeBytes(script: seq<Pass>, n: nat, img: Coefs, blocks: set<BlockId>, m: byte): (r: seq<seq<byte>>)
    requires AllWhole(script, n, img, blocks)
    ensures |r| == |script|
    decreases script
  {
    if script == [] then []
    else
      assert WholeCodable(script[0], n, img, blocks);
      [PassBytes(script[0], img) + [0xFF, m]] + WholeBytes(script[1..], n, img, blocks, m)
  }

  lemma WholeStep(script: seq<Pass>, n: nat, img: Coefs, blocks: set<BlockId>, m: byte, dec: Coefs, sent: set<int>)
    requires AllWhole(script, n, img, blocks) && SendsRest(Infos(script), n, sent) && script != []
    ensures script[0].info.compsInScan <= MAX_COMPS_IN_SCAN && SentBy(script[0].info) !! sent
    ensures WholeCodable(script[0], n, img, blocks) && FitsWhole(script[0], n, img.Keys, blocks) && Encodable(script[0], img)
    ensures AllWhole(script[1..], n, img, blocks)
    ensures SendsRest(Infos(script[1..]), n, sent + SentBy(script[0].info))
    ensures var data := PassBytes(script[0], img) + [0xFF, m];
            DecodePass(script[0], dec, data).Some? ==>
              DecodeScript(script, WholeBytes(script, n, img, blocks, m), dec)
              == DecodeScript(script[1..], WholeBytes(script[1..], n, img, blocks, m), DecodePass(script[0], dec, data).value)
  {
    assert WholeCodable(script[0], n, img, blocks);
    assert Infos(script)[0] == script[0].info && Infos(script)[1..] == Infos(script[1..]);
    hide DecodePass;
    hide PassBytes;
    hide FitsWhole;
    hide Encodable;
  }

  lemma WholeDone(script: seq<Pass>, n: nat, img: Coefs, blocks: set<BlockId>, m: byte, dec: Coefs, sent: set<int>)
    requires AllWhole(script, n, img, blocks) && SendsRest(Infos(script), n, sent) && KnownWhole(dec, img, sent, blocks) && script == []
    ensures DecodeScript(script, WholeBytes(script, n, img, blocks, m), dec) == Some(dec)
    ensures forall id :: id in blocks && id.comp < n ==> id in dec && dec[id] == img[id]
  {
  }

  lemma {:induction false} WholeScriptReads(script: seq<Pass>, dec: Coefs, img: Coefs, n: nat, blocks: set<BlockId>, sent: set<int>, m: byte)
    requires AllWhole(script, n, img, blocks) && KnownWhole(dec, img, sent, blocks) && SendsRest(Infos(script), n, sent)
    requires m != 0 && m != 0xFF
    ensures var r := DecodeScript(script, WholeBytes(script, n, img, blocks, m), dec);
            r.Some? && forall id :: id in blocks && id.comp < n ==> id in r.value && r.value[id] == img[id]
    decreases script
  {
    hide *;
    if script == [] {
      WholeDone(script, n, img, blocks, m, dec, sent);
    } else {
      var ps := script[0];
      WholeStep(script, n, img, blocks, m, dec, sent);
      WholePassReads(ps, n, dec, img, sent, blocks, m, []);
      assert PassBytes(ps, img) + [0xFF, m] + [] == PassBytes(ps, img) + [0xFF, m];
      var next := DecodePass(ps, dec, PassBytes(ps, img) + [0xFF, m]).value;
      WholeScriptReads(script[1..], next, img, n, blocks, sent + SentBy(ps.info), m);
    }
  }

  /** For every sequential script that validate_script accepts, in however many scans, and every
      image the encoder accepts, decoding gives back every real block of every component. */
  lemma SequentialScriptIsLossless(script: seq<Pass>, dec: Coefs, img: Coefs, n: nat, blocks: set<BlockId>, m: byte)
    requires ValidScript(Infos(script), n) && !IsProgressive(Infos(script)) && AllWhole(script, n, img, blocks)
    requires dec.Keys == img.Keys && Blank(dec) && blocks <= img.Keys && (forall id :: id in blocks ==> id.comp < n) && m != 0 && m != 0xFF
    ensures var r := DecodeScript(script, WholeBytes(script, n, img, blocks, m), dec);
            r.Some? && forall id :: id in blocks ==> id in r.value && r.value[id] == img[id]
  {
    assert KnownWhole(dec, img, {}, blocks);
    WholeScriptReads(script, dec, img, n, blocks, {}, m);
  }
}
