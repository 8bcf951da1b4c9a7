/** AC scans, first or refining: a run of blocks between two restarts. */
module AcScan {
  import opened Bits
  import opened BitStream
  import opened HuffTable
  import opened Tokens
  import opened EobRun
  import opened Blocks
  import opened AcFirst
  import opened AcRefine

  /** The parameters of an AC scan that start_pass_phuff_decoder accepts. */
  predicate AcParams(p: Params)
  {
    1 <= p.Ss <= p.Se < 64 && p.Al <= 13 && (p.Ah == 0 || p.Ah == p.Al + 1)
  }

  /** What encode_mcu_AC_first or encode_mcu_AC_refine contributes for one block. */
  function AcCode(tbl: nat, b: Block, p: Params): BlockCode
    requires AcParams(p)
  {
    if p.Ah == 0 then FirstCode(tbl, b, p.Ss, 0, p)
    else RefineCode(tbl, b, p.Ss, 0, [], EobPos(b, p.Ss, 0, p), p)
  }

  /** decode_mcu_AC_first or decode_mcu_AC_refine on one block; once the segment has run
      out of data, blocks are left alone. */
  function AcDecode(t: Table, d: Block, eobrun: nat, p: Params, s: Src): (Block, nat, Src)
    requires AcParams(p)
  {
    if s.starved then (d, eobrun, s)
    else if p.Ah == 0 then DecFirstBlock(t, d, eobrun, p, s) else DecRefineBlock(t, d, eobrun, p, s)
  }

  /** No coefficient raises JERR_BAD_DCT_COEF; refinement scans have no such check. */
  ghost predicate AcInRange(b: Block, p: Params)
    requires AcParams(p)
  {
    p.Ah == 0 ==> FirstInRange(b, p.Ss, p)
  }

  /** The decoder's block holds what the earlier scans have sent. */
  ghost predicate AcOld(d: Block, b: Block, p: Params)
  {
    if p.Ah == 0 then forall j :: p.Ss <= j <= p.Se && j < 64 ==> d[j] == 0 else HasOld(d, b, p.Ss, p)
  }

  /** The decoder's block after the scan. */
  function AcTarget(d: Block, b: Block, p: Params): Block
    requires p.Al <= 13
  {
    FillRange(d, b, p.Ss, p.Se + 1, p.Al)
  }

  lemma {:induction false} EobPosLast(b: Block, k: nat, last: nat, p: Params)
    requires p.Se < 64
    ensures last <= k ==> last <= EobPos(b, k, last, p)
    ensures forall j :: k <= j <= p.Se && Mag(b[j], p.Al) == 1 ==> j <= EobPos(b, k, last, p)
    decreases p.Se + 1 - k
  {
    if k <= p.Se { EobPosLast(b, k + 1, if Mag(b[k], p.Al) == 1 then k else last, p); }
  }

  /** Where the encoder starts, the decoder stands. */
  lemma StandStart(b: Block, p: Params)
    requires AcParams(p)
    ensures Standing(b, p.Ss, p.Ss, 0, [], EobPos(b, p.Ss, 0, p), p)
  {
    EobPosLast(b, p.Ss, 0, p);
    EmptyStretch(b, p.Ss, p, []);
  }

  /** A block without symbols ends in an end-of-band and changes nothing but known coefficients. */
  lemma {:induction false} FirstNoHead(tbl: nat, b: Block, k: nat, r: nat, p: Params)
    requires p.Se < 64 && k <= p.Se + 1 && FirstCode(tbl, b, k, r, p).head == []
    ensures FirstCode(tbl, b, k, r, p) == BlockCode([], r + p.Se + 1 - k > 0, [])
    ensures forall j :: k <= j <= p.Se ==> PtAc(b[j], p.Al) == 0
    decreases p.Se + 1 - k
  {
    if k <= p.Se {
      assert PtAc(b[k], p.Al) == 0;
      FirstNoHead(tbl, b, k + 1, r + 1, p);
    }
  }

  lemma {:induction false} RefineNoHead(tbl: nat, b: Block, k: nat, r: nat, br: Bits, eob: nat, p: Params)
    requires p.Se < 64 && k <= p.Se + 1 && RefineCode(tbl, b, k, r, br, eob, p).head == []
    ensures RefineCode(tbl, b, k, r, br, eob, p)
            == BlockCode([], r + |br| + p.Se + 1 - k > 0, br + Corr(b, k, p.Se + 1, p))
    ensures NoNew(b, k, p.Se + 1, p)
    decreases p.Se + 1 - k
  {
    if k > p.Se {
      assert br + [] == br;
    } else {
      CorrFirst(b, k, p.Se + 1, p, []);
      var t := Mag(b[k], p.Al);
      if t == 0 {
        RefineNoHead(tbl, b, k + 1, r + 1, br, eob, p);
      } else {
        assert !(r > 15 && k <= eob) && t > 1;
        RefineNoHead(tbl, b, k + 1, r, br + [t % 2 == 1], eob, p);
        assert br + [t % 2 == 1] + Corr(b, k + 1, p.Se + 1, p) == br + ([t % 2 == 1] + Corr(b, k + 1, p.Se + 1, p));
      }
    }
  }

  /** The Huffman symbols of a block before its end-of-band, as section G.1.2 of T.81 lists them. */
  lemma CodeSymbols(tbl: nat, b: Block, p: Params)
    requires AcParams(p)
    ensures Symbols(AcCode(tbl, b, p).head) == if p.Ah == 0 then RunSizes(b, p.Ss, 0, p) else NewSymbols(b, p.Ss, 0, p)
  {
    hide *;
    BandIs(p);
    CodeIs(tbl, b, p);
    if p.Ah == 0 {
      FirstSymbols(tbl, b, p.Ss, 0, p);
    } else {
      EobPosIs(b, p.Ss, 0, p);
      LastNewIs(b, p);
      RefineSymbols(tbl, b, p.Ss, 0, [], EobPos(b, p.Ss, 0, p), p);
    }
  }

  lemma BandIs(p: Params)
    requires AcParams(p)
    ensures 0 < p.Ss <= p.Se < 64
  {
  }

  lemma CodeIs(tbl: nat, b: Block, p: Params)
    requires AcParams(p)
    ensures AcCode(tbl, b, p) ==
            if p.Ah == 0 then FirstCode(tbl, b, p.Ss, 0, p) else RefineCode(tbl, b, p.Ss, 0, [], EobPos(b, p.Ss, 0, p), p)
  {
    hide FirstCode;
    hide RefineCode;
    hide EobPos;
  }

  lemma LastNewIs(b: Block, p: Params)
    requires AcParams(p)
    ensures LastNew(b, p.Ss, EobPos(b, p.Ss, 0, p), p)
    ensures Mag(b[p.Ss], p.Al) == 1 ==> p.Ss <= EobPos(b, p.Ss, 0, p)
  {
    EobPosIs(b, p.Ss, 0, p);
    hide Mag;
    hide EobPos;
  }

  /** A block in which no coefficient becomes nonzero has no symbol of its own. */
  lemma NoNewNoHead(tbl: nat, b: Block, p: Params)
    requires AcParams(p) && p.Ah != 0 && NoNew(b, p.Ss, p.Se + 1, p)
    ensures AcCode(tbl, b, p).head == []
  {
    hide *;
    BandIs(p);
    CodeIs(tbl, b, p);
    CodeSymbols(tbl, b, p);
    SymbolsNone(b, p.Ss, 0, p);
    HeadHasSymbol(tbl, b, p.Ss, 0, [], EobPos(b, p.Ss, 0, p), p);
  }

  lemma {:induction false} HeadHasSymbol(tbl: nat, b: Block, k: nat, r: nat, br: Bits, eob: nat, p: Params)
    requires p.Se < 64
    ensures RefineCode(tbl, b, k, r, br, eob, p).head != [] ==> Symbols(RefineCode(tbl, b, k, r, br, eob, p).head) != []
    decreases p.Se + 1 - k
  {
    hide Mag;
    hide Raws;
    if k <= p.Se {
      HeadHasSymbol(tbl, b, k + 1, r + 1, br, eob, p);
      HeadHasSymbol(tbl, b, k + 1, r, br + [Mag(b[k], p.Al) % 2 == 1], eob, p);
    }
  }

  lemma CodeTrails(tbl: nat, b: Block, p: Params)
    requires AcParams(p) && AcCode(tbl, b, p).head == []
    ensures AcCode(tbl, b, p).trailing
    ensures if p.Ah == 0 then AcCode(tbl, b, p).corr == [] && forall j :: p.Ss <= j <= p.Se ==> PtAc(b[j], p.Al) == 0
            else AcCode(tbl, b, p).corr == Corr(b, p.Ss, p.Se + 1, p) && NoNew(b, p.Ss, p.Se + 1, p)
  {
    if p.Ah == 0 { FirstNoHead(tbl, b, p.Ss, 0, p); }
    else { RefineNoHead(tbl, b, p.Ss, 0, [], EobPos(b, p.Ss, 0, p), p); }
  }

  /** A block inside an EOB run reads its correction bits only. */
  lemma BlockInRun(tbls: Tables, tbl: nat, d: Block, b: Block, m: nat, p: Params, ts: seq<Token>, rest: Bits, w: nat)
    requires tbl < |tbls| && AcParams(p) && AcOld(d, b, p) && AcCode(tbl, b, p).head == []
    requires AllWritable(tbls, Raws(AcCode(tbl, b, p).corr) + ts)
    ensures AllWritable(tbls, ts)
    ensures AcDecode(tbls[tbl], d, m + 1, p, Feed(tbls, Raws(AcCode(tbl, b, p).corr) + ts, rest, w))
            == (AcTarget(d, b, p), m, Feed(tbls, ts, rest, w))
  {
    hide *;
    CodeTrails(tbl, b, p);
    BandIs(p);
    Fed(tbls, Raws(AcCode(tbl, b, p).corr) + ts, rest, w);
    InRun(tbls[tbl], d, m, p, Feed(tbls, Raws(AcCode(tbl, b, p).corr) + ts, rest, w));
    TargetIs(d, b, p);
    if p.Ah == 0 {
      NoRaws(ts);
    } else {
      CorrectionsRead(tbls, d, b, p.Ss, p, ts, rest, w);
    }
  }

  lemma NoRaws(ts: seq<Token>)
    ensures Raws([]) + ts == ts
  {
  }

  lemma Fed(tbls: Tables, ts: seq<Token>, rest: Bits, w: nat)
    requires AllWritable(tbls, ts)
    ensures !Feed(tbls, ts, rest, w).starved
  {
  }

  lemma TargetIs(d: Block, b: Block, p: Params)
    requires AcParams(p) && AcOld(d, b, p)
    ensures p.Al <= 13 && AcTarget(d, b, p) == FillRange(d, b, p.Ss, p.Se + 1, p.Al)
    ensures p.Ah != 0 ==> HasOld(d, b, p.Ss, p)
    ensures p.Ah == 0 && (forall j :: p.Ss <= j <= p.Se ==> PtAc(b[j], p.Al) == 0) ==> AcTarget(d, b, p) == d
  {
    ShlNonzero(0, p.Al);
  }

  /** A block within a run: the decoder only reads its correction bits. */
  lemma InRun(t: Table, d: Block, m: nat, p: Params, s: Src)
    requires AcParams(p) && !s.starved
    ensures AcDecode(t, d, m + 1, p, s) ==
            if p.Ah == 0 then (d, m, s) else var c := Corrections(d, p.Ss, p, s); (c.0, m, c.1)
  {
    hide DecFirst;
    hide RefLoop;
    hide Corrections;
  }

  /** A block outside a run reads its symbols, and perhaps the symbol of a new run. */
  lemma BlockAlone(tbls: Tables, tbl: nat, d: Block, b: Block, m: nat, p: Params, ts: seq<Token>, rest: Bits, w: nat)
    requires tbl < |tbls| && m < 0x7FFF && AcParams(p) && AcOld(d, b, p) && AcInRange(b, p)
    requires var c := AcCode(tbl, b, p); AllWritable(tbls, c.head + (Tail(tbl, c, m) + ts))
    ensures AllWritable(tbls, ts)
    ensures var c := AcCode(tbl, b, p);
            AcDecode(tbls[tbl], d, 0, p, Feed(tbls, c.head + (Tail(tbl, c, m) + ts), rest, w))
            == (AcTarget(d, b, p), if c.trailing then m else 0, Feed(tbls, ts, rest, w))
  {
    hide DecFirst;
    hide RefLoop;
    hide FinishBand;
    hide FirstCode;
    hide RefineCode;
    hide EobPos;
    hide Tail;
    if p.Ah == 0 {
      FirstReads(tbls, tbl, b, p.Ss, 0, d, m, p, ts, rest, w);
    } else {
      StandStart(b, p);
      RefineReads(tbls, tbl, b, p.Ss, p.Ss, 0, [], EobPos(b, p.Ss, 0, p), d, m, p, ts, rest, w);
    }
  }

  // ---- A run of blocks ----

  function AcCodes(tbl: nat, bs: seq<Block>, p: Params): (cs: seq<BlockCode>)
    requires AcParams(p)
    ensures |cs| == |bs|
  {
    if bs == [] then [] else [AcCode(tbl, bs[0], p)] + AcCodes(tbl, bs[1..], p)
  }

  /** Decoding the blocks one after the other. */
  function AcDecodeAll(t: Table, ds: seq<Block>, eobrun: nat, p: Params, s: Src): (seq<Block>, nat, Src)
    requires AcParams(p)
    decreases ds
  {
    if ds == [] then ([], eobrun, s)
    else
      var (d, e, s1) := AcDecode(t, ds[0], eobrun, p, s);
      var (rest, e2, s2) := AcDecodeAll(t, ds[1..], e, p, s1);
      ([d] + rest, e2, s2)
  }

  function AcTargets(ds: seq<Block>, bs: seq<Block>, p: Params): (r: seq<Block>)
    requires |ds| == |bs| && p.Al <= 13
    ensures |r| == |ds|
  {
    if ds == [] then [] else [AcTarget(ds[0], bs[0], p)] + AcTargets(ds[1..], bs[1..], p)
  }

  ghost predicate AcReady(ds: seq<Block>, bs: seq<Block>, p: Params)
    requires AcParams(p)
  {
    |ds| == |bs| && forall i :: 0 <= i < |bs| ==> AcOld(ds[i], bs[i], p) && AcInRange(bs[i], p)
  }

  lemma CodesTrail(tbl: nat, bs: seq<Block>, p: Params)
    requires AcParams(p)
    ensures forall i :: 0 <= i < |bs| ==> AcCodes(tbl, bs, p)[i].head == [] ==> AcCodes(tbl, bs, p)[i].trailing
  {
    if bs != [] {
      if AcCode(tbl, bs[0], p).head == [] { CodeTrails(tbl, bs[0], p); }
      CodesTrail(tbl, bs[1..], p);
    }
  }

  lemma DecodeAllCons(t: Table, ds: seq<Block>, eobrun: nat, p: Params, s: Src)
    requires AcParams(p) && ds != []
    ensures var x := AcDecode(t, ds[0], eobrun, p, s);
            var y := AcDecodeAll(t, ds[1..], x.1, p, x.2);
            AcDecodeAll(t, ds, eobrun, p, s) == ([x.0] + y.0, y.1, y.2)
  {
    hide AcDecode;
  }

  lemma ReadyCons(ds: seq<Block>, bs: seq<Block>, p: Params)
    requires AcParams(p) && bs != [] && AcReady(ds, bs, p)
    ensures |ds| == |bs| && AcOld(ds[0], bs[0], p) && AcInRange(bs[0], p) && AcReady(ds[1..], bs[1..], p)
  {
    hide AcOld;
    hide AcInRange;
  }

  lemma CodesCons(tbl: nat, bs: seq<Block>, p: Params)
    requires AcParams(p) && bs != []
    ensures AcCodes(tbl, bs, p)[0] == AcCode(tbl, bs[0], p) && AcCodes(tbl, bs, p)[1..] == AcCodes(tbl, bs[1..], p)
  {
    hide AcCode;
  }

  lemma LinearCons(tbl: nat, cs: seq<BlockCode>, m: nat)
    requires cs != []
    ensures m > 0 ==> Linear(tbl, cs, m) == Raws(cs[0].corr) + Linear(tbl, cs[1..], m - 1)
    ensures var n := if cs[0].trailing then Joins(cs[1..], 1, |cs[0].corr|) else 0;
            m == 0 ==> Linear(tbl, cs, m) == cs[0].head + (Tail(tbl, cs[0], n) + Linear(tbl, cs[1..], n)) && n < 0x7FFF
  {
    LinearStart(tbl, cs);
  }

  /** Reading the linear form decodes every block, through all the runs. */
  lemma {:induction false} LinearReads(tbls: Tables, tbl: nat, ds: seq<Block>, bs: seq<Block>, m: nat, p: Params, rest: Bits, w: nat)
    requires tbl < |tbls| && AcParams(p) && AcReady(ds, bs, p) && |ds| == |bs| && m <= |bs|
    requires forall i :: 0 <= i < m ==> AcCodes(tbl, bs, p)[i].head == []
    requires AllWritable(tbls, Linear(tbl, AcCodes(tbl, bs, p), m))
    ensures AcDecodeAll(tbls[tbl], ds, m, p, Feed(tbls, Linear(tbl, AcCodes(tbl, bs, p), m), rest, w))
            == (AcTargets(ds, bs, p), 0, Src(rest, false, w))
    decreases bs
  {
    if bs == [] {
      assert [] + rest == rest;
    } else {
      hide *;
      var cs := AcCodes(tbl, bs, p);
      var s := Feed(tbls, Linear(tbl, cs, m), rest, w);
      CodesCons(tbl, bs, p);
      ReadyCons(ds, bs, p);
      LinearCons(tbl, cs, m);
      DecodeAllCons(tbls[tbl], ds, m, p, s);
      TargetsCons(ds, bs, p);
      if m > 0 {
        BlockInRun(tbls, tbl, ds[0], bs[0], m - 1, p, Linear(tbl, cs[1..], m - 1), rest, w);
        assert forall i :: 0 <= i < m - 1 ==> cs[1..][i] == cs[i + 1];
        LinearReads(tbls, tbl, ds[1..], bs[1..], m - 1, p, rest, w);
      } else {
        var n := if cs[0].trailing then Joins(cs[1..], 1, |cs[0].corr|) else 0;
        BlockAlone(tbls, tbl, ds[0], bs[0], n, p, Linear(tbl, cs[1..], n), rest, w);
        LinearReads(tbls, tbl, ds[1..], bs[1..], n, p, rest, w);
      }
    }
  }

  lemma TargetsCons(ds: seq<Block>, bs: seq<Block>, p: Params)
    requires |ds| == |bs| && bs != [] && p.Al <= 13
    ensures AcTargets(ds, bs, p) == [AcTarget(ds[0], bs[0], p)] + AcTargets(ds[1..], bs[1..], p)
  {
  }

  /** One restart segment of an AC scan: decoding what the encoder wrote completes every
      block and leaves no run open. */
  lemma AcSegment(tbls: Tables, tbl: nat, ds: seq<Block>, bs: seq<Block>, p: Params, rest: Bits, w: nat)
    requires tbl < |tbls| && AcParams(p) && AcReady(ds, bs, p) && |ds| == |bs|
    requires AllWritable(tbls, Encoded(tbl, AcCodes(tbl, bs, p)))
    ensures AcDecodeAll(tbls[tbl], ds, 0, p, Feed(tbls, Encoded(tbl, AcCodes(tbl, bs, p)), rest, w))
            == (AcTargets(ds, bs, p), 0, Src(rest, false, w))
  {
    hide AcDecodeAll;
    hide AcTargets;
    hide AcReady;
    hide AcCodes;
    hide Linear;
    hide Run;
    hide BitsOf;
    var cs := AcCodes(tbl, bs, p);
    CodesTrail(tbl, bs, p);
    RunLinear(tbl, EMPTY_RUN, cs);
    assert [] + [] + Linear(tbl, cs, 0) == Linear(tbl, cs, 0);
    LinearReads(tbls, tbl, ds, bs, 0, p, rest, w);
  }

  // ---- A new coefficient past the end of the band ----

  /** One code, a single 0, for the symbol 11 hexadecimal: one zero and a new coefficient. */
  function RunOfOne(): Table { HuffTbl(seq(17, l => if l == 1 then 1 else 0), seq(256, i => 0x11)) }

  lemma {:induction false} RunOfOneFits(l: nat)
    requires 1 <= l <= 17
    ensures Start(RunOfOne(), l) == (if l == 1 then 0 else 1) && First(RunOfOne(), l) == if l == 1 then 0 else Pow2(l - 1)
    ensures Pow2(l - 1) > 0
  {
    if l > 1 { RunOfOneFits(l - 1); }
  }

  lemma RunOfOneFitsAt(l: nat)
    requires 1 <= l <= 16
    ensures FitsAt(RunOfOne(), l)
  {
    hide First;
    RunOfOneFits(l);
    Pow2Twice(l);
  }

  lemma Pow2Twice(n: nat)
    requires n > 0
    ensures Pow2(n) == 2 * Pow2(n - 1)
  {
  }

  lemma RunOfOneLegal()
    ensures LegalD(RunOfOne(), false)
  {
    hide RunOfOne;
    hide FitsAt;
    RunOfOneFits(17);
    hide Start;
    forall l | 1 <= l <= 16 ensures FitsAt(RunOfOne(), l) { RunOfOneFitsAt(l); }
  }

  lemma RunOfOneRead()
    ensures DecodeSym(RunOfOne(), Src([false, true], false, 0)) == (0x11, Src([true], false, 0))
  {
    var s := Src([false, true], false, 0);
    assert s.Ext(1) == [false] && s.bits[1..] == [true];
    RunOfOneFits(1);
  }

  lemma PositiveSign(p: Params)
    requires p.Al == 0
    ensures NewCoef(Src([true], false, 0), p) == 1 && Src([true], false, 0).Drop(1) == Src([], false, 0)
  {
    var s := Src([true], false, 0);
    assert s.Ext(1) == [true] && s.bits[1..] == [];
    assert [true][..0] == [];
  }

  /** On corrupt data a refinement scan of coefficient 1 alone replaces coefficient 2, which is
      5, by 1: the bits are a code for a run of one zero, and a positive sign. */
  lemma StoresPastBand(d: Block)
    requires d[1] == 0 && d[2] == 5
    ensures LegalD(RunOfOne(), false) && AcParams(Params(1, 1, 1, 0))
    ensures AcDecode(RunOfOne(), d, 0, Params(1, 1, 1, 0), Src([false, true], false, 0)) == (d[2 := 1], 0, Src([], false, 0))
  {
    RunOfOneLegal();
    RunOfOneRead();
    var p := Params(1, 1, 1, 0);
    PositiveSign(p);
    SkipPast(d, p, Src([], false, 0));
    hide RunOfOne;
    hide LegalD;
    hide DecodeSym;
    hide Skip;
    hide NewCoef;
    hide Corrections;
    var t := RunOfOne();
    assert RefSym(t, d, 1, p, 0x11, Src([true], false, 0)) == RefLoop(t, d[2 := 1], 3, p, Src([], false, 0));
  }

  lemma SkipPast(d: Block, p: Params, s: Src)
    requires p.Se == 1 && d[1] == 0
    ensures Skip(d, 1, 1, p, s) == (d, 2, s)
  {
    assert Skip(d, 2, 0, p, s) == (d, 2, s);
  }
}
