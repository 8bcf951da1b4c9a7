/** A restart segment as it is being encoded: what the encoder's state is after a number of
    MCUs, and the bytes of the segments already closed. */
module SegmentCode {
  import opened Bits
  import opened Bytes
  import opened HuffTable
  import opened Tokens
  import opened EobRun
  import opened Blocks
  import opened AcFirst
  import opened AcScan
  import opened Scans
  import opened Restart
  import opened EncodeSteps
  import DcScan
  import Sequential

  // ---- Ranges ----

  /** No DC difference raises JERR_BAD_DCT_COEF. */
  ghost predicate DcInRange(cis: seq<nat>, bs: seq<Block>, preds: seq<int>, al: nat)
    requires |cis| == |bs| && forall i :: 0 <= i < |cis| ==> cis[i] < |preds|
    decreases bs
  {
    bs != [] ==>
      var v := Shr(bs[0][0], al);
      NBits(Abs(v - preds[cis[0]])) <= MAX_COEF_BITS + 1 && DcInRange(cis[1..], bs[1..], preds[cis[0] := v], al)
  }

  /** The differences that are not refused: those of at most eleven bits. */
  lemma DcInRangeIs(dcTbl: seq<nat>, cis: seq<nat>, bs: seq<Block>, preds: seq<int>, al: nat)
    requires |cis| == |bs| && |dcTbl| == |preds| && forall i :: 0 <= i < |cis| ==> cis[i] < |preds|
    ensures DcInRange(cis, bs, preds, al) <==>
            forall i :: 0 <= i < |bs| ==> -2048 < Shr(bs[i][0], al) - DcScan.Preds(cis[..i], bs[..i], preds, al)[cis[i]] < 2048
  {
    AllSmall(dcTbl, cis, bs, preds, al);
    forall i | 0 <= i < |bs|
      ensures Diff(cis, bs, preds, al, i) == Shr(bs[i][0], al) - DcScan.Preds(cis[..i], bs[..i], preds, al)[cis[i]]
    {
    }
    hide *;
    if DcInRange(cis, bs, preds, al) {
      forall i | 0 <= i < |bs| ensures -2048 < Shr(bs[i][0], al) - DcScan.Preds(cis[..i], bs[..i], preds, al)[cis[i]] < 2048 {
        assert -2048 < Diff(cis, bs, preds, al, i) < 2048;
      }
    }
  }

  /** The difference that is coded for block i. */
  ghost function Diff(cis: seq<nat>, bs: seq<Block>, preds: seq<int>, al: nat, i: nat): int
    requires |cis| == |bs| && i < |bs| && forall i :: 0 <= i < |cis| ==> cis[i] < |preds|
  {
    Shr(bs[i][0], al) - DcScan.Preds(cis[..i], bs[..i], preds, al)[cis[i]]
  }

  lemma {:induction false} AllSmall(dcTbl: seq<nat>, cis: seq<nat>, bs: seq<Block>, preds: seq<int>, al: nat)
    requires |cis| == |bs| && |dcTbl| == |preds| && forall i :: 0 <= i < |cis| ==> cis[i] < |preds|
    ensures DcInRange(cis, bs, preds, al) <==> forall i :: 0 <= i < |bs| ==> -2048 < Diff(cis, bs, preds, al, i) < 2048
    decreases bs
  {
    if bs != [] {
      var next := preds[cis[0] := Shr(bs[0][0], al)];
      AllSmall(dcTbl, cis[1..], bs[1..], next, al);
      RangeStep(cis, bs, preds, al);
      forall i | 0 <= i < |bs|
        ensures Diff(cis, bs, preds, al, i) == if i == 0 then Shr(bs[0][0], al) - preds[cis[0]] else Diff(cis[1..], bs[1..], next, al, i - 1)
      {
        PredShift(dcTbl, cis, bs, preds, al, i);
      }
      hide *;
      assert |bs[1..]| == |bs| - 1;
      if DcInRange(cis[1..], bs[1..], next, al) && -2048 < Diff(cis, bs, preds, al, 0) < 2048 {
        forall i | 0 <= i < |bs| ensures -2048 < Diff(cis, bs, preds, al, i) < 2048 {
          if i > 0 { assert -2048 < Diff(cis[1..], bs[1..], next, al, i - 1) < 2048; }
        }
      }
      if forall i :: 0 <= i < |bs| ==> -2048 < Diff(cis, bs, preds, al, i) < 2048 {
        assert -2048 < Diff(cis, bs, preds, al, 0) < 2048;
        forall i | 0 <= i < |bs[1..]| ensures -2048 < Diff(cis[1..], bs[1..], next, al, i) < 2048 {
          assert Diff(cis, bs, preds, al, i + 1) == Diff(cis[1..], bs[1..], next, al, i);
        }
      }
    }
  }

  lemma RangeStep(cis: seq<nat>, bs: seq<Block>, preds: seq<int>, al: nat)
    requires |cis| == |bs| && bs != [] && forall i :: 0 <= i < |cis| ==> cis[i] < |preds|
    ensures var v := Shr(bs[0][0], al);
            DcInRange(cis, bs, preds, al) <==> -2048 < v - preds[cis[0]] < 2048 && DcInRange(cis[1..], bs[1..], preds[cis[0] := v], al)
  {
    ElevenBits(Shr(bs[0][0], al) - preds[cis[0]]);
    hide NBits;
  }

  /** The prediction of a block, counted from the second block on. */
  lemma PredShift(dcTbl: seq<nat>, cis: seq<nat>, bs: seq<Block>, preds: seq<int>, al: nat, i: nat)
    requires |cis| == |bs| && |dcTbl| == |preds| && i < |bs| && forall j :: 0 <= j < |cis| ==> cis[j] < |preds|
    ensures i == 0 ==> DcScan.Preds(cis[..i], bs[..i], preds, al) == preds
    ensures i > 0 ==> bs[1..][i - 1] == bs[i] && cis[1..][i - 1] == cis[i]
    ensures i > 0 ==> DcScan.Preds(cis[..i], bs[..i], preds, al)
                      == DcScan.Preds(cis[1..][..i - 1], bs[1..][..i - 1], preds[cis[0] := Shr(bs[0][0], al)], al)
  {
    if i > 0 {
      hide DcScan.DiffTokens;
      DcScan.FirstCons(dcTbl, cis[..i], bs[..i], preds, al);
      DcScan.Slices(cis, i);
      DcScan.Slices(bs, i);
    }
  }

  lemma ElevenBits(d: int)
    ensures NBits(Abs(d)) <= MAX_COEF_BITS + 1 <==> -2048 < d < 2048
  {
    assert Pow2(11) == 2048 by { assert Pow2(6) == 64; }
    BitsBelow(Abs(d), 11);
  }

  ghost predicate McuOk(sc: Scan, tbls: Tables, m: Mcu) { ScanOk(sc, tbls) && |m| == |sc.members| }

  /** The DC predictions after a run of MCUs. */
  ghost function DcPreds(sc: Scan, tbls: Tables, ms: seq<Mcu>, preds: seq<int>): (r: seq<int>)
    requires ScanOk(sc, tbls) && Shaped(sc, ms) && |preds| == |sc.dcTbl|
    ensures |r| == |preds|
    decreases ms
  {
    if ms == [] then preds else DcPreds(sc, tbls, ms[1..], DcMcuPreds(sc, ms[0], preds))
  }

  /** No coefficient of the MCU is out of range. */
  ghost predicate McuRange(sc: Scan, tbls: Tables, m: Mcu, preds: seq<int>)
    requires McuOk(sc, tbls, m) && |preds| == |sc.dcTbl|
  {
    && (sc.p.Ah == 0 ==> DcInRange(sc.members, m, preds, sc.p.Al))
    && (sc.p.Se != 0 ==> forall i :: 0 <= i < |m| ==> Sequential.AcInRange(m[i]))
  }

  ghost predicate DcRanges(sc: Scan, tbls: Tables, ms: seq<Mcu>, preds: seq<int>)
    requires ScanOk(sc, tbls) && Shaped(sc, ms) && |preds| == |sc.dcTbl|
    decreases ms
  {
    ms != [] ==> McuRange(sc, tbls, ms[0], preds) && DcRanges(sc, tbls, ms[1..], DcMcuPreds(sc, ms[0], preds))
  }

  ghost predicate AcRanges(sc: Scan, ms: seq<Mcu>)
    requires AcParams(sc.p) && forall i :: 0 <= i < |ms| ==> |ms[i]| == 1
  {
    forall i :: 0 <= i < |ms| ==> AcInRange(ms[i][0], sc.p)
  }

  /** No coefficient of the segment is out of range. */
  ghost predicate Ranges(sc: Scan, tbls: Tables, ms: seq<Mcu>)
    requires ScanOk(sc, tbls) && Shaped(sc, ms)
  {
    if sc.p.Ss == 0 then DcRanges(sc, tbls, ms, StartState(sc).preds) else AcRanges(sc, ms)
  }

  // ---- The open segment ----

  /** The encoder's run state after the MCUs ms of a segment. */
  ghost function OpenState(sc: Scan, tbls: Tables, ms: seq<Mcu>): RunState
    requires ScanOk(sc, tbls) && Shaped(sc, ms)
  {
    if sc.p.Ss == 0 then RunState(DcTokens(sc, ms, StartState(sc).preds), 0, [])
    else Run(sc.acTbl, EMPTY_RUN, AcCodes(sc.acTbl, Singles(ms), sc.p))
  }

  ghost function OpenPreds(sc: Scan, tbls: Tables, ms: seq<Mcu>): seq<int>
    requires ScanOk(sc, tbls) && Shaped(sc, ms)
  {
    if sc.p.Ss == 0 then DcPreds(sc, tbls, ms, StartState(sc).preds) else StartState(sc).preds
  }

  /** Nothing so far is refused: in range, and every token so far has a code unless
      statistics are only being gathered. */
  ghost predicate OpenOk(sc: Scan, tbls: Tables, gather: bool, ms: seq<Mcu>)
    requires ScanOk(sc, tbls) && Shaped(sc, ms)
  {
    Ranges(sc, tbls, ms) && (gather || AllWritable(tbls, OpenState(sc, tbls, ms).out))
  }

  /** The same for a finished segment. */
  ghost predicate SegOk(sc: Scan, tbls: Tables, gather: bool, ms: seq<Mcu>)
    requires ScanOk(sc, tbls) && Shaped(sc, ms)
  {
    Ranges(sc, tbls, ms) && (gather || AllWritable(tbls, SegTokens(sc, tbls, ms)))
  }

  lemma OpenStart(sc: Scan, tbls: Tables, gather: bool)
    requires ScanOk(sc, tbls)
    ensures Shaped(sc, []) && OpenState(sc, tbls, []) == EMPTY_RUN && OpenPreds(sc, tbls, []) == StartState(sc).preds
    ensures OpenOk(sc, tbls, gather, []) && EMPTY_RUN == RunState([], 0, [])
    ensures |StartState(sc).preds| == |sc.dcTbl| && forall i :: 0 <= i < |sc.dcTbl| ==> StartState(sc).preds[i] == 0
  {
  }

  lemma AcPreds(sc: Scan, tbls: Tables, ms: seq<Mcu>)
    requires ScanOk(sc, tbls) && Shaped(sc, ms) && sc.p.Ss != 0
    ensures OpenPreds(sc, tbls, ms) == StartState(sc).preds
  {
  }

  lemma OpenFlush(sc: Scan, tbls: Tables, ms: seq<Mcu>)
    requires ScanOk(sc, tbls) && Shaped(sc, ms)
    ensures Flush(sc.acTbl, OpenState(sc, tbls, ms)).out == SegTokens(sc, tbls, ms)
  {
    hide Run;
    hide AcCodes;
    hide DcTokens;
  }

  // ---- One more MCU ----

  lemma {:induction false} RunSnoc(tbl: nat, st: RunState, cs: seq<BlockCode>, c: BlockCode)
    ensures Run(tbl, st, cs + [c]) == Step(tbl, Run(tbl, st, cs), c)
    decreases cs
  {
    hide Step;
    if cs != [] {
      RunSnoc(tbl, Step(tbl, st, cs[0]), cs[1..], c);
      assert (cs + [c])[1..] == cs[1..] + [c];
    }
  }

  lemma {:induction false} SinglesSnoc(ms: seq<Mcu>, m: Mcu)
    requires |m| == 1 && forall i :: 0 <= i < |ms| ==> |ms[i]| == 1
    ensures Singles(ms + [m]) == Singles(ms) + [m[0]]
  {
    if ms != [] {
      SinglesSnoc(ms[1..], m);
      assert (ms + [m])[1..] == ms[1..] + [m];
    }
  }

  lemma {:induction false} AcCodesSnoc(tbl: nat, bs: seq<Block>, b: Block, p: Params)
    requires AcParams(p)
    ensures AcCodes(tbl, bs + [b], p) == AcCodes(tbl, bs, p) + [AcCode(tbl, b, p)]
  {
    hide AcCode;
    hide AcParams;
    if bs != [] {
      AcCodesSnoc(tbl, bs[1..], b, p);
      assert (bs + [b])[1..] == bs[1..] + [b];
    }
  }

  lemma ShapedSnoc(sc: Scan, ms: seq<Mcu>, m: Mcu)
    requires Shaped(sc, ms) && |m| == |sc.members|
    ensures Shaped(sc, ms + [m])
  {
  }

  /** An AC scan's state after one more block. */
  lemma OpenAc(sc: Scan, tbls: Tables, gather: bool, ms: seq<Mcu>, m: Mcu)
    requires ScanOk(sc, tbls) && sc.p.Ss != 0 && Shaped(sc, ms) && |m| == |sc.members| && Shaped(sc, ms + [m])
    ensures |m| == 1 && AcParams(sc.p)
    ensures OpenState(sc, tbls, ms + [m]) == Step(sc.acTbl, OpenState(sc, tbls, ms), AcCode(sc.acTbl, m[0], sc.p))
    ensures OpenPreds(sc, tbls, ms + [m]) == OpenPreds(sc, tbls, ms)
    ensures Ranges(sc, tbls, ms + [m]) <==> Ranges(sc, tbls, ms) && AcInRange(m[0], sc.p)
  {
    hide AcCode;
    hide AcInRange;
    hide Step;
    SinglesSnoc(ms, m);
    AcCodesSnoc(sc.acTbl, Singles(ms), m[0], sc.p);
    RunSnoc(sc.acTbl, EMPTY_RUN, AcCodes(sc.acTbl, Singles(ms), sc.p), AcCode(sc.acTbl, m[0], sc.p));
    hide Run;
    hide AcCodes;
    assert forall i :: 0 <= i < |ms| ==> (ms + [m])[i] == ms[i];
    assert (ms + [m])[|ms|] == m;
  }

  /** The tokens of one MCU of a DC or sequential scan. */
  ghost function McuTokens(sc: Scan, tbls: Tables, m: Mcu, preds: seq<int>): seq<Token>
    requires McuOk(sc, tbls, m) && |preds| == |sc.dcTbl| && sc.p.Ss == 0
  {
    DcMcuTokens(sc, m, preds)
  }

  ghost function McuPreds(sc: Scan, tbls: Tables, m: Mcu, preds: seq<int>): (r: seq<int>)
    requires McuOk(sc, tbls, m) && |preds| == |sc.dcTbl|
    ensures |r| == |preds|
  {
    DcMcuPreds(sc, m, preds)
  }

  // The rest of an MCU of a first DC scan or of a sequential scan, from block i on.

  ghost function RestTokens(sc: Scan, tbls: Tables, m: Mcu, i: nat, preds: seq<int>): seq<Token>
    requires McuOk(sc, tbls, m) && |preds| == |sc.dcTbl| && i <= |m| && sc.p.Ss == 0
  {
    if sc.p.Se != 0 then Sequential.McuTokens(sc.dcTbl, sc.acTbls, sc.members[i..], m[i..], preds)
    else DcScan.FirstTokens(sc.dcTbl, sc.members[i..], m[i..], preds, sc.p.Al)
  }

  ghost function RestPreds(sc: Scan, tbls: Tables, m: Mcu, i: nat, preds: seq<int>): seq<int>
    requires McuOk(sc, tbls, m) && |preds| == |sc.dcTbl| && i <= |m|
  {
    DcScan.Preds(sc.members[i..], m[i..], preds, sc.p.Al)
  }

  ghost predicate RestRange(sc: Scan, tbls: Tables, m: Mcu, i: nat, preds: seq<int>)
    requires McuOk(sc, tbls, m) && |preds| == |sc.dcTbl| && i <= |m|
  {
    && DcInRange(sc.members[i..], m[i..], preds, sc.p.Al)
    && (sc.p.Se != 0 ==> forall j :: i <= j < |m| ==> Sequential.AcInRange(m[j]))
  }

  lemma RestEnds(sc: Scan, tbls: Tables, m: Mcu, preds: seq<int>, after: seq<int>)
    requires McuOk(sc, tbls, m) && sc.p.Ss == 0 && sc.p.Ah == 0 && |preds| == |after| == |sc.dcTbl|
    ensures RestTokens(sc, tbls, m, 0, preds) == McuTokens(sc, tbls, m, preds) && RestTokens(sc, tbls, m, |m|, after) == []
    ensures RestPreds(sc, tbls, m, 0, preds) == McuPreds(sc, tbls, m, preds) && RestPreds(sc, tbls, m, |m|, after) == after
    ensures RestRange(sc, tbls, m, 0, preds) == McuRange(sc, tbls, m, preds) && RestRange(sc, tbls, m, |m|, after)
  {
    hide Sequential.AcInRange;
    assert sc.members[0..] == sc.members && m[0..] == m;
  }

  lemma RestNext(sc: Scan, tbls: Tables, m: Mcu, i: nat, preds: seq<int>, ts: seq<Token>)
    requires McuOk(sc, tbls, m) && |preds| == |sc.dcTbl| && i < |m| && sc.p.Ss == sc.p.Se == 0
    ensures sc.members[i] < |sc.dcTbl|
    ensures var c := sc.members[i];
            var v := Shr(m[i][0], sc.p.Al);
            var next := preds[c := v];
            && ts + RestTokens(sc, tbls, m, i, preds)
               == ts + DcScan.DiffTokens(sc.dcTbl[c], v - preds[c]) + RestTokens(sc, tbls, m, i + 1, next)
            && RestPreds(sc, tbls, m, i, preds) == RestPreds(sc, tbls, m, i + 1, next)
            && (RestRange(sc, tbls, m, i, preds) <==> NBits(Abs(v - preds[c])) <= MAX_COEF_BITS + 1 && RestRange(sc, tbls, m, i + 1, next))
  {
    hide DcScan.DiffTokens;
    hide Shr;
    hide NBits;
    hide AcParams;
    var cis, bs := sc.members[i..], m[i..];
    assert cis[1..] == sc.members[i + 1..] && bs[1..] == m[i + 1..];
  }

  /** The same for a block of a sequential scan. */
  lemma RestNextWhole(sc: Scan, tbls: Tables, m: Mcu, i: nat, preds: seq<int>, ts: seq<Token>)
    requires McuOk(sc, tbls, m) && |preds| == |sc.dcTbl| && i < |m| && sc.p.Ss == 0 && sc.p.Se != 0
    ensures sc.members[i] < |sc.dcTbl| == |sc.acTbls|
    ensures var c := sc.members[i];
            var next := preds[c := m[i][0]];
            && ts + RestTokens(sc, tbls, m, i, preds)
               == ts + Sequential.BlockTokens(sc.dcTbl[c], sc.acTbls[c], m[i], preds[c]) + RestTokens(sc, tbls, m, i + 1, next)
            && RestPreds(sc, tbls, m, i, preds) == RestPreds(sc, tbls, m, i + 1, next)
            && (RestRange(sc, tbls, m, i, preds) <==>
                  && NBits(Abs(m[i][0] - preds[c])) <= MAX_COEF_BITS + 1 && Sequential.AcInRange(m[i])
                  && RestRange(sc, tbls, m, i + 1, next))
  {
    hide Sequential.BlockTokens;
    hide Sequential.AcInRange;
    hide NBits;
    hide AcParams;
    var cis, bs := sc.members[i..], m[i..];
    Sequential.ShrNone(m[i][0]);
    assert cis[1..] == sc.members[i + 1..] && bs[1..] == m[i + 1..];
  }

  lemma RefineTokensEnds(sc: Scan, tbls: Tables, m: Mcu, preds: seq<int>, ts: seq<Token>)
    requires McuOk(sc, tbls, m) && sc.p.Ss == 0 && sc.p.Ah != 0 && |preds| == |sc.dcTbl|
    ensures ts + DcScan.RefineTokens(m[..0], sc.p.Al) == ts
    ensures DcScan.RefineTokens(m[..|m|], sc.p.Al) == McuTokens(sc, tbls, m, preds)
  {
    assert m[..|m|] == m;
  }

  lemma RefineTokensNext(m: Mcu, i: nat, al: nat, ts: seq<Token>)
    requires i < |m|
    ensures ts + DcScan.RefineTokens(m[..i + 1], al) == ts + DcScan.RefineTokens(m[..i], al) + [Raw(Shr(m[i][0], al), 1)]
  {
    hide Shr;
  }

  lemma {:induction false} DcSnoc(sc: Scan, tbls: Tables, ms: seq<Mcu>, m: Mcu, preds: seq<int>)
    requires McuOk(sc, tbls, m) && Shaped(sc, ms) && Shaped(sc, ms + [m]) && |preds| == |sc.dcTbl| && sc.p.Ss == 0
    ensures var q := DcPreds(sc, tbls, ms, preds);
            && DcTokens(sc, ms + [m], preds) == DcTokens(sc, ms, preds) + McuTokens(sc, tbls, m, q)
            && DcPreds(sc, tbls, ms + [m], preds) == McuPreds(sc, tbls, m, q)
            && (DcRanges(sc, tbls, ms + [m], preds) <==> DcRanges(sc, tbls, ms, preds) && McuRange(sc, tbls, m, q))
    decreases ms
  {
    hide DcMcuTokens;
    hide DcMcuPreds;
    hide McuRange;
    hide AcParams;
    if ms == [] {
      assert [m][1..] == [];
      assert ms + [m] == [m];
    } else {
      assert (ms + [m])[1..] == ms[1..] + [m] && (ms + [m])[0] == ms[0];
      var next := McuPreds(sc, tbls, ms[0], preds);
      DcSnoc(sc, tbls, ms[1..], m, next);
      var q := DcPreds(sc, tbls, ms[1..], next);
      assert q == DcPreds(sc, tbls, ms, preds);
      assert DcTokens(sc, ms, preds) == McuTokens(sc, tbls, ms[0], preds) + DcTokens(sc, ms[1..], next);
      assert DcTokens(sc, ms + [m], preds) == McuTokens(sc, tbls, ms[0], preds) + DcTokens(sc, ms[1..] + [m], next);
    }
  }

  /** A DC scan's state after one more MCU. */
  lemma OpenDc(sc: Scan, tbls: Tables, ms: seq<Mcu>, m: Mcu)
    requires McuOk(sc, tbls, m) && sc.p.Ss == 0 && Shaped(sc, ms) && Shaped(sc, ms + [m])
    ensures var q := OpenPreds(sc, tbls, ms);
            && |q| == |sc.dcTbl| && OpenState(sc, tbls, ms) == RunState(OpenState(sc, tbls, ms).out, 0, [])
            && OpenState(sc, tbls, ms + [m]) == RunState(OpenState(sc, tbls, ms).out + McuTokens(sc, tbls, m, q), 0, [])
            && OpenPreds(sc, tbls, ms + [m]) == McuPreds(sc, tbls, m, q)
            && (Ranges(sc, tbls, ms + [m]) <==> Ranges(sc, tbls, ms) && McuRange(sc, tbls, m, q))
  {
    DcSnoc(sc, tbls, ms, m, StartState(sc).preds);
  }

  lemma McuFits(sc: Scan, tbls: Tables, m: Mcu)
    requires McuOk(sc, tbls, m)
    ensures ScanOk(sc, tbls) && |m| == |sc.members|
  {
  }

  lemma OpenGrows(sc: Scan, tbls: Tables, ms: seq<Mcu>, m: Mcu)
    requires McuOk(sc, tbls, m) && Shaped(sc, ms) && Shaped(sc, ms + [m])
    ensures OpenState(sc, tbls, ms).out <= OpenState(sc, tbls, ms + [m]).out
    ensures Ranges(sc, tbls, ms + [m]) ==> Ranges(sc, tbls, ms)
  {
    McuFits(sc, tbls, m);
    hide *;
    if sc.p.Ss == 0 {
      OpenDc(sc, tbls, ms, m);
    } else {
      OpenAc(sc, tbls, true, ms, m);
      StepExtends(sc.acTbl, OpenState(sc, tbls, ms), AcCode(sc.acTbl, m[0], sc.p));
    }
  }

  lemma {:induction false} OpenPrefix(sc: Scan, tbls: Tables, ms: seq<Mcu>, more: seq<Mcu>)
    requires ScanOk(sc, tbls) && Shaped(sc, ms) && Shaped(sc, more) && Shaped(sc, ms + more)
    ensures OpenState(sc, tbls, ms).out <= OpenState(sc, tbls, ms + more).out
    ensures Ranges(sc, tbls, ms + more) ==> Ranges(sc, tbls, ms)
    decreases more
  {
    hide ScanOk;
    hide OpenState;
    hide Ranges;
    if more == [] {
      assert ms + more == ms;
    } else {
      assert ms + more == (ms + [more[0]]) + more[1..];
      OpenGrows(sc, tbls, ms, more[0]);
      OpenPrefix(sc, tbls, ms + [more[0]], more[1..]);
    }
  }

  /** What is refused early is refused in any segment that starts the same way. */
  lemma RefusedLater(sc: Scan, tbls: Tables, gather: bool, ms: seq<Mcu>, more: seq<Mcu>)
    requires ScanOk(sc, tbls) && Shaped(sc, ms) && Shaped(sc, more) && Shaped(sc, ms + more)
    ensures SegOk(sc, tbls, gather, ms + more) ==> OpenOk(sc, tbls, gather, ms)
  {
    hide *;
    OpenPrefix(sc, tbls, ms, more);
    OpenFlush(sc, tbls, ms + more);
    FlushExtends(sc.acTbl, OpenState(sc, tbls, ms + more));
    PrefixWritable(tbls, OpenState(sc, tbls, ms).out, SegTokens(sc, tbls, ms + more));
    OkDefs(sc, tbls, gather, ms);
    OkDefs(sc, tbls, gather, ms + more);
  }

  lemma OkDefs(sc: Scan, tbls: Tables, gather: bool, ms: seq<Mcu>)
    requires ScanOk(sc, tbls) && Shaped(sc, ms)
    ensures OpenOk(sc, tbls, gather, ms) <==> Ranges(sc, tbls, ms) && (gather || AllWritable(tbls, OpenState(sc, tbls, ms).out))
    ensures SegOk(sc, tbls, gather, ms) <==> Ranges(sc, tbls, ms) && (gather || AllWritable(tbls, SegTokens(sc, tbls, ms)))
    ensures SegTokens(sc, tbls, ms) == Flush(sc.acTbl, OpenState(sc, tbls, ms)).out
  {
    OpenFlush(sc, tbls, ms);
  }

  // ---- The segments already closed ----

  ghost predicate SegsOk(sc: Scan, tbls: Tables, gather: bool, segs: seq<seq<Mcu>>)
    requires ScanOk(sc, tbls)
  {
    forall i :: 0 <= i < |segs| ==> Shaped(sc, segs[i]) && SegOk(sc, tbls, gather, segs[i])
  }

  /** All tokens of the segments. */
  ghost function AllTokens(sc: Scan, tbls: Tables, segs: seq<seq<Mcu>>): seq<Token>
    requires ScanOk(sc, tbls) && AllShaped(sc, segs)
  {
    if segs == [] then [] else SegTokens(sc, tbls, segs[0]) + AllTokens(sc, tbls, segs[1..])
  }

  /** Closed segments, each with the restart marker after it. */
  ghost function ClosedBytes(sc: Scan, tbls: Tables, segs: seq<seq<Mcu>>, num: nat): seq<byte>
    requires ScanOk(sc, tbls) && SegsWritable(sc, tbls, segs) && num < 8
    decreases segs
  {
    if segs == [] then []
    else
      WritableTail(sc, tbls, segs);
      SegBytes(BitsOf(tbls, SegTokens(sc, tbls, segs[0]))) + [0xFF, M_RST0 + num] + ClosedBytes(sc, tbls, segs[1..], (num + 1) % 8)
  }

  lemma {:induction false} AllTokensSnoc(sc: Scan, tbls: Tables, segs: seq<seq<Mcu>>, seg: seq<Mcu>)
    requires ScanOk(sc, tbls) && AllShaped(sc, segs) && Shaped(sc, seg) && AllShaped(sc, segs + [seg])
    ensures AllTokens(sc, tbls, segs + [seg]) == AllTokens(sc, tbls, segs) + SegTokens(sc, tbls, seg)
    decreases segs
  {
    hide SegTokens;
    hide ScanOk;
    hide Shaped;
    if segs == [] {
      assert ([] + [seg])[1..] == [];
    } else {
      AllTokensSnoc(sc, tbls, segs[1..], seg);
      assert (segs + [seg])[1..] == segs[1..] + [seg];
    }
  }

  lemma {:induction false} ClosedSnoc(sc: Scan, tbls: Tables, segs: seq<seq<Mcu>>, seg: seq<Mcu>, num: nat)
    requires ScanOk(sc, tbls) && SegsWritable(sc, tbls, segs) && SegsWritable(sc, tbls, segs + [seg]) && num < 8
    requires Shaped(sc, seg) && AllWritable(tbls, SegTokens(sc, tbls, seg))
    ensures ClosedBytes(sc, tbls, segs + [seg], num)
            == ClosedBytes(sc, tbls, segs, num) + SegBytes(BitsOf(tbls, SegTokens(sc, tbls, seg))) + [0xFF, M_RST0 + (num + |segs|) % 8]
    ensures SegsBytes(sc, tbls, segs + [seg], num) == ClosedBytes(sc, tbls, segs, num) + SegBytes(BitsOf(tbls, SegTokens(sc, tbls, seg)))
    decreases segs
  {
    hide *;
    ClosedCons(sc, tbls, segs + [seg], num);
    if segs == [] {
      assert segs + [seg] == [seg] && (segs + [seg])[1..] == [];
      ClosedNone(sc, tbls, num);
      ClosedNone(sc, tbls, (num + 1) % 8);
      RstByte(num);
      var y: seq<byte> := [0xFF, M_RST0 + num];
      NoBytes(SegBytes(BitsOf(tbls, SegTokens(sc, tbls, seg))), y);
    } else {
      assert (segs + [seg])[1..] == segs[1..] + [seg] && (segs + [seg])[0] == segs[0];
      ClosedCons(sc, tbls, segs, num);
      var x := SegBytes(BitsOf(tbls, SegTokens(sc, tbls, segs[0]))) + [0xFF, M_RST0 + num];
      var n := (num + 1) % 8;
      ClosedSnoc(sc, tbls, segs[1..], seg, n);
      assert (n + |segs[1..]|) % 8 == (num + |segs|) % 8;
      var y, z := ClosedBytes(sc, tbls, segs[1..], n), SegBytes(BitsOf(tbls, SegTokens(sc, tbls, seg)));
      RstByte((num + |segs|) % 8);
      var w: seq<byte> := [0xFF, M_RST0 + (num + |segs|) % 8];
      AssocBytes(x, y, z, w);
    }
  }

  lemma NoBytes(x: seq<byte>, y: seq<byte>)
    ensures x + y + [] == [] + x + y && [] + x == x
  {
  }

  lemma ClosedNone(sc: Scan, tbls: Tables, num: nat)
    requires ScanOk(sc, tbls) && num < 8
    ensures SegsWritable(sc, tbls, []) && ClosedBytes(sc, tbls, [], num) == [] && (num + 0) % 8 == num
  {
  }

  lemma ClosedCons(sc: Scan, tbls: Tables, segs: seq<seq<Mcu>>, num: nat)
    requires ScanOk(sc, tbls) && SegsWritable(sc, tbls, segs) && num < 8 && segs != []
    ensures Shaped(sc, segs[0]) && AllWritable(tbls, SegTokens(sc, tbls, segs[0])) && SegsWritable(sc, tbls, segs[1..])
    ensures M_RST0 + num < 256
    ensures var here := SegBytes(BitsOf(tbls, SegTokens(sc, tbls, segs[0])));
            && ClosedBytes(sc, tbls, segs, num) == here + [0xFF, M_RST0 + num] + ClosedBytes(sc, tbls, segs[1..], (num + 1) % 8)
            && SegsBytes(sc, tbls, segs, num)
               == if |segs| == 1 then here else here + [0xFF, M_RST0 + num] + SegsBytes(sc, tbls, segs[1..], (num + 1) % 8)
  {
    hide SegTokens;
    hide ScanOk;
    hide Shaped;
    hide AllWritable;
    hide BitsOf;
    hide SegBytes;
  }

  lemma AssocBytes(x: seq<byte>, y: seq<byte>, z: seq<byte>, w: seq<byte>)
    ensures x + (y + z + w) == x + y + z + w && x + (y + z) == x + y + z
  {
  }

  lemma DcMcuDefs(sc: Scan, tbls: Tables, m: Mcu, preds: seq<int>)
    requires McuOk(sc, tbls, m) && |preds| == |sc.dcTbl| && sc.p.Ss == 0 && sc.p.Ah != 0
    ensures McuRange(sc, tbls, m, preds) && McuPreds(sc, tbls, m, preds) == preds
  {
  }

  lemma NotRefining(sc: Scan, tbls: Tables)
    requires ScanOk(sc, tbls) && sc.p.Ss == 0 && sc.p.Se != 0
    ensures sc.p.Ah == sc.p.Al == 0 && |sc.acTbls| == |sc.dcTbl|
  {
  }

  lemma RstByte(num: nat)
    requires num < 8
    ensures 0 < M_RST0 + num < 0xFF
  {
  }

  /** Closing a segment whose tokens are all out. */
  lemma CloseSegment(sc: Scan, tbls: Tables, gather: bool, prior: seq<seq<Mcu>>, seg: seq<Mcu>, num: nat)
    requires ScanOk(sc, tbls) && AllShaped(sc, prior) && Shaped(sc, seg) && SegOk(sc, tbls, gather, seg) && SegsOk(sc, tbls, gather, prior)
    requires !gather ==> SegsWritable(sc, tbls, prior)
    requires num == |prior| % 8
    ensures AllShaped(sc, prior + [seg]) && SegsOk(sc, tbls, gather, prior + [seg])
    ensures AllTokens(sc, tbls, prior + [seg]) == AllTokens(sc, tbls, prior) + SegTokens(sc, tbls, seg)
    ensures !gather ==> SegsWritable(sc, tbls, prior + [seg]) && AllWritable(tbls, SegTokens(sc, tbls, seg))
    ensures !gather ==>
            ClosedBytes(sc, tbls, prior + [seg], 0)
            == ClosedBytes(sc, tbls, prior, 0) + SegBytes(BitsOf(tbls, SegTokens(sc, tbls, seg))) + [0xFF, M_RST0 + num]
    ensures !gather ==> SegsBytes(sc, tbls, prior + [seg], 0) == ClosedBytes(sc, tbls, prior, 0) + SegBytes(BitsOf(tbls, SegTokens(sc, tbls, seg)))
  {
    hide SegTokens;
    hide ScanOk;
    hide Shaped;
    hide AllWritable;
    hide BitsOf;
    hide SegBytes;
    hide Ranges;
    hide AllTokens;
    hide ClosedBytes;
    hide SegsBytes;
    AllTokensSnoc(sc, tbls, prior, seg);
    if !gather { ClosedSnoc(sc, tbls, prior, seg, 0); }
  }

  // ---- Cutting a scan into segments as it goes by ----

  lemma FirstSegment(ms: seq<Mcu>, n: nat, interval: nat)
    requires n <= |ms| && (interval > 0 ==> n <= interval)
    ensures ms[..n] <= Segments(ms, interval)[0]
    ensures interval > 0 && n == interval < |ms| ==> Segments(ms, interval) == [ms[..n]] + Segments(ms[n..], interval)
    ensures n == |ms| ==> Segments(ms, interval) == [ms]
  {
  }

  function IsDue(cs: seq<Mcu>, interval: nat): bool { interval > 0 && |cs| == interval }

  function Reopen(cs: seq<Mcu>, interval: nat): seq<Mcu> { if IsDue(cs, interval) then [] else cs }

  function Close(prior: seq<seq<Mcu>>, cs: seq<Mcu>, interval: nat): seq<seq<Mcu>> { if IsDue(cs, interval) then prior + [cs] else prior }

  /** The MCUs cs of the open segment are followed by rest: what the next MCU does. */
  lemma CutNext(prior: seq<seq<Mcu>>, cs: seq<Mcu>, rest: seq<Mcu>, interval: nat)
    requires rest != [] && (interval > 0 ==> |cs| <= interval)
    ensures prior + Segments(cs + rest, interval)
            == Close(prior, cs, interval) + Segments(Reopen(cs, interval) + [rest[0]] + rest[1..], interval)
    ensures Reopen(cs, interval) + [rest[0]] <= Segments(Reopen(cs, interval) + [rest[0]] + rest[1..], interval)[0]
  {
    hide Segments;
    var open := Reopen(cs, interval);
    var whole := open + [rest[0]] + rest[1..];
    assert whole == open + rest;
    FirstSegment(whole, |open| + 1, interval);
    assert whole[..|open| + 1] == open + [rest[0]];
    if IsDue(cs, interval) {
      assert (cs + rest)[..|cs|] == cs && (cs + rest)[|cs|..] == rest == whole;
      FirstSegment(cs + rest, |cs|, interval);
      assert prior + ([cs] + Segments(rest, interval)) == prior + [cs] + Segments(rest, interval);
    }
  }

  lemma SegsOkAt(sc: Scan, tbls: Tables, gather: bool, segs: seq<seq<Mcu>>, i: nat)
    requires ScanOk(sc, tbls) && i < |segs| && AllShaped(sc, segs)
    ensures Shaped(sc, segs[i]) && (SegsOk(sc, tbls, gather, segs) ==> SegOk(sc, tbls, gather, segs[i]))
  {
  }

  lemma ShapedPrefix(sc: Scan, a: seq<Mcu>, b: seq<Mcu>)
    requires Shaped(sc, b) && a <= b
    ensures Shaped(sc, a) && Shaped(sc, b[|a|..]) && a + b[|a|..] == b
  {
  }

  /** A refusal now is a refusal of the scan. */
  lemma NextMcu(sc: Scan, tbls: Tables, gather: bool, all: seq<seq<Mcu>>, prior: seq<seq<Mcu>>, cs: seq<Mcu>, rest: seq<Mcu>)
    requires ScanOk(sc, tbls) && Shaped(sc, cs) && rest != [] && AllShaped(sc, all)
    requires all == prior + Segments(cs + rest, sc.interval) && (sc.interval > 0 ==> |cs| <= sc.interval)
    ensures var open := Reopen(cs, sc.interval);
            && Shaped(sc, open + [rest[0]])
            && all == Close(prior, cs, sc.interval) + Segments(open + [rest[0]] + rest[1..], sc.interval)
            && (SegsOk(sc, tbls, gather, all) ==>
                  (IsDue(cs, sc.interval) ==> SegOk(sc, tbls, gather, cs)) && OpenOk(sc, tbls, gather, open + [rest[0]]))
  {
    hide *;
    CutNext(prior, cs, rest, sc.interval);
    var open := Reopen(cs, sc.interval);
    var pr := Close(prior, cs, sc.interval);
    var seg := Segments(open + [rest[0]] + rest[1..], sc.interval)[0];
    assert all[|pr|] == seg;
    SegsOkAt(sc, tbls, gather, all, |pr|);
    ShapedPrefix(sc, open + [rest[0]], seg);
    RefusedLater(sc, tbls, gather, open + [rest[0]], seg[|open| + 1..]);
    if IsDue(cs, sc.interval) {
      Closed(prior, cs, sc.interval);
      assert all[|prior|] == cs;
      SegsOkAt(sc, tbls, gather, all, |prior|);
    }
  }

  lemma Closed(prior: seq<seq<Mcu>>, cs: seq<Mcu>, interval: nat)
    requires IsDue(cs, interval)
    ensures Close(prior, cs, interval) == prior + [cs]
  {
  }

  lemma LastMcu(sc: Scan, tbls: Tables, gather: bool, all: seq<seq<Mcu>>, prior: seq<seq<Mcu>>, cs: seq<Mcu>, rest: seq<Mcu>)
    requires ScanOk(sc, tbls) && Shaped(sc, cs) && AllShaped(sc, prior) && SegsOk(sc, tbls, gather, prior) && rest == []
    requires all == prior + Segments(cs + rest, sc.interval) && (sc.interval > 0 ==> |cs| <= sc.interval)
    ensures all == prior + [cs] && (SegsOk(sc, tbls, gather, all) <==> SegOk(sc, tbls, gather, cs))
  {
    assert cs + rest == cs;
    FirstSegment(cs, |cs|, sc.interval);
    hide SegOk;
    hide ScanOk;
    hide Shaped;
    hide Segments;
    assert all[|prior|] == cs;
    assert forall i :: 0 <= i < |prior| ==> all[i] == prior[i];
  }

  lemma {:induction false} SegmentsShaped(sc: Scan, ms: seq<Mcu>)
    requires Shaped(sc, ms)
    ensures AllShaped(sc, Segments(ms, sc.interval))
    decreases |ms|
  {
    if sc.interval > 0 && |ms| > sc.interval { SegmentsShaped(sc, ms[sc.interval..]); }
  }

  /** A scan before its first MCU. */
  lemma NothingCoded(sc: Scan, tbls: Tables, gather: bool)
    requires ScanOk(sc, tbls)
    ensures Shaped(sc, []) && AllShaped(sc, []) && SegsOk(sc, tbls, gather, []) && AllTokens(sc, tbls, []) == []
    ensures SegsWritable(sc, tbls, []) && ClosedBytes(sc, tbls, [], 0) == []
    ensures OpenState(sc, tbls, []) == RunState([], 0, []) && OpenPreds(sc, tbls, []) == StartState(sc).preds
    ensures OpenOk(sc, tbls, gather, [])
    ensures |StartState(sc).preds| == |sc.dcTbl| && forall i :: 0 <= i < |sc.dcTbl| ==> StartState(sc).preds[i] == 0
  {
    OpenStart(sc, tbls, gather);
  }
}
