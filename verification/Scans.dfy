/** A whole scan, progressive or sequential: the MCUs between two restarts. */
module Scans {
  import opened Bits
  import opened BitStream
  import opened Bytes
  import opened HuffTable
  import opened Tokens
  import opened EobRun
  import opened Blocks
  import opened AcScan
  import DcScan
  import Sequential

  /** The scan being coded: its parameters, the component (within the scan) of each block
      of an MCU, the DC tables of its components, the table of an AC scan, the restart
      interval (0 for none), and the AC tables of the components of a sequential scan. */
  datatype Scan = Scan(p: Params, members: seq<nat>, dcTbl: seq<nat>, acTbl: nat, interval: nat, acTbls: seq<nat>)

  /** The blocks of one MCU. */
  type Mcu = seq<Block>

  /** Ss, Se, Ah and Al of a sequential scan. */
  const SEQUENTIAL := Params(0, 63, 0, 0)

  /** What start_pass_phuff_decoder accepts, or a sequential scan, with component and table
      numbers in range. */
  predicate ScanOk(sc: Scan, tbls: Tables)
  {
    && (if sc.p.Ss == 0 then sc.p == SEQUENTIAL || (sc.p.Se == 0 && sc.p.Al <= 13 && (sc.p.Ah == 0 || sc.p.Ah == sc.p.Al + 1))
        else AcParams(sc.p) && |sc.members| == 1)
    && (sc.p == SEQUENTIAL ==> |sc.acTbls| == |sc.dcTbl| && forall i :: 0 <= i < |sc.acTbls| ==> sc.acTbls[i] < |tbls|)
    && (forall i :: 0 <= i < |sc.members| ==> sc.members[i] < |sc.dcTbl|)
    && (forall i :: 0 <= i < |sc.dcTbl| ==> sc.dcTbl[i] < |tbls|)
    && sc.acTbl < |tbls|
  }

  ghost predicate Shaped(sc: Scan, ms: seq<Mcu>)
  {
    forall i :: 0 <= i < |ms| ==> |ms[i]| == |sc.members|
  }

  /** savable_state: the DC predictions and the remaining EOBRUN. */
  datatype State = State(preds: seq<int>, eobrun: nat)

  function StartState(sc: Scan): (st: State)
    ensures st.eobrun == 0 && |st.preds| == |sc.dcTbl| && forall i :: 0 <= i < |st.preds| ==> st.preds[i] == 0
  {
    State(seq(|sc.dcTbl|, i => 0), 0)
  }

  ghost predicate StateOk(sc: Scan, st: State) { |st.preds| == |sc.dcTbl| }

  // ---- One restart segment ----

  /** The tokens of one MCU of a DC or sequential scan. */
  function DcMcuTokens(sc: Scan, m: Mcu, preds: seq<int>): seq<Token>
    requires |m| == |sc.members| && |preds| == |sc.dcTbl| && forall i :: 0 <= i < |sc.members| ==> sc.members[i] < |preds|
    requires sc.p.Se != 0 ==> |sc.acTbls| == |sc.dcTbl|
  {
    if sc.p.Ah != 0 then DcScan.RefineTokens(m, sc.p.Al)
    else if sc.p.Se != 0 then Sequential.McuTokens(sc.dcTbl, sc.acTbls, sc.members, m, preds)
    else DcScan.FirstTokens(sc.dcTbl, sc.members, m, preds, sc.p.Al)
  }

  /** The predictions after it. */
  function DcMcuPreds(sc: Scan, m: Mcu, preds: seq<int>): (r: seq<int>)
    requires |m| == |sc.members| && forall i :: 0 <= i < |sc.members| ==> sc.members[i] < |preds|
    ensures |r| == |preds|
  {
    if sc.p.Ah != 0 then preds else DcScan.Preds(sc.members, m, preds, sc.p.Al)
  }

  /** The tokens of a run of such MCUs. */
  function DcTokens(sc: Scan, ms: seq<Mcu>, preds: seq<int>): seq<Token>
    requires |preds| == |sc.dcTbl| && Shaped(sc, ms) && forall i :: 0 <= i < |sc.members| ==> sc.members[i] < |preds|
    requires sc.p.Se != 0 ==> |sc.acTbls| == |sc.dcTbl|
    decreases ms
  {
    if ms == [] then [] else DcMcuTokens(sc, ms[0], preds) + DcTokens(sc, ms[1..], DcMcuPreds(sc, ms[0], preds))
  }

  /** The blocks of single-block MCUs. */
  function Singles(ms: seq<Mcu>): (bs: seq<Block>)
    requires forall i :: 0 <= i < |ms| ==> |ms[i]| == 1
    ensures |bs| == |ms| && forall i :: 0 <= i < |ms| ==> bs[i] == ms[i][0]
  {
    if ms == [] then [] else [ms[0][0]] + Singles(ms[1..])
  }

  /** Everything the encoder emits for one restart segment. */
  function SegTokens(sc: Scan, tbls: Tables, ms: seq<Mcu>): seq<Token>
    requires ScanOk(sc, tbls) && Shaped(sc, ms)
  {
    if sc.p.Ss == 0 then DcTokens(sc, ms, StartState(sc).preds)
    else Encoded(sc.acTbl, AcCodes(sc.acTbl, Singles(ms), sc.p))
  }

  /** One MCU: whichever of the five decode_mcu routines start_pass selected. */
  function DecMcu(sc: Scan, tbls: Tables, m: Mcu, st: State, s: Src): (r: (Mcu, State, Src))
    requires ScanOk(sc, tbls) && |m| == |sc.members| && StateOk(sc, st)
  {
    if sc.p.Ss != 0 then
      var (d, e, s1) := AcDecode(tbls[sc.acTbl], m[0], st.eobrun, sc.p, s);
      ([d], st.(eobrun := e), s1)
    else if sc.p.Ah != 0 then
      var (ds, s1) := DcScan.DecRefine(m, sc.p.Al, s);
      (ds, st, s1)
    else if s.starved then (m, st, s)
    else if sc.p.Se != 0 then
      var (ds, preds, s1) := Sequential.DecMcu(tbls, sc.dcTbl, sc.acTbls, sc.members, m, st.preds, s);
      (ds, st.(preds := preds), s1)
    else
      var (ds, preds, s1) := DcScan.DecFirst(tbls, sc.dcTbl, sc.members, m, st.preds, sc.p.Al, s);
      (ds, st.(preds := preds), s1)
  }

  lemma DecFirstPreds(tbls: Tables, dcTbl: seq<nat>, cis: seq<nat>, ds: seq<Block>, preds: seq<int>, al: nat, s: Src)
    requires |cis| == |ds| && |dcTbl| == |preds| && forall i :: 0 <= i < |cis| ==> cis[i] < |preds|
    requires forall i :: 0 <= i < |dcTbl| ==> dcTbl[i] < |tbls|
    ensures |DcScan.DecFirst(tbls, dcTbl, cis, ds, preds, al, s).1| == |preds|
    decreases ds
  {
    if ds != [] {
      hide DecodeSym;
      var (z, s1) := DecodeSym(tbls[dcTbl[cis[0]]], s);
      var v := DcScan.DiffValue(z, s1) + preds[cis[0]];
      DecFirstPreds(tbls, dcTbl, cis[1..], ds[1..], preds[cis[0] := v], al, s1.Drop(z));
    }
  }

  lemma DecMcuState(sc: Scan, tbls: Tables, m: Mcu, st: State, s: Src)
    requires ScanOk(sc, tbls) && |m| == |sc.members| && StateOk(sc, st)
    ensures StateOk(sc, DecMcu(sc, tbls, m, st, s).1)
  {
    hide DcScan.DecFirst;
    hide Sequential.DecMcu;
    hide AcDecode;
    if sc.p.Ss == 0 {
      if sc.p.Se != 0 {
        Sequential.DecMcuLength(tbls, sc.dcTbl, sc.acTbls, sc.members, m, st.preds, s);
      } else {
        DecFirstPreds(tbls, sc.dcTbl, sc.members, m, st.preds, sc.p.Al, s);
      }
    }
  }

  /** A run of MCUs without restarts. */
  function DecMcus(sc: Scan, tbls: Tables, ms: seq<Mcu>, st: State, s: Src): (seq<Mcu>, State, Src)
    requires ScanOk(sc, tbls) && Shaped(sc, ms) && StateOk(sc, st)
    decreases ms
  {
    if ms == [] then ([], st, s)
    else
      var (m, st1, s1) := DecMcu(sc, tbls, ms[0], st, s);
      DecMcuState(sc, tbls, ms[0], st, s);
      var (rest, st2, s2) := DecMcus(sc, tbls, ms[1..], st1, s1);
      ([m] + rest, st2, s2)
  }

  /** What the decoder's blocks must hold before the scan; DC scans work on any block, a
      sequential scan on zeroed ones. */
  ghost predicate OldOk(sc: Scan, d: Block, b: Block)
  {
    if sc.p.Ss != 0 then AcOld(d, b, sc.p) else sc.p.Se != 0 ==> Sequential.ZeroAc(d)
  }

  /** No coefficient of the scan raises JERR_BAD_DCT_COEF in the encoder. */
  ghost predicate InRange(sc: Scan, b: Block)
  {
    if sc.p.Ss != 0 then AcParams(sc.p) ==> AcInRange(b, sc.p) else sc.p.Se != 0 ==> Sequential.AcInRange(b)
  }

  /** A block after the scan. */
  function Target(sc: Scan, d: Block, b: Block): Block
    requires sc.p.Al <= 13
  {
    if sc.p.Ss != 0 then AcTarget(d, b, sc.p)
    else if sc.p.Ah != 0 then DcScan.RefineTarget(d, b, sc.p.Al)
    else if sc.p.Se != 0 then b
    else DcScan.DcTarget(d, b, sc.p.Al)
  }

  function McuTarget(sc: Scan, d: Mcu, b: Mcu): (r: Mcu)
    requires |d| == |b| && sc.p.Al <= 13
    ensures |r| == |b|
  {
    seq(|b|, i requires 0 <= i < |b| => Target(sc, d[i], b[i]))
  }

  function Targets(sc: Scan, dm: seq<Mcu>, bm: seq<Mcu>): (r: seq<Mcu>)
    requires |dm| == |bm| && sc.p.Al <= 13 && forall i :: 0 <= i < |bm| ==> |dm[i]| == |bm[i]|
    ensures |r| == |bm|
  {
    seq(|bm|, i requires 0 <= i < |bm| => McuTarget(sc, dm[i], bm[i]))
  }

  /** The blocks may be coded, and the decoder is ready for them. */
  ghost predicate Ready(sc: Scan, dm: seq<Mcu>, bm: seq<Mcu>)
  {
    && |dm| == |bm| && Shaped(sc, dm) && Shaped(sc, bm)
    && forall i, j :: 0 <= i < |bm| && 0 <= j < |sc.members| ==> OldOk(sc, dm[i][j], bm[i][j]) && InRange(sc, bm[i][j])
  }

  lemma {:induction false} DcTargetsAre(sc: Scan, d: Mcu, b: Mcu)
    requires |d| == |b| && sc.p.Ss == 0 && sc.p.Al <= 13 && (sc.p.Ah == 0 ==> sc.p.Se == 0)
    ensures (if sc.p.Ah != 0 then DcScan.RefineTargets(d, b, sc.p.Al) else DcScan.DcTargets(d, b, sc.p.Al)) == McuTarget(sc, d, b)
    decreases d
  {
    hide DcScan.DcTarget;
    hide DcScan.RefineTarget;
    if d != [] {
      DcTargetsAre(sc, d[1..], b[1..]);
      assert McuTarget(sc, d, b)[1..] == McuTarget(sc, d[1..], b[1..]);
    } else {
      assert McuTarget(sc, d, b) == [];
    }
  }

  lemma TargetsCons(sc: Scan, dm: seq<Mcu>, bm: seq<Mcu>)
    requires |dm| == |bm| && bm != [] && sc.p.Al <= 13 && forall i :: 0 <= i < |bm| ==> |dm[i]| == |bm[i]|
    ensures Targets(sc, dm, bm) == [McuTarget(sc, dm[0], bm[0])] + Targets(sc, dm[1..], bm[1..])
  {
    hide McuTarget;
  }

  lemma ReadyCons(sc: Scan, dm: seq<Mcu>, bm: seq<Mcu>)
    requires Ready(sc, dm, bm) && bm != []
    ensures |dm| == |bm| && |dm[0]| == |bm[0]| == |sc.members| && Ready(sc, dm[1..], bm[1..])
    ensures Shaped(sc, dm[1..]) && Shaped(sc, bm[1..])
    ensures forall j :: 0 <= j < |sc.members| ==> OldOk(sc, dm[0][j], bm[0][j]) && InRange(sc, bm[0][j])
  {
    hide OldOk;
    hide InRange;
  }

  lemma DecMcusCons(sc: Scan, tbls: Tables, ms: seq<Mcu>, st: State, s: Src)
    requires ScanOk(sc, tbls) && Shaped(sc, ms) && StateOk(sc, st) && ms != []
    ensures var x := DecMcu(sc, tbls, ms[0], st, s);
            StateOk(sc, x.1) && Shaped(sc, ms[1..]) &&
            var y := DecMcus(sc, tbls, ms[1..], x.1, x.2);
            DecMcus(sc, tbls, ms, st, s) == ([x.0] + y.0, y.1, y.2)
  {
    hide DecMcu;
    DecMcuState(sc, tbls, ms[0], st, s);
  }

  /** One MCU of a DC or sequential scan. */
  lemma DcMcuReads(sc: Scan, tbls: Tables, d: Mcu, b: Mcu, preds: seq<int>, e: nat, ts: seq<Token>, rest: Bits, w: nat)
    requires ScanOk(sc, tbls) && sc.p.Ss == 0 && |d| == |b| == |sc.members| && |preds| == |sc.dcTbl|
    requires forall j :: 0 <= j < |sc.members| ==> OldOk(sc, d[j], b[j]) && InRange(sc, b[j])
    requires AllWritable(tbls, DcMcuTokens(sc, b, preds) + ts)
    ensures AllWritable(tbls, ts)
    ensures DecMcu(sc, tbls, d, State(preds, e), Feed(tbls, DcMcuTokens(sc, b, preds) + ts, rest, w))
            == (McuTarget(sc, d, b), State(DcMcuPreds(sc, b, preds), e), Feed(tbls, ts, rest, w))
  {
    hide DcScan.DecFirst;
    hide DcScan.DecRefine;
    hide DcScan.FirstTokens;
    hide DcScan.RefineTokens;
    hide DcScan.Preds;
    hide Sequential.DecMcu;
    hide Sequential.McuTokens;
    hide Sequential.ZeroAc;
    hide Sequential.AcInRange;
    hide BitsOf;
    if sc.p.Ah != 0 {
      DcTargetsAre(sc, d, b);
      DcScan.RefineReads(tbls, d, b, sc.p.Al, ts, rest, w);
    } else if sc.p.Se != 0 {
      Sequential.McuReads(tbls, sc.dcTbl, sc.acTbls, sc.members, d, b, preds, ts, rest, w);
      assert McuTarget(sc, d, b) == b;
    } else {
      DcTargetsAre(sc, d, b);
      DcScan.FirstReads(tbls, sc.dcTbl, sc.members, d, b, preds, sc.p.Al, ts, rest, w);
    }
  }

  lemma {:induction false} DcSegment(sc: Scan, tbls: Tables, dm: seq<Mcu>, bm: seq<Mcu>, preds: seq<int>, e: nat, rest: Bits, w: nat)
    requires ScanOk(sc, tbls) && sc.p.Ss == 0 && sc.p.Al <= 13 && |dm| == |bm| && |preds| == |sc.dcTbl|
    requires Shaped(sc, dm) && Shaped(sc, bm) && Ready(sc, dm, bm) && StateOk(sc, State(preds, e))
    requires forall i :: 0 <= i < |sc.members| ==> sc.members[i] < |preds|
    requires AllWritable(tbls, DcTokens(sc, bm, preds))
    ensures var x := DecMcus(sc, tbls, dm, State(preds, e), Feed(tbls, DcTokens(sc, bm, preds), rest, w));
            x.0 == Targets(sc, dm, bm) && x.2 == Src(rest, false, w)
    decreases bm
  {
    if bm == [] {
      assert Targets(sc, dm, bm) == [];
      assert [] + rest == rest;
    } else {
      hide Ready;
      hide OldOk;
      hide InRange;
      hide DecMcus;
      hide DecMcu;
      hide Targets;
      hide McuTarget;
      hide BitsOf;
      hide DcMcuTokens;
      hide DcMcuPreds;
      var next := DcMcuPreds(sc, bm[0], preds);
      ReadyCons(sc, dm, bm);
      DecMcusCons(sc, tbls, dm, State(preds, e), Feed(tbls, DcTokens(sc, bm, preds), rest, w));
      DcMcuReads(sc, tbls, dm[0], bm[0], preds, e, DcTokens(sc, bm[1..], next), rest, w);
      DcSegment(sc, tbls, dm[1..], bm[1..], next, e, rest, w);
      TargetsCons(sc, dm, bm);
    }
  }

  /** For single-block MCUs, decoding MCUs is decoding their blocks. */
  lemma {:induction false} AcMcus(sc: Scan, tbls: Tables, ms: seq<Mcu>, st: State, s: Src)
    requires ScanOk(sc, tbls) && sc.p.Ss != 0 && Shaped(sc, ms) && StateOk(sc, st)
    ensures var x := DecMcus(sc, tbls, ms, st, s);
            var y := AcDecodeAll(tbls[sc.acTbl], Singles(ms), st.eobrun, sc.p, s);
            && |x.0| == |y.0| == |ms| && x.2 == y.2
            && forall i :: 0 <= i < |ms| ==> x.0[i] == [y.0[i]]
    decreases ms
  {
    if ms != [] {
      hide AcDecode;
      var (d, e, s1) := AcDecode(tbls[sc.acTbl], ms[0][0], st.eobrun, sc.p, s);
      DecMcusCons(sc, tbls, ms, st, s);
      DecodeAllCons(tbls[sc.acTbl], Singles(ms), st.eobrun, sc.p, s);
      assert Singles(ms)[1..] == Singles(ms[1..]);
      AcMcus(sc, tbls, ms[1..], st.(eobrun := e), s1);
    }
  }

  lemma AcTargetAt(ds: seq<Block>, bs: seq<Block>, p: Params, i: nat)
    requires |ds| == |bs| && p.Al <= 13 && i < |bs|
    ensures AcTargets(ds, bs, p)[i] == AcTarget(ds[i], bs[i], p)
    decreases ds
  {
    hide AcTarget;
    if i > 0 { AcTargetAt(ds[1..], bs[1..], p, i - 1); }
  }

  lemma AcReadyFrom(sc: Scan, dm: seq<Mcu>, bm: seq<Mcu>)
    requires sc.p.Ss != 0 && AcParams(sc.p) && |sc.members| == 1 && Ready(sc, dm, bm)
    ensures Shaped(sc, dm) && Shaped(sc, bm) && |dm| == |bm|
    ensures AcReady(Singles(dm), Singles(bm), sc.p)
  {
    hide AcOld;
    hide AcInRange;
    forall i | 0 <= i < |bm| ensures AcOld(Singles(dm)[i], Singles(bm)[i], sc.p) && AcInRange(Singles(bm)[i], sc.p) {
      assert OldOk(sc, dm[i][0], bm[i][0]) && InRange(sc, bm[i][0]);
    }
  }

  lemma AcSegmentMcus(sc: Scan, tbls: Tables, dm: seq<Mcu>, bm: seq<Mcu>, st: State, rest: Bits, w: nat)
    requires ScanOk(sc, tbls) && sc.p.Ss != 0 && Ready(sc, dm, bm) && st == StartState(sc)
    requires Shaped(sc, bm) && Shaped(sc, dm) && |dm| == |bm| && AllWritable(tbls, SegTokens(sc, tbls, bm))
    ensures var x := DecMcus(sc, tbls, dm, st, Feed(tbls, SegTokens(sc, tbls, bm), rest, w));
            x.0 == Targets(sc, dm, bm) && x.2 == Src(rest, false, w)
  {
    hide DecMcus;
    hide AcDecodeAll;
    hide Encoded;
    hide AcCodes;
    hide BitsOf;
    hide AcTargets;
    hide AcTarget;
    hide Ready;
    hide AcReady;
    AcReadyFrom(sc, dm, bm);
    AcSegment(tbls, sc.acTbl, Singles(dm), Singles(bm), sc.p, rest, w);
    var s := Feed(tbls, SegTokens(sc, tbls, bm), rest, w);
    AcMcus(sc, tbls, dm, st, s);
    var x := DecMcus(sc, tbls, dm, st, s);
    forall i | 0 <= i < |bm| ensures x.0[i] == Targets(sc, dm, bm)[i] {
      AcTargetAt(Singles(dm), Singles(bm), sc.p, i);
      assert McuTarget(sc, dm[i], bm[i]) == [AcTarget(dm[i][0], bm[i][0], sc.p)];
    }
  }

  /** Any scan: decoding one restart segment completes its blocks and eats all its bits. */
  lemma SegmentReads(sc: Scan, tbls: Tables, dm: seq<Mcu>, bm: seq<Mcu>, rest: Bits, w: nat)
    requires ScanOk(sc, tbls) && Ready(sc, dm, bm) && Shaped(sc, bm) && Shaped(sc, dm) && |dm| == |bm|
    requires AllWritable(tbls, SegTokens(sc, tbls, bm))
    ensures var x := DecMcus(sc, tbls, dm, StartState(sc), Feed(tbls, SegTokens(sc, tbls, bm), rest, w));
            x.0 == Targets(sc, dm, bm) && x.2 == Src(rest, false, w)
  {
    hide DecMcus;
    hide Encoded;
    hide DcTokens;
    hide BitsOf;
    hide Targets;
    hide Ready;
    if sc.p.Ss == 0 {
      DcSegment(sc, tbls, dm, bm, StartState(sc).preds, 0, rest, w);
    } else {
      AcSegmentMcus(sc, tbls, dm, bm, StartState(sc), rest, w);
    }
  }

  // ---- The MCUs of a segment as one run of blocks ----

  function AllBlocks(ms: seq<Mcu>): (bs: seq<Block>)
  {
    if ms == [] then [] else ms[0] + AllBlocks(ms[1..])
  }

  function AllMembers(members: seq<nat>, n: nat): (cis: seq<nat>)
    ensures |cis| == n * |members|
    ensures forall i :: 0 <= i < |cis| ==> cis[i] in members
  {
    if n == 0 then [] else
      assert n * |members| == |members| + (n - 1) * |members|;
      members + AllMembers(members, n - 1)
  }

  lemma BlockCount(sc: Scan, ms: seq<Mcu>)
    requires Shaped(sc, ms)
    ensures |AllBlocks(ms)| == |AllMembers(sc.members, |ms|)|
  {
    if ms != [] {
      BlockCount(sc, ms[1..]);
      assert |ms| * |sc.members| == |sc.members| + (|ms| - 1) * |sc.members|;
    }
  }

  /** The predictions run on from one MCU to the next: a segment is coded as all its blocks in a
      row, starting from predictions of zero. */
  lemma OneRun(sc: Scan, tbls: Tables, ms: seq<Mcu>)
    requires ScanOk(sc, tbls) && Shaped(sc, ms) && sc.p.Ss == 0 && sc.p.Ah == 0
    ensures var cis, bs, zeroes := AllMembers(sc.members, |ms|), AllBlocks(ms), seq(|sc.dcTbl|, i => 0);
            && |cis| == |bs| && (forall i :: 0 <= i < |cis| ==> cis[i] < |sc.dcTbl|)
            && (sc.p.Se == 0 ==> SegTokens(sc, tbls, ms) == DcScan.FirstTokens(sc.dcTbl, cis, bs, zeroes, sc.p.Al))
            && (sc.p.Se != 0 ==> SegTokens(sc, tbls, ms) == Sequential.McuTokens(sc.dcTbl, sc.acTbls, cis, bs, zeroes))
  {
    hide Encoded;
    hide DcTokens;
    BlockCount(sc, ms);
    assert StartState(sc).preds == seq(|sc.dcTbl|, i => 0);
    RunFrom(sc, tbls, ms, StartState(sc).preds);
  }

  lemma {:induction false} RunFrom(sc: Scan, tbls: Tables, ms: seq<Mcu>, preds: seq<int>)
    requires ScanOk(sc, tbls) && Shaped(sc, ms) && sc.p.Ss == 0 && sc.p.Ah == 0 && |preds| == |sc.dcTbl|
    requires |AllMembers(sc.members, |ms|)| == |AllBlocks(ms)|
    ensures var cis, bs := AllMembers(sc.members, |ms|), AllBlocks(ms);
            DcTokens(sc, ms, preds)
            == if sc.p.Se == 0 then DcScan.FirstTokens(sc.dcTbl, cis, bs, preds, sc.p.Al)
               else Sequential.McuTokens(sc.dcTbl, sc.acTbls, cis, bs, preds)
    decreases ms
  {
    hide DcScan.FirstTokens;
    hide Sequential.McuTokens;
    hide DcScan.Preds;
    if ms == [] {
      RunNone(sc, preds);
    } else {
      var c2, b2 := AllMembers(sc.members, |ms| - 1), AllBlocks(ms[1..]);
      BlockCount(sc, ms[1..]);
      RunFrom(sc, tbls, ms[1..], DcMcuPreds(sc, ms[0], preds));
      if sc.p.Se == 0 {
        DcScan.FirstConcat(sc.dcTbl, sc.members, ms[0], c2, b2, preds, sc.p.Al);
      } else {
        Sequential.McuConcat(sc.dcTbl, sc.acTbls, sc.members, ms[0], c2, b2, preds);
      }
    }
  }

  lemma RunNone(sc: Scan, preds: seq<int>)
    requires |preds| == |sc.dcTbl|
    ensures DcScan.FirstTokens(sc.dcTbl, [], [], preds, sc.p.Al) == []
    ensures |sc.acTbls| == |sc.dcTbl| ==> Sequential.McuTokens(sc.dcTbl, sc.acTbls, [], [], preds) == []
  {
  }

  // ---- Without data ----

  /** Where the data has run out, every kind of scan leaves its MCUs and its state as they are, and
      does not warn again. */
  lemma {:induction false} OutOfData(sc: Scan, tbls: Tables, ms: seq<Mcu>, st: State, w: nat)
    requires ScanOk(sc, tbls) && Shaped(sc, ms) && StateOk(sc, st)
    ensures DecMcus(sc, tbls, ms, st, Src([], true, w)) == (ms, st, Src([], true, w))
    decreases ms
  {
    if ms != [] {
      hide DecMcu;
      DecMcusCons(sc, tbls, ms, st, Src([], true, w));
      McuOutOfData(sc, tbls, ms[0], st, w);
      OutOfData(sc, tbls, ms[1..], st, w);
      assert ms == [ms[0]] + ms[1..];
    }
  }

  lemma McuOutOfData(sc: Scan, tbls: Tables, m: Mcu, st: State, w: nat)
    requires ScanOk(sc, tbls) && |m| == |sc.members| && StateOk(sc, st)
    ensures DecMcu(sc, tbls, m, st, Src([], true, w)) == (m, st, Src([], true, w))
  {
    hide DcScan.DecRefine;
    hide DcScan.DecFirst;
    hide Sequential.DecMcu;
    RefineOutOfData(m, sc.p.Al, w);
    if sc.p.Ss != 0 { assert m == [m[0]]; }
  }

  lemma {:induction false} RefineOutOfData(ds: seq<Block>, al: nat, w: nat)
    ensures DcScan.DecRefine(ds, al, Src([], true, w)) == (ds, Src([], true, w))
    decreases ds
  {
    if ds != [] {
      NothingAhead(w);
      RefineOutOfData(ds[1..], al, w);
      DcScan.DecRefineCons(ds, al, Src([], true, w));
      hide *;
      assert ds == [ds[0]] + ds[1..];
    }
  }

  lemma NothingAhead(w: nat)
    ensures var s := Src([], true, w); s.Peek(1) == 0 && s.Drop(1) == s
  {
    FromRepeat(1);
    assert Src([], true, w).Ext(1) == Repeat(false, 1);
  }
}
