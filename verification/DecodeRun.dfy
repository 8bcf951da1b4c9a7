/** A scan as a run of MCUs with restarts, one step at a time, and what is left of a run
    when the number of warnings is ignored. */
module DecodeRun {
  import opened Bits
  import opened Bytes
  import opened BitStream
  import opened HuffTable
  import opened Tokens
  import opened Blocks
  import opened AcFirst
  import opened AcRefine
  import opened AcScan
  import opened Scans
  import opened Restart
  import opened MarkerReader
  import opened DecodeAgain
  import opened SequentialAgain
  import opened Warnings
  import opened Requests
  import opened BitReader
  import DcScan
  import Sequential

  /** The saved state, the restart counters and the input, between two MCUs. */
  datatype Position = Position(st: State, togo: nat, num: nat, inp: Input)

  /** The position from which the next MCU is decoded: after a restart if one is due. */
  function Restarted(sc: Scan, x: Position): Option<Position>
  {
    if sc.interval > 0 && x.togo == 0 then
      match ReadRestart(x.inp, x.num)
      case None => None
      case Some(inp) => Some(Position(StartState(sc), sc.interval, (x.num + 1) % 8, inp))
    else Some(x)
  }

  function OneMcu(sc: Scan, tbls: Tables, m: Mcu, x: Position): (Mcu, Position)
    requires ScanOk(sc, tbls) && |m| == |sc.members| && StateOk(sc, x.st)
  {
    var (m1, st1, s1) := DecMcu(sc, tbls, m, x.st, x.inp.src);
    (m1, Position(st1, Minus(x.togo, 1), x.num, x.inp.(src := s1)))
  }

  /** decode_mcu: a restart if one is due, and the MCU. */
  function McuStep(sc: Scan, tbls: Tables, m: Mcu, x: Position): Option<(Mcu, Position)>
    requires ScanOk(sc, tbls) && |m| == |sc.members| && StateOk(sc, x.st)
  {
    match Restarted(sc, x)
    case None => None
    case Some(y) => RestartedOk(sc, x); Some(OneMcu(sc, tbls, m, y))
  }

  lemma RestartedOk(sc: Scan, x: Position)
    requires StateOk(sc, x.st)
    ensures Restarted(sc, x).Some? ==> StateOk(sc, Restarted(sc, x).value.st)
  {
  }

  /** The same position, with dw more warnings issued on the way. */
  ghost predicate LikePos(x: Position, y: Position, dw: int)
  {
    x.st == y.st && x.togo == y.togo && x.num == y.num && x.inp.marker == y.inp.marker && x.inp.after == y.inp.after
    && Same(x.inp.src, y.inp.src, dw)
  }

  ghost predicate LikeStep(a: Option<(Mcu, Position)>, b: Option<(Mcu, Position)>, dw: int)
  {
    if a.None? || b.None? then a == b else a.value.0 == b.value.0 && LikePos(a.value.1, b.value.1, dw)
  }

  lemma LikeTrans(a: Option<(Mcu, Position)>, b: Option<(Mcu, Position)>, c: Option<(Mcu, Position)>, dw: int, more: int)
    requires LikeStep(a, b, dw) && LikeStep(b, c, more)
    ensures LikeStep(a, c, dw + more)
  {
  }

  lemma LikeStepIs(a: Option<(Mcu, Position)>, b: Option<(Mcu, Position)>, dw: int)
    requires LikeStep(a, b, dw) && a.Some?
    ensures b.Some? && a.value.0 == b.value.0 && a.value.1.inp.marker == b.value.1.inp.marker && a.value.1.inp.after == b.value.1.inp.after
    ensures LikePos(a.value.1, b.value.1, dw) && (dw == 0 ==> a == b)
  {
  }

  lemma LikeSelf(a: Option<(Mcu, Position)>)
    ensures LikeStep(a, a, 0)
  {
  }

  /** The blocks a scan ends up with. */
  function ScanBlocks(sc: Scan, tbls: Tables, ms: seq<Mcu>, x: Position): Option<seq<Mcu>>
    requires ScanOk(sc, tbls) && Shaped(sc, ms) && StateOk(sc, x.st)
  {
    match DecScan(sc, tbls, ms, x.st, x.togo, x.num, x.inp)
    case None => None
    case Some(y) => Some(y.0)
  }

  /** Where its input ends up. */
  function ScanInput(sc: Scan, tbls: Tables, ms: seq<Mcu>, x: Position): Option<Input>
    requires ScanOk(sc, tbls) && Shaped(sc, ms) && StateOk(sc, x.st)
  {
    match DecScan(sc, tbls, ms, x.st, x.togo, x.num, x.inp)
    case None => None
    case Some(y) => Some(y.1)
  }

  function PrependBlocks(front: seq<Mcu>, r: Option<seq<Mcu>>): Option<seq<Mcu>>
  {
    match r case None => None case Some(ms) => Some(front + ms)
  }

  lemma StepState(sc: Scan, tbls: Tables, m: Mcu, x: Position)
    requires ScanOk(sc, tbls) && |m| == |sc.members| && StateOk(sc, x.st)
    ensures McuStep(sc, tbls, m, x).Some? ==> StateOk(sc, McuStep(sc, tbls, m, x).value.1.st)
  {
    RestartedOk(sc, x);
    if Restarted(sc, x).Some? {
      var y := Restarted(sc, x).value;
      DecMcuState(sc, tbls, m, y.st, y.inp.src);
    }
  }

  /** The scan is its first step and the rest. */
  lemma ScanStep(sc: Scan, tbls: Tables, ms: seq<Mcu>, x: Position)
    requires ScanOk(sc, tbls) && Shaped(sc, ms) && StateOk(sc, x.st) && ms != []
    ensures |ms[0]| == |sc.members| && Shaped(sc, ms[1..])
    ensures match McuStep(sc, tbls, ms[0], x)
            case None => ScanBlocks(sc, tbls, ms, x) == None && ScanInput(sc, tbls, ms, x) == None
            case Some(y) =>
              && StateOk(sc, y.1.st) && ScanBlocks(sc, tbls, ms, x) == PrependBlocks([y.0], ScanBlocks(sc, tbls, ms[1..], y.1))
              && ScanInput(sc, tbls, ms, x) == ScanInput(sc, tbls, ms[1..], y.1)
  {
    hide DecMcu;
    hide ReadRestart;
    StepState(sc, tbls, ms[0], x);
    RestartedOk(sc, x);
    if Restarted(sc, x).Some? {
      var y := Restarted(sc, x).value;
      DecMcuState(sc, tbls, ms[0], y.st, y.inp.src);
      OneThenRest(sc, tbls, ms, y);
      assert DecScan(sc, tbls, ms, x.st, x.togo, x.num, x.inp) == DecScanMcu(sc, tbls, ms, y.st, y.togo, y.num, y.inp);
    }
  }

  lemma OneThenRest(sc: Scan, tbls: Tables, ms: seq<Mcu>, y: Position)
    requires ScanOk(sc, tbls) && Shaped(sc, ms) && StateOk(sc, y.st) && ms != []
    ensures var z := OneMcu(sc, tbls, ms[0], y);
            StateOk(sc, z.1.st) &&
            DecScanMcu(sc, tbls, ms, y.st, y.togo, y.num, y.inp)
            == Prepend([z.0], DecScan(sc, tbls, ms[1..], z.1.st, z.1.togo, z.1.num, z.1.inp))
  {
    hide DecMcu;
    hide DecScan;
    DecMcuState(sc, tbls, ms[0], y.st, y.inp.src);
  }

  // ---- Warnings make no difference ----

  lemma McuBlind(sc: Scan, tbls: Tables, m: Mcu, st: State, a: Src, b: Src, dw: int)
    requires ScanOk(sc, tbls) && |m| == |sc.members| && StateOk(sc, st) && Same(a, b, dw)
    ensures var x, y := DecMcu(sc, tbls, m, st, a), DecMcu(sc, tbls, m, st, b);
            x.0 == y.0 && x.1 == y.1 && Same(x.2, y.2, dw)
  {
    if sc.p.Ss != 0 {
      AcBlind(tbls[sc.acTbl], m[0], st.eobrun, sc.p, a, b, dw);
      hide AcDecode;
    } else {
      hide DcScan.DecRefine;
      hide DcScan.DecFirst;
      hide Sequential.DecMcu;
      if sc.p.Ah != 0 {
        RefineLength(m, sc.p.Al, a);
        DcRefineAgain(m, m, sc.p.Al, a, b, dw);
      } else if sc.p.Se != 0 {
        if !a.starved { WholeBlind(sc, tbls, m, st, a, b, dw); }
      } else if !a.starved {
        DcLength(sc, tbls, m, st, a);
        DcFirstAgain(tbls, sc.dcTbl, sc.members, m, m, st.preds, sc.p.Al, a, b, dw);
      }
    }
  }

  lemma AcPointsBlind(t: Table, b: Block, eobrun: nat, p: Params, a: Src, c: Src, dw: int)
    requires AcParams(p) && Same(a, c, dw)
    ensures SamePoints(AcPoints(t, b, eobrun, p, a), AcPoints(t, b, eobrun, p, c), dw)
  {
    hide AcDecode;
    hide RunPoints;
    hide RefRun;
    hide RefOnes;
    hide AcPoints;
    hide SamePoints;
    hide Grow;
    AcBlind(t, b, eobrun, p, a, c, dw);
    if !a.starved && p.Ah != 0 && eobrun == 0 { RefAgain(t, b, b, p.Ss, p, a, c, dw); }
    AcPointsAgain(t, b, b, eobrun, p, a, c, dw);
  }

  /** The warnings before an MCU make no difference to where it asks for data. */
  lemma PointsBlind(sc: Scan, tbls: Tables, m: Mcu, st: State, a: Src, b: Src, dw: int)
    requires ScanOk(sc, tbls) && |m| == |sc.members| && StateOk(sc, st) && Same(a, b, dw)
    ensures SamePoints(McuPoints(sc, tbls, m, st, a), McuPoints(sc, tbls, m, st, b), dw)
  {
    hide *;
    StarvedSame(a, b, dw);
    PointsOne(a, b, dw);
    if sc.p.Ss != 0 {
      AcKindIs(sc, tbls, m, st, a);
      AcKindIs(sc, tbls, m, st, b);
      AcPointsBlind(tbls[sc.acTbl], m[0], st.eobrun, sc.p, a, b, dw);
    } else {
      DcKindIs(sc, tbls, m, st, a);
      DcKindIs(sc, tbls, m, st, b);
      McuBlind(sc, tbls, m, st, a, b, dw);
      if sc.p.Ah != 0 {
        PointsTwo(a, b, DcScan.DecRefine(m, sc.p.Al, a).1, DcScan.DecRefine(m, sc.p.Al, b).1, dw);
      } else if !a.starved {
        if sc.p.Se == 0 {
          DcPointsAgain(sc, tbls, 0, a, b, dw);
        } else {
          PartlySelf(sc, tbls, m, st.preds, a);
          WholePointsAgain(sc, tbls, m, m, st.preds, a, b, 0, dw);
        }
      }
    }
  }

  lemma StarvedSame(a: Src, b: Src, dw: int)
    requires Same(a, b, dw)
    ensures a.starved == b.starved
  {
  }

  lemma PartlySelf(sc: Scan, tbls: Tables, m: Mcu, preds: seq<int>, s: Src)
    requires WholeShape(sc, tbls, m, preds)
    ensures Partly(sc, tbls, m, m, preds, s)
  {
    hide Upto;
    hide WritesAt;
    forall i | 0 <= i < |m| ensures Off(m[i], m[i], WritesAt(sc, tbls, m, preds, s, i)) {}
  }

  lemma WholeBlind(sc: Scan, tbls: Tables, m: Mcu, st: State, a: Src, b: Src, dw: int)
    requires ScanOk(sc, tbls) && sc.p.Ss == 0 && sc.p.Se != 0 && |m| == |sc.members| && StateOk(sc, st) && Same(a, b, dw) && !a.starved
    ensures var x, y := Sequential.DecMcu(tbls, sc.dcTbl, sc.acTbls, sc.members, m, st.preds, a),
                        Sequential.DecMcu(tbls, sc.dcTbl, sc.acTbls, sc.members, m, st.preds, b);
            x.0 == y.0 && x.1 == y.1 && Same(x.2, y.2, dw)
  {
    hide Sequential.DecMcu;
    hide Upto;
    hide WritesAt;
    PartlySelf(sc, tbls, m, st.preds, a);
    WholeAgain(sc, tbls, m, m, st.preds, a, b, dw);
  }

  lemma DcLength(sc: Scan, tbls: Tables, m: Mcu, st: State, s: Src)
    requires ScanOk(sc, tbls) && |m| == |sc.members| && StateOk(sc, st)
    ensures |DcScan.DecFirst(tbls, sc.dcTbl, sc.members, m, st.preds, sc.p.Al, s).0| == |m|
  {
    hide DcScan.DecFirst;
    RestRunLength(sc, tbls, m, 0, st.preds, s);
    assert sc.members[0..] == sc.members && m[0..] == m;
  }

  lemma AcBlind(t: Table, b: Block, eobrun: nat, p: Params, a: Src, c: Src, dw: int)
    requires AcParams(p) && Same(a, c, dw)
    ensures var x, y := AcDecode(t, b, eobrun, p, a), AcDecode(t, b, eobrun, p, c);
            x.0 == y.0 && x.1 == y.1 && Same(x.2, y.2, dw)
  {
    hide DecFirst;
    hide RefLoop;
    hide Corrections;
    hide Writes;
    hide RefOnes;
    hide CorrOnes;
    hide Grow;
    if a.starved {
    } else if p.Ah == 0 {
      FirstAgain(t, b, b, p.Ss, p, a, c, dw);
    } else if eobrun == 0 {
      RefAgain(t, b, b, p.Ss, p, a, c, dw);
    } else {
      CorrAgain(b, b, p.Ss, p, a, c, dw);
    }
  }

  lemma RestartBlind(a: Input, b: Input, num: nat, dw: int)
    requires a.marker == b.marker && a.after == b.after && Same(a.src, b.src, dw)
    ensures SameInput(ReadRestart(a, num), ReadRestart(b, num), dw)
  {
    hide Resync;
    hide NextMarker;
    ResyncBlind(a.marker, a.after, num, a.src.starved, a.src.warnings + 1, b.src.warnings + 1);
  }

  lemma StepBlind(sc: Scan, tbls: Tables, m: Mcu, x: Position, y: Position, dw: int)
    requires ScanOk(sc, tbls) && |m| == |sc.members| && StateOk(sc, x.st) && LikePos(x, y, dw)
    ensures LikeStep(McuStep(sc, tbls, m, x), McuStep(sc, tbls, m, y), dw)
  {
    hide DecMcu;
    hide ReadRestart;
    RestartBlind(x.inp, y.inp, x.num, dw);
    RestartedOk(sc, x);
    if Restarted(sc, x).Some? {
      var u, v := Restarted(sc, x).value, Restarted(sc, y).value;
      McuBlind(sc, tbls, m, u.st, u.inp.src, v.inp.src, dw);
    }
  }

  lemma {:induction false} ScanBlind(sc: Scan, tbls: Tables, ms: seq<Mcu>, x: Position, y: Position, dw: int)
    requires ScanOk(sc, tbls) && Shaped(sc, ms) && StateOk(sc, x.st) && LikePos(x, y, dw)
    ensures ScanBlocks(sc, tbls, ms, x) == ScanBlocks(sc, tbls, ms, y)
    ensures SameInput(ScanInput(sc, tbls, ms, x), ScanInput(sc, tbls, ms, y), dw)
    decreases ms
  {
    if ms != [] {
      ScanStep(sc, tbls, ms, x);
      ScanStep(sc, tbls, ms, y);
      StepBlind(sc, tbls, ms[0], x, y, dw);
      hide ScanBlocks;
      hide ScanInput;
      hide McuStep;
      var a, b := McuStep(sc, tbls, ms[0], x), McuStep(sc, tbls, ms[0], y);
      if a.Some? { ScanBlind(sc, tbls, ms[1..], a.value.1, b.value.1, dw); }
    }
  }

  // ---- One MCU by its kind ----

  lemma AcMcuIs(sc: Scan, tbls: Tables, m: Mcu, st: State, s: Src)
    requires ScanOk(sc, tbls) && sc.p.Ss != 0 && |m| == |sc.members| && StateOk(sc, st)
    ensures |m| == 1 && AcParams(sc.p) && sc.acTbl < |tbls|
    ensures var x := AcDecode(tbls[sc.acTbl], m[0], st.eobrun, sc.p, s);
            DecMcu(sc, tbls, m, st, s) == ([x.0], st.(eobrun := x.1), x.2)
  {
    hide AcDecode;
  }

  lemma DcMcuIs(sc: Scan, tbls: Tables, m: Mcu, st: State, s: Src)
    requires ScanOk(sc, tbls) && sc.p.Ss == 0 && |m| == |sc.members| && StateOk(sc, st)
    ensures DcShape(sc, tbls, m, st.preds)
    ensures sc.p.Ah != 0 ==>
      DecMcu(sc, tbls, m, st, s) == (DcScan.DecRefine(m, sc.p.Al, s).0, st, DcScan.DecRefine(m, sc.p.Al, s).1)
    ensures sc.p.Ah == 0 && sc.p.Se == 0 ==>
      var x := DcFirstRun(sc, tbls, m, st.preds, s);
      DecMcu(sc, tbls, m, st, s) == (x.0, st.(preds := x.1), x.2)
    ensures sc.p.Se != 0 ==>
      && sc.p.Ah == 0 && WholeShape(sc, tbls, m, st.preds)
      && var x := WholeRun(sc, tbls, m, st.preds, s);
         DecMcu(sc, tbls, m, st, s) == (x.0, st.(preds := x.1), x.2)
  {
    hide DcScan.DecRefine;
    hide DcScan.DecFirst;
    hide Sequential.DecMcu;
    assert sc.members[0..] == sc.members && m[0..] == m;
  }

  // ---- Warnings on the way ----

  /** No data for the next MCU will ever come. */
  ghost predicate Stuck(sc: Scan, x: Position)
  {
    Restarted(sc, x).None? || Restarted(sc, x).value.inp.marker == 0
  }

  /** Where the MCU asks for data once a restart that is due has been dealt with. */
  ghost function StepPoints(sc: Scan, tbls: Tables, m: Mcu, x: Position): seq<Src>
    requires ScanOk(sc, tbls) && |m| == |sc.members| && StateOk(sc, x.st)
  {
    match Restarted(sc, x)
    case None => []
    case Some(u) => RestartedOk(sc, x); McuPoints(sc, tbls, m, u.st, u.inp.src)
  }

  predicate Due(sc: Scan, x: Position) { sc.interval > 0 && x.togo == 0 }

  /** An attempt at an MCU that had to give up: how much had arrived, whether it did not get
      beyond the restart, and the warnings that it issued and that will be issued again. */
  datatype Attempt = Attempt(avail: nat, restarting: bool, issued: nat)

  /** What the data says of an attempt at the MCU that is decoded from x. At a restart it has
      warned if a marker to be skipped had arrived; otherwise it has issued the warnings up to a
      place where the MCU asks for data, the last one before the missing data or, for the sake of
      the bits buffered and the length of a code, one not far before it. */
  ghost predicate Attempted(sc: Scan, tbls: Tables, m: Mcu, x: Position, data: seq<byte>, a: Attempt)
    requires ScanOk(sc, tbls) && |m| == |sc.members| && StateOk(sc, x.st)
  {
    && a.avail <= |data|
    && if a.restarting then Due(sc, x) && a.issued == if SkipsMarker(x.inp, x.num) && Arrived(data, x.inp, a.avail) then 1 else 0
       else
         var ps := StepPoints(sc, tbls, m, x);
         |ps| > 0 && Stops(ps, ps[0].warnings + a.issued, Coming(data, a.avail))
  }

  /** The MCU asks for data after a warning: its restart has a marker to skip, or a bad code or
      an impossible coefficient size is not the last that it reads. */
  ghost predicate StepAsks(sc: Scan, tbls: Tables, m: Mcu, x: Position)
    requires ScanOk(sc, tbls) && |m| == |sc.members| && StateOk(sc, x.st)
  {
    (Due(sc, x) && SkipsMarker(x.inp, x.num)) || Asks(StepPoints(sc, tbls, m, x))
  }

  lemma StepChain(sc: Scan, tbls: Tables, m: Mcu, x: Position)
    requires ScanOk(sc, tbls) && |m| == |sc.members| && StateOk(sc, x.st) && Restarted(sc, x).Some?
    ensures var ps := StepPoints(sc, tbls, m, x);
            && Chain(ps) && ps[0] == Restarted(sc, x).value.inp.src && McuStep(sc, tbls, m, x).Some?
            && ps[|ps| - 1] == McuStep(sc, tbls, m, x).value.1.inp.src
  {
    hide DecMcu;
    hide ReadRestart;
    hide McuPoints;
    hide Chain;
    RestartedOk(sc, x);
    var u := Restarted(sc, x).value;
    McuChain(sc, tbls, m, u.st, u.inp.src);
  }

  lemma AttemptedIs(sc: Scan, tbls: Tables, m: Mcu, x: Position, data: seq<byte>, a: Attempt)
    requires ScanOk(sc, tbls) && |m| == |sc.members| && StateOk(sc, x.st) && Attempted(sc, tbls, m, x, data, a)
    ensures a.avail <= |data|
    ensures a.restarting ==> Due(sc, x) && a.issued == if SkipsMarker(x.inp, x.num) && Arrived(data, x.inp, a.avail) then 1 else 0
    ensures !a.restarting ==>
      && var ps := StepPoints(sc, tbls, m, x);
         |ps| > 0 && Chain(ps) && Stops(ps, ps[0].warnings + a.issued, Coming(data, a.avail))
  {
    if !a.restarting {
      hide Restarted;
      hide Stops;
      hide Coming;
      hide Chain;
      PointsThen(sc, tbls, m, x);
      StepChain(sc, tbls, m, x);
    }
  }

  /** An MCU that does not ask for data after a warning has none issued twice. */
  lemma NotAsked(sc: Scan, tbls: Tables, m: Mcu, x: Position, data: seq<byte>, a: Attempt)
    requires ScanOk(sc, tbls) && |m| == |sc.members| && StateOk(sc, x.st)
    requires Attempted(sc, tbls, m, x, data, a) && !StepAsks(sc, tbls, m, x)
    ensures a.issued == 0
  {
    hide *;
    AsksIs(sc, tbls, m, x);
    AttemptedIs(sc, tbls, m, x, data, a);
    if !a.restarting {
      var ps := StepPoints(sc, tbls, m, x);
      NothingRepeated(ps, ps[0].warnings + a.issued, Coming(data, a.avail));
    }
  }

  lemma AsksIs(sc: Scan, tbls: Tables, m: Mcu, x: Position)
    requires ScanOk(sc, tbls) && |m| == |sc.members| && StateOk(sc, x.st)
    ensures StepAsks(sc, tbls, m, x) <==> (Due(sc, x) && SkipsMarker(x.inp, x.num)) || Asks(StepPoints(sc, tbls, m, x))
  {
    hide StepPoints;
    hide Asks;
    hide SkipsMarker;
  }

  lemma PointsThen(sc: Scan, tbls: Tables, m: Mcu, x: Position)
    requires ScanOk(sc, tbls) && |m| == |sc.members| && StateOk(sc, x.st)
    ensures |StepPoints(sc, tbls, m, x)| > 0 <==> Restarted(sc, x).Some?
  {
    hide Restarted;
    hide McuPoints;
    RestartedOk(sc, x);
  }

  /** Where it does, an attempt that gets beyond that place does issue warnings in vain: it can
      only stop before it when what is still to come lies not far behind. */
  lemma AskedPast(sc: Scan, tbls: Tables, m: Mcu, x: Position, data: seq<byte>, a: Attempt, i: nat)
    requires ScanOk(sc, tbls) && |m| == |sc.members| && StateOk(sc, x.st)
    requires Attempted(sc, tbls, m, x, data, a) && !a.restarting && AsksAt(StepPoints(sc, tbls, m, x), i)
    requires |StepPoints(sc, tbls, m, x)[i].bits| >= MAX_AT_HAND + Coming(data, a.avail).most
    ensures a.issued >= StepPoints(sc, tbls, m, x)[i].warnings - StepPoints(sc, tbls, m, x)[0].warnings > 0
  {
    hide *;
    AttemptedIs(sc, tbls, m, x, data, a);
    var ps := StepPoints(sc, tbls, m, x);
    AsksAtIs(ps, i);
    PastRepeats(ps, ps[0].warnings + a.issued, Coming(data, a.avail), i);
  }

  /** It has issued none for places whose data had not arrived. */
  lemma NotYetAsked(sc: Scan, tbls: Tables, m: Mcu, x: Position, data: seq<byte>, a: Attempt, i: nat)
    requires ScanOk(sc, tbls) && |m| == |sc.members| && StateOk(sc, x.st)
    requires Attempted(sc, tbls, m, x, data, a) && !a.restarting && i < |StepPoints(sc, tbls, m, x)|
    requires |StepPoints(sc, tbls, m, x)[i].bits| < Coming(data, a.avail).least
    ensures i > 0 && a.issued <= StepPoints(sc, tbls, m, x)[i - 1].warnings - StepPoints(sc, tbls, m, x)[0].warnings
  {
    hide *;
    AttemptedIs(sc, tbls, m, x, data, a);
    var ps := StepPoints(sc, tbls, m, x);
    NotBeyond(ps, ps[0].warnings + a.issued, Coming(data, a.avail), i);
  }

  // ---- One attempt after another ----

  /** After an attempt the decoder is about to decode e from y instead of m from x: what later
      attempts do is the same, but for warnings issued so far. */
  ghost predicate Retries(sc: Scan, tbls: Tables, m: Mcu, x: Position, e: Mcu, y: Position, data: seq<byte>, avail: nat, issued: nat)
    requires ScanOk(sc, tbls) && |m| == |e| == |sc.members| && StateOk(sc, x.st) && StateOk(sc, y.st)
  {
    && SamePoints(StepPoints(sc, tbls, m, x), StepPoints(sc, tbls, e, y), issued)
    && (Due(sc, y) ==> Due(sc, x) && y.num == x.num && StillSkips(data, x.inp, y.inp, x.num, avail))
  }

  lemma RetriesSelf(sc: Scan, tbls: Tables, m: Mcu, x: Position, data: seq<byte>)
    requires ScanOk(sc, tbls) && |m| == |sc.members| && StateOk(sc, x.st)
    ensures Retries(sc, tbls, m, x, m, x, data, 0, 0)
  {
    hide StepPoints;
  }

  lemma RetriesTrans(sc: Scan, tbls: Tables, m: Mcu, x: Position, e: Mcu, y: Position, f: Mcu, z: Position,
                     data: seq<byte>, avail: nat, issued: nat, avail2: nat, more: nat)
    requires ScanOk(sc, tbls) && |m| == |e| == |f| == |sc.members| && StateOk(sc, x.st) && StateOk(sc, y.st) && StateOk(sc, z.st)
    requires Retries(sc, tbls, m, x, e, y, data, avail, issued) && Retries(sc, tbls, e, y, f, z, data, avail2, more)
    requires avail <= avail2
    ensures Retries(sc, tbls, m, x, f, z, data, avail2, issued + more)
  {
    hide StepPoints;
    hide SkipsMarker;
    PointsTrans(StepPoints(sc, tbls, m, x), StepPoints(sc, tbls, e, y), StepPoints(sc, tbls, f, z), issued, more);
    hide SamePoints;
  }

  /** What is true of a later attempt with what is left then is true of it with what there was. */
  lemma AttemptBefore(sc: Scan, tbls: Tables, m: Mcu, x: Position, e: Mcu, y: Position, data: seq<byte>, avail: nat, issued: nat, a: Attempt)
    requires ScanOk(sc, tbls) && |m| == |e| == |sc.members| && StateOk(sc, x.st) && StateOk(sc, y.st)
    requires Retries(sc, tbls, m, x, e, y, data, avail, issued) && avail <= a.avail && Attempted(sc, tbls, e, y, data, a)
    ensures Attempted(sc, tbls, m, x, data, a)
  {
    hide StepPoints;
    hide SkipsMarker;
    hide Stops;
    hide Coming;
    if !a.restarting {
      var ps, qs := StepPoints(sc, tbls, m, x), StepPoints(sc, tbls, e, y);
      assert Same(ps[0], qs[0], issued);
      PointsBack(ps, qs, issued);
      StopsSame(qs, ps, qs[0].warnings + a.issued, Coming(data, a.avail), 0 - issued);
    }
  }

  lemma PointsBack(ps: seq<Src>, qs: seq<Src>, dw: int)
    requires SamePoints(ps, qs, dw)
    ensures SamePoints(qs, ps, 0 - dw)
  {
  }

  /** A position with more warnings issued so far. */
  lemma LikeRetries(sc: Scan, tbls: Tables, m: Mcu, x: Position, y: Position, data: seq<byte>, issued: nat)
    requires ScanOk(sc, tbls) && |m| == |sc.members| && StateOk(sc, x.st) && StateOk(sc, y.st) && LikePos(y, x, 0 - issued)
    ensures Retries(sc, tbls, m, x, m, y, data, 0, issued)
  {
    hide ReadRestart;
    hide McuPoints;
    RestartBlind(x.inp, y.inp, x.num, issued);
    RestartedOk(sc, x);
    RestartedOk(sc, y);
    if Restarted(sc, x).Some? {
      var u, v := Restarted(sc, x).value, Restarted(sc, y).value;
      PointsBlind(sc, tbls, m, u.st, u.inp.src, v.inp.src, issued);
    }
  }

  // ---- The uninterrupted run ----

  /** Where an uninterrupted run of the scan is before MCU i. */
  ghost function RunTo(sc: Scan, tbls: Tables, ms: seq<Mcu>, x: Position, i: nat): (r: Option<Position>)
    requires ScanOk(sc, tbls) && Shaped(sc, ms) && StateOk(sc, x.st) && i <= |ms|
    ensures r.Some? ==> StateOk(sc, r.value.st)
    decreases i
  {
    if i == 0 then Some(x)
    else match RunTo(sc, tbls, ms, x, i - 1)
      case None => None
      case Some(y) =>
        StepState(sc, tbls, ms[i - 1], y);
        match McuStep(sc, tbls, ms[i - 1], y)
        case None => None
        case Some(z) => Some(z.1)
  }

  /** No MCU of it asks for data after a warning. */
  ghost predicate NeverAsks(sc: Scan, tbls: Tables, ms: seq<Mcu>, x: Position)
    requires ScanOk(sc, tbls) && Shaped(sc, ms) && StateOk(sc, x.st)
  {
    forall i :: 0 <= i < |ms| && RunTo(sc, tbls, ms, x, i).Some? ==> !StepAsks(sc, tbls, ms[i], RunTo(sc, tbls, ms, x, i).value)
  }

  lemma RestartRises(inp: Input, num: nat)
    ensures ReadRestart(inp, num).Some? ==>
      ReadRestart(inp, num).value.src.warnings >= inp.src.warnings + if SkipsMarker(inp, num) then 1 else 0
  {
    hide Resync;
    hide NextMarker;
    hide Decide;
    ResyncBlind(inp.marker, inp.after, num, inp.src.starved, inp.src.warnings + 1, inp.src.warnings + 1);
  }

  /** An MCU that adds no warning does not ask for data after one. */
  lemma StepRises(sc: Scan, tbls: Tables, m: Mcu, x: Position)
    requires ScanOk(sc, tbls) && |m| == |sc.members| && StateOk(sc, x.st) && McuStep(sc, tbls, m, x).Some?
    ensures var w := McuStep(sc, tbls, m, x).value.1.inp.src.warnings;
            w >= x.inp.src.warnings && (w == x.inp.src.warnings ==> !StepAsks(sc, tbls, m, x))
  {
    hide DecMcu;
    hide ReadRestart;
    hide StepPoints;
    hide Asks;
    hide SkipsMarker;
    RestartRises(x.inp, x.num);
    RestartedOk(sc, x);
    StepChain(sc, tbls, m, x);
    SilentAsksNot(StepPoints(sc, tbls, m, x));
    hide Chain;
  }

  lemma {:induction false} ScanRises(sc: Scan, tbls: Tables, ms: seq<Mcu>, x: Position)
    requires ScanOk(sc, tbls) && Shaped(sc, ms) && StateOk(sc, x.st) && ScanInput(sc, tbls, ms, x).Some?
    ensures ScanInput(sc, tbls, ms, x).value.src.warnings >= x.inp.src.warnings
    decreases ms
  {
    hide ScanInput;
    hide McuStep;
    hide StepAsks;
    if ms == [] {
      NoMcus(sc, tbls, x);
    } else {
      ScanStep(sc, tbls, ms, x);
      StepRises(sc, tbls, ms[0], x);
      ScanRises(sc, tbls, ms[1..], McuStep(sc, tbls, ms[0], x).value.1);
    }
  }

  /** The run to MCU i and the rest of the scan. */
  lemma {:induction false} RunFrom(sc: Scan, tbls: Tables, ms: seq<Mcu>, x: Position, i: nat)
    requires ScanOk(sc, tbls) && Shaped(sc, ms) && StateOk(sc, x.st) && ScanInput(sc, tbls, ms, x).Some? && i <= |ms|
    ensures RunTo(sc, tbls, ms, x, i).Some? && Shaped(sc, ms[i..])
    ensures var y := RunTo(sc, tbls, ms, x, i).value;
            ScanInput(sc, tbls, ms[i..], y) == ScanInput(sc, tbls, ms, x) && y.inp.src.warnings >= x.inp.src.warnings
    decreases i
  {
    hide ScanInput;
    hide McuStep;
    hide StepAsks;
    if i == 0 {
      assert ms[0..] == ms;
    } else {
      RunFrom(sc, tbls, ms, x, i - 1);
      var y := RunTo(sc, tbls, ms, x, i - 1).value;
      assert ms[i - 1..][0] == ms[i - 1] && ms[i - 1..][1..] == ms[i..];
      ScanStep(sc, tbls, ms[i - 1..], y);
      StepRises(sc, tbls, ms[i - 1], y);
    }
  }

  /** A scan whose decoding ends with no more warnings than before never asks for data after one. */
  lemma ScanSilent(sc: Scan, tbls: Tables, ms: seq<Mcu>, x: Position)
    requires ScanOk(sc, tbls) && Shaped(sc, ms) && StateOk(sc, x.st) && ScanInput(sc, tbls, ms, x).Some?
    ensures var w := ScanInput(sc, tbls, ms, x).value.src.warnings;
            w >= x.inp.src.warnings && (w == x.inp.src.warnings ==> NeverAsks(sc, tbls, ms, x))
  {
    ScanRises(sc, tbls, ms, x);
    if ScanInput(sc, tbls, ms, x).value.src.warnings == x.inp.src.warnings {
      forall i | 0 <= i < |ms| ensures RunTo(sc, tbls, ms, x, i).Some? && !StepAsks(sc, tbls, ms[i], RunTo(sc, tbls, ms, x, i).value) {
        SilentAt(sc, tbls, ms, x, i);
      }
    }
  }

  lemma SilentAt(sc: Scan, tbls: Tables, ms: seq<Mcu>, x: Position, i: nat)
    requires ScanOk(sc, tbls) && Shaped(sc, ms) && StateOk(sc, x.st) && ScanInput(sc, tbls, ms, x).Some? && i < |ms|
    requires ScanInput(sc, tbls, ms, x).value.src.warnings == x.inp.src.warnings
    ensures RunTo(sc, tbls, ms, x, i).Some? && !StepAsks(sc, tbls, ms[i], RunTo(sc, tbls, ms, x, i).value)
  {
    RunFrom(sc, tbls, ms, x, i);
    RunFrom(sc, tbls, ms, x, i + 1);
    hide ScanInput;
    hide McuStep;
    hide StepAsks;
    StepRises(sc, tbls, ms[i], RunTo(sc, tbls, ms, x, i).value);
    ScanRises(sc, tbls, ms[i + 1..], RunTo(sc, tbls, ms, x, i + 1).value);
  }

  // ---- All attempts of a scan ----

  function Issued(tries: seq<Attempt>): nat { if tries == [] then 0 else Issued(tries[..|tries| - 1]) + tries[|tries| - 1].issued }

  /** The warnings that all attempts, listed by MCU, have issued in vain. */
  function IssuedInAll(tries: seq<seq<Attempt>>): nat
  {
    if tries == [] then 0 else IssuedInAll(tries[..|tries| - 1]) + Issued(tries[|tries| - 1])
  }

  ghost predicate AllAttempted(sc: Scan, tbls: Tables, m: Mcu, x: Position, data: seq<byte>, tries: seq<Attempt>)
    requires ScanOk(sc, tbls) && |m| == |sc.members| && StateOk(sc, x.st)
  {
    forall j :: 0 <= j < |tries| ==> Attempted(sc, tbls, m, x, data, tries[j])
  }

  /** tries[i] are attempts at MCU i of the scan, as the uninterrupted run finds it. */
  ghost predicate ScanAttempted(sc: Scan, tbls: Tables, ms: seq<Mcu>, x: Position, data: seq<byte>, tries: seq<seq<Attempt>>)
    requires ScanOk(sc, tbls) && Shaped(sc, ms) && StateOk(sc, x.st)
  {
    && |tries| <= |ms|
    && forall i :: 0 <= i < |tries| ==>
         RunTo(sc, tbls, ms, x, i).Some? && AllAttempted(sc, tbls, ms[i], RunTo(sc, tbls, ms, x, i).value, data, tries[i])
  }

  lemma NoTries(sc: Scan, tbls: Tables, m: Mcu, x: Position, data: seq<byte>)
    requires ScanOk(sc, tbls) && |m| == |sc.members| && StateOk(sc, x.st)
    ensures AllAttempted(sc, tbls, m, x, data, []) && Issued([]) == 0
  {
  }

  lemma OneMoreTry(sc: Scan, tbls: Tables, m: Mcu, x: Position, data: seq<byte>, tries: seq<Attempt>, a: Attempt)
    requires ScanOk(sc, tbls) && |m| == |sc.members| && StateOk(sc, x.st)
    requires AllAttempted(sc, tbls, m, x, data, tries) && Attempted(sc, tbls, m, x, data, a)
    ensures AllAttempted(sc, tbls, m, x, data, tries + [a]) && Issued(tries + [a]) == Issued(tries) + a.issued
  {
    hide Attempted;
    assert (tries + [a])[..|tries|] == tries;
  }

  lemma {:induction false} NoneIssued(tries: seq<Attempt>)
    ensures Issued(tries) == 0 <==> forall j :: 0 <= j < |tries| ==> tries[j].issued == 0
    decreases |tries|
  {
    if tries != [] {
      var front := tries[..|tries| - 1];
      NoneIssued(front);
      assert forall j :: 0 <= j < |front| ==> front[j] == tries[j];
    }
  }

  lemma {:induction false} NoneIssuedInAll(tries: seq<seq<Attempt>>)
    ensures IssuedInAll(tries) == 0 <==> forall i :: 0 <= i < |tries| ==> Issued(tries[i]) == 0
    decreases |tries|
  {
    hide Issued;
    if tries != [] {
      var front := tries[..|tries| - 1];
      NoneIssuedInAll(front);
      assert forall i :: 0 <= i < |front| ==> front[i] == tries[i];
    }
  }

  /** The warnings of an interrupted run are those of an uninterrupted one if no MCU asks for
      data after a warning. */
  lemma NothingInVain(sc: Scan, tbls: Tables, ms: seq<Mcu>, x: Position, data: seq<byte>, tries: seq<seq<Attempt>>)
    requires ScanOk(sc, tbls) && Shaped(sc, ms) && StateOk(sc, x.st)
    requires ScanAttempted(sc, tbls, ms, x, data, tries) && NeverAsks(sc, tbls, ms, x)
    ensures IssuedInAll(tries) == 0
  {
    hide StepAsks;
    hide Attempted;
    hide Issued;
    hide RunTo;
    forall i | 0 <= i < |tries| ensures Issued(tries[i]) == 0 {
      NoneIssued(tries[i]);
      forall j | 0 <= j < |tries[i]| ensures tries[i][j].issued == 0 {
        NotAsked(sc, tbls, ms[i], RunTo(sc, tbls, ms, x, i).value, data, tries[i][j]);
      }
    }
    NoneIssuedInAll(tries);
  }

  /** They are more as soon as one attempt stops beyond such a place, or at a restart at which a
      marker to be skipped has arrived. */
  lemma SomeInVain(sc: Scan, tbls: Tables, ms: seq<Mcu>, x: Position, data: seq<byte>, tries: seq<seq<Attempt>>, i: nat, j: nat)
    requires ScanOk(sc, tbls) && Shaped(sc, ms) && StateOk(sc, x.st) && ScanAttempted(sc, tbls, ms, x, data, tries)
    requires i < |tries| && j < |tries[i]|
    requires var y, a := RunTo(sc, tbls, ms, x, i).value, tries[i][j];
             if a.restarting then SkipsMarker(y.inp, y.num) && Arrived(data, y.inp, a.avail)
             else
               var ps := StepPoints(sc, tbls, ms[i], y);
               exists k: nat :: AsksAt(ps, k) && |ps[k].bits| >= MAX_AT_HAND + Coming(data, a.avail).most
    ensures IssuedInAll(tries) > 0
  {
    hide RunTo;
    hide StepPoints;
    hide Issued;
    hide IssuedInAll;
    hide Coming;
    var y, a := RunTo(sc, tbls, ms, x, i).value, tries[i][j];
    assert Attempted(sc, tbls, ms[i], y, data, a);
    if !a.restarting {
      var ps := StepPoints(sc, tbls, ms[i], y);
      var k: nat :| AsksAt(ps, k) && |ps[k].bits| >= MAX_AT_HAND + Coming(data, a.avail).most;
      AskedPast(sc, tbls, ms[i], y, data, a, k);
    }
    NoneIssued(tries[i]);
    NoneIssuedInAll(tries);
  }

  /** A restart that had to be tried again. */
  lemma RestartRetry(sc: Scan, tbls: Tables, m: Mcu, x: Position, y: Position, data: seq<byte>, a: Attempt)
    requires ScanOk(sc, tbls) && |m| == |sc.members| && StateOk(sc, x.st) && a.avail <= |data| && a.restarting && Due(sc, x)
    requires y == x.(inp := y.inp) && SameInput(ReadRestart(y.inp, x.num), ReadRestart(x.inp, x.num), 0 - a.issued)
    requires a.issued == if SkipsMarker(x.inp, x.num) && Arrived(data, x.inp, a.avail) then 1 else 0
    requires StillSkips(data, x.inp, y.inp, x.num, a.avail)
    ensures LikeStep(McuStep(sc, tbls, m, y), McuStep(sc, tbls, m, x), 0 - a.issued)
    ensures ReadRestart(x.inp, x.num) == None ==> Stuck(sc, x)
    ensures Stuck(sc, y) <==> Stuck(sc, x)
    ensures Attempted(sc, tbls, m, x, data, a) && Retries(sc, tbls, m, x, m, y, data, a.avail, a.issued)
  {
    hide DecMcu;
    hide ReadRestart;
    hide McuPoints;
    hide SkipsMarker;
    RestartedOk(sc, x);
    RestartedOk(sc, y);
    if Restarted(sc, x).Some? {
      var u, v := Restarted(sc, x).value, Restarted(sc, y).value;
      McuBlind(sc, tbls, m, u.st, v.inp.src, u.inp.src, 0 - a.issued);
      PointsBlind(sc, tbls, m, u.st, u.inp.src, v.inp.src, a.issued);
    }
  }

  /** An MCU that had to be tried again, from e instead of m. */
  lemma DataRetry(sc: Scan, tbls: Tables, m: Mcu, e: Mcu, x: Position, u: Position, v: Position, data: seq<byte>, a: Attempt)
    requires ScanOk(sc, tbls) && |m| == |e| == |sc.members| && StateOk(sc, x.st) && Restarted(sc, x) == Some(u)
    requires StateOk(sc, u.st) && v == u.(inp := u.inp.(src := v.inp.src)) && (sc.interval > 0 ==> v.togo > 0)
    requires a.avail <= |data| && !a.restarting && v.inp.src.warnings == u.inp.src.warnings + a.issued
    requires GaveUp(McuPoints(sc, tbls, m, u.st, u.inp.src), McuPoints(sc, tbls, e, v.st, v.inp.src), Coming(data, a.avail))
    requires var a, b := DecMcu(sc, tbls, e, v.st, v.inp.src), DecMcu(sc, tbls, m, u.st, u.inp.src);
             a.0 == b.0 && a.1 == b.1 && Same(a.2, b.2, u.inp.src.warnings - v.inp.src.warnings)
    ensures LikeStep(McuStep(sc, tbls, e, v), McuStep(sc, tbls, m, x), 0 - a.issued)
    ensures u.inp.marker == 0 ==> Stuck(sc, x)
    ensures Stuck(sc, v) <==> Stuck(sc, x)
    ensures StateOk(sc, v.st) && Attempted(sc, tbls, m, x, data, a) && Retries(sc, tbls, m, x, e, v, data, a.avail, a.issued)
  {
    hide DecMcu;
    hide ReadRestart;
    hide McuPoints;
    hide Stops;
    hide Coming;
  }

  /** An MCU that was completed. */
  lemma DataDone(sc: Scan, tbls: Tables, m: Mcu, x: Position, u: Position)
    requires ScanOk(sc, tbls) && |m| == |sc.members| && StateOk(sc, x.st) && Restarted(sc, x) == Some(u) && StateOk(sc, u.st)
    ensures var (m1, st1, s1) := DecMcu(sc, tbls, m, u.st, u.inp.src);
            McuStep(sc, tbls, m, x) == Some((m1, Position(st1, Minus(u.togo, 1), u.num, u.inp.(src := s1))))
  {
    hide DecMcu;
    hide ReadRestart;
  }

  lemma RestartedIs(sc: Scan, x: Position)
    ensures Restarted(sc, x) ==
            if !(sc.interval > 0 && x.togo == 0) then Some(x)
            else match ReadRestart(x.inp, x.num)
                 case None => None
                 case Some(inp) => Some(Position(StartState(sc), sc.interval, (x.num + 1) % 8, inp))
    ensures StateOk(sc, StartState(sc))
  {
    hide ReadRestart;
  }

  // ---- Data that ends with a marker ----

  /** The data ends with a marker that no restart recovery steps over, such as EOI. */
  ghost predicate Ends(data: seq<byte>)
  {
    && |data| >= 2 && data[|data| - 2] == 0xFF && M_SOF0 <= data[|data| - 1] < 0xFF
    && !(M_RST0 <= data[|data| - 1] <= M_RST0 + 7)
  }

  /** A marker of such data, not stuffing, and what comes after it. */
  ghost predicate Sound(data: seq<byte>, marker: byte, after: seq<byte>)
  {
    && marker != 0 && |after| <= |data| && after == data[|data| - |after|..]
    && (|after| >= 2 || (after == [] && |data| > 0 && marker == data[|data| - 1]))
  }

  /** From anywhere before the closing marker, some marker is found. */
  lemma {:induction false} MarkerFound(data: seq<byte>, p: nat)
    requires Ends(data) && p + 2 <= |data|
    ensures Sound(data, NextMarker(data[p..]).marker, NextMarker(data[p..]).after)
    decreases |data| - p, 1
  {
    var s := data[p..];
    assert s[1..] == data[p + 1..];
    if s[0] != 0xFF {
      MarkerFound(data, p + 1);
    } else {
      MarkerFoundFF(data, p + 1);
    }
  }

  lemma {:induction false} MarkerFoundFF(data: seq<byte>, p: nat)
    requires Ends(data) && 0 < p < |data| && data[p - 1] == 0xFF
    ensures Sound(data, AfterFF(data[p..]).marker, AfterFF(data[p..]).after)
    decreases |data| - p, 0
  {
    var s := data[p..];
    assert s[0] == data[p] && s[1..] == data[p + 1..];
    if s[0] == 0xFF {
      MarkerFoundFF(data, p + 1);
    } else if s[0] == 0 {
      MarkerFound(data, p + 1);
    } else {
      assert data[p + 1..] == data[|data| - |data[p + 1..]|..];
    }
  }

  lemma LastLeaves(data: seq<byte>, num: nat)
    requires Ends(data) && num < 8
    ensures data[|data| - 1] != M_RST0 + num && Decide(data[|data| - 1], num) == Leave
  {
  }

  /** What is read after a marker that was not the last. */
  lemma AfterFound(data: seq<byte>, marker: byte, after: seq<byte>)
    requires Ends(data) && Sound(data, marker, after)
    ensures marker != 0 && (after == [] ==> marker == data[|data| - 1])
    ensures after != [] ==> Sound(data, NextMarker(after).marker, NextMarker(after).after)
  {
    if after != [] { MarkerFound(data, |data| - |after|); }
  }

  lemma OpenIs(bytes: seq<byte>, starved: bool, w: nat)
    ensures Open(bytes, starved, w).marker == NextMarker(bytes).marker && Open(bytes, starved, w).after == NextMarker(bytes).after
  {
  }

  lemma {:induction false} ResyncFound(data: seq<byte>, marker: byte, after: seq<byte>, num: nat, starved: bool, w: nat)
    requires Ends(data) && Sound(data, marker, after) && num < 8
    ensures var r := Resync(marker, after, num, starved, w); r.Some? && Sound(data, r.value.marker, r.value.after)
    decreases |after|
  {
    hide Sound;
    hide NextMarker;
    hide Open;
    hide Decide;
    AfterFound(data, marker, after);
    LastLeaves(data, num);
    OpenIs(after, false, w);
    if Decide(marker, num) == Advance {
      var g := NextMarker(after);
      ScanShorter(after);
      AfterFound(data, g.marker, g.after);
      ResyncFound(data, g.marker, g.after, num, starved, w);
    }
  }

  /** A restart always finds its way, and ends at a reading position again. */
  lemma RestartFound(data: seq<byte>, inp: Input, num: nat)
    requires Ends(data) && Sound(data, inp.marker, inp.after) && num < 8
    ensures var r := ReadRestart(inp, num); r.Some? && Sound(data, r.value.marker, r.value.after)
  {
    hide NextMarker;
    hide Resync;
    hide Sound;
    hide Open;
    AfterFound(data, inp.marker, inp.after);
    LastLeaves(data, num);
    OpenIs(inp.after, false, inp.src.warnings);
    ResyncFound(data, inp.marker, inp.after, num, inp.src.starved, inp.src.warnings + 1);
  }

  /** With such data the decoder is never stuck, and stays so. */
  lemma StepSound(sc: Scan, tbls: Tables, m: Mcu, x: Position, data: seq<byte>)
    requires ScanOk(sc, tbls) && |m| == |sc.members| && StateOk(sc, x.st) && x.num < 8
    requires Ends(data) && Sound(data, x.inp.marker, x.inp.after)
    ensures !Stuck(sc, x) && McuStep(sc, tbls, m, x).Some?
    ensures var y := McuStep(sc, tbls, m, x).value.1; Sound(data, y.inp.marker, y.inp.after)
  {
    hide DecMcu;
    hide ReadRestart;
    RestartFound(data, x.inp, x.num);
    RestartedOk(sc, x);
  }

  /** The first i MCUs of the scan are decoded to out, and the decoder is at x, with extra
      warnings more than an uninterrupted run would have there. */
  ghost predicate Reached(sc: Scan, tbls: Tables, ms: seq<Mcu>, i: nat, x0: Position, out: seq<Mcu>, x: Position, extra: nat)
    requires ScanOk(sc, tbls) && Shaped(sc, ms) && i <= |ms| && Shaped(sc, ms[i..]) && StateOk(sc, x0.st) && StateOk(sc, x.st)
  {
    && ScanBlocks(sc, tbls, ms, x0) == PrependBlocks(out, ScanBlocks(sc, tbls, ms[i..], x))
    && SameInput(ScanInput(sc, tbls, ms[i..], x), ScanInput(sc, tbls, ms, x0), 0 - extra)
    && RunTo(sc, tbls, ms, x0, i).Some? && LikePos(x, RunTo(sc, tbls, ms, x0, i).value, 0 - extra)
  }

  lemma ReachedRun(sc: Scan, tbls: Tables, ms: seq<Mcu>, i: nat, x0: Position, out: seq<Mcu>, x: Position, extra: nat)
    requires ScanOk(sc, tbls) && Shaped(sc, ms) && i <= |ms| && Shaped(sc, ms[i..]) && StateOk(sc, x0.st) && StateOk(sc, x.st)
    requires Reached(sc, tbls, ms, i, x0, out, x, extra)
    ensures RunTo(sc, tbls, ms, x0, i).Some? && LikePos(x, RunTo(sc, tbls, ms, x0, i).value, 0 - extra)
  {
  }

  /** One more MCU of the scan is done. */
  lemma ReachedNext(sc: Scan, tbls: Tables, ms: seq<Mcu>, i: nat, x0: Position, out: seq<Mcu>, x: Position, extra: nat,
                    m: Mcu, y: Position, more: nat)
    requires ScanOk(sc, tbls) && Shaped(sc, ms) && i < |ms| && Shaped(sc, ms[i..]) && StateOk(sc, x0.st) && StateOk(sc, x.st)
    requires Reached(sc, tbls, ms, i, x0, out, x, extra) && |ms[i]| == |sc.members|
    requires LikeStep(Some((m, y)), McuStep(sc, tbls, ms[i], x), 0 - more)
    ensures StateOk(sc, y.st) && Shaped(sc, ms[i + 1..]) && Reached(sc, tbls, ms, i + 1, x0, out + [m], y, extra + more)
  {
    assert ms[i..][0] == ms[i] && ms[i..][1..] == ms[i + 1..];
    hide ScanBlocks;
    hide ScanInput;
    hide McuStep;
    ScanStep(sc, tbls, ms[i..], x);
    var z := McuStep(sc, tbls, ms[i], x).value.1;
    ScanBlind(sc, tbls, ms[i + 1..], y, z, 0 - more);
    RunNext(sc, tbls, ms, i, x0, x, extra);
    var rest := ScanBlocks(sc, tbls, ms[i + 1..], y);
    if rest.Some? { assert out + ([m] + rest.value) == out + [m] + rest.value; }
  }

  /** The uninterrupted run keeps up with the decoder. */
  lemma RunNext(sc: Scan, tbls: Tables, ms: seq<Mcu>, i: nat, x0: Position, x: Position, extra: nat)
    requires ScanOk(sc, tbls) && Shaped(sc, ms) && i < |ms| && StateOk(sc, x0.st) && StateOk(sc, x.st)
    requires RunTo(sc, tbls, ms, x0, i).Some? && LikePos(x, RunTo(sc, tbls, ms, x0, i).value, 0 - extra)
    requires McuStep(sc, tbls, ms[i], x).Some?
    ensures RunTo(sc, tbls, ms, x0, i + 1).Some?
    ensures LikePos(McuStep(sc, tbls, ms[i], x).value.1, RunTo(sc, tbls, ms, x0, i + 1).value, 0 - extra)
  {
    hide McuStep;
    StepBlind(sc, tbls, ms[i], x, RunTo(sc, tbls, ms, x0, i).value, 0 - extra);
  }

  /** The attempts at one more MCU. */
  lemma AttemptedNext(sc: Scan, tbls: Tables, ms: seq<Mcu>, i: nat, x0: Position, x: Position, extra: nat,
                      data: seq<byte>, tries: seq<seq<Attempt>>, more: seq<Attempt>)
    requires ScanOk(sc, tbls) && Shaped(sc, ms) && i < |ms| && StateOk(sc, x0.st) && StateOk(sc, x.st)
    requires RunTo(sc, tbls, ms, x0, i).Some? && LikePos(x, RunTo(sc, tbls, ms, x0, i).value, 0 - extra)
    requires |tries| == i && ScanAttempted(sc, tbls, ms, x0, data, tries) && AllAttempted(sc, tbls, ms[i], x, data, more)
    ensures ScanAttempted(sc, tbls, ms, x0, data, tries + [more]) && IssuedInAll(tries + [more]) == IssuedInAll(tries) + Issued(more)
  {
    hide RunTo;
    hide LikePos;
    hide Attempted;
    hide Retries;
    hide Issued;
    var z := RunTo(sc, tbls, ms, x0, i).value;
    LikeRetries(sc, tbls, ms[i], z, x, data, extra);
    forall j | 0 <= j < |more| ensures Attempted(sc, tbls, ms[i], z, data, more[j]) {
      AttemptBefore(sc, tbls, ms[i], z, ms[i], x, data, 0, extra, more[j]);
    }
    assert (tries + [more])[..i] == tries;
  }

  lemma ReachedStart(sc: Scan, tbls: Tables, ms: seq<Mcu>, x0: Position, data: seq<byte>)
    requires ScanOk(sc, tbls) && Shaped(sc, ms) && StateOk(sc, x0.st)
    ensures ms[0..] == ms && Reached(sc, tbls, ms, 0, x0, [], x0, 0)
    ensures ScanAttempted(sc, tbls, ms, x0, data, []) && IssuedInAll([]) == 0
  {
    hide ScanInput;
    assert ms[0..] == ms;
    var r := ScanBlocks(sc, tbls, ms, x0);
    if r.Some? { assert [] + r.value == r.value; }
  }

  /** All of them are done. */
  lemma ReachedEnd(sc: Scan, tbls: Tables, ms: seq<Mcu>, x0: Position, out: seq<Mcu>, x: Position, extra: nat)
    requires ScanOk(sc, tbls) && Shaped(sc, ms) && Shaped(sc, ms[|ms|..]) && StateOk(sc, x0.st) && StateOk(sc, x.st)
    requires Reached(sc, tbls, ms, |ms|, x0, out, x, extra)
    ensures ScanBlocks(sc, tbls, ms, x0) == Some(out) && SameInput(Some(x.inp), ScanInput(sc, tbls, ms, x0), 0 - extra)
  {
    NoMcus(sc, tbls, x);
    assert ms[|ms|..] == [] && out + [] == out;
    hide ScanBlocks;
    hide ScanInput;
  }

  lemma NoMcus(sc: Scan, tbls: Tables, x: Position)
    requires ScanOk(sc, tbls) && StateOk(sc, x.st) && Shaped(sc, [])
    ensures ScanBlocks(sc, tbls, [], x) == Some([]) && ScanInput(sc, tbls, [], x) == Some(x.inp)
  {
  }

  lemma ShapedFrom(sc: Scan, ms: seq<Mcu>, i: nat)
    requires Shaped(sc, ms) && i <= |ms|
    ensures Shaped(sc, ms[i..]) && (i < |ms| ==> |ms[i]| == |sc.members|)
  {
  }
}
