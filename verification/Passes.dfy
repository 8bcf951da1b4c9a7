/** The order of passes over an image (jcmaster.c, and jpeg_finish_compress in jcapimin.c): a
    scan may take a pass for its statistics and takes one for its output. */
module Passes {
  import opened Script
  import opened Tokens
  import opened Scans
  import opened Restart
  import opened SegmentCode
  import Symbols = ScanSymbols
  import DcScan

  datatype PassType = MainPass | HuffOptPass | OutputPass

  /** What a file and the statistics see of the passes. */
  datatype Event = Statistics(scan: nat) | FrameHeader | ScanHeader(scan: nat) | ScanData(scan: nat)

  /** A DC refinement scan has no Huffman symbols. */
  predicate NeedsNoTable(s: ScanInfo) { s.Ss == 0 && s.Ah != 0 }

  /** The statistics of scan i, if it gets any. The first pass over an image that is not being
      transcoded is made whatever the scan. */
  function Gathering(scans: seq<ScanInfo>, optimize: bool, transcode: bool, i: nat): seq<Event>
    requires i < |scans|
  {
    if optimize && ((i == 0 && !transcode) || !NeedsNoTable(scans[i])) then [Statistics(i)] else []
  }

  /** The output of scan i. */
  function Sending(i: nat): seq<Event>
  {
    (if i == 0 then [FrameHeader] else []) + [ScanHeader(i), ScanData(i)]
  }

  /** The first n scans one after the other. */
  function Sent(scans: seq<ScanInfo>, optimize: bool, transcode: bool, n: nat): seq<Event>
    requires n <= |scans|
  {
    if n == 0 then [] else Sent(scans, optimize, transcode, n - 1) + Gathering(scans, optimize, transcode, n - 1) + Sending(n - 1)
  }

  /** How often an event happens. */
  function Times(log: seq<Event>, x: Event): nat { multiset(log)[x] }

  lemma TimesConcat(a: seq<Event>, b: seq<Event>, x: Event)
    ensures Times(a + b, x) == Times(a, x) + Times(b, x)
  {
  }

  /** How often a part of the file is due within the first n scans. */
  function Due(x: Event, n: nat): nat
  {
    match x
    case Statistics(_) => 0
    case FrameHeader => if n > 0 then 1 else 0
    case ScanHeader(i) => if i < n then 1 else 0
    case ScanData(i) => if i < n then 1 else 0
  }

  /** Every scan goes out once, and the frame header once. */
  lemma {:induction false} SentOnce(scans: seq<ScanInfo>, optimize: bool, transcode: bool, n: nat, x: Event)
    requires n <= |scans| && !x.Statistics?
    ensures Times(Sent(scans, optimize, transcode, n), x) == Due(x, n)
    decreases n
  {
    hide *;
    if n == 0 {
      SentNone(scans, optimize, transcode, x);
    } else {
      var a, b, c := Sent(scans, optimize, transcode, n - 1), Gathering(scans, optimize, transcode, n - 1), Sending(n - 1);
      SentNext(scans, optimize, transcode, n);
      SentOnce(scans, optimize, transcode, n - 1, x);
      GatheringHasNone(scans, optimize, transcode, n - 1, x);
      SendingHas(n - 1, x);
      TimesConcat(a, b, x);
      TimesConcat(a + b, c, x);
    }
  }

  lemma SentNone(scans: seq<ScanInfo>, optimize: bool, transcode: bool, x: Event)
    ensures Times(Sent(scans, optimize, transcode, 0), x) == Due(x, 0) == 0
  {
    assert Sent(scans, optimize, transcode, 0) == [];
  }

  lemma SentNext(scans: seq<ScanInfo>, optimize: bool, transcode: bool, n: nat)
    requires 0 < n <= |scans|
    ensures Sent(scans, optimize, transcode, n)
            == Sent(scans, optimize, transcode, n - 1) + Gathering(scans, optimize, transcode, n - 1) + Sending(n - 1)
  {
  }

  lemma GatheringHasNone(scans: seq<ScanInfo>, optimize: bool, transcode: bool, k: nat, x: Event)
    requires k < |scans| && !x.Statistics?
    ensures Times(Gathering(scans, optimize, transcode, k), x) == 0
  {
  }

  lemma SendingHas(k: nat, x: Event)
    requires !x.Statistics?
    ensures Times(Sending(k), x) + Due(x, k) == Due(x, k + 1)
  {
    if k == 0 {
      assert Sending(0) == [FrameHeader, ScanHeader(0), ScanData(0)];
    } else {
      assert Sending(k) == [ScanHeader(k), ScanData(k)];
    }
  }

  // ---- Which scans need their statistics ----

  /** x happens, and y some time after it. */
  ghost predicate Comes(log: seq<Event>, x: Event, y: Event)
  {
    exists i, j :: 0 <= i < j < |log| && log[i] == x && log[j] == y
  }

  lemma {:induction false} SentSplit(scans: seq<ScanInfo>, optimize: bool, transcode: bool, i: nat, n: nat) returns (rest: seq<Event>)
    requires i < n <= |scans|
    ensures Sent(scans, optimize, transcode, n)
            == Sent(scans, optimize, transcode, i) + Gathering(scans, optimize, transcode, i) + Sending(i) + rest
    decreases n
  {
    hide *;
    SentNext(scans, optimize, transcode, n);
    if i == n - 1 {
      rest := [];
    } else {
      var r := SentSplit(scans, optimize, transcode, i, n - 1);
      rest := r + Gathering(scans, optimize, transcode, n - 1) + Sending(n - 1);
      assert Sent(scans, optimize, transcode, n)
          == Sent(scans, optimize, transcode, i) + Gathering(scans, optimize, transcode, i) + Sending(i) + rest;
    }
  }

  lemma {:induction false} StatisticsCount(scans: seq<ScanInfo>, optimize: bool, transcode: bool, n: nat, i: nat)
    requires n <= |scans| && i < |scans|
    ensures Times(Sent(scans, optimize, transcode, n), Statistics(i)) == if i < n then |Gathering(scans, optimize, transcode, i)| else 0
    decreases n
  {
    hide *;
    if n == 0 {
      NothingSent(scans, optimize, transcode, i);
    } else {
      SentNext(scans, optimize, transcode, n);
      StatisticsCount(scans, optimize, transcode, n - 1, i);
      var a, b, c := Sent(scans, optimize, transcode, n - 1), Gathering(scans, optimize, transcode, n - 1), Sending(n - 1);
      TimesConcat(a, b, Statistics(i));
      TimesConcat(a + b, c, Statistics(i));
      StatisticsIn(scans, optimize, transcode, n - 1, i);
    }
  }

  lemma NothingSent(scans: seq<ScanInfo>, optimize: bool, transcode: bool, i: nat)
    ensures Times(Sent(scans, optimize, transcode, 0), Statistics(i)) == 0
  {
    assert Sent(scans, optimize, transcode, 0) == [];
  }

  lemma StatisticsIn(scans: seq<ScanInfo>, optimize: bool, transcode: bool, k: nat, i: nat)
    requires k < |scans| && i < |scans|
    ensures Times(Gathering(scans, optimize, transcode, k), Statistics(i)) == if k == i then |Gathering(scans, optimize, transcode, i)| else 0
    ensures Times(Sending(k), Statistics(i)) == 0
  {
    assert Statistics(i) !in Sending(k);
  }

  /** The Huffman symbols of a scan, if it has any, are among its tokens. */
  ghost predicate HasSymbol(ts: seq<Token>) { exists k :: 0 <= k < |ts| && ts[k].Sym? }

  lemma SymbolConcat(a: seq<Token>, b: seq<Token>)
    ensures HasSymbol(a + b) <==> HasSymbol(a) || HasSymbol(b)
  {
    if HasSymbol(a) {
      var k :| 0 <= k < |a| && a[k].Sym?;
      assert (a + b)[k].Sym?;
    }
    if HasSymbol(b) {
      var k :| 0 <= k < |b| && b[k].Sym?;
      assert (a + b)[|a| + k].Sym?;
    }
  }

  lemma {:induction false} RefinementHasNone(sc: Scan, ms: seq<Mcu>, preds: seq<int>)
    requires |preds| == |sc.dcTbl| && Shaped(sc, ms) && forall i :: 0 <= i < |sc.members| ==> sc.members[i] < |preds|
    requires sc.p.Se == 0 && sc.p.Ah != 0
    ensures !HasSymbol(DcTokens(sc, ms, preds))
    decreases ms
  {
    if ms != [] {
      var next := DcMcuPreds(sc, ms[0], preds);
      RefinementHasNone(sc, ms[1..], next);
      SymbolConcat(DcMcuTokens(sc, ms[0], preds), DcTokens(sc, ms[1..], next));
    }
  }

  lemma {:induction false} RawScan(sc: Scan, tbls: Tables, segs: seq<seq<Mcu>>)
    requires ScanOk(sc, tbls) && AllShaped(sc, segs) && sc.p.Ss == 0 && sc.p.Ah != 0
    ensures !HasSymbol(AllTokens(sc, tbls, segs))
    decreases segs
  {
    if segs != [] {
      hide DcTokens;
      RefinementHasNone(sc, segs[0], StartState(sc).preds);
      RawScan(sc, tbls, segs[1..]);
      SymbolConcat(SegTokens(sc, tbls, segs[0]), AllTokens(sc, tbls, segs[1..]));
    }
  }

  /** The scan that the script entry stands for. */
  predicate IsScan(sc: Scan, s: ScanInfo) { sc.p.Ss == s.Ss && sc.p.Se == s.Se && sc.p.Ah == s.Ah && sc.p.Al == s.Al }

  /** With optimize_coding, a scan among whose tokens is a Huffman symbol gets its statistics, just
      once, and before its header is written. */
  lemma StatisticsFirst(scans: seq<ScanInfo>, transcode: bool, i: nat, sc: Scan, tbls: Tables, ms: seq<Mcu>)
    requires i < |scans| && IsScan(sc, scans[i]) && ScanOk(sc, tbls) && AllShaped(sc, Segments(ms, sc.interval))
    requires HasSymbol(AllTokens(sc, tbls, Segments(ms, sc.interval)))
    ensures var log := Sent(scans, true, transcode, |scans|);
            Times(log, Statistics(i)) == 1 && Comes(log, Statistics(i), ScanHeader(i))
  {
    hide *;
    SymbolsNeedTables(sc, tbls, Segments(ms, sc.interval), scans[i]);
    GatheredOnce(scans, transcode, i);
    StatisticsCount(scans, true, transcode, |scans|, i);
    var rest := SentSplit(scans, true, transcode, i, |scans|);
    HeaderAfter(Sent(scans, true, transcode, i), i, rest);
  }

  lemma SymbolsNeedTables(sc: Scan, tbls: Tables, segs: seq<seq<Mcu>>, s: ScanInfo)
    requires IsScan(sc, s) && ScanOk(sc, tbls) && AllShaped(sc, segs) && HasSymbol(AllTokens(sc, tbls, segs))
    ensures s.Ss != 0 || s.Ah == 0
  {
    if sc.p.Ss == 0 && sc.p.Ah != 0 { RawScan(sc, tbls, segs); }
  }

  lemma GatheredOnce(scans: seq<ScanInfo>, transcode: bool, i: nat)
    requires i < |scans| && (scans[i].Ss != 0 || scans[i].Ah == 0)
    ensures Gathering(scans, true, transcode, i) == [Statistics(i)]
  {
  }

  lemma HeaderAfter(a: seq<Event>, i: nat, rest: seq<Event>)
    ensures Comes(a + [Statistics(i)] + Sending(i) + rest, Statistics(i), ScanHeader(i))
  {
    var log := a + [Statistics(i)] + Sending(i) + rest;
    assert log[|a|] == Statistics(i) && log[|a| + |Sending(i)| - 1] == ScanHeader(i);
  }

  /** A scan that has none is not gathered, unless its data is collected for the first time. */
  lemma NoStatistics(scans: seq<ScanInfo>, optimize: bool, transcode: bool, i: nat, sc: Scan, tbls: Tables, ms: seq<Mcu>)
    requires i < |scans| && IsScan(sc, scans[i]) && ScanOk(sc, tbls) && AllShaped(sc, Segments(ms, sc.interval))
    requires Symbols.Populated(sc, ms) && sc.members != []
    requires !optimize || (!HasSymbol(AllTokens(sc, tbls, Segments(ms, sc.interval))) && (i > 0 || transcode))
    ensures Times(Sent(scans, optimize, transcode, |scans|), Statistics(i)) == 0
  {
    if optimize && !(sc.p.Ss == 0 && sc.p.Ah != 0) {
      var t := if sc.p.Ss != 0 then sc.acTbl else sc.dcTbl[0];
      assert t in Symbols.UsedTables(sc) by { UsedFirst(sc, tbls); }
      Symbols.AllHas(sc, tbls, ms, t);
      assert false;
    }
    StatisticsCount(scans, optimize, transcode, |scans|, i);
  }

  lemma UsedFirst(sc: Scan, tbls: Tables)
    requires ScanOk(sc, tbls) && sc.members != [] && !(sc.p.Ss == 0 && sc.p.Ah != 0)
    ensures sc.p.Ss == 0 ==> sc.dcTbl != []
    ensures (if sc.p.Ss != 0 then sc.acTbl else sc.dcTbl[0]) in Symbols.UsedTables(sc)
  {
    assert sc.members[0] < |sc.dcTbl|;
    if sc.p.Ss != 0 { assert [sc.acTbl][0] == sc.acTbl; }
    if sc.p.Ss == 0 && sc.p.Se != 0 { assert (sc.dcTbl + sc.acTbls)[0] == sc.dcTbl[0]; }
  }

  // ---- What the file looks like ----

  /** The log without the statistics. */
  function File(log: seq<Event>): seq<Event>
  {
    if log == [] then [] else (if log[0].Statistics? then [] else [log[0]]) + File(log[1..])
  }

  lemma {:induction false} FileConcat(a: seq<Event>, b: seq<Event>)
    ensures File(a + b) == File(a) + File(b)
  {
    if a == [] {
      assert a + b == b;
    } else {
      FileConcat(a[1..], b);
      assert (a + b)[1..] == a[1..] + b;
    }
  }

  lemma FileParts(scans: seq<ScanInfo>, optimize: bool, transcode: bool, i: nat)
    requires i < |scans|
    ensures File(Gathering(scans, optimize, transcode, i)) == []
    ensures File(Sending(i)) == (if i == 0 then [FrameHeader] else []) + [ScanHeader(i), ScanData(i)]
  {
    var all := Sending(i);
    assert File([ScanHeader(i), ScanData(i)]) == [ScanHeader(i), ScanData(i)] by {
      assert [ScanHeader(i), ScanData(i)][1..] == [ScanData(i)] && [ScanData(i)][1..] == [];
    }
    FileConcat(if i == 0 then [FrameHeader] else [], [ScanHeader(i), ScanData(i)]);
    assert [FrameHeader][1..] == [] && [Statistics(i)][1..] == [];
  }

  /** The file has the frame header, then for each scan in the order of the script its header and at
      once its data. */
  lemma {:induction false} FileIs(scans: seq<ScanInfo>, optimize: bool, transcode: bool, n: nat)
    requires n <= |scans|
    ensures var file := File(Sent(scans, optimize, transcode, n));
            && (if n == 0 then file == [] else |file| == 1 + 2 * n && file[0] == FrameHeader)
            && forall i :: 0 <= i < n ==> file[1 + 2 * i] == ScanHeader(i) && file[2 + 2 * i] == ScanData(i)
    decreases n
  {
    hide File;
    hide Gathering;
    hide Sending;
    if n == 0 {
      assert File([]) == [] by { EmptyFile(); }
    } else {
      FileIs(scans, optimize, transcode, n - 1);
      FileParts(scans, optimize, transcode, n - 1);
      var a, b, c := Sent(scans, optimize, transcode, n - 1), Gathering(scans, optimize, transcode, n - 1), Sending(n - 1);
      FileConcat(a, b);
      FileConcat(a + b, c);
    }
  }

  lemma EmptyFile()
    ensures File([]) == []
  {
  }

  class Master {
    const scans: seq<ScanInfo>     // scan_info; one entry standing for the default scan if there is none
    const optimize: bool           // optimize_coding, as forced for progressive scripts
    const transcode: bool
    const totalPasses: nat
    var passType: PassType
    var passNumber: nat
    var scanNumber: nat
    var isLastPass: bool
    var callPassStartup: bool
    var selected: nat              // the scan whose parameters are in force
    var log: seq<Event>

    /** jinit_c_master_control. */
    constructor (scans: seq<ScanInfo>, optimize: bool, transcode: bool)
      requires scans != []
      ensures this.scans == scans && this.optimize == optimize && this.transcode == transcode && log == []
      ensures Between() && !isLastPass && (transcode ==> passType != MainPass) && (!transcode ==> passType == MainPass)
    {
      this.scans, this.optimize, this.transcode := scans, optimize, transcode;
      passType := if !transcode then MainPass else if optimize then HuffOptPass else OutputPass;
      totalPasses := if optimize then |scans| * 2 else |scans|;
      scanNumber, passNumber, selected := 0, 0, 0;
      isLastPass, callPassStartup := false, false;
      log := [];
    }

    /** Where the passes stand before the next one is prepared, or after the last. */
    ghost predicate Between()
      reads this
    {
      && scans != [] && totalPasses == (if optimize then 2 * |scans| else |scans|)
      && scanNumber <= |scans| && (scanNumber == |scans| ==> isLastPass) && !callPassStartup
      && match passType
         case MainPass => passNumber == scanNumber == 0 && log == [] && !transcode && !isLastPass
         case HuffOptPass => optimize && passNumber == 2 * scanNumber && log == Sent(scans, optimize, transcode, scanNumber)
                             && (isLastPass <==> scanNumber == |scans|) && (scanNumber == 0 ==> transcode)
         case OutputPass =>
           if optimize then
             && scanNumber < |scans| && passNumber == 2 * scanNumber + 1 && !isLastPass && selected == scanNumber
             && log == Sent(scans, optimize, transcode, scanNumber) + Gathering(scans, optimize, transcode, scanNumber)
           else
             && passNumber == scanNumber && log == Sent(scans, optimize, transcode, scanNumber)
             && (isLastPass <==> scanNumber == |scans|)
    }

    /** Where they stand while a pass is being made. */
    ghost predicate During()
      reads this
    {
      && scans != [] && totalPasses == (if optimize then 2 * |scans| else |scans|)
      && scanNumber < |scans| && selected == scanNumber && (isLastPass <==> passNumber == totalPasses - 1)
      && var before := Sent(scans, optimize, transcode, scanNumber);
         var gathered := Gathering(scans, optimize, transcode, scanNumber);
         match passType
         case MainPass => passNumber == scanNumber == 0 && log == [] && !transcode && callPassStartup == !optimize
         case HuffOptPass => optimize && passNumber == 2 * scanNumber && log == before && gathered != [] && !callPassStartup
         case OutputPass =>
           && passNumber == (if optimize then 2 * scanNumber + 1 else scanNumber) && !callPassStartup
           && log == before + gathered + (if scanNumber == 0 then [FrameHeader] else []) + [ScanHeader(scanNumber)]
    }

    /** select_scan_parameters. */
    method SelectScanParameters()
      modifies `selected
      ensures selected == scanNumber
    {
      selected := scanNumber;
    }

    /** prepare_for_pass. */
    method PrepareForPass()
      requires Between() && scanNumber < |scans|
      modifies this
      ensures During() && passNumber >= old(passNumber) && scanNumber == old(scanNumber)
      ensures passType == MainPass <==> old(passType) == MainPass
    {
      assert log + [] == log;
      match passType {
        case MainPass =>
          SelectScanParameters();
          callPassStartup := !optimize;
        case HuffOptPass =>
          SelectScanParameters();
          if scans[selected].Ss != 0 || scans[selected].Ah == 0 {
            callPassStartup := false;
          } else {
            passType := OutputPass;
            passNumber := passNumber + 1;
            WriteHeaders();
          }
        case OutputPass =>
          if !optimize { SelectScanParameters(); }
          WriteHeaders();
      }
      isLastPass := passNumber == totalPasses - 1;
    }

    /** The headers at the start of an output pass. */
    method WriteHeaders()
      modifies `log, `callPassStartup
      ensures log == old(log) + (if scanNumber == 0 then [FrameHeader] else []) + [ScanHeader(selected)] && !callPassStartup
    {
      if scanNumber == 0 { log := log + [FrameHeader]; }
      log := log + [ScanHeader(selected)];
      callPassStartup := false;
    }

    /** pass_startup: the headers of a single-pass file. */
    method PassStartup()
      requires During() && callPassStartup
      modifies `log, `callPassStartup
      ensures log == [FrameHeader, ScanHeader(selected)] && !callPassStartup
    {
      callPassStartup := false;
      log := log + [FrameHeader];
      log := log + [ScanHeader(selected)];
    }

    /** A pass is over: statistics or data are complete. */
    ghost predicate Ready()
      reads this
    {
      if passType == MainPass && !optimize then
        && scans != [] && totalPasses == |scans| && scanNumber == passNumber == selected == 0 && !transcode && !callPassStartup
        && (isLastPass <==> totalPasses == 1) && log == [FrameHeader, ScanHeader(0)]
      else
        During()
    }

    /** What the end of the pass will make of the log. */
    lemma ReadySent()
      requires Ready()
      ensures scanNumber < |scans| && selected == scanNumber
      ensures passType == HuffOptPass || (passType == MainPass && optimize) ==>
        log + [Statistics(selected)] == Sent(scans, optimize, transcode, scanNumber) + Gathering(scans, optimize, transcode, scanNumber)
      ensures passType == OutputPass || (passType == MainPass && !optimize) ==>
        log + [ScanData(selected)] == Sent(scans, optimize, transcode, scanNumber + 1)
    {
    }

    /** finish_pass_master. */
    method FinishPass()
      requires Ready()
      modifies this
      ensures Between() && passNumber == old(passNumber) + 1 && passType != MainPass && isLastPass == old(isLastPass)
      ensures scanNumber == |scans| ==> passNumber == totalPasses
    {
      hide Sent;
      hide Gathering;
      hide Sending;
      ReadySent();
      var i := selected;
      match passType {
        case MainPass =>
          log := log + [if optimize then Statistics(i) else ScanData(i)];
          passType := OutputPass;
          if !optimize { scanNumber := scanNumber + 1; }
        case HuffOptPass =>
          log := log + [Statistics(i)];
          passType := OutputPass;
        case OutputPass =>
          log := log + [ScanData(i)];
          if optimize { passType := HuffOptPass; }
          scanNumber := scanNumber + 1;
      }
      passNumber := passNumber + 1;
    }
  }

  /** A whole compression, from jpeg_start_compress or jpeg_write_coefficients to
      jpeg_finish_compress: every scan is sent once, in the order of the script, each after its
      own statistics, and the passes come out as many as were announced. */
  method Compress(scans: seq<ScanInfo>, optimize: bool, transcode: bool) returns (m: Master)
    requires scans != []
    ensures m.log == Sent(scans, optimize, transcode, |scans|)
    ensures m.passNumber == m.totalPasses == (if optimize then 2 * |scans| else |scans|) && m.scanNumber == |scans|
  {
    m := new Master(scans, optimize, transcode);
    if !transcode {
      m.PrepareForPass();
      if m.callPassStartup { m.PassStartup(); }
      m.FinishPass();
    }
    while !m.isLastPass
      invariant fresh(m) && m.Between() && m.scans == scans && m.optimize == optimize && m.transcode == transcode
      invariant m.passType != MainPass
      decreases m.totalPasses - m.passNumber
    {
      m.PrepareForPass();
      m.FinishPass();
    }
  }
}
