/** Where a decode_mcu routine asks for data in the course of an MCU, and how many warnings it
    has issued by then. An attempt that has to suspend does so at one of these places; the
    warnings up to there are issued again by the attempt after it. */
module Requests {
  import opened Bits
  import opened BitStream
  import opened HuffTable
  import opened BitReader
  import opened Tokens
  import opened Blocks
  import opened AcFirst
  import opened AcRefine
  import opened AcScan
  import opened Scans
  import opened DecodeAgain
  import opened SequentialAgain
  import opened Warnings
  import DcScan
  import Sequential

  /** The places follow one another in the same segment. */
  ghost predicate Chain(ps: seq<Src>)
  {
    |ps| > 0 && forall i, j :: 0 <= i <= j < |ps| ==> Warnings.Later(ps[i], ps[j])
  }

  /** An attempt that has issued w warnings gives up between places n and n + 1, g being what is
      still to come of the segment. */
  ghost predicate StopsAt(ps: seq<Src>, n: nat, w: nat, g: Gap)
  {
    && n + 1 < |ps| && ps[n].starved == ps[0].starved && w == ps[n].warnings
    && Between(ps[n], ps[n + 1], g)
  }

  ghost predicate Stops(ps: seq<Src>, w: nat, g: Gap) { exists n: nat :: StopsAt(ps, n, w, g) }

  /** At place i, data is asked for after a warning that was not for the end of the data. */
  ghost predicate AsksAt(ps: seq<Src>, i: nat)
  {
    i + 1 < |ps| && ps[i].starved == ps[0].starved && ps[i].warnings > ps[0].warnings
  }

  ghost predicate Asks(ps: seq<Src>) { exists i: nat :: AsksAt(ps, i) }

  lemma AsksAtIs(ps: seq<Src>, i: nat)
    ensures AsksAt(ps, i) <==> i + 1 < |ps| && ps[i].starved == ps[0].starved && ps[i].warnings > ps[0].warnings
  {
  }

  /** Without such a place, an attempt that gives up has issued no warning. */
  lemma NothingRepeated(ps: seq<Src>, w: nat, g: Gap)
    requires Chain(ps) && Stops(ps, w, g) && !Asks(ps)
    ensures w == ps[0].warnings
  {
    var n: nat :| StopsAt(ps, n, w, g);
    assert !AsksAt(ps, n);
    assert Warnings.Later(ps[0], ps[n]);
  }

  /** One that gets beyond such a place has issued the warnings up to there. */
  lemma PastRepeats(ps: seq<Src>, w: nat, g: Gap, i: nat)
    requires Chain(ps) && Stops(ps, w, g) && i < |ps| && |ps[i].bits| >= MAX_AT_HAND + g.most
    ensures w >= ps[i].warnings && (AsksAt(ps, i) ==> w > ps[0].warnings)
  {
    var n: nat :| StopsAt(ps, n, w, g);
    forall j | n < j < |ps| ensures |ps[j].bits| < MAX_AT_HAND + g.most { assert Warnings.Later(ps[n + 1], ps[j]); }
    assert Warnings.Later(ps[i], ps[n]);
  }

  /** Nothing is issued for a place whose data has not arrived. */
  lemma NotBeyond(ps: seq<Src>, w: nat, g: Gap, i: nat)
    requires Chain(ps) && Stops(ps, w, g) && i < |ps| && |ps[i].bits| < g.least
    ensures i > 0 && w <= ps[i - 1].warnings
  {
    var n: nat :| StopsAt(ps, n, w, g);
    forall j | i <= j < |ps| ensures |ps[j].bits| < g.least { assert Warnings.Later(ps[i], ps[j]); }
    assert Warnings.Later(ps[n], ps[i - 1]);
  }

  /** Decoding that ends with no more warnings than it had does not ask for data after one. */
  lemma SilentAsksNot(ps: seq<Src>)
    requires Chain(ps)
    ensures ps[|ps| - 1].warnings >= ps[0].warnings
    ensures ps[|ps| - 1].warnings == ps[0].warnings ==> !Asks(ps)
  {
    assert Warnings.Later(ps[0], ps[|ps| - 1]);
    forall i: nat | i < |ps| ensures ps[i].warnings <= ps[|ps| - 1].warnings {
      assert Warnings.Later(ps[i], ps[|ps| - 1]);
    }
  }

  // ---- Putting the places together ----

  lemma ChainOne(s: Src)
    ensures Chain([s])
  {
    hide Warnings.Later;
    LaterSelf(s);
  }

  lemma ChainCons(s: Src, ps: seq<Src>)
    requires Chain(ps) && Warnings.Later(s, ps[0])
    ensures Chain([s] + ps) && ([s] + ps)[|ps|] == ps[|ps| - 1]
  {
    hide Warnings.Later;
    LaterSelf(s);
    var qs := [s] + ps;
    forall i, j | 0 <= i <= j < |qs| ensures Warnings.Later(qs[i], qs[j]) {
      if i == 0 && j > 0 { LaterTrans(s, ps[0], ps[j - 1]); }
    }
  }

  lemma ChainTwo(s: Src, t: Src)
    requires Warnings.Later(s, t)
    ensures Chain([s, t])
  {
    ChainOne(t);
    ChainCons(s, [t]);
    assert [s] + [t] == [s, t];
  }

  /** qs are the places that are still to come. */
  ghost predicate Upcoming(ps: seq<Src>, qs: seq<Src>) { 0 < |qs| <= |ps| && ps[|ps| - |qs|..] == qs }

  lemma UpcomingSelf(ps: seq<Src>)
    requires |ps| > 0
    ensures Upcoming(ps, ps)
  {
  }

  lemma UpcomingNext(ps: seq<Src>, s: Src, qs: seq<Src>)
    requires Upcoming(ps, [s] + qs) && |qs| > 0
    ensures Upcoming(ps, qs)
  {
    assert ps[|ps| - |qs|..] == ([s] + qs)[1..];
  }

  lemma UpcomingStops(ps: seq<Src>, qs: seq<Src>, w: nat, g: Gap)
    requires Upcoming(ps, qs) && qs[0].starved == ps[0].starved && Stops(qs, w, g)
    ensures Stops(ps, w, g)
  {
    var n: nat :| StopsAt(qs, n, w, g);
    var k := |ps| - |qs|;
    assert ps[k..][n] == ps[k + n] && ps[k..][n + 1] == ps[k + n + 1];
    assert StopsAt(ps, k + n, w, g);
  }

  lemma StopsHere(ps: seq<Src>, w: nat, g: Gap)
    requires |ps| > 1 && w == ps[0].warnings && Between(ps[0], ps[1], g)
    ensures Stops(ps, w, g)
  {
    assert StopsAt(ps, 0, w, g);
  }

  lemma StopsNext(s: Src, qs: seq<Src>, w: nat, g: Gap)
    requires Stops(qs, w, g) && |qs| > 0 && s.starved == qs[0].starved
    ensures Stops([s] + qs, w, g)
  {
    UpcomingSelf([s] + qs);
    UpcomingNext([s] + qs, s, qs);
    UpcomingStops([s] + qs, qs, w, g);
  }

  /** Giving up at the first of the places that are left. */
  lemma StopsAtHead(ps: seq<Src>, s: Src, qs: seq<Src>, g: Gap)
    requires Upcoming(ps, [s] + qs) && |qs| > 0 && s.starved == ps[0].starved && Between(s, qs[0], g)
    ensures Stops(ps, s.warnings, g)
  {
    hide Stops;
    StopsHere([s] + qs, s.warnings, g);
    UpcomingStops(ps, [s] + qs, s.warnings, g);
  }

  /** The places of an attempt that gave up, and of the attempt after it: the same ones, with
      more warnings. */
  ghost predicate GaveUp(ps: seq<Src>, qs: seq<Src>, g: Gap)
  {
    && |ps| == |qs| > 0 && SamePoints(ps, qs, qs[0].warnings - ps[0].warnings)
    && Stops(ps, qs[0].warnings, g)
  }

  lemma GaveUpIs(ps: seq<Src>, qs: seq<Src>, g: Gap)
    ensures GaveUp(ps, qs, g) <==>
      && |ps| == |qs| > 0 && SamePoints(ps, qs, qs[0].warnings - ps[0].warnings)
      && Stops(ps, qs[0].warnings, g)
  {
  }

  // ---- AC scans ----

  ghost function AcPoints(t: Table, d: Block, eobrun: nat, p: Params, s: Src): (r: seq<Src>)
    requires AcParams(p)
    ensures |r| > 0 && r[0] == s
  {
    if s.starved || (p.Ah == 0 && eobrun > 0) then [s]
    else if p.Ah == 0 || eobrun > 0 then [s, AcDecode(t, d, eobrun, p, s).2]
    else RunPoints(t, d, p.Ss, p, s)
  }

  lemma AcPointsIs(t: Table, d: Block, eobrun: nat, p: Params, s: Src)
    requires AcParams(p)
    ensures AcPoints(t, d, eobrun, p, s) ==
            if s.starved || (p.Ah == 0 && eobrun > 0) then [s]
            else if p.Ah == 0 || eobrun > 0 then [s, AcDecode(t, d, eobrun, p, s).2]
            else RunPoints(t, d, p.Ss, p, s)
  {
    hide AcDecode;
    hide RunPoints;
  }

  lemma BandChain(d: Block, k: nat, p: Params, s: Src)
    requires p.Se < 64
    ensures Chain(BandPoints(d, k, p, s))
    ensures BandPoints(d, k, p, s)[|BandPoints(d, k, p, s)| - 1] == Corrections(d, k, p, s).1
    ensures Warnings.Later(s, Corrections(d, k, p, s).1)
  {
    hide Warnings.Later;
    hide Chain;
    CorrLater(d, k, p, s);
    ChainOne(s);
    ChainTwo(s, Corrections(d, k, p, s).1);
    if !SomeNonzero(d, k, p) { NothingToCorrect(d, k, p, s); }
    assert [s] + [Corrections(d, k, p, s).1] == [s, Corrections(d, k, p, s).1];
    assert [s] + [] == [s];
  }

  lemma {:induction false} NothingToCorrect(d: Block, k: nat, p: Params, s: Src)
    requires p.Se < 64 && !SomeNonzero(d, k, p)
    ensures Corrections(d, k, p, s) == (d, s)
    decreases p.Se + 1 - k
  {
    if k <= p.Se { NothingToCorrect(d, k + 1, p, s); }
  }

  lemma {:induction false} RunChain(t: Table, d: Block, k: nat, p: Params, s: Src)
    requires p.Se < 64
    ensures var ps := RunPoints(t, d, k, p, s); Chain(ps) && ps[|ps| - 1] == RefRun(t, d, k, p, s).2
    decreases p.Se + 1 - k
  {
    hide *;
    if k > p.Se {
      RefRunEnd(t, d, k, p, s);
      RunPointsEnd(t, d, k, p, s);
      ChainOne(s);
    } else {
      LaterSym(t, s);
      var (sym, s1) := DecodeSym(t, s);
      RefRunMore(t, d, k, p, s, sym, s1);
      RunPointsMore(t, d, k, p, s, sym, s1);
      var r, z := sym / 16, sym % 16;
      if z == 0 && r != 15 {
        LaterDrop(s1, r);
        LaterTrans(s, s1, s1.Drop(r));
        BandChain(d, k, p, s1.Drop(r));
        ChainCons(s, BandPoints(d, k, p, s1.Drop(r)));
      } else {
        var s2 := if z > 1 then s1.Warn() else s1;
        var s3 := if z > 0 then s2.Drop(1) else s2;
        LaterSelf(s1);
        LaterDrop(s1, 1);
        LaterSelf(s2);
        LaterDrop(s2, 1);
        var (d1, k1, s4) := Skip(d, k, r, p, s3);
        SkipBounds(d, k, r, p, s3);
        SkipLater(d, k, r, p, s3);
        var d2 := if z > 0 then d1[Clamp(k1) := NewCoef(s2, p)] else d1;
        RunChain(t, d2, k1 + 1, p, s4);
        var rest := RunPoints(t, d2, k1 + 1, p, s4);
        LaterTrans(s2, s3, s4);
        LaterTrans(s, s1, s2);
        LaterTrans(s, s2, s4);
        ChainCons(s2, rest);
        ChainCons(s, if z > 0 then [s2] + rest else rest);
      }
    }
  }

  lemma AcChain(t: Table, d: Block, eobrun: nat, p: Params, s: Src)
    requires AcParams(p)
    ensures var ps := AcPoints(t, d, eobrun, p, s); Chain(ps) && ps[|ps| - 1] == AcDecode(t, d, eobrun, p, s).2
  {
    hide *;
    AcPointsIs(t, d, eobrun, p, s);
    AcLater(t, d, eobrun, p, s);
    ChainOne(s);
    ChainTwo(s, AcDecode(t, d, eobrun, p, s).2);
    AcEnds(t, d, eobrun, p, s);
    RunChain(t, d, p.Ss, p, s);
  }

  lemma AcEnds(t: Table, d: Block, eobrun: nat, p: Params, s: Src)
    requires AcParams(p)
    ensures p.Se < 64
    ensures s.starved || (p.Ah == 0 && eobrun > 0) ==> AcDecode(t, d, eobrun, p, s).2 == s
    ensures !s.starved && p.Ah != 0 && eobrun == 0 ==> AcDecode(t, d, eobrun, p, s) == RefRun(t, d, p.Ss, p, s)
  {
    hide DecFirst;
    hide RefLoop;
    hide Corrections;
  }

  // ---- DC scans ----

  ghost predicate DcTables(sc: Scan, tbls: Tables)
  {
    && (forall j :: 0 <= j < |sc.members| ==> sc.members[j] < |sc.dcTbl|)
    && (forall j :: 0 <= j < |sc.dcTbl| ==> sc.dcTbl[j] < |tbls|)
  }

  /** From block i on; a difference is taken as one request. */
  ghost function DcPoints(sc: Scan, tbls: Tables, i: nat, s: Src): (r: seq<Src>)
    requires DcTables(sc, tbls)
    ensures |r| > 0 && r[0] == s
    decreases |sc.members| - i
  {
    [s] + if i < |sc.members| then DcPoints(sc, tbls, i + 1, AfterDc(tbls[sc.dcTbl[sc.members[i]]], s)) else []
  }

  lemma DcPointsMore(sc: Scan, tbls: Tables, i: nat, s: Src)
    requires DcTables(sc, tbls) && i <= |sc.members|
    ensures i < |sc.members| ==>
      && sc.members[i] < |sc.dcTbl| && sc.dcTbl[sc.members[i]] < |tbls|
      && DcPoints(sc, tbls, i, s) == [s] + DcPoints(sc, tbls, i + 1, AfterDc(tbls[sc.dcTbl[sc.members[i]]], s))
    ensures i == |sc.members| ==> DcPoints(sc, tbls, i, s) == [s]
  {
    hide AfterDc;
  }

  lemma DcUpcoming(sc: Scan, tbls: Tables, i: nat, s: Src, points: seq<Src>)
    requires DcTables(sc, tbls) && i < |sc.members| && Upcoming(points, DcPoints(sc, tbls, i, s))
    ensures sc.members[i] < |sc.dcTbl| && sc.dcTbl[sc.members[i]] < |tbls|
    ensures Upcoming(points, DcPoints(sc, tbls, i + 1, AfterDc(tbls[sc.dcTbl[sc.members[i]]], s)))
  {
    hide *;
    DcPointsMore(sc, tbls, i, s);
    UpcomingNext(points, s, DcPoints(sc, tbls, i + 1, AfterDc(tbls[sc.dcTbl[sc.members[i]]], s)));
  }

  /** Giving up at block i. */
  lemma DcStops(sc: Scan, tbls: Tables, i: nat, s: Src, points: seq<Src>, g: Gap)
    requires DcTables(sc, tbls) && i < |sc.members| && Upcoming(points, DcPoints(sc, tbls, i, s))
    requires sc.members[i] < |sc.dcTbl| && sc.dcTbl[sc.members[i]] < |tbls| && s.starved == points[0].starved
    requires Between(s, AfterDc(tbls[sc.dcTbl[sc.members[i]]], s), g)
    ensures Stops(points, s.warnings, g)
  {
    hide *;
    DcPointsMore(sc, tbls, i, s);
    StopsAtHead(points, s, DcPoints(sc, tbls, i + 1, AfterDc(tbls[sc.dcTbl[sc.members[i]]], s)), g);
  }

  lemma {:induction false} DcChain(sc: Scan, tbls: Tables, m: Mcu, preds: seq<int>, i: nat, s: Src)
    requires DcShape(sc, tbls, m, preds) && i <= |m|
    ensures |m| == |sc.members| && DcTables(sc, tbls)
    ensures var ps := DcPoints(sc, tbls, i, s); Chain(ps) && ps[|ps| - 1] == RestRun(sc, tbls, m, i, preds, s).2
    decreases |m| - i
  {
    hide *;
    TablesIn(sc, tbls, m, preds);
    DcPointsMore(sc, tbls, i, s);
    if i == |m| {
      ChainOne(s);
      RestRunEnd(sc, tbls, m, preds, s);
    } else {
      var c := sc.members[i];
      var t := tbls[sc.dcTbl[c]];
      ShapeAt(sc, tbls, m, preds, i);
      var (z, s1) := DecodeSym(t, s);
      RestRunNext(sc, tbls, m, i, preds, s, z, s1);
      DiffAt(t, s, z, s1);
      ShapeSet(sc, tbls, m, preds, c, DiffOf(t, s) + preds[c]);
      AfterLater(t, s);
      DcChain(sc, tbls, m, preds[c := DiffOf(t, s) + preds[c]], i + 1, AfterDc(t, s));
      ChainCons(s, DcPoints(sc, tbls, i + 1, AfterDc(t, s)));
    }
  }

  lemma TablesIn(sc: Scan, tbls: Tables, m: Mcu, preds: seq<int>)
    requires DcShape(sc, tbls, m, preds)
    ensures |m| == |sc.members| && DcTables(sc, tbls)
  {
  }

  lemma DiffAt(t: Table, s: Src, z: byte, s1: Src)
    requires DecodeSym(t, s) == (z, s1)
    ensures AfterDc(t, s) == s1.Drop(z) && DiffOf(t, s) == DcScan.DiffValue(z, s1)
  {
  }

  lemma {:induction false} DcPointsAgain(sc: Scan, tbls: Tables, i: nat, a: Src, b: Src, dw: int)
    requires DcTables(sc, tbls) && i <= |sc.members| && Same(a, b, dw)
    ensures SamePoints(DcPoints(sc, tbls, i, a), DcPoints(sc, tbls, i, b), dw)
    decreases |sc.members| - i
  {
    hide *;
    DcPointsMore(sc, tbls, i, a);
    DcPointsMore(sc, tbls, i, b);
    if i < |sc.members| {
      var t := tbls[sc.dcTbl[sc.members[i]]];
      AfterSame(t, a, b, dw);
      DcPointsAgain(sc, tbls, i + 1, AfterDc(t, a), AfterDc(t, b), dw);
      PointsCons(a, b, DcPoints(sc, tbls, i + 1, AfterDc(t, a)), DcPoints(sc, tbls, i + 1, AfterDc(t, b)), dw);
    } else {
      PointsNone(dw);
      PointsCons(a, b, [], [], dw);
      assert [a] + [] == [a] && [b] + [] == [b];
    }
  }

  // ---- Sequential scans ----

  /** From block i on: its difference, and its AC coefficients. */
  ghost function WholePoints(sc: Scan, tbls: Tables, m: Mcu, preds: seq<int>, s: Src, i: nat): (r: seq<Src>)
    requires WholeShape(sc, tbls, m, preds) && i <= |m|
    ensures |r| > 0 && r[0] == Upto(sc, tbls, m, preds, s, i).1
    decreases |m| - i
  {
    var u := Upto(sc, tbls, m, preds, s, i).1;
    [u] + if i == |m| then [] else [AfterDc(DcTableAt(sc, tbls, m, preds, i), u)] + WholePoints(sc, tbls, m, preds, s, i + 1)
  }

  ghost function DcTableAt(sc: Scan, tbls: Tables, m: Mcu, preds: seq<int>, i: nat): Table
    requires WholeShape(sc, tbls, m, preds) && i < |m|
  {
    tbls[sc.dcTbl[sc.members[i]]]
  }

  lemma WholePointsMore(sc: Scan, tbls: Tables, m: Mcu, preds: seq<int>, s: Src, i: nat)
    requires WholeShape(sc, tbls, m, preds) && i < |m|
    ensures |m| == |sc.members| && sc.members[i] < |sc.dcTbl| && sc.dcTbl[sc.members[i]] < |tbls|
    ensures WholePoints(sc, tbls, m, preds, s, i) ==
            [Upto(sc, tbls, m, preds, s, i).1]
            + ([AfterDc(tbls[sc.dcTbl[sc.members[i]]], Upto(sc, tbls, m, preds, s, i).1)] + WholePoints(sc, tbls, m, preds, s, i + 1))
  {
    hide AfterDc;
    hide Upto;
  }

  lemma WholeUpcoming(sc: Scan, tbls: Tables, m: Mcu, preds: seq<int>, s: Src, i: nat, points: seq<Src>)
    requires WholeShape(sc, tbls, m, preds) && i < |m| && Upcoming(points, WholePoints(sc, tbls, m, preds, s, i))
    ensures Upcoming(points, WholePoints(sc, tbls, m, preds, s, i + 1))
  {
    hide *;
    WholePointsMore(sc, tbls, m, preds, s, i);
    var u, rest := Upto(sc, tbls, m, preds, s, i).1, WholePoints(sc, tbls, m, preds, s, i + 1);
    var a := AfterDc(tbls[sc.dcTbl[sc.members[i]]], u);
    UpcomingNext(points, u, [a] + rest);
    UpcomingNext(points, a, rest);
  }

  /** Giving up within block i. */
  lemma WholeStops(sc: Scan, tbls: Tables, m: Mcu, preds: seq<int>, s: Src, i: nat, points: seq<Src>, w: nat, g: Gap)
    requires WholeShape(sc, tbls, m, preds) && i < |m| && Upcoming(points, WholePoints(sc, tbls, m, preds, s, i))
    requires |m| == |sc.members| && sc.members[i] < |sc.dcTbl| && sc.dcTbl[sc.members[i]] < |tbls|
    requires var u := Upto(sc, tbls, m, preds, s, i).1;
             && u.starved == points[0].starved
             && Stops([u, AfterDc(tbls[sc.dcTbl[sc.members[i]]], u), Upto(sc, tbls, m, preds, s, i + 1).1], w, g)
    ensures Stops(points, w, g)
  {
    hide *;
    WholePointsMore(sc, tbls, m, preds, s, i);
    var u, rest := Upto(sc, tbls, m, preds, s, i).1, WholePoints(sc, tbls, m, preds, s, i + 1);
    StopsInBlock(points, u, AfterDc(tbls[sc.dcTbl[sc.members[i]]], u), rest, w, g);
  }

  /** Giving up within one block of a sequential MCU. */
  lemma StopsInBlock(points: seq<Src>, s: Src, a: Src, rest: seq<Src>, w: nat, g: Gap)
    requires |rest| > 0 && Upcoming(points, [s] + ([a] + rest)) && Stops([s, a, rest[0]], w, g) && s.starved == points[0].starved
    ensures Stops(points, w, g)
  {
    var ps := [s] + ([a] + rest);
    var n: nat :| StopsAt([s, a, rest[0]], n, w, g);
    assert StopsAt(ps, n, w, g);
    UpcomingStops(points, ps, w, g);
  }

  lemma WholePointsEnd(sc: Scan, tbls: Tables, m: Mcu, preds: seq<int>, s: Src)
    requires WholeShape(sc, tbls, m, preds)
    ensures WholePoints(sc, tbls, m, preds, s, |m|) == [Upto(sc, tbls, m, preds, s, |m|).1]
  {
    hide Upto;
  }

  lemma {:induction false} WholeChain(sc: Scan, tbls: Tables, m: Mcu, preds: seq<int>, s: Src, i: nat)
    requires WholeShape(sc, tbls, m, preds) && i <= |m|
    ensures var ps := WholePoints(sc, tbls, m, preds, s, i);
            Chain(ps) && ps[|ps| - 1] == Upto(sc, tbls, m, preds, s, |m|).1
    decreases |m| - i
  {
    hide *;
    var u := Upto(sc, tbls, m, preds, s, i);
    if i == |m| {
      WholePointsEnd(sc, tbls, m, preds, s);
      ChainOne(u.1);
    } else {
      WholePointsMore(sc, tbls, m, preds, s, i);
      UptoNext(sc, tbls, m, preds, s, i);
      var c := sc.members[i];
      var dct, act := tbls[sc.dcTbl[c]], tbls[sc.acTbls[c]];
      AfterLater(dct, u.1);
      BlockRest(dct, act, m[i], u.0[c], u.1);
      WholeChain(sc, tbls, m, preds, s, i + 1);
      var rest := WholePoints(sc, tbls, m, preds, s, i + 1);
      ChainCons(AfterDc(dct, u.1), rest);
      ChainCons(u.1, [AfterDc(dct, u.1)] + rest);
    }
  }

  /** The end of a block comes after its difference. */
  lemma BlockRest(dct: Table, act: Table, d: Block, pred: int, s: Src)
    ensures Warnings.Later(AfterDc(dct, s), Sequential.DecBlock(dct, act, d, pred, s).2)
  {
    hide *;
    BlockIs(dct, act, d, pred, s);
    AcCoefsLater(act, d[0 := Jcoef(DiffOf(dct, s) + pred)], 1, AfterDc(dct, s));
  }

  lemma {:induction false} WholePointsAgain(sc: Scan, tbls: Tables, m: Mcu, e: Mcu, preds: seq<int>, a: Src, b: Src, i: nat, dw: int)
    requires WholeShape(sc, tbls, m, preds) && WholeShape(sc, tbls, e, preds) && Same(a, b, dw) && i <= |m| == |e|
    requires Partly(sc, tbls, m, e, preds, a)
    ensures SamePoints(WholePoints(sc, tbls, m, preds, a, i), WholePoints(sc, tbls, e, preds, b, i), dw)
    decreases |m| - i
  {
    hide *;
    UptoAgain(sc, tbls, m, e, preds, a, b, i, dw);
    var u, v := Upto(sc, tbls, m, preds, a, i).1, Upto(sc, tbls, e, preds, b, i).1;
    PointsNone(dw);
    if i == |m| {
      WholePointsEnd(sc, tbls, m, preds, a);
      WholePointsEnd(sc, tbls, e, preds, b);
      PointsCons(u, v, [], [], dw);
      assert [u] + [] == [u] && [v] + [] == [v];
    } else {
      WholePointsMore(sc, tbls, m, preds, a, i);
      WholePointsMore(sc, tbls, e, preds, b, i);
      var t := tbls[sc.dcTbl[sc.members[i]]];
      AfterSame(t, u, v, dw);
      WholePointsAgain(sc, tbls, m, e, preds, a, b, i + 1, dw);
      PointsCons(AfterDc(t, u), AfterDc(t, v), WholePoints(sc, tbls, m, preds, a, i + 1), WholePoints(sc, tbls, e, preds, b, i + 1), dw);
      PointsCons(u, v, [AfterDc(t, u)] + WholePoints(sc, tbls, m, preds, a, i + 1),
                 [AfterDc(t, v)] + WholePoints(sc, tbls, e, preds, b, i + 1), dw);
    }
  }

  // ---- Any MCU ----

  /** The places of the MCU, whatever the scan. */
  ghost function McuPoints(sc: Scan, tbls: Tables, m: Mcu, st: State, s: Src): (r: seq<Src>)
    requires ScanOk(sc, tbls) && |m| == |sc.members| && StateOk(sc, st)
    ensures |r| > 0 && r[0] == s
  {
    if sc.p.Ss != 0 then AcPoints(tbls[sc.acTbl], m[0], st.eobrun, sc.p, s)
    else if sc.p.Ah != 0 then [s, DcScan.DecRefine(m, sc.p.Al, s).1]
    else if s.starved then [s]
    else if sc.p.Se == 0 then DcPoints(sc, tbls, 0, s)
    else WholeMcuPoints(sc, tbls, m, st.preds, s)
  }

  ghost function WholeMcuPoints(sc: Scan, tbls: Tables, m: Mcu, preds: seq<int>, s: Src): (r: seq<Src>)
    requires WholeShape(sc, tbls, m, preds)
    ensures |r| > 0 && r[0] == s
  {
    UptoStart(sc, tbls, m, preds, s);
    WholePoints(sc, tbls, m, preds, s, 0)
  }

  lemma AcKindIs(sc: Scan, tbls: Tables, m: Mcu, st: State, s: Src)
    requires ScanOk(sc, tbls) && |m| == |sc.members| && StateOk(sc, st) && sc.p.Ss != 0
    ensures AcParams(sc.p) && |m| == 1 && sc.acTbl < |tbls|
    ensures McuPoints(sc, tbls, m, st, s) == AcPoints(tbls[sc.acTbl], m[0], st.eobrun, sc.p, s)
    ensures DecMcu(sc, tbls, m, st, s).2 == AcDecode(tbls[sc.acTbl], m[0], st.eobrun, sc.p, s).2
  {
    hide AcDecode;
    hide AcPoints;
  }

  lemma DcKindIs(sc: Scan, tbls: Tables, m: Mcu, st: State, s: Src)
    requires ScanOk(sc, tbls) && |m| == |sc.members| && StateOk(sc, st) && sc.p.Ss == 0
    ensures DcShape(sc, tbls, m, st.preds) && DcTables(sc, tbls)
    ensures sc.p.Ah != 0 ==>
      && McuPoints(sc, tbls, m, st, s) == [s, DcScan.DecRefine(m, sc.p.Al, s).1]
      && DecMcu(sc, tbls, m, st, s).2 == DcScan.DecRefine(m, sc.p.Al, s).1
    ensures sc.p.Ah == 0 && s.starved ==> McuPoints(sc, tbls, m, st, s) == [s] && DecMcu(sc, tbls, m, st, s).2 == s
    ensures sc.p.Ah == 0 && !s.starved && sc.p.Se == 0 ==>
      && McuPoints(sc, tbls, m, st, s) == DcPoints(sc, tbls, 0, s)
      && DecMcu(sc, tbls, m, st, s).2 == RestRun(sc, tbls, m, 0, st.preds, s).2
    ensures sc.p.Se != 0 ==> sc.p.Ah == 0 && WholeShape(sc, tbls, m, st.preds)
    ensures !s.starved && sc.p.Se != 0 ==>
      && McuPoints(sc, tbls, m, st, s) == WholePoints(sc, tbls, m, st.preds, s, 0)
      && DecMcu(sc, tbls, m, st, s).2 == WholeRun(sc, tbls, m, st.preds, s).2
  {
    hide DcScan.DecRefine;
    hide DcScan.DecFirst;
    hide Sequential.DecMcu;
    hide DcPoints;
    hide WholePoints;
    hide Upto;
    assert sc.members[0..] == sc.members && m[0..] == m;
  }

  /** The places of an MCU follow one another, and the last is its end. */
  lemma McuChain(sc: Scan, tbls: Tables, m: Mcu, st: State, s: Src)
    requires ScanOk(sc, tbls) && |m| == |sc.members| && StateOk(sc, st)
    ensures var ps := McuPoints(sc, tbls, m, st, s); Chain(ps) && ps[|ps| - 1] == DecMcu(sc, tbls, m, st, s).2
  {
    hide *;
    ChainOne(s);
    if sc.p.Ss != 0 {
      AcKindIs(sc, tbls, m, st, s);
      AcChain(tbls[sc.acTbl], m[0], st.eobrun, sc.p, s);
    } else {
      DcKindIs(sc, tbls, m, st, s);
      if sc.p.Ah != 0 {
        DcRefineLater(m, sc.p.Al, s);
        ChainTwo(s, DcScan.DecRefine(m, sc.p.Al, s).1);
      } else if !s.starved {
        if sc.p.Se == 0 {
          DcChain(sc, tbls, m, st.preds, 0, s);
        } else {
          WholeChain(sc, tbls, m, st.preds, s, 0);
          WholeRunIs(sc, tbls, m, st.preds, s);
        }
      }
    }
  }

  // ---- The same places with other warnings ----

  lemma PointsOne(a: Src, b: Src, dw: int)
    requires Same(a, b, dw)
    ensures SamePoints([a], [b], dw)
  {
  }

  lemma PointsTwo(a: Src, b: Src, c: Src, d: Src, dw: int)
    requires Same(a, b, dw) && Same(c, d, dw)
    ensures SamePoints([a, c], [b, d], dw)
  {
  }

  lemma AcPointsAgain(t: Table, d: Block, e: Block, eobrun: nat, p: Params, a: Src, b: Src, dw: int)
    requires AcParams(p) && Same(a, b, dw)
    requires Same(AcDecode(t, d, eobrun, p, a).2, AcDecode(t, e, eobrun, p, b).2, dw)
    requires !a.starved && p.Ah != 0 && eobrun == 0 ==> p.Se < 64 && SamePoints(RunPoints(t, d, p.Ss, p, a), RunPoints(t, e, p.Ss, p, b), dw)
    ensures SamePoints(AcPoints(t, d, eobrun, p, a), AcPoints(t, e, eobrun, p, b), dw)
  {
    hide SamePoints;
    hide AcDecode;
    hide RunPoints;
    PointsOne(a, b, dw);
    PointsTwo(a, b, AcDecode(t, d, eobrun, p, a).2, AcDecode(t, e, eobrun, p, b).2, dw);
  }

  lemma PointsTrans(ps: seq<Src>, qs: seq<Src>, rs: seq<Src>, dw: int, more: int)
    requires SamePoints(ps, qs, dw) && SamePoints(qs, rs, more)
    ensures SamePoints(ps, rs, dw + more)
  {
  }

  /** Where an attempt gave up does not depend on how many warnings came before. */
  lemma StopsSame(ps: seq<Src>, qs: seq<Src>, w: nat, g: Gap, dw: int)
    requires SamePoints(ps, qs, dw) && w + dw >= 0 && Stops(ps, w, g)
    ensures Stops(qs, w + dw, g)
  {
    var n: nat :| StopsAt(ps, n, w, g);
    assert StopsAt(qs, n, w + dw, g);
  }

  // ---- Which MCUs ask for data after a warning ----

  /** No MCU of a first AC scan or of a DC refinement does, and none with a single DC coefficient:
      there a bad code is the last thing read. */
  lemma NeverAfterWarning(sc: Scan, tbls: Tables, m: Mcu, st: State, s: Src)
    requires ScanOk(sc, tbls) && |m| == |sc.members| && StateOk(sc, st)
    requires if sc.p.Ss != 0 then sc.p.Ah == 0 else sc.p.Ah != 0 || (sc.p.Se == 0 && |m| == 1)
    ensures !Asks(McuPoints(sc, tbls, m, st, s))
  {
    hide *;
    var ps := McuPoints(sc, tbls, m, st, s);
    if sc.p.Ss != 0 {
      AcKindIs(sc, tbls, m, st, s);
      AcPointsIs(tbls[sc.acTbl], m[0], st.eobrun, sc.p, s);
    } else {
      DcKindIs(sc, tbls, m, st, s);
      DcShapeSize(sc, tbls, m, st.preds);
      if sc.p.Ah == 0 && !s.starved {
        DcPointsMore(sc, tbls, 0, s);
        DcPointsMore(sc, tbls, 1, AfterDc(tbls[sc.dcTbl[sc.members[0]]], s));
      }
    }
    TwoPlaces(ps);
  }

  lemma DcShapeSize(sc: Scan, tbls: Tables, m: Mcu, preds: seq<int>)
    requires DcShape(sc, tbls, m, preds)
    ensures |m| == |sc.members|
  {
  }

  lemma TwoPlaces(ps: seq<Src>)
    requires 0 < |ps| <= 2
    ensures !Asks(ps)
  {
    forall i: nat ensures !AsksAt(ps, i) {}
  }

  /** A refinement block does as soon as a coefficient size other than 1 has been read: its sign
      bit is asked for. */
  lemma AfterBadSize(t: Table, d: Block, k: nat, p: Params, s: Src)
    requires k <= p.Se < 64 && DecodeSym(t, s).0 % 16 > 1 && !DecodeSym(t, s).1.starved
    ensures Asks(RunPoints(t, d, k, p, s))
  {
    hide DecodeSym;
    hide RunPoints;
    hide BandPoints;
    hide Skip;
    var (sym, s1) := DecodeSym(t, s);
    LaterSym(t, s);
    RunPointsMore(t, d, k, p, s, sym, s1);
    assert AsksAt(RunPoints(t, d, k, p, s), 1);
  }

  /** So does a sequential MCU after a warning in a block that is not the last. */
  lemma AfterBadBlock(sc: Scan, tbls: Tables, m: Mcu, preds: seq<int>, s: Src, i: nat)
    requires WholeShape(sc, tbls, m, preds) && i < |m|
    requires Upto(sc, tbls, m, preds, s, i).1.warnings > s.warnings && Upto(sc, tbls, m, preds, s, i).1.starved == s.starved
    ensures Asks(WholePoints(sc, tbls, m, preds, s, 0))
  {
    hide *;
    WholePlaces(sc, tbls, m, preds, s, 0, i);
    UptoStart(sc, tbls, m, preds, s);
    var ps := WholePoints(sc, tbls, m, preds, s, 0);
    AsksAtIs(ps, 2 * i);
    MakeAsks(ps, 2 * i);
  }

  lemma MakeAsks(ps: seq<Src>, i: nat)
    requires AsksAt(ps, i)
    ensures Asks(ps)
  {
  }

  /** Where the blocks of a sequential MCU are among its places. */
  lemma {:induction false} WholePlaces(sc: Scan, tbls: Tables, m: Mcu, preds: seq<int>, s: Src, from: nat, i: nat)
    requires WholeShape(sc, tbls, m, preds) && from <= i <= |m|
    ensures |WholePoints(sc, tbls, m, preds, s, from)| == 2 * (|m| - from) + 1
    ensures WholePoints(sc, tbls, m, preds, s, from)[2 * (i - from)] == Upto(sc, tbls, m, preds, s, i).1
    decreases |m| - from
  {
    hide *;
    if from == |m| {
      WholePointsEnd(sc, tbls, m, preds, s);
    } else {
      WholePointsMore(sc, tbls, m, preds, s, from);
      WholePlaces(sc, tbls, m, preds, s, from + 1, if i == from then from + 1 else i);
    }
  }
}
