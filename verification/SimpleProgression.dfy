/** jpeg_simple_progression: the recommended progressive scripts. */
module SimpleProgression {
  import opened Script

  function AScan(ci: int, Ss: int, Se: int, Ah: int, Al: int): ScanInfo
  {
    ScanInfo(1, [ci, 0, 0, 0], Ss, Se, Ah, Al)
  }

  /** Non-interleaved scans of the components from ci on. */
  function Scans(ci: nat, n: nat, Ss: int, Se: int, Ah: int, Al: int): (r: seq<ScanInfo>)
    ensures |r| == if ci < n then n - ci else 0
    decreases n - ci
  {
    if ci >= n then [] else [AScan(ci, Ss, Se, Ah, Al)] + Scans(ci + 1, n, Ss, Se, Ah, Al)
  }

  /** The DC scans: all components together while four or fewer, else apart. */
  function DcScans(n: nat, Ah: int, Al: int): (r: seq<ScanInfo>)
    ensures |r| == if n <= 4 then 1 else n
  {
    if n <= MAX_COMPS_IN_SCAN then [ScanInfo(n, seq(4, i => if i < n then i else 0), 0, 0, Ah, Al)]
    else Scans(0, n, 0, 0, Ah, Al)
  }

  /** The script for YCbCr images. */
  function YccScript(): seq<ScanInfo>
  {
    DcScans(3, 0, 1)
    + [AScan(0, 1, 5, 0, 2), AScan(2, 1, 63, 0, 1), AScan(1, 1, 63, 0, 1), AScan(0, 6, 63, 0, 2), AScan(0, 1, 63, 2, 1)]
    + DcScans(3, 1, 0)
    + [AScan(2, 1, 63, 1, 0), AScan(1, 1, 63, 1, 0), AScan(0, 1, 63, 1, 0)]
  }

  /** The script for everything else. */
  function PlainScript(n: nat): seq<ScanInfo>
  {
    DcScans(n, 0, 1) + Scans(0, n, 1, 5, 0, 2) + Scans(0, n, 6, 63, 0, 2) + Scans(0, n, 1, 63, 2, 1)
    + DcScans(n, 1, 0) + Scans(0, n, 1, 63, 1, 0)
  }

  function SimpleScript(n: nat, ycc: bool): seq<ScanInfo>
  {
    if n == 3 && ycc then YccScript() else PlainScript(n)
  }

  /** fill_a_scan. */
  method FillAScan(a: array<ScanInfo>, at: nat, ci: int, Ss: int, Se: int, Ah: int, Al: int) returns (next: nat)
    requires at < a.Length
    modifies a
    ensures next == at + 1 && a[..next] == old(a[..at]) + [AScan(ci, Ss, Se, Ah, Al)]
  {
    a[at] := ScanInfo(1, [ci, 0, 0, 0], Ss, Se, Ah, Al);
    next := at + 1;
  }

  /** fill_scans. */
  method FillScans(a: array<ScanInfo>, at: nat, ncomps: nat, Ss: int, Se: int, Ah: int, Al: int) returns (next: nat)
    requires at + ncomps <= a.Length
    modifies a
    ensures next == at + ncomps && a[..next] == old(a[..at]) + Scans(0, ncomps, Ss, Se, Ah, Al)
  {
    next := at;
    var ci := 0;
    while ci < ncomps
      invariant 0 <= ci <= ncomps && next == at + ci
      invariant a[..next] + Scans(ci, ncomps, Ss, Se, Ah, Al) == old(a[..at]) + Scans(0, ncomps, Ss, Se, Ah, Al)
    {
      ghost var before := a[..next];
      a[next] := ScanInfo(1, [ci, 0, 0, 0], Ss, Se, Ah, Al);
      next := next + 1;
      assert a[..next] == before + [AScan(ci, Ss, Se, Ah, Al)];
      AssocScans(before, [AScan(ci, Ss, Se, Ah, Al)], Scans(ci + 1, ncomps, Ss, Se, Ah, Al));
      ci := ci + 1;
    }
    assert a[..next] + [] == a[..next];
  }

  lemma AssocScans(a: seq<ScanInfo>, b: seq<ScanInfo>, c: seq<ScanInfo>)
    ensures a + b + c == a + (b + c)
  {
  }

  /** fill_dc_scans. */
  method FillDcScans(a: array<ScanInfo>, at: nat, ncomps: nat, Ah: int, Al: int) returns (next: nat)
    requires at + |DcScans(ncomps, Ah, Al)| <= a.Length
    modifies a
    ensures next == at + |DcScans(ncomps, Ah, Al)| && a[..next] == old(a[..at]) + DcScans(ncomps, Ah, Al)
  {
    if ncomps <= MAX_COMPS_IN_SCAN {
      var index := [0, 0, 0, 0];
      var ci := 0;
      while ci < ncomps
        invariant 0 <= ci <= ncomps && |index| == 4
        invariant forall i :: 0 <= i < 4 ==> index[i] == if i < ci then i else 0
      {
        index := index[ci := ci];
        ci := ci + 1;
      }
      assert index == seq(4, i => if i < ncomps then i else 0);
      a[at] := ScanInfo(ncomps, index, 0, 0, Ah, Al);
      next := at + 1;
    } else {
      next := FillScans(a, at, ncomps, 0, 0, Ah, Al);
    }
  }

  /** The number of scans allowed for. */
  function NumScans(n: nat, ycc: bool): nat
  {
    if n == 3 && ycc then 10 else if n > MAX_COMPS_IN_SCAN then 6 * n else 2 + 4 * n
  }

  /** jpeg_simple_progression: fills exactly the space it has calculated. */
  method MakeSimpleProgression(ncomps: nat, ycc: bool) returns (script: array<ScanInfo>, numScans: nat)
    ensures fresh(script) && numScans <= script.Length
    ensures script[..numScans] == SimpleScript(ncomps, ycc)
  {
    numScans := NumScans(ncomps, ycc);
    var size := if numScans < 10 then 10 else numScans;
    script := new ScanInfo[size](i => ScanInfo(0, [0, 0, 0, 0], 0, 0, 0, 0));
    if ncomps == 3 && ycc {
      FillYcc(script);
    } else {
      FillPlain(script, ncomps);
    }
    var p := |SimpleScript(ncomps, ycc)|;
    assert p == numScans;
  }

  /** The custom branch. */
  method FillYcc(script: array<ScanInfo>)
    requires script.Length >= 10
    modifies script
    ensures script[..10] == YccScript()
  {
    hide DcScans;
    DcCount(3);
    var p := FillDcScans(script, 0, 3, 0, 1);
    p := FillAScan(script, p, 0, 1, 5, 0, 2);
    p := FillAScan(script, p, 2, 1, 63, 0, 1);
    p := FillAScan(script, p, 1, 1, 63, 0, 1);
    p := FillAScan(script, p, 0, 6, 63, 0, 2);
    p := FillAScan(script, p, 0, 1, 63, 2, 1);
    assert script[..p] == DcScans(3, 0, 1)
      + [AScan(0, 1, 5, 0, 2), AScan(2, 1, 63, 0, 1), AScan(1, 1, 63, 0, 1), AScan(0, 6, 63, 0, 2), AScan(0, 1, 63, 2, 1)];
    p := FillDcScans(script, p, 3, 1, 0);
    p := FillAScan(script, p, 2, 1, 63, 1, 0);
    p := FillAScan(script, p, 1, 1, 63, 1, 0);
    p := FillAScan(script, p, 0, 1, 63, 1, 0);
  }

  lemma DcCount(n: nat)
    ensures forall Ah, Al :: |DcScans(n, Ah, Al)| == if n <= 4 then 1 else n
  {
  }

  /** The all-purpose branch. */
  method FillPlain(script: array<ScanInfo>, ncomps: nat)
    requires script.Length >= NumScans(ncomps, false)
    modifies script
    ensures script[..NumScans(ncomps, false)] == PlainScript(ncomps)
  {
    hide DcScans;
    hide Scans;
    DcCount(ncomps);
    var p := FillDcScans(script, 0, ncomps, 0, 1);
    assert script[..0] == [] && script[..p] == DcScans(ncomps, 0, 1);
    p := FillScans(script, p, ncomps, 1, 5, 0, 2);
    p := FillScans(script, p, ncomps, 6, 63, 0, 2);
    p := FillScans(script, p, ncomps, 1, 63, 2, 1);
    p := FillDcScans(script, p, ncomps, 1, 0);
    p := FillScans(script, p, ncomps, 1, 63, 1, 0);
  }

  // ---- The scripts are valid and complete ----

  /** What remains of a script behaves the same after both. */
  ghost predicate Leads(script: seq<ScanInfo>, last: BitPos, rest: seq<ScanInfo>, next: BitPos)
  {
    && Rows(last, |last|) && Rows(next, |next|)
    && (AcceptsAll(rest, next) ==> AcceptsAll(script, last) && Final(script, last) == Final(rest, next))
  }

  lemma LeadsOn(s1: seq<ScanInfo>, l1: BitPos, s2: seq<ScanInfo>, l2: BitPos, s3: seq<ScanInfo>, l3: BitPos)
    requires Leads(s1, l1, s2, l2) && Leads(s2, l2, s3, l3)
    ensures Leads(s1, l1, s3, l3)
  {
  }

  /** A scan of one component moves that component's row on. */
  lemma OneScan(s: ScanInfo, c: nat, last: BitPos, rest: seq<ScanInfo>)
    requires s.compsInScan == 1 && s.componentIndex[0] == c < |last| && Rows(last, |last|)
    requires ProgOk(s) && RowOk(s, last[c])
    ensures Leads([s] + rest, last, rest, last[c := RowAfter(s, last[c])])
  {
    hide RowAfter;
    hide RowOk;
    assert ([s] + rest)[0] == s && ([s] + rest)[1..] == rest;
    assert InScan(s, c);
    assert forall c' :: c' != c ==> !InScan(s, c');
    assert After(s, last) == last[c := RowAfter(s, last[c])];
  }

  /** Components below ci already have the new row. */
  function Mixed(n: nat, ci: nat, done: seq<int>, todo: seq<int>): BitPos
  {
    seq(n, c => if c < ci then done else todo)
  }

  function Same(n: nat, row: seq<int>): BitPos { seq(n, c => row) }

  /** One scan for each component moves all rows on. */
  lemma {:induction false} ScansLead(n: nat, ci: nat, Ss: int, Se: int, Ah: int, Al: int, row: seq<int>, rest: seq<ScanInfo>)
    requires ci <= n && |row| == DCTSIZE2 && ProgOk(AScan(0, Ss, Se, Ah, Al)) && RowOk(AScan(0, Ss, Se, Ah, Al), row)
    ensures var next := RowAfter(AScan(0, Ss, Se, Ah, Al), row);
            Leads(Scans(ci, n, Ss, Se, Ah, Al) + rest, Mixed(n, ci, next, row), rest, Same(n, next))
    decreases n - ci
  {
    var next := RowAfter(AScan(0, Ss, Se, Ah, Al), row);
    if ci == n {
      assert Scans(ci, n, Ss, Se, Ah, Al) + rest == rest;
      assert Mixed(n, ci, next, row) == Same(n, next);
    } else {
      var s := AScan(ci, Ss, Se, Ah, Al);
      var more := Scans(ci + 1, n, Ss, Se, Ah, Al) + rest;
      assert Scans(ci, n, Ss, Se, Ah, Al) + rest == [s] + more;
      SameRow(s, AScan(0, Ss, Se, Ah, Al), row);
      OneScan(s, ci, Mixed(n, ci, next, row), more);
      assert Mixed(n, ci, next, row)[ci := next] == Mixed(n, ci + 1, next, row);
      ScansLead(n, ci + 1, Ss, Se, Ah, Al, row, rest);
      hide *;
      LeadsOn(Scans(ci, n, Ss, Se, Ah, Al) + rest, Mixed(n, ci, next, row), more, Mixed(n, ci + 1, next, row), rest, Same(n, next));
    }
  }

  /** Which component is sent does not matter to the row. */
  lemma SameRow(s: ScanInfo, t: ScanInfo, row: seq<int>)
    requires |row| == DCTSIZE2 && s.Ss == t.Ss && s.Se == t.Se && s.Ah == t.Ah && s.Al == t.Al && s.compsInScan == t.compsInScan
    ensures ProgOk(s) == ProgOk(t) && RowOk(s, row) == RowOk(t, row) && RowAfter(s, row) == RowAfter(t, row)
  {
    assert forall x :: CoefOk(s, x) == CoefOk(t, x);
  }

  lemma AllScansLead(n: nat, Ss: int, Se: int, Ah: int, Al: int, row: seq<int>, rest: seq<ScanInfo>)
    requires |row| == DCTSIZE2 && ProgOk(AScan(0, Ss, Se, Ah, Al)) && RowOk(AScan(0, Ss, Se, Ah, Al), row)
    ensures Leads(Scans(0, n, Ss, Se, Ah, Al) + rest, Same(n, row), rest, Same(n, RowAfter(AScan(0, Ss, Se, Ah, Al), row)))
  {
    ScansLead(n, 0, Ss, Se, Ah, Al, row, rest);
    assert Mixed(n, 0, RowAfter(AScan(0, Ss, Se, Ah, Al), row), row) == Same(n, row);
  }

  lemma DcScansLead(n: nat, Ah: int, Al: int, row: seq<int>, rest: seq<ScanInfo>)
    requires n > 0 && |row| == DCTSIZE2 && ProgOk(AScan(0, 0, 0, Ah, Al)) && RowOk(AScan(0, 0, 0, Ah, Al), row)
    ensures Leads(DcScans(n, Ah, Al) + rest, Same(n, row), rest, Same(n, RowAfter(AScan(0, 0, 0, Ah, Al), row)))
  {
    if n <= MAX_COMPS_IN_SCAN {
      var s := DcScans(n, Ah, Al)[0];
      var script := DcScans(n, Ah, Al) + rest;
      assert script[0] == s && script[1..] == rest;
      var next := RowAfter(AScan(0, 0, 0, Ah, Al), row);
      assert forall x :: CoefOk(s, x) == CoefOk(AScan(0, 0, 0, Ah, Al), x);
      assert RowOk(s, row) && RowAfter(s, row) == next;
      forall c | 0 <= c < n ensures InScan(s, c) { assert s.componentIndex[c] == c; }
      hide RowAfter;
      assert After(s, Same(n, row)) == Same(n, next);
    } else {
      AllScansLead(n, 0, 0, Ah, Al, row, rest);
    }
  }

  /** The row after each stage of the all-purpose script. */
  function Stage(dc: int, low: int, high: int): (r: seq<int>)
    ensures |r| == DCTSIZE2
  {
    seq(DCTSIZE2, k => if k == 0 then dc else if k <= 5 then low else high)
  }

  lemma StageAfter(ci: int, Ss: int, Se: int, Ah: int, Al: int, dc: int, low: int, high: int)
    ensures RowAfter(AScan(ci, 0, 0, Ah, Al), Stage(dc, low, high)) == Stage(Al, low, high)
    ensures RowAfter(AScan(ci, 1, 5, Ah, Al), Stage(dc, low, high)) == Stage(dc, Al, high)
    ensures RowAfter(AScan(ci, 6, 63, Ah, Al), Stage(dc, low, high)) == Stage(dc, low, Al)
    ensures RowAfter(AScan(ci, 1, 63, Ah, Al), Stage(dc, low, high)) == Stage(dc, Al, Al)
  {
  }

  lemma PlainScriptValid(n: nat)
    requires n > 0
    ensures AcceptsAll(PlainScript(n), Same(n, Stage(-1, -1, -1)))
    ensures Final(PlainScript(n), Same(n, Stage(-1, -1, -1))) == Same(n, Stage(0, 0, 0))
  {
    var a, b, c, d, e, f := DcScans(n, 0, 1), Scans(0, n, 1, 5, 0, 2), Scans(0, n, 6, 63, 0, 2),
                            Scans(0, n, 1, 63, 2, 1), DcScans(n, 1, 0), Scans(0, n, 1, 63, 1, 0);
    var s5 := f + [];
    var s4 := e + s5;
    var s3 := d + s4;
    var s2 := c + s3;
    var s1 := b + s2;
    assert PlainScript(n) == a + s1 by { FiveAssoc(a, b, c, d, e, f); }
    DcScansLead(n, 0, 1, Stage(-1, -1, -1), s1);
    StageAfter(0, 0, 0, 0, 1, -1, -1, -1);
    AllScansLead(n, 1, 5, 0, 2, Stage(1, -1, -1), s2);
    StageAfter(0, 0, 0, 0, 2, 1, -1, -1);
    AllScansLead(n, 6, 63, 0, 2, Stage(1, 2, -1), s3);
    StageAfter(0, 0, 0, 0, 2, 1, 2, -1);
    AllScansLead(n, 1, 63, 2, 1, Stage(1, 2, 2), s4);
    StageAfter(0, 0, 0, 2, 1, 1, 2, 2);
    DcScansLead(n, 1, 0, Stage(1, 1, 1), s5);
    StageAfter(0, 0, 0, 1, 0, 1, 1, 1);
    AllScansLead(n, 1, 63, 1, 0, Stage(0, 1, 1), []);
    StageAfter(0, 0, 0, 1, 0, 0, 1, 1);
  }

  lemma FiveAssoc(a: seq<ScanInfo>, b: seq<ScanInfo>, c: seq<ScanInfo>, d: seq<ScanInfo>, e: seq<ScanInfo>, f: seq<ScanInfo>)
    ensures a + b + c + d + e + f == a + (b + (c + (d + (e + (f + [])))))
  {
  }

  /** A scan of component ci that moves its row from one stage to the next. */
  ghost predicate Moves(ci: int, Ss: int, Se: int, Ah: int, Al: int, row: seq<int>, next: seq<int>)
  {
    && |row| == DCTSIZE2 && ProgOk(AScan(ci, Ss, Se, Ah, Al)) && RowOk(AScan(ci, Ss, Se, Ah, Al), row)
    && RowAfter(AScan(ci, Ss, Se, Ah, Al), row) == next
  }

  lemma YccMoves()
    ensures Moves(0, 1, 5, 0, 2, Stage(1, -1, -1), Stage(1, 2, -1))
    ensures Moves(2, 1, 63, 0, 1, Stage(1, -1, -1), Stage(1, 1, 1)) && Moves(1, 1, 63, 0, 1, Stage(1, -1, -1), Stage(1, 1, 1))
    ensures Moves(0, 6, 63, 0, 2, Stage(1, 2, -1), Stage(1, 2, 2))
    ensures Moves(0, 1, 63, 2, 1, Stage(1, 2, 2), Stage(1, 1, 1))
    ensures forall c :: 0 <= c < 3 ==> Moves(c, 1, 63, 1, 0, Stage(0, 1, 1), Stage(0, 0, 0))
  {
    StageAfter(0, 0, 0, 0, 2, 1, -1, -1);
    StageAfter(2, 0, 0, 0, 1, 1, -1, -1);
    StageAfter(1, 0, 0, 0, 1, 1, -1, -1);
    StageAfter(0, 0, 0, 0, 2, 1, 2, -1);
    StageAfter(0, 0, 0, 2, 1, 1, 2, 2);
    forall c | 0 <= c < 3 ensures Moves(c, 1, 63, 1, 0, Stage(0, 1, 1), Stage(0, 0, 0)) { StageAfter(c, 0, 0, 1, 0, 0, 1, 1); }
  }

  lemma MoveScan(ci: nat, Ss: int, Se: int, Ah: int, Al: int, last: BitPos, next: seq<int>, rest: seq<ScanInfo>)
    requires ci < |last| && Rows(last, |last|) && Moves(ci, Ss, Se, Ah, Al, last[ci], next)
    ensures Leads([AScan(ci, Ss, Se, Ah, Al)] + rest, last, rest, last[ci := next])
  {
    OneScan(AScan(ci, Ss, Se, Ah, Al), ci, last, rest);
  }

  lemma YccHead(rest: seq<ScanInfo>)
    ensures var script := DcScans(3, 0, 1)
              + ([AScan(0, 1, 5, 0, 2)] + ([AScan(2, 1, 63, 0, 1)] + ([AScan(1, 1, 63, 0, 1)]
              + ([AScan(0, 6, 63, 0, 2)] + ([AScan(0, 1, 63, 2, 1)] + rest)))));
            Leads(script, Same(3, Stage(-1, -1, -1)), rest, Same(3, Stage(1, 1, 1)))
  {
    var r0, r1, u, v, x := Stage(-1, -1, -1), Stage(1, -1, -1), Stage(1, 1, 1), Stage(1, 2, -1), Stage(1, 2, 2);
    var s5 := [AScan(0, 1, 63, 2, 1)] + rest;
    var s4 := [AScan(0, 6, 63, 0, 2)] + s5;
    var s3 := [AScan(1, 1, 63, 0, 1)] + s4;
    var s2 := [AScan(2, 1, 63, 0, 1)] + s3;
    var s1 := [AScan(0, 1, 5, 0, 2)] + s2;
    var s0 := DcScans(3, 0, 1) + s1;
    StageAfter(0, 0, 0, 0, 1, -1, -1, -1);
    DcScansLead(3, 0, 1, r0, s1);
    YccMoves();
    assert Same(3, r1) == [r1, r1, r1] && Same(3, u) == [u, u, u];
    assert Rows([r1, r1, r1], 3) && Rows([v, r1, r1], 3) && Rows([v, r1, u], 3) && Rows([v, u, u], 3) && Rows([x, u, u], 3);
    hide *;
    MoveScan(0, 1, 5, 0, 2, [r1, r1, r1], v, s2);
    MoveScan(2, 1, 63, 0, 1, [v, r1, r1], u, s3);
    MoveScan(1, 1, 63, 0, 1, [v, r1, u], u, s4);
    MoveScan(0, 6, 63, 0, 2, [v, u, u], x, s5);
    MoveScan(0, 1, 63, 2, 1, [x, u, u], u, rest);
    assert [r1, r1, r1][0 := v] == [v, r1, r1] && [v, r1, r1][2 := u] == [v, r1, u] && [v, r1, u][1 := u] == [v, u, u];
    assert [v, u, u][0 := x] == [x, u, u] && [x, u, u][0 := u] == [u, u, u];
    LeadsOn(s0, Same(3, r0), s1, [r1, r1, r1], s2, [v, r1, r1]);
    LeadsOn(s0, Same(3, r0), s2, [v, r1, r1], s3, [v, r1, u]);
    LeadsOn(s0, Same(3, r0), s3, [v, r1, u], s4, [v, u, u]);
    LeadsOn(s0, Same(3, r0), s4, [v, u, u], s5, [x, u, u]);
    LeadsOn(s0, Same(3, r0), s5, [x, u, u], rest, [u, u, u]);
  }

  lemma YccTail()
    ensures var script := DcScans(3, 1, 0) + ([AScan(2, 1, 63, 1, 0)] + ([AScan(1, 1, 63, 1, 0)] + ([AScan(0, 1, 63, 1, 0)] + [])));
            Leads(script, Same(3, Stage(1, 1, 1)), [], Same(3, Stage(0, 0, 0)))
  {
    var r, u, z := Stage(1, 1, 1), Stage(0, 1, 1), Stage(0, 0, 0);
    var s3 := [AScan(0, 1, 63, 1, 0)] + [];
    var s2 := [AScan(1, 1, 63, 1, 0)] + s3;
    var s1 := [AScan(2, 1, 63, 1, 0)] + s2;
    var s0 := DcScans(3, 1, 0) + s1;
    StageAfter(0, 0, 0, 1, 0, 1, 1, 1);
    DcScansLead(3, 1, 0, r, s1);
    YccMoves();
    assert Same(3, u) == [u, u, u] && Same(3, z) == [z, z, z];
    assert Rows([u, u, u], 3) && Rows([u, u, z], 3) && Rows([u, z, z], 3);
    hide *;
    MoveScan(2, 1, 63, 1, 0, [u, u, u], z, s2);
    MoveScan(1, 1, 63, 1, 0, [u, u, z], z, s3);
    MoveScan(0, 1, 63, 1, 0, [u, z, z], z, []);
    assert [u, u, u][2 := z] == [u, u, z] && [u, u, z][1 := z] == [u, z, z] && [u, z, z][0 := z] == [z, z, z];
    LeadsOn(s0, Same(3, r), s1, [u, u, u], s2, [u, u, z]);
    LeadsOn(s0, Same(3, r), s2, [u, u, z], s3, [u, z, z]);
    LeadsOn(s0, Same(3, r), s3, [u, z, z], [], [z, z, z]);
  }

  lemma YccScriptValid()
    ensures AcceptsAll(YccScript(), Same(3, Stage(-1, -1, -1)))
    ensures Final(YccScript(), Same(3, Stage(-1, -1, -1))) == Same(3, Stage(0, 0, 0))
  {
    var tail := DcScans(3, 1, 0) + ([AScan(2, 1, 63, 1, 0)] + ([AScan(1, 1, 63, 1, 0)] + ([AScan(0, 1, 63, 1, 0)] + [])));
    YccHead(tail);
    YccTail();
    hide DcScans;
    hide AScan;
    hide Stage;
    YccAssoc(DcScans(3, 0, 1), AScan(0, 1, 5, 0, 2), AScan(2, 1, 63, 0, 1), AScan(1, 1, 63, 0, 1), AScan(0, 6, 63, 0, 2),
             AScan(0, 1, 63, 2, 1), DcScans(3, 1, 0), AScan(2, 1, 63, 1, 0), AScan(1, 1, 63, 1, 0), AScan(0, 1, 63, 1, 0));
  }

  lemma YccAssoc(d1: seq<ScanInfo>, a: ScanInfo, b: ScanInfo, c: ScanInfo, d: ScanInfo, e: ScanInfo,
                 d2: seq<ScanInfo>, x: ScanInfo, y: ScanInfo, z: ScanInfo)
    ensures d1 + [a, b, c, d, e] + d2 + [x, y, z]
            == d1 + ([a] + ([b] + ([c] + ([d] + ([e] + (d2 + ([x] + ([y] + ([z] + [])))))))))
  {
  }

  /** For every number of components, the recommended script has the calculated length, is
      accepted by validate_script, and ends with every bit of every coefficient sent. */
  lemma SimpleScriptComplete(n: nat, ycc: bool)
    requires n > 0
    ensures var script := SimpleScript(n, ycc);
            && |script| == NumScans(n, ycc) && ValidScript(script, n) && AcceptsAll(script, Unseen(n))
            && forall c, k :: 0 <= c < n && 0 <= k < 64 ==> Final(script, Unseen(n))[c][k] == 0
  {
    assert Unseen(n) == Same(n, Stage(-1, -1, -1)) by {
      assert forall c :: 0 <= c < n ==> Unseen(n)[c] == Stage(-1, -1, -1);
    }
    if n == 3 && ycc {
      YccScriptValid();
      assert YccScript()[0] == DcScans(3, 0, 1)[0];
    } else {
      PlainScriptValid(n);
      assert PlainScript(n)[0] == DcScans(n, 0, 1)[0];
    }
  }

  // ---- The scripts scan by scan ----

  lemma {:induction false} ScansAt(ci: nat, n: nat, Ss: int, Se: int, Ah: int, Al: int, c: nat)
    requires ci <= c < n
    ensures Scans(ci, n, Ss, Se, Ah, Al)[c - ci] == ScanInfo(1, [c, 0, 0, 0], Ss, Se, Ah, Al)
    decreases n - ci
  {
    if ci < c { ScansAt(ci + 1, n, Ss, Se, Ah, Al, c); }
  }

  /** The custom script for YCbCr. */
  lemma YccIs()
    ensures YccScript() == [
      ScanInfo(3, [0, 1, 2, 0], 0, 0, 0, 1),
      ScanInfo(1, [0, 0, 0, 0], 1, 5, 0, 2),
      ScanInfo(1, [2, 0, 0, 0], 1, 63, 0, 1),
      ScanInfo(1, [1, 0, 0, 0], 1, 63, 0, 1),
      ScanInfo(1, [0, 0, 0, 0], 6, 63, 0, 2),
      ScanInfo(1, [0, 0, 0, 0], 1, 63, 2, 1),
      ScanInfo(3, [0, 1, 2, 0], 0, 0, 1, 0),
      ScanInfo(1, [2, 0, 0, 0], 1, 63, 1, 0),
      ScanInfo(1, [1, 0, 0, 0], 1, 63, 1, 0),
      ScanInfo(1, [0, 0, 0, 0], 1, 63, 1, 0)]
  {
    assert seq(4, i => if i < 3 then i else 0) == [0, 1, 2, 0];
  }

  /** The all-purpose script, component by component. */
  lemma PlainAt(n: nat, c: nat)
    requires c < n
    ensures var s, d := PlainScript(n), if n <= 4 then 1 else n;
            && |s| == 2 * d + 4 * n
            && s[d + c] == ScanInfo(1, [c, 0, 0, 0], 1, 5, 0, 2)
            && s[d + n + c] == ScanInfo(1, [c, 0, 0, 0], 6, 63, 0, 2)
            && s[d + 2 * n + c] == ScanInfo(1, [c, 0, 0, 0], 1, 63, 2, 1)
            && s[2 * d + 3 * n + c] == ScanInfo(1, [c, 0, 0, 0], 1, 63, 1, 0)
            && (n > 4 ==> s[c] == ScanInfo(1, [c, 0, 0, 0], 0, 0, 0, 1) && s[4 * n + c] == ScanInfo(1, [c, 0, 0, 0], 0, 0, 1, 0))
            && (n <= 4 ==> var idx := seq(4, i => if i < n then i else 0);
                s[0] == ScanInfo(n, idx, 0, 0, 0, 1) && s[3 * n + 1] == ScanInfo(n, idx, 0, 0, 1, 0))
  {
    hide Scans;
    ScansAt(0, n, 1, 5, 0, 2, c);
    ScansAt(0, n, 6, 63, 0, 2, c);
    ScansAt(0, n, 1, 63, 2, 1, c);
    ScansAt(0, n, 1, 63, 1, 0, c);
    ScansAt(0, n, 0, 0, 0, 1, c);
    ScansAt(0, n, 0, 0, 1, 0, c);
  }
}
