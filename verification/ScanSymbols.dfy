/** Which symbols the tokens of a scan are made of: only symbols of the tables in use, only
    some of the 256, and at least one of every table. */
module ScanSymbols {
  import opened Bits
  import opened HuffTable
  import opened Tokens
  import opened Blocks
  import opened EobRun
  import opened AcFirst
  import opened AcRefine
  import opened AcScan
  import opened Scans
  import opened Restart
  import opened Emitter
  import opened SegmentCode
  import DcScan
  import Sequential

  /** The table numbers the pass uses. */
  function UsedTables(sc: Scan): (nos: seq<nat>)
  {
    if sc.p.Ss != 0 then [sc.acTbl] else if sc.p.Ah != 0 then [] else if sc.p.Se != 0 then sc.dcTbl + sc.acTbls else sc.dcTbl
  }

  lemma UsedInRange(sc: Scan, tbls: Tables)
    requires ScanOk(sc, tbls)
    ensures forall i :: 0 <= i < |UsedTables(sc)| ==> UsedTables(sc)[i] < |tbls|
  {
  }

  lemma DcTableUsed(sc: Scan, c: nat)
    requires sc.p.Ss == 0 && sc.p.Ah == 0 && c < |sc.dcTbl|
    ensures sc.dcTbl[c] in UsedTables(sc)
    ensures sc.p.Se != 0 && c < |sc.acTbls| ==> sc.acTbls[c] in UsedTables(sc)
  {
  }

  // ---- Only symbols that fit ----

  /** A symbol of a table in use, with a size of at most 11; DC symbols are nothing but a size. */
  predicate Fitting(sc: Scan, t: nat, s: nat)
  {
    t in UsedTables(sc) && s % 16 <= 11 && (sc.p.Ss == 0 && t !in sc.acTbls ==> s <= 11)
  }

  ghost predicate Fine(sc: Scan, ts: seq<Token>)
  {
    forall i :: 0 <= i < |ts| ==> ts[i].Sym? ==> Fitting(sc, ts[i].tbl, ts[i].s)
  }

  lemma FineNone(sc: Scan)
    ensures Fine(sc, [])
  {
  }

  lemma FineConcat(sc: Scan, a: seq<Token>, b: seq<Token>)
    requires Fine(sc, a) && Fine(sc, b)
    ensures Fine(sc, a + b)
  {
    hide Fitting;
  }

  lemma DiffFine(sc: Scan, c: nat, d: int)
    requires sc.p.Ss == 0 && sc.p.Ah == 0 && c < |sc.dcTbl| && NBits(Abs(d)) <= MAX_COEF_BITS + 1
    ensures Fine(sc, DcScan.DiffTokens(sc.dcTbl[c], d))
  {
    hide NBits;
    hide UsedTables;
    DcTableUsed(sc, c);
  }

  lemma {:induction false} FirstFine(sc: Scan, cis: seq<nat>, bs: seq<Block>, preds: seq<int>)
    requires |cis| == |bs| && |sc.dcTbl| == |preds| && (forall i :: 0 <= i < |cis| ==> cis[i] < |preds|)
    requires sc.p.Ss == 0 && sc.p.Ah == 0 && DcInRange(cis, bs, preds, sc.p.Al)
    ensures Fine(sc, DcScan.FirstTokens(sc.dcTbl, cis, bs, preds, sc.p.Al))
    decreases bs
  {
    hide Shr;
    hide NBits;
    hide Fine;
    FineNone(sc);
    if bs != [] {
      var v := Shr(bs[0][0], sc.p.Al);
      DiffFine(sc, cis[0], v - preds[cis[0]]);
      FirstFine(sc, cis[1..], bs[1..], preds[cis[0] := v]);
      FineConcat(sc, DcScan.DiffTokens(sc.dcTbl[cis[0]], v - preds[cis[0]]),
                 DcScan.FirstTokens(sc.dcTbl, cis[1..], bs[1..], preds[cis[0] := v], sc.p.Al));
    }
  }

  /** All symbols are of one table, with a size of at most 11. */
  ghost predicate Only(tbl: nat, ts: seq<Token>)
  {
    forall i :: 0 <= i < |ts| ==> ts[i].Sym? ==> ts[i].tbl == tbl && ts[i].s % 16 <= 11
  }

  lemma OnlyConcat(tbl: nat, a: seq<Token>, b: seq<Token>)
    requires Only(tbl, a) && Only(tbl, b)
    ensures Only(tbl, a + b)
  {
  }

  lemma OnlyFine(sc: Scan, tbl: nat, ts: seq<Token>)
    requires Only(tbl, ts) && tbl in UsedTables(sc) && (sc.p.Ss == 0 ==> tbl in sc.acTbls)
    ensures Fine(sc, ts)
  {
  }

  lemma {:induction false} ZrlsOnly(tbl: nat, r: nat)
    ensures Only(tbl, Zrls(tbl, r))
  {
    if r > 15 { ZrlsOnly(tbl, r - 16); }
  }

  lemma CoefOnly(tbl: nat, r: nat, t: int)
    requires NBits(Abs(t)) <= MAX_COEF_BITS
    ensures Only(tbl, CoefTokens(tbl, r, t))
  {
    hide NBits;
    SymParts(r, NBits(Abs(t)));
  }

  lemma {:induction false} FirstOnly(tbl: nat, b: Block, k: nat, r: nat, p: Params)
    requires p.Se < 64 && FirstInRange(b, k, p)
    ensures Only(tbl, FirstCode(tbl, b, k, r, p).head)
    decreases p.Se + 1 - k
  {
    hide PtAc;
    hide Mag;
    hide NBits;
    hide Zrls;
    hide CoefTokens;
    if k <= p.Se {
      var t := PtAc(b[k], p.Al);
      CoefInRange(b, k, p);
      if t == 0 {
        FirstOnly(tbl, b, k + 1, r + 1, p);
      } else {
        ZrlsOnly(tbl, r);
        CoefDefs(b[k], p.Al);
        CoefOnly(tbl, r % 16, t);
        FirstOnly(tbl, b, k + 1, 0, p);
        OnlyConcat(tbl, CoefTokens(tbl, r % 16, t), FirstCode(tbl, b, k + 1, 0, p).head);
      }
    }
  }

  /** The AC part of a sequential block. */
  lemma WholeOnly(tbl: nat, b: Block)
    requires Sequential.AcInRange(b)
    ensures Only(tbl, Sequential.AcTokens(tbl, b))
  {
    hide FirstCode;
    hide NBits;
    FirstOnly(tbl, b, 1, 0, Sequential.ALL_AC);
    OnlyConcat(tbl, FirstCode(tbl, b, 1, 0, Sequential.ALL_AC).head, [Sym(tbl, 0)]);
  }

  lemma BlockFine(sc: Scan, c: nat, b: Block, pred: int)
    requires c < |sc.dcTbl| == |sc.acTbls| && sc.p.Ss == 0 && sc.p.Ah == 0 && sc.p.Se != 0
    requires NBits(Abs(b[0] - pred)) <= MAX_COEF_BITS + 1 && Sequential.AcInRange(b)
    ensures Fine(sc, Sequential.BlockTokens(sc.dcTbl[c], sc.acTbls[c], b, pred))
  {
    hide NBits;
    hide Fine;
    hide UsedTables;
    hide Sequential.AcTokens;
    DcTableUsed(sc, c);
    DiffFine(sc, c, b[0] - pred);
    WholeOnly(sc.acTbls[c], b);
    OnlyFine(sc, sc.acTbls[c], Sequential.AcTokens(sc.acTbls[c], b));
    FineConcat(sc, DcScan.DiffTokens(sc.dcTbl[c], b[0] - pred), Sequential.AcTokens(sc.acTbls[c], b));
  }

  lemma {:induction false} WholeFine(sc: Scan, cis: seq<nat>, bs: seq<Block>, preds: seq<int>)
    requires |cis| == |bs| && |sc.dcTbl| == |sc.acTbls| == |preds| && (forall i :: 0 <= i < |cis| ==> cis[i] < |preds|)
    requires sc.p.Ss == 0 && sc.p.Ah == 0 && sc.p.Se != 0
    requires DcInRange(cis, bs, preds, 0) && forall i :: 0 <= i < |bs| ==> Sequential.AcInRange(bs[i])
    ensures Fine(sc, Sequential.McuTokens(sc.dcTbl, sc.acTbls, cis, bs, preds))
    decreases bs
  {
    hide NBits;
    hide Fine;
    hide Sequential.BlockTokens;
    hide Sequential.AcInRange;
    FineNone(sc);
    if bs != [] {
      var c := cis[0];
      Sequential.ShrNone(bs[0][0]);
      BlockFine(sc, c, bs[0], preds[c]);
      WholeFine(sc, cis[1..], bs[1..], preds[c := bs[0][0]]);
      FineConcat(sc, Sequential.BlockTokens(sc.dcTbl[c], sc.acTbls[c], bs[0], preds[c]),
                 Sequential.McuTokens(sc.dcTbl, sc.acTbls, cis[1..], bs[1..], preds[c := bs[0][0]]));
    }
  }

  lemma RefineFine(sc: Scan, m: Mcu, al: nat)
    ensures Fine(sc, DcScan.RefineTokens(m, al))
  {
  }

  lemma McuFine(sc: Scan, tbls: Tables, m: Mcu, preds: seq<int>)
    requires McuOk(sc, tbls, m) && |preds| == |sc.dcTbl| && sc.p.Ss == 0 && McuRange(sc, tbls, m, preds)
    ensures Fine(sc, DcMcuTokens(sc, m, preds))
  {
    hide Fine;
    hide DcInRange;
    hide Sequential.AcInRange;
    hide Sequential.McuTokens;
    hide DcScan.FirstTokens;
    if sc.p.Ah != 0 {
      RefineFine(sc, m, sc.p.Al);
    } else if sc.p.Se != 0 {
      WholeFine(sc, sc.members, m, preds);
    } else {
      FirstFine(sc, sc.members, m, preds);
    }
  }

  lemma {:induction false} DcFine(sc: Scan, tbls: Tables, ms: seq<Mcu>, preds: seq<int>)
    requires ScanOk(sc, tbls) && Shaped(sc, ms) && |preds| == |sc.dcTbl| && DcRanges(sc, tbls, ms, preds) && sc.p.Ss == 0
    ensures Fine(sc, DcTokens(sc, ms, preds))
    decreases ms
  {
    hide DcMcuTokens;
    hide DcMcuPreds;
    hide McuRange;
    hide Fine;
    FineNone(sc);
    if ms != [] {
      var next := DcMcuPreds(sc, ms[0], preds);
      McuFine(sc, tbls, ms[0], preds);
      DcFine(sc, tbls, ms[1..], next);
      FineConcat(sc, DcMcuTokens(sc, ms[0], preds), DcTokens(sc, ms[1..], next));
    }
  }

  // ---- AC scans ----

  lemma NewOnly(tbl: nat, r: nat, v: int)
    ensures Only(tbl, NewTokens(tbl, r, v))
  {
    assert (16 * r + 1) % 16 == 1;
  }

  lemma {:induction false} RefineOnly(tbl: nat, b: Block, k: nat, r: nat, br: Bits, eob: nat, p: Params)
    requires p.Se < 64
    ensures Only(tbl, RefineCode(tbl, b, k, r, br, eob, p).head)
    decreases p.Se + 1 - k, r
  {
    hide Mag;
    hide NewTokens;
    if k <= p.Se {
      var t := Mag(b[k], p.Al);
      if t == 0 {
        RefineOnly(tbl, b, k + 1, r + 1, br, eob, p);
      } else if r > 15 && k <= eob {
        RefineOnly(tbl, b, k, r - 16, [], eob, p);
        OnlyConcat(tbl, [Sym(tbl, 0xF0)] + Raws(br), RefineCode(tbl, b, k, r - 16, [], eob, p).head);
      } else if t > 1 {
        RefineOnly(tbl, b, k + 1, r, br + [t % 2 == 1], eob, p);
      } else {
        NewOnly(tbl, r, b[k]);
        RefineOnly(tbl, b, k + 1, 0, [], eob, p);
        OnlyConcat(tbl, NewTokens(tbl, r, b[k]) + Raws(br), RefineCode(tbl, b, k + 1, 0, [], eob, p).head);
      }
    }
  }

  lemma CodeOnly(tbl: nat, b: Block, p: Params)
    requires AcParams(p) && AcScan.AcInRange(b, p)
    ensures Only(tbl, AcCode(tbl, b, p).head)
  {
    hide Only;
    hide NBits;
    if p.Ah == 0 { FirstOnly(tbl, b, p.Ss, 0, p); } else { RefineOnly(tbl, b, p.Ss, 0, [], EobPos(b, p.Ss, 0, p), p); }
  }

  lemma EobOnly(tbl: nat, e: nat)
    requires e > 0
    ensures Only(tbl, EobTokens(tbl, e)) && EobTokens(tbl, e) != []
    ensures EobTokens(tbl, e)[0].Sym? && EobTokens(tbl, e)[0].tbl == tbl
  {
    hide NBits;
    assert NBits(e) > 0 by { EobPositive(e); }
    assert (16 * (NBits(e) - 1)) % 16 == 0;
  }

  lemma EobPositive(e: nat)
    requires e > 0
    ensures NBits(e) > 0
  {
  }

  lemma FlushOnly(tbl: nat, st: RunState)
    requires Only(tbl, st.out)
    ensures Only(tbl, Flush(tbl, st).out)
  {
    hide EobTokens;
    if st.eobrun > 0 {
      EobOnly(tbl, st.eobrun);
      OnlyConcat(tbl, st.out, EobTokens(tbl, st.eobrun));
      OnlyConcat(tbl, st.out + EobTokens(tbl, st.eobrun), Raws(st.be));
    }
  }

  lemma StepOnly(tbl: nat, st: RunState, c: BlockCode)
    requires Only(tbl, st.out) && Only(tbl, c.head)
    ensures Only(tbl, Step(tbl, st, c).out)
  {
    hide Flush;
    hide Only;
    FlushOnly(tbl, st);
    OnlyConcat(tbl, Flush(tbl, st).out, c.head);
    var h := Head(tbl, st, c);
    FlushOnly(tbl, h.(eobrun := h.eobrun + 1, be := h.be + c.corr));
  }

  lemma {:induction false} RunOnly(tbl: nat, st: RunState, bs: seq<Block>, p: Params)
    requires AcParams(p) && Only(tbl, st.out) && forall i :: 0 <= i < |bs| ==> AcScan.AcInRange(bs[i], p)
    ensures Only(tbl, Run(tbl, st, AcCodes(tbl, bs, p)).out)
    decreases bs
  {
    hide Only;
    hide Step;
    hide AcCode;
    hide AcScan.AcInRange;
    if bs != [] {
      CodesCons(tbl, bs, p);
      CodeOnly(tbl, bs[0], p);
      StepOnly(tbl, st, AcCode(tbl, bs[0], p));
      RunOnly(tbl, Step(tbl, st, AcCode(tbl, bs[0], p)), bs[1..], p);
    }
  }

  lemma SegFine(sc: Scan, tbls: Tables, ms: seq<Mcu>)
    requires ScanOk(sc, tbls) && Shaped(sc, ms) && Ranges(sc, tbls, ms)
    ensures Fine(sc, SegTokens(sc, tbls, ms))
  {
    hide DcTokens;
    hide DcRanges;
    hide Run;
    hide AcCodes;
    hide Flush;
    hide Fine;
    hide AcScan.AcInRange;
    if sc.p.Ss == 0 {
      DcFine(sc, tbls, ms, StartState(sc).preds);
    } else {
      RunOnly(sc.acTbl, EMPTY_RUN, Singles(ms), sc.p);
      FlushOnly(sc.acTbl, Run(sc.acTbl, EMPTY_RUN, AcCodes(sc.acTbl, Singles(ms), sc.p)));
      OnlyFine(sc, sc.acTbl, SegTokens(sc, tbls, ms));
    }
  }

  /** The tokens of a scan that was accepted. */
  lemma {:induction false} AllFine(sc: Scan, tbls: Tables, gather: bool, segs: seq<seq<Mcu>>)
    requires ScanOk(sc, tbls) && AllShaped(sc, segs) && SegsOk(sc, tbls, gather, segs)
    ensures Fine(sc, AllTokens(sc, tbls, segs))
    decreases segs
  {
    hide SegTokens;
    hide Ranges;
    hide Fine;
    FineNone(sc);
    if segs != [] {
      SegFine(sc, tbls, segs[0]);
      AllFine(sc, tbls, gather, segs[1..]);
      FineConcat(sc, SegTokens(sc, tbls, segs[0]), AllTokens(sc, tbls, segs[1..]));
    }
  }

  // ---- At least one symbol of every table ----

  ghost predicate Has(ts: seq<Token>, t: nat)
  {
    exists i :: 0 <= i < |ts| && ts[i].Sym? && ts[i].tbl == t
  }

  lemma HasConcat(a: seq<Token>, b: seq<Token>, t: nat)
    requires Has(a, t) || Has(b, t)
    ensures Has(a + b, t)
  {
    if Has(a, t) {
      var i :| 0 <= i < |a| && a[i].Sym? && a[i].tbl == t;
      assert (a + b)[i] == a[i];
    } else {
      var i :| 0 <= i < |b| && b[i].Sym? && b[i].tbl == t;
      assert (a + b)[|a| + i] == b[i];
    }
  }

  lemma HasFirst(ts: seq<Token>)
    requires ts != [] && ts[0].Sym?
    ensures Has(ts, ts[0].tbl)
  {
  }

  lemma {:induction false} FirstHas(dcTbl: seq<nat>, cis: seq<nat>, bs: seq<Block>, preds: seq<int>, al: nat, j: nat)
    requires |cis| == |bs| && |dcTbl| == |preds| && (forall i :: 0 <= i < |cis| ==> cis[i] < |preds|) && j < |cis|
    ensures Has(DcScan.FirstTokens(dcTbl, cis, bs, preds, al), dcTbl[cis[j]])
    decreases bs
  {
    hide Shr;
    hide NBits;
    hide Has;
    var v := Shr(bs[0][0], al);
    var here := DcScan.DiffTokens(dcTbl[cis[0]], v - preds[cis[0]]);
    HasFirst(here);
    if j > 0 { FirstHas(dcTbl, cis[1..], bs[1..], preds[cis[0] := v], al, j - 1); }
    HasConcat(here, DcScan.FirstTokens(dcTbl, cis[1..], bs[1..], preds[cis[0] := v], al), dcTbl[cis[j]]);
  }

  /** A block without new coefficients ends in an end-of-band. */
  lemma {:induction false} FirstCodeHas(tbl: nat, b: Block, k: nat, r: nat, p: Params)
    requires p.Se < 64
    ensures var c := FirstCode(tbl, b, k, r, p); c.trailing || Has(c.head, tbl) || (r == 0 && k > p.Se)
    decreases p.Se + 1 - k
  {
    hide PtAc;
    hide NBits;
    hide Zrls;
    hide Has;
    if k <= p.Se {
      var t := PtAc(b[k], p.Al);
      if t == 0 {
        FirstCodeHas(tbl, b, k + 1, r + 1, p);
      } else {
        var rest := FirstCode(tbl, b, k + 1, 0, p);
        HasFirst(CoefTokens(tbl, r % 16, t));
        HasConcat(CoefTokens(tbl, r % 16, t), rest.head, tbl);
        HasConcat(Zrls(tbl, r), CoefTokens(tbl, r % 16, t) + rest.head, tbl);
      }
    }
  }

  lemma {:induction false} RefineCodeHas(tbl: nat, b: Block, k: nat, r: nat, br: Bits, eob: nat, p: Params)
    requires p.Se < 64
    ensures var c := RefineCode(tbl, b, k, r, br, eob, p); c.trailing || Has(c.head, tbl) || (r == 0 && br == [] && k > p.Se)
    decreases p.Se + 1 - k, r
  {
    hide Mag;
    hide Has;
    if k <= p.Se {
      var t := Mag(b[k], p.Al);
      if t == 0 {
        RefineCodeHas(tbl, b, k + 1, r + 1, br, eob, p);
      } else if r > 15 && k <= eob {
        var here := [Sym(tbl, 0xF0)] + Raws(br);
        HasFirst(here);
        HasConcat(here, RefineCode(tbl, b, k, r - 16, [], eob, p).head, tbl);
      } else if t > 1 {
        RefineCodeHas(tbl, b, k + 1, r, br + [t % 2 == 1], eob, p);
      } else {
        var here := NewTokens(tbl, r, b[k]) + Raws(br);
        HasFirst(here);
        HasConcat(here, RefineCode(tbl, b, k + 1, 0, [], eob, p).head, tbl);
      }
    }
  }

  lemma CodeHas(tbl: nat, b: Block, p: Params)
    requires AcParams(p)
    ensures AcCode(tbl, b, p).trailing || Has(AcCode(tbl, b, p).head, tbl)
  {
    hide Has;
    if p.Ah == 0 { FirstCodeHas(tbl, b, p.Ss, 0, p); } else { RefineCodeHas(tbl, b, p.Ss, 0, [], EobPos(b, p.Ss, 0, p), p); }
  }

  /** Either an end-of-band run is open or a symbol is out. */
  ghost predicate Begun(tbl: nat, st: RunState) { st.eobrun > 0 || Has(st.out, tbl) }

  lemma FlushHas(tbl: nat, st: RunState)
    requires Begun(tbl, st)
    ensures Has(Flush(tbl, st).out, tbl)
  {
    hide Has;
    hide EobTokens;
    if st.eobrun > 0 {
      EobOnly(tbl, st.eobrun);
      HasFirst(EobTokens(tbl, st.eobrun));
      HasConcat(st.out, EobTokens(tbl, st.eobrun), tbl);
      HasConcat(st.out + EobTokens(tbl, st.eobrun), Raws(st.be), tbl);
    }
  }

  lemma StepHas(tbl: nat, st: RunState, c: BlockCode)
    requires Begun(tbl, st) || c.trailing || Has(c.head, tbl)
    ensures Begun(tbl, Step(tbl, st, c))
  {
    hide Has;
    hide Flush;
    var h := Head(tbl, st, c);
    if c.head == [] {
      assert !Has([], tbl) by { HasNot(tbl); }
    } else {
      if Begun(tbl, st) { FlushHas(tbl, st); }
      if Has(c.head, tbl) || Begun(tbl, st) { HasConcat(Flush(tbl, st).out, c.head, tbl); }
    }
    if c.trailing { FlushHas(tbl, h.(eobrun := h.eobrun + 1, be := h.be + c.corr)); }
  }

  lemma HasNot(tbl: nat)
    ensures !Has([], tbl)
  {
  }

  lemma {:induction false} RunHas(tbl: nat, st: RunState, bs: seq<Block>, p: Params)
    requires AcParams(p) && (Begun(tbl, st) || bs != [])
    ensures Begun(tbl, Run(tbl, st, AcCodes(tbl, bs, p)))
    decreases bs
  {
    hide Begun;
    hide Has;
    hide Step;
    hide AcCode;
    if bs != [] {
      CodesCons(tbl, bs, p);
      CodeHas(tbl, bs[0], p);
      StepHas(tbl, st, AcCode(tbl, bs[0], p));
      RunHas(tbl, Step(tbl, st, AcCode(tbl, bs[0], p)), bs[1..], p);
    }
  }

  lemma WholeBlockHas(dcTbl: nat, acTbl: nat, b: Block, pred: int)
    ensures Has(Sequential.BlockTokens(dcTbl, acTbl, b, pred), dcTbl) && Has(Sequential.BlockTokens(dcTbl, acTbl, b, pred), acTbl)
  {
    hide Has;
    hide FirstCode;
    hide NBits;
    var diff, c := DcScan.DiffTokens(dcTbl, b[0] - pred), FirstCode(acTbl, b, 1, 0, Sequential.ALL_AC);
    HasFirst(diff);
    FirstCodeHas(acTbl, b, 1, 0, Sequential.ALL_AC);
    HasFirst([Sym(acTbl, 0)]);
    HasConcat(c.head, if c.trailing then [Sym(acTbl, 0)] else [], acTbl);
    HasConcat(diff, Sequential.AcTokens(acTbl, b), dcTbl);
    HasConcat(diff, Sequential.AcTokens(acTbl, b), acTbl);
  }

  lemma {:induction false} WholeHas(dcTbl: seq<nat>, acTbls: seq<nat>, cis: seq<nat>, bs: seq<Block>, preds: seq<int>, j: nat)
    requires |cis| == |bs| && |dcTbl| == |acTbls| == |preds| && (forall i :: 0 <= i < |cis| ==> cis[i] < |preds|) && j < |cis|
    ensures Has(Sequential.McuTokens(dcTbl, acTbls, cis, bs, preds), dcTbl[cis[j]])
    ensures Has(Sequential.McuTokens(dcTbl, acTbls, cis, bs, preds), acTbls[cis[j]])
    decreases bs
  {
    hide Has;
    hide Sequential.BlockTokens;
    var c := cis[0];
    var here, next := Sequential.BlockTokens(dcTbl[c], acTbls[c], bs[0], preds[c]), preds[c := bs[0][0]];
    WholeBlockHas(dcTbl[c], acTbls[c], bs[0], preds[c]);
    if j > 0 { WholeHas(dcTbl, acTbls, cis[1..], bs[1..], next, j - 1); }
    HasConcat(here, Sequential.McuTokens(dcTbl, acTbls, cis[1..], bs[1..], next), dcTbl[cis[j]]);
    HasConcat(here, Sequential.McuTokens(dcTbl, acTbls, cis[1..], bs[1..], next), acTbls[cis[j]]);
  }

  /** The scan has MCUs, and every component of it has a block in each. */
  ghost predicate Populated(sc: Scan, ms: seq<Mcu>)
  {
    ms != [] && forall c :: 0 <= c < |sc.dcTbl| ==> c in sc.members
  }

  lemma McuHas(sc: Scan, tbls: Tables, m: Mcu, preds: seq<int>, c: nat)
    requires McuOk(sc, tbls, m) && |preds| == |sc.dcTbl| && sc.p.Ss == 0 && sc.p.Ah == 0 && c in sc.members
    ensures c < |sc.dcTbl| && Has(DcMcuTokens(sc, m, preds), sc.dcTbl[c])
    ensures sc.p.Se != 0 ==> c < |sc.acTbls| && Has(DcMcuTokens(sc, m, preds), sc.acTbls[c])
  {
    hide Has;
    hide Sequential.McuTokens;
    hide DcScan.FirstTokens;
    var j :| 0 <= j < |sc.members| && sc.members[j] == c;
    if sc.p.Se != 0 {
      WholeHas(sc.dcTbl, sc.acTbls, sc.members, m, preds, j);
    } else {
      FirstHas(sc.dcTbl, sc.members, m, preds, sc.p.Al, j);
    }
  }

  lemma DcHas(sc: Scan, tbls: Tables, ms: seq<Mcu>, preds: seq<int>, t: nat)
    requires ScanOk(sc, tbls) && Shaped(sc, ms) && |preds| == |sc.dcTbl| && sc.p.Ss == 0 && Populated(sc, ms) && t in UsedTables(sc)
    ensures Has(DcTokens(sc, ms, preds), t)
  {
    hide Has;
    hide DcMcuTokens;
    hide DcMcuPreds;
    var i :| 0 <= i < |UsedTables(sc)| && UsedTables(sc)[i] == t;
    var c := if i < |sc.dcTbl| then i else i - |sc.dcTbl|;
    McuHas(sc, tbls, ms[0], preds, c);
    HasConcat(DcMcuTokens(sc, ms[0], preds), DcTokens(sc, ms[1..], DcMcuPreds(sc, ms[0], preds)), t);
  }

  lemma SegHas(sc: Scan, tbls: Tables, ms: seq<Mcu>, t: nat)
    requires ScanOk(sc, tbls) && Shaped(sc, ms) && Populated(sc, ms) && t in UsedTables(sc)
    ensures Has(SegTokens(sc, tbls, ms), t)
  {
    hide DcTokens;
    hide Run;
    hide AcCodes;
    hide Flush;
    hide Has;
    if sc.p.Ss == 0 {
      DcHas(sc, tbls, ms, StartState(sc).preds, t);
    } else {
      RunHas(sc.acTbl, EMPTY_RUN, Singles(ms), sc.p);
      FlushHas(sc.acTbl, Run(sc.acTbl, EMPTY_RUN, AcCodes(sc.acTbl, Singles(ms), sc.p)));
    }
  }

  /** Every table in use has a symbol in the scan. */
  lemma AllHas(sc: Scan, tbls: Tables, ms: seq<Mcu>, t: nat)
    requires ScanOk(sc, tbls) && AllShaped(sc, Segments(ms, sc.interval)) && Populated(sc, ms) && t in UsedTables(sc)
    ensures Has(AllTokens(sc, tbls, Segments(ms, sc.interval)), t)
  {
    hide Has;
    hide SegTokens;
    var segs := Segments(ms, sc.interval);
    SegHas(sc, tbls, segs[0], t);
    HasConcat(SegTokens(sc, tbls, segs[0]), AllTokens(sc, tbls, segs[1..]), t);
  }
}
