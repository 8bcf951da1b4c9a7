/** Two-pass entropy coding of a scan: gather statistics, make optimal tables from them
    (finish_pass_gather_phuff, finish_pass_gather), and code the scan with those tables. */
module OptimizedScan {
  import opened Bits
  import opened HuffTable
  import opened Tokens
  import opened Blocks
  import opened EobRun
  import opened AcFirst
  import opened AcRefine
  import opened AcScan
  import opened Scans
  import opened Restart
  import opened Emitter
  import opened SegmentCode
  import opened EntropyEncoder
  import opened OptimalTable
  import opened HuffmanSizes
  import opened ScanSymbols
  import opened Sums
  import Huffman
  import DcScan
  import Sequential

  /** The tables have a code for everything that was counted. */
  ghost predicate Covers(tbls: Tables, ts: seq<Token>)
  {
    forall t, s {:trigger Tally(ts, t, s)} :: 0 <= t < |tbls| && 0 <= s < 256 && Tally(ts, t, s) > 0 ==> LegalTree(tbls[t]) && HasCode(tbls[t], s)
  }

  lemma CoveredWritable(tbls: Tables, ts: seq<Token>, x: Token)
    requires Covers(tbls, ts) && Plain(ts, |tbls|) && x in ts
    ensures Writable(tbls, x)
  {
    hide LegalTree;
    hide HasCode;
    var i :| 0 <= i < |ts| && ts[i] == x;
    match x
    case Sym(t, s) => assert Tally(ts, t, s) > 0;
    case Raw(_, _) =>
  }

  lemma {:induction false} SegInAll(sc: Scan, tbls: Tables, segs: seq<seq<Mcu>>, i: nat, x: Token)
    requires ScanOk(sc, tbls) && AllShaped(sc, segs) && i < |segs| && x in SegTokens(sc, tbls, segs[i])
    ensures x in AllTokens(sc, tbls, segs)
    decreases |segs|
  {
    hide SegTokens;
    if i > 0 { SegInAll(sc, tbls, segs[1..], i - 1, x); }
  }

  /** The tokens do not depend on the tables. */
  lemma SameTokens(sc: Scan, a: Tables, b: Tables, ms: seq<Mcu>)
    requires ScanOk(sc, a) && ScanOk(sc, b) && Shaped(sc, ms)
    ensures SegTokens(sc, a, ms) == SegTokens(sc, b, ms) && (Ranges(sc, a, ms) <==> Ranges(sc, b, ms))
  {
    hide Encoded;
    hide AcCodes;
    hide DcTokens;
    hide AcRanges;
    SameRanges(sc, a, b, ms, StartState(sc).preds);
  }

  lemma {:induction false} SameRanges(sc: Scan, a: Tables, b: Tables, ms: seq<Mcu>, preds: seq<int>)
    requires ScanOk(sc, a) && ScanOk(sc, b) && Shaped(sc, ms) && |preds| == |sc.dcTbl|
    ensures DcRanges(sc, a, ms, preds) <==> DcRanges(sc, b, ms, preds)
    decreases ms
  {
    hide DcInRange;
    hide DcMcuPreds;
    hide Sequential.AcInRange;
    if ms != [] { SameRanges(sc, a, b, ms[1..], DcMcuPreds(sc, ms[0], preds)); }
  }

  /** A scan whose statistics could be gathered can be written with tables that cover them. */
  lemma SecondPass(sc: Scan, a: Tables, b: Tables, segs: seq<seq<Mcu>>)
    requires ScanOk(sc, a) && ScanOk(sc, b) && AllShaped(sc, segs) && SegsOk(sc, a, true, segs)
    requires Plain(AllTokens(sc, a, segs), |b|) && Covers(b, AllTokens(sc, a, segs))
    ensures SegsOk(sc, b, false, segs)
  {
    hide *;
    forall i | 0 <= i < |segs| ensures SegOkAt(sc, b, segs, i) {
      ShapedAt(sc, segs, i);
      SegsOkAt(sc, a, true, segs, i);
      OkDefs(sc, a, true, segs[i]);
      OkDefs(sc, b, false, segs[i]);
      SameTokens(sc, a, b, segs[i]);
      var ts := SegTokens(sc, b, segs[i]);
      forall x | x in ts ensures Writable(b, x) {
        SegInAll(sc, a, segs, i, x);
        CoveredWritable(b, AllTokens(sc, a, segs), x);
      }
      AllFrom(b, ts);
      MakeSegOkAt(sc, b, segs, i);
    }
    MakeSegsOk(sc, b, segs);
  }

  ghost predicate SegOkAt(sc: Scan, tbls: Tables, segs: seq<seq<Mcu>>, i: nat)
    requires ScanOk(sc, tbls)
  {
    i < |segs| && Shaped(sc, segs[i]) && SegOk(sc, tbls, false, segs[i])
  }

  lemma ShapedAt(sc: Scan, segs: seq<seq<Mcu>>, i: nat)
    requires AllShaped(sc, segs) && i < |segs|
    ensures Shaped(sc, segs[i])
  {
  }

  lemma MakeSegOkAt(sc: Scan, tbls: Tables, segs: seq<seq<Mcu>>, i: nat)
    requires ScanOk(sc, tbls) && i < |segs| && Shaped(sc, segs[i]) && SegOk(sc, tbls, false, segs[i])
    ensures SegOkAt(sc, tbls, segs, i)
  {
  }

  lemma MakeSegsOk(sc: Scan, tbls: Tables, segs: seq<seq<Mcu>>)
    requires ScanOk(sc, tbls) && forall i :: 0 <= i < |segs| ==> SegOkAt(sc, tbls, segs, i)
    ensures SegsOk(sc, tbls, false, segs)
  {
    hide SegOk;
    forall i | 0 <= i < |segs| ensures Shaped(sc, segs[i]) && SegOk(sc, tbls, false, segs[i]) {
      assert SegOkAt(sc, tbls, segs, i);
    }
  }

  lemma AllFrom(tbls: Tables, ts: seq<Token>)
    requires forall x :: x in ts ==> Writable(tbls, x)
    ensures AllWritable(tbls, ts)
  {
    hide Writable;
  }

  // ---- finish_pass_gather_phuff, finish_pass_gather ----

  /** How many tables there are: a sequential scan has DC and AC tables. */
  function NumTables(sc: Scan): (n: nat)
    ensures n >= NUM_HUFF_TBLS
  {
    if sc.p.Ss == 0 && sc.p.Se != 0 then 2 * NUM_HUFF_TBLS else NUM_HUFF_TBLS
  }

  /** One table of statistics. */
  ghost function Row(counts: array2<nat>, n: nat): (r: seq<nat>)
    requires n < counts.Length0 && counts.Length1 == NSYMBOLS
    reads counts
    ensures |r| == NSYMBOLS && forall s :: 0 <= s < NSYMBOLS ==> r[s] == counts[n, s]
  {
    seq(NSYMBOLS, s requires 0 <= s < NSYMBOLS reads counts => counts[n, s])
  }

  predicate Short(l: Huffman.Lengths) { forall x :: 0 <= x < |l| ==> l[x] <= MAX_CLEN }

  /** The lengths of Huffman's algorithm are within 32 bits: no JERR_HUFF_CLEN_OVERFLOW. */
  ghost predicate Shallow(f: Huffman.Freqs) { Short(CodeSizes(f)) }

  /** The table has a code for exactly the symbols that were counted, of the lengths that
      Huffman's algorithm gives them, limited to 16 bits. */
  ghost predicate MadeFrom(t: Option<Table>, row: seq<nat>)
    requires |row| == NSYMBOLS
  {
    && t.Some? && LegalC(t.value, false) && (forall s :: 0 <= s < 256 ==> (HasCode(t.value, s) <==> row[s] > 0))
    && CountsFrom(t.value, CodeSizes(row[256 := 1]))
  }

  /** Generate optimal tables for the tables in use, each once. It is refused exactly when
      Huffman's algorithm gives one of them a code that is too long. */
  method FinishGather(enc: Encoder, ptrs0: seq<Option<Table>>) returns (ok: bool, ptrs: seq<Option<Table>>)
    requires enc.e.counts.Length0 == NumTables(enc.sc) == |ptrs0| && enc.e.counts.Length1 == NSYMBOLS
    requires forall i :: 0 <= i < |UsedTables(enc.sc)| ==> UsedTables(enc.sc)[i] < NumTables(enc.sc)
    requires forall i :: 0 <= i < |UsedTables(enc.sc)| ==> Countable(Row(enc.e.counts, UsedTables(enc.sc)[i])[256 := 1])
    ensures |ptrs| == NumTables(enc.sc)
    ensures ok ==> forall i :: 0 <= i < |UsedTables(enc.sc)| ==> MadeFrom(ptrs[UsedTables(enc.sc)[i]], Row(enc.e.counts, UsedTables(enc.sc)[i]))
    ensures ok <==> forall i :: 0 <= i < |UsedTables(enc.sc)| ==> Shallow(Row(enc.e.counts, UsedTables(enc.sc)[i])[256 := 1])
  {
    hide Countable;
    hide MadeFrom;
    hide Row;
    hide Shallow;
    ptrs := ptrs0;
    var did := new bool[NumTables(enc.sc)](i => false);
    var nos := UsedTables(enc.sc);
    var ci := 0;
    while ci < |nos|
      invariant 0 <= ci <= |nos| && |ptrs| == NumTables(enc.sc)
      invariant forall i :: 0 <= i < ci ==> did[nos[i]] && Shallow(Row(enc.e.counts, nos[i])[256 := 1])
      invariant forall n :: 0 <= n < NumTables(enc.sc) && did[n] ==> MadeFrom(ptrs[n], Row(enc.e.counts, n)) && Shallow(Row(enc.e.counts, n)[256 := 1])
    {
      var tbl := nos[ci];
      if !did[tbl] {
        var made, t := MakeFrom(enc.e.counts, tbl);
        if !made { return false, ptrs; }
        ptrs := ptrs[tbl := Some(t)];
        did[tbl] := true;
      }
      ci := ci + 1;
    }
    ok := true;
  }

  method MakeFrom(counts: array2<nat>, n: nat) returns (ok: bool, t: Table)
    requires n < counts.Length0 && counts.Length1 == NSYMBOLS && Countable(Row(counts, n)[256 := 1])
    ensures ok ==> MadeFrom(Some(t), Row(counts, n))
    ensures ok <==> Shallow(Row(counts, n)[256 := 1])
  {
    hide LegalC;
    hide HasCode;
    hide Optimal;
    hide Countable;
    var freq := new nat[NSYMBOLS](s requires 0 <= s < NSYMBOLS reads counts => counts[n, s]);
    assert freq[..] == Row(counts, n);
    ghost var l;
    ok, t, l := GenOptimalTable(freq);
    assert Short(l) <==> ok;
  }

  /** What is known after a statistics pass and the generation of tables. */
  ghost predicate Gathered(enc: Encoder, ms: seq<Mcu>, ptrs: seq<Option<Table>>)
    reads enc.e.counts
  {
    var sc, tbls := enc.sc, enc.e.tbls;
    && ScanOk(sc, tbls) && |tbls| == NumTables(sc) == |ptrs| == enc.e.counts.Length0 && enc.e.counts.Length1 == NSYMBOLS
    && Shaped(sc, ms) && AllShaped(sc, Segments(ms, sc.interval)) && SegsOk(sc, tbls, true, Segments(ms, sc.interval))
    && enc.CountsAre(AllTokens(sc, tbls, Segments(ms, sc.interval)))
    && Plain(AllTokens(sc, tbls, Segments(ms, sc.interval)), NumTables(enc.sc))
    && (forall i :: 0 <= i < |UsedTables(sc)| ==> UsedTables(sc)[i] < NumTables(enc.sc))
    && forall i :: 0 <= i < |UsedTables(sc)| ==> MadeFrom(ptrs[UsedTables(sc)[i]], Row(enc.e.counts, UsedTables(sc)[i]))
  }

  /** How often each symbol of table n occurs in the scan. */
  ghost function Statistics(ts: seq<Token>, n: nat): (r: seq<nat>)
    ensures |r| == NSYMBOLS && forall s :: 0 <= s < NSYMBOLS ==> r[s] == Tally(ts, n, s)
  {
    seq(NSYMBOLS, s requires 0 <= s < NSYMBOLS => Tally(ts, n, s))
  }

  lemma RowIs(enc: Encoder, ts: seq<Token>, n: nat)
    requires enc.e.counts.Length1 == NSYMBOLS && n < enc.e.counts.Length0 && enc.CountsAre(ts)
    ensures Row(enc.e.counts, n) == Statistics(ts, n)
  {
    forall s | 0 <= s < NSYMBOLS ensures Row(enc.e.counts, n)[s] == Statistics(ts, n)[s] {
      assert enc.e.counts[n, s] == Tally(ts, n, s);
    }
  }

  // What the statistics of a scan are like.

  lemma TallyFine(sc: Scan, ts: seq<Token>, t: nat, s: nat)
    requires Fine(sc, ts) && Tally(ts, t, s) > 0
    ensures Fitting(sc, t, s)
  {
    hide Fitting;
    var i :| 0 <= i < |ts| && ts[i] == Sym(t, s);
  }

  lemma TallyHas(ts: seq<Token>, t: nat, n: nat)
    requires Has(ts, t) && Plain(ts, n)
    ensures exists s :: 0 <= s < 256 && Tally(ts, t, s) > 0
  {
    var i :| 0 <= i < |ts| && ts[i].Sym? && ts[i].tbl == t;
    assert ts[i] == Sym(t, ts[i].s) && Tally(ts, t, ts[i].s) > 0;
  }

  lemma {:induction false} SumOnes(s: seq<int>)
    requires forall i :: 0 <= i < |s| ==> s[i] <= 1
    ensures Sum(s) <= |s|
  {
    if s != [] { SumOnes(s[1..]); }
  }

  /** Two symbols that do not occur leave at most 254 that do. */
  lemma FewLive(f: Huffman.Freqs, a: nat, b: nat)
    requires |f| == NSYMBOLS && a < b < |f| && f[a] == f[b] == 0
    ensures Live(f) <= 255
  {
    var s := Flags(f);
    SumUpdate(s, a, 1);
    SumUpdate(s[a := 1], b, 1);
    SumOnes(s[a := 1][b := 1]);
  }

  /** Of the symbols of a scan that was accepted a table can be made, provided there are not too
      many of them in all. */
  lemma StatisticsCountable(sc: Scan, tbls: Tables, ms: seq<Mcu>, n: nat, ntbls: nat)
    requires ScanOk(sc, tbls) && AllShaped(sc, Segments(ms, sc.interval)) && SegsOk(sc, tbls, true, Segments(ms, sc.interval))
    requires Populated(sc, ms) && n in UsedTables(sc) && Plain(AllTokens(sc, tbls, Segments(ms, sc.interval)), ntbls)
    requires Sum(Statistics(AllTokens(sc, tbls, Segments(ms, sc.interval)), n)[256 := 1]) <= MAX_FREQ
    ensures Countable(Statistics(AllTokens(sc, tbls, Segments(ms, sc.interval)), n)[256 := 1])
  {
    hide *;
    var ts := AllTokens(sc, tbls, Segments(ms, sc.interval));
    AllFine(sc, tbls, true, Segments(ms, sc.interval));
    AllHas(sc, tbls, ms, n);
    TallyHas(ts, n, ntbls);
    var s :| 0 <= s < 256 && Tally(ts, n, s) > 0;
    NeverCounted(sc, ts, n, 15);
    NeverCounted(sc, ts, n, 31);
    CountedSymbols();
    assert Statistics(ts, n)[256 := 1][s] > 0;
    FewLive(Statistics(ts, n)[256 := 1], 15, 31);
    CountableIs(Statistics(ts, n)[256 := 1]);
  }

  lemma NeverCounted(sc: Scan, ts: seq<Token>, n: nat, s: nat)
    requires Fine(sc, ts) && s % 16 == 15
    ensures Tally(ts, n, s) == 0
  {
    hide Fine;
    if Tally(ts, n, s) > 0 { TallyFine(sc, ts, n, s); }
  }

  lemma CountableIs(f: Huffman.Freqs)
    ensures Countable(f) <==> |f| == NSYMBOLS && f[256] == 1 && (exists s :: 0 <= s < 256 && f[s] > 0) && Live(f) <= 255 && Sum(f) <= MAX_FREQ
  {
  }

  /** The statistics pass: count the symbols of the scan and make tables from the counts. It is
      refused exactly when the scan itself is, or when a code comes out too long. */
  method GatherPass(enc: Encoder, ms: seq<Mcu>, ptrs0: seq<Option<Table>>) returns (ok: bool, ptrs: seq<Option<Table>>)
    requires enc.Valid() && enc.prior == [] && enc.coded == [] && enc.e.gather && Shaped(enc.sc, ms) && Populated(enc.sc, ms)
    requires ScanOk(enc.sc, enc.e.tbls) && |enc.e.tbls| == NumTables(enc.sc) == |ptrs0| == enc.e.counts.Length0
    requires AllShaped(enc.sc, Segments(ms, enc.sc.interval))
    requires forall i :: 0 <= i < |UsedTables(enc.sc)| ==>
               Sum(Statistics(AllTokens(enc.sc, enc.e.tbls, Segments(ms, enc.sc.interval)), UsedTables(enc.sc)[i])[256 := 1]) <= MAX_FREQ
    modifies enc, enc.bitBuffer, enc.lastDc, enc.e, enc.e.w, enc.e.counts
    ensures ok ==> Gathered(enc, ms, ptrs)
    ensures var sc, tbls := enc.sc, enc.e.tbls;
            ok <==> && SegsOk(sc, tbls, true, Segments(ms, sc.interval))
                    && forall i :: 0 <= i < |UsedTables(sc)| ==>
                         Shallow(Statistics(AllTokens(sc, tbls, Segments(ms, sc.interval)), UsedTables(sc)[i])[256 := 1])
  {
    hide *;
    ptrs := ptrs0;
    var sc := enc.sc;
    ghost var ts := AllTokens(sc, enc.e.tbls, Segments(ms, sc.interval));
    UsedInRange(sc, enc.e.tbls);
    CountedSymbols();
    ok := enc.EncodePass(ms);
    if !ok { return; }
    forall i | 0 <= i < |UsedTables(sc)|
      ensures Row(enc.e.counts, UsedTables(sc)[i]) == Statistics(ts, UsedTables(sc)[i])
      ensures Countable(Row(enc.e.counts, UsedTables(sc)[i])[256 := 1])
    {
      RowIs(enc, ts, UsedTables(sc)[i]);
      StatisticsCountable(sc, enc.e.tbls, ms, UsedTables(sc)[i], enc.e.counts.Length0);
    }
    ok, ptrs := FinishGather(enc, ptrs);
    if ok { MakeGathered(enc, ms, ptrs); }
  }

  lemma CountedSymbols()
    ensures NSYMBOLS == 257
  {
  }

  lemma MakeGathered(enc: Encoder, ms: seq<Mcu>, ptrs: seq<Option<Table>>)
    requires ScanOk(enc.sc, enc.e.tbls) && |enc.e.tbls| == NumTables(enc.sc) == |ptrs| == enc.e.counts.Length0 && enc.e.counts.Length1 == NSYMBOLS
    requires Shaped(enc.sc, ms) && AllShaped(enc.sc, Segments(ms, enc.sc.interval))
    requires SegsOk(enc.sc, enc.e.tbls, true, Segments(ms, enc.sc.interval))
    requires enc.CountsAre(AllTokens(enc.sc, enc.e.tbls, Segments(ms, enc.sc.interval)))
    requires Plain(AllTokens(enc.sc, enc.e.tbls, Segments(ms, enc.sc.interval)), enc.e.counts.Length0)
    requires forall i :: 0 <= i < |UsedTables(enc.sc)| ==> UsedTables(enc.sc)[i] < NumTables(enc.sc)
    requires forall i :: 0 <= i < |UsedTables(enc.sc)| ==> MadeFrom(ptrs[UsedTables(enc.sc)[i]], Row(enc.e.counts, UsedTables(enc.sc)[i]))
    ensures Gathered(enc, ms, ptrs)
  {
    hide AllTokens;
    hide SegsOk;
    hide MadeFrom;
    hide UsedTables;
    hide Plain;
    hide Row;
  }

  lemma TablesAre(ptrs: seq<Option<Table>>, n: nat)
    requires n < |ptrs|
    ensures |PassTables(ptrs)| == |ptrs| && (ptrs[n].Some? ==> PassTables(ptrs)[n] == ptrs[n].value)
  {
  }

  // ---- The output pass ----

  /** The generated tables cover what was counted. */
  lemma GatheredCovers(enc: Encoder, ms: seq<Mcu>, ptrs: seq<Option<Table>>)
    requires Gathered(enc, ms, ptrs)
    ensures Covers(PassTables(ptrs), AllTokens(enc.sc, enc.e.tbls, Segments(ms, enc.sc.interval)))
  {
    var sc, tbls := enc.sc, enc.e.tbls;
    var segs := Segments(ms, sc.interval);
    var ts := AllTokens(sc, tbls, segs);
    AllFine(sc, tbls, true, segs);
    hide AllTokens;
    hide SegsOk;
    hide LegalTree;
    hide Fine;
    forall t, s | 0 <= t < NumTables(sc) && 0 <= s < 256 && Tally(ts, t, s) > 0
      ensures LegalTree(PassTables(ptrs)[t]) && HasCode(PassTables(ptrs)[t], s)
    {
      CountedCode(enc, ms, ptrs, t, s);
    }
  }

  lemma CountedCode(enc: Encoder, ms: seq<Mcu>, ptrs: seq<Option<Table>>, t: nat, s: nat)
    requires Gathered(enc, ms, ptrs) && t < NumTables(enc.sc) && s < 256
    requires Tally(AllTokens(enc.sc, enc.e.tbls, Segments(ms, enc.sc.interval)), t, s) > 0
    requires Fine(enc.sc, AllTokens(enc.sc, enc.e.tbls, Segments(ms, enc.sc.interval)))
    ensures LegalTree(PassTables(ptrs)[t]) && HasCode(PassTables(ptrs)[t], s)
  {
    hide AllTokens;
    hide SegsOk;
    hide LegalTree;
    hide HasCode;
    var ts := AllTokens(enc.sc, enc.e.tbls, Segments(ms, enc.sc.interval));
    TallyFine(enc.sc, ts, t, s);
    var i :| 0 <= i < |UsedTables(enc.sc)| && UsedTables(enc.sc)[i] == t;
    assert MadeFrom(ptrs[t], Row(enc.e.counts, t));
    assert enc.e.counts[t, s] == Tally(ts, t, s);
    TablesAre(ptrs, t);
  }

  /** The generated tables are legal; DC tables hold only symbols up to 15. */
  lemma TableUsable(enc: Encoder, ms: seq<Mcu>, ptrs: seq<Option<Table>>, n: nat)
    requires Gathered(enc, ms, ptrs) && n in UsedTables(enc.sc)
    ensures n < |ptrs| && ptrs[n].Some? && LegalC(ptrs[n].value, enc.sc.p.Ss == 0 && n !in enc.sc.acTbls)
  {
    var sc, tbls := enc.sc, enc.e.tbls;
    var segs := Segments(ms, sc.interval);
    var ts := AllTokens(sc, tbls, segs);
    AllFine(sc, tbls, true, segs);
    hide AllTokens;
    hide SegsOk;
    var i :| 0 <= i < |UsedTables(sc)| && UsedTables(sc)[i] == n;
    assert MadeFrom(ptrs[n], Row(enc.e.counts, n));
    var t := ptrs[n].value;
    if sc.p.Ss == 0 && n !in sc.acTbls {
      forall p | 0 <= p < Total(t) ensures t.huffval[p] <= 15 {
        CodeOf(t, p);
        assert enc.e.counts[n, t.huffval[p]] == Tally(ts, n, t.huffval[p]);
        TallyFine(sc, ts, n, t.huffval[p]);
      }
    }
  }

  lemma CodeOf(t: Table, p: nat)
    requires LegalC(t, false) && p < Total(t)
    ensures HasCode(t, t.huffval[p])
  {
  }

  /** The output pass of an optimised progressive scan never raises JERR_HUFF_MISSING_CODE: with
      the tables made from its own statistics, the scan that could be gathered is written. */
  method OutputPass(enc: Encoder, ms: seq<Mcu>, ptrs: seq<Option<Table>>) returns (out: seq<byte>)
    requires Gathered(enc, ms, ptrs) && Normal(enc.sc) && ScanParams(enc.sc.p, enc.sc.members, |enc.sc.dcTbl|)
    ensures ScanOk(enc.sc, PassTables(ptrs)) && AllShaped(enc.sc, Segments(ms, enc.sc.interval))
    ensures SegsWritable(enc.sc, PassTables(ptrs), Segments(ms, enc.sc.interval)) && out == ScanBytes(enc.sc, PassTables(ptrs), ms)
  {
    GatheredCovers(enc, ms, ptrs);
    var sc := enc.sc;
    UsableProgressive(enc, ms, ptrs);
    hide Covers;
    hide Gathered;
    hide Usable;
    ghost var a := enc.e.tbls;
    var ok, next := StartPass(sc.p, sc.members, sc.dcTbl, sc.acTbl, sc.interval, ptrs, false);
    var e2 := next.value;
    assert e2.sc == sc;
    SecondPass(sc, a, PassTables(ptrs), Segments(ms, sc.interval));
    ok := e2.EncodePass(ms);
    out := e2.e.w.out;
  }

  lemma UsableProgressive(enc: Encoder, ms: seq<Mcu>, ptrs: seq<Option<Table>>)
    requires Gathered(enc, ms, ptrs) && Normal(enc.sc) && ScanParams(enc.sc.p, enc.sc.members, |enc.sc.dcTbl|)
    ensures |ptrs| == NUM_HUFF_TBLS && (enc.sc.p.Ss != 0 ==> Usable(ptrs, false, false, enc.sc.acTbl))
    ensures enc.sc.p.Ss == 0 && enc.sc.p.Ah == 0 ==>
      forall i :: 0 <= i < |enc.sc.dcTbl| ==> Usable(ptrs, true, false, enc.sc.dcTbl[i])
  {
    var sc := enc.sc;
    hide Gathered;
    hide LegalC;
    if sc.p.Ss != 0 {
      assert UsedTables(sc)[0] == sc.acTbl;
      TableUsable(enc, ms, ptrs, sc.acTbl);
    } else if sc.p.Ah == 0 {
      forall i | 0 <= i < |sc.dcTbl| ensures Usable(ptrs, true, false, sc.dcTbl[i]) {
        DcTableUsed(sc, i);
        TableUsable(enc, ms, ptrs, sc.dcTbl[i]);
      }
    }
    assert |ptrs| == NumTables(sc) by { GatheredSize(enc, ms, ptrs); }
  }

  lemma GatheredSize(enc: Encoder, ms: seq<Mcu>, ptrs: seq<Option<Table>>)
    requires Gathered(enc, ms, ptrs)
    ensures |ptrs| == NumTables(enc.sc) && ScanOk(enc.sc, enc.e.tbls)
  {
  }

  // ---- The same for a sequential scan ----

  /** DC tables come before AC tables. */
  predicate Separate(sc: Scan)
  {
    && |sc.acTbls| == |sc.dcTbl| && sc.acTbl == 0
    && (forall i :: 0 <= i < |sc.dcTbl| ==> sc.dcTbl[i] < NUM_HUFF_TBLS)
    && forall i :: 0 <= i < |sc.acTbls| ==> NUM_HUFF_TBLS <= sc.acTbls[i] < 2 * NUM_HUFF_TBLS
  }

  lemma UsableSequential(enc: Encoder, ms: seq<Mcu>, ptrs: seq<Option<Table>>, i: nat)
    requires Gathered(enc, ms, ptrs) && enc.sc.p == SEQUENTIAL && Separate(enc.sc) && i < |enc.sc.dcTbl|
    ensures |ptrs| == 2 * NUM_HUFF_TBLS
    ensures BothUsable(ptrs[..NUM_HUFF_TBLS], ptrs[NUM_HUFF_TBLS..], false, enc.sc.dcTbl[i], enc.sc.acTbls[i] - NUM_HUFF_TBLS)
  {
    hide *;
    var sc := enc.sc;
    GatheredSize(enc, ms, ptrs);
    SequentialShape(sc, enc.e.tbls);
    SeparateAt(sc, i);
    DcTableUsed(sc, i);
    TableUsable(enc, ms, ptrs, sc.dcTbl[i]);
    TableUsable(enc, ms, ptrs, sc.acTbls[i]);
    MoreSymbols(ptrs[sc.acTbls[i]].value);
    HalvesUsable(ptrs, sc.dcTbl[i], sc.acTbls[i]);
  }

  lemma SeparateAt(sc: Scan, i: nat)
    requires sc.p == SEQUENTIAL && Separate(sc) && i < |sc.dcTbl|
    ensures sc.p.Ss == 0 && sc.p.Ah == 0 && sc.p.Se != 0 && |sc.acTbls| == |sc.dcTbl|
    ensures sc.dcTbl[i] < NUM_HUFF_TBLS <= sc.acTbls[i] < 2 * NUM_HUFF_TBLS && sc.dcTbl[i] !in sc.acTbls
  {
  }

  lemma HalvesUsable(ptrs: seq<Option<Table>>, dcNo: nat, acNo: nat)
    requires |ptrs| == 2 * NUM_HUFF_TBLS && dcNo < NUM_HUFF_TBLS <= acNo < 2 * NUM_HUFF_TBLS
    requires ptrs[dcNo].Some? && LegalC(ptrs[dcNo].value, true) && ptrs[acNo].Some? && LegalC(ptrs[acNo].value, false)
    ensures BothUsable(ptrs[..NUM_HUFF_TBLS], ptrs[NUM_HUFF_TBLS..], false, dcNo, acNo - NUM_HUFF_TBLS)
  {
    hide LegalC;
  }

  lemma MoreSymbols(t: Table)
    ensures LegalC(t, true) ==> LegalC(t, false)
  {
  }

  /** The output pass of an optimised sequential scan does not miss a code either. */
  method OutputPassHuff(enc: Encoder, ms: seq<Mcu>, ptrs: seq<Option<Table>>) returns (out: seq<byte>)
    requires Gathered(enc, ms, ptrs) && enc.sc.p == SEQUENTIAL && Separate(enc.sc)
    ensures ScanOk(enc.sc, PassTables(ptrs)) && AllShaped(enc.sc, Segments(ms, enc.sc.interval))
    ensures SegsWritable(enc.sc, PassTables(ptrs), Segments(ms, enc.sc.interval)) && out == ScanBytes(enc.sc, PassTables(ptrs), ms)
  {
    hide *;
    GatheredCovers(enc, ms, ptrs);
    GatheredSize(enc, ms, ptrs);
    UseGathered(enc, ms, ptrs);
    var sc := enc.sc;
    SequentialShape(sc, enc.e.tbls);
    var dc, ac := ptrs[..NUM_HUFF_TBLS], ptrs[NUM_HUFF_TBLS..];
    assert dc + ac == ptrs;
    var acNos := AcNumbers(sc);
    forall i | 0 <= i < |sc.dcTbl| ensures BothUsable(dc, ac, false, sc.dcTbl[i], acNos[i]) { UsableSequential(enc, ms, ptrs, i); }
    var ok, next := StartPassHuff(sc.members, sc.dcTbl, acNos, sc.interval, dc, ac, false);
    var e2 := next.value;
    assert e2.sc.acTbls == sc.acTbls;
    assert e2.sc == sc;
    ValidScan(e2);
    SecondPass(sc, enc.e.tbls, PassTables(ptrs), Segments(ms, sc.interval));
    ok := e2.EncodePass(ms);
    out := e2.e.w.out;
  }

  /** The table numbers of the components' AC tables. */
  function AcNumbers(sc: Scan): (r: seq<int>)
    requires Separate(sc)
    ensures |r| == |sc.acTbls| && forall i :: 0 <= i < |r| ==> sc.acTbls[i] == NUM_HUFF_TBLS + r[i]
  {
    seq(|sc.acTbls|, i requires 0 <= i < |sc.acTbls| => sc.acTbls[i] - NUM_HUFF_TBLS)
  }

  lemma SequentialShape(sc: Scan, tbls: Tables)
    requires ScanOk(sc, tbls) && Separate(sc) && sc.p == SEQUENTIAL
    ensures |sc.acTbls| == |sc.dcTbl| && sc.acTbl == 0 && forall i :: 0 <= i < |sc.members| ==> sc.members[i] < |sc.dcTbl|
    ensures NumTables(sc) == 2 * NUM_HUFF_TBLS == 8 && NUM_HUFF_TBLS == 4
  {
  }

  lemma UseGathered(enc: Encoder, ms: seq<Mcu>, ptrs: seq<Option<Table>>)
    requires Gathered(enc, ms, ptrs)
    ensures var sc, tbls := enc.sc, enc.e.tbls;
            && ScanOk(sc, tbls) && Shaped(sc, ms) && AllShaped(sc, Segments(ms, sc.interval)) && SegsOk(sc, tbls, true, Segments(ms, sc.interval))
            && Plain(AllTokens(sc, tbls, Segments(ms, sc.interval)), |PassTables(ptrs)|)
  {
    hide AllTokens;
    hide SegsOk;
  }

  lemma ValidScan(enc: Encoder)
    requires enc.Valid()
    ensures ScanOk(enc.sc, enc.e.tbls)
  {
    enc.UseCore();
  }
}
