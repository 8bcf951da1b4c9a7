/** The Huffman decoders of jdphuff.c and jdhuff.c. Each decode_mcu routine is proved against
    its function in AcScan, DcScan or Sequential; a routine that has to suspend leaves everything so
    that calling it again gives what an uninterrupted call would have given. */
module EntropyDecoder {
  import opened Bits
  import opened Bytes
  import opened BitStream
  import opened HuffTable
  import opened HuffDecoder
  import opened BitReader
  import opened EobRun
  import opened Blocks
  import opened AcFirst
  import opened AcRefine
  import opened AcScan
  import opened Scans
  import opened Tokens
  import opened Restart
  import opened MarkerReader
  import opened DecodeRun
  import opened DecodeAgain
  import opened SequentialAgain
  import opened Warnings
  import opened Requests
  import DcScan
  import Sequential

  /** Two results of which the second has dw more warnings, and nothing else that differs. */
  predicate Alike<T(==)>(x: (T, nat, Src), y: (T, nat, Src), dw: int)
  {
    x.0 == y.0 && x.1 == y.1 && Same(x.2, y.2, dw)
  }

  lemma FirstMore(t: Table, d: Block, k: nat, p: Params, s: Src, sym: byte, s1: Src)
    requires k <= p.Se && DecodeSym(t, s) == (sym, s1)
    ensures var r, z := sym / 16, sym % 16;
            && (z != 0 ==>
                  var v := Jcoef(Shl(Extend(s1.Peek(z), z), p.Al));
                  && DecFirst(t, d, k, p, s) == DecFirst(t, d[Clamp(k + r) := v], k + r + 1, p, s1.Drop(z))
                  && Writes(t, k, p, s) == {Clamp(k + r)} + Writes(t, k + r + 1, p, s1.Drop(z)))
            && (z == 0 && r == 15 ==>
                  && DecFirst(t, d, k, p, s) == DecFirst(t, d, k + 16, p, s1)
                  && Writes(t, k, p, s) == Writes(t, k + 16, p, s1))
            && (z == 0 && r != 15 ==> DecFirst(t, d, k, p, s) == (d, RunLength(r, s1) - 1, s1.Drop(r)))
  {
    hide DecodeSym;
    hide Extend;
    hide Jcoef;
    hide Shl;
    hide RunLength;
    hide Clamp;
  }

  lemma OffWrite(d: Block, e: Block, i: nat, at: set<nat>, v: Coef)
    requires i < 64 && i in at && Off(d, e, at)
    ensures Off(d, e[i := v], at)
  {
  }

  lemma OffSelf(d: Block, at: set<nat>)
    ensures Off(d, d, at)
  {
  }

  /** (JCOEF) (s << Al) for a value field r of z bits. */
  function NewValue(r: int, z: nat, al: nat): Coef { Jcoef(Shl(Extend(r, z), al)) }

  lemma NewValueIs(r: int, z: nat, al: nat)
    ensures NewValue(r, z, al) == Jcoef(Shl(Extend(r, z), al))
  {
  }

  lemma SymFields(sym: byte)
    ensures sym / 16 <= 15 && sym % 16 <= 15
  {
  }

  /** The requests after a symbol that is not an end-of-band. */
  ghost function StepRest(t: Table, b: Block, k: nat, r: nat, z: nat, p: Params, s1: Src): (ps: seq<Src>)
    requires k <= p.Se < 64
    ensures |ps| > 0
  {
    var s2 := Warned(s1, z);
    var (d1, k1, s4) := Skip(b, k, r, p, if z > 0 then s2.Drop(1) else s2);
    RunPoints(t, if z > 0 then d1[Clamp(k1) := NewCoef(s2, p)] else d1, k1 + 1, p, s4)
  }

  lemma StepRestIs(t: Table, b: Block, k: nat, r: nat, z: nat, p: Params, s1: Src)
    requires k <= p.Se < 64
    ensures var s2 := Warned(s1, z);
            var (d1, k1, s4) := Skip(b, k, r, p, if z > 0 then s2.Drop(1) else s2);
            && StepRest(t, b, k, r, z, p, s1) == RunPoints(t, if z > 0 then d1[Clamp(k1) := NewCoef(s2, p)] else d1, k1 + 1, p, s4)
            && StepRest(t, b, k, r, z, p, s1)[0] == s4
  {
    hide Skip;
    hide Warned;
    hide Clamp;
    hide NewCoef;
  }

  /** The requests from a symbol on. */
  lemma PointsAtSymbol(t: Table, b: Block, k: nat, p: Params, s: Src, sym: byte, s1: Src)
    requires k <= p.Se < 64 && DecodeSym(t, s) == (sym, s1)
    ensures var r, z := sym / 16, sym % 16;
            RunPoints(t, b, k, p, s) ==
            [s] + if z == 0 && r != 15 then BandPoints(b, k, p, s1.Drop(r))
                  else if z > 0 then [Warned(s1, z)] + StepRest(t, b, k, r, z, p, s1)
                  else StepRest(t, b, k, r, z, p, s1)
    ensures |BandPoints(b, k, p, s1.Drop(sym / 16))| > 0 && BandPoints(b, k, p, s1.Drop(sym / 16))[0] == s1.Drop(sym / 16)
  {
    hide *;
    RunPointsMore(t, b, k, p, s, sym, s1);
    StepRestIs(t, b, k, sym / 16, sym % 16, p, s1);
    WarnedIs(s1, sym % 16);
  }

  /** Giving up while reading a symbol. */
  lemma StopsAtSymbol(t: Table, b: Block, k: nat, p: Params, s: Src, points: seq<Src>, g: Gap)
    requires k <= p.Se < 64 && Upcoming(points, RunPoints(t, b, k, p, s)) && s.starved == points[0].starved
    requires Between(s, s, g)
    ensures Stops(points, s.warnings, g)
  {
    var (sym, s1) := DecodeSym(t, s);
    var ps := RunPoints(t, b, k, p, s);
    hide *;
    SymFields(sym);
    PointsAtSymbol(t, b, k, p, s, sym, s1);
    RunChain(t, b, k, p, s);
    ChainNext(ps);
    assert ps == [s] + ps[1..];
    Wider(s, s, s, ps[1], g);
    StopsAtHead(points, s, ps[1..], g);
  }

  lemma ChainNext(ps: seq<Src>)
    requires Chain(ps) && |ps| > 1
    ensures |ps[1].bits| <= |ps[0].bits|
  {
    assert Warnings.Later(ps[0], ps[1]);
  }

  /** Giving up between a symbol and the next one. */
  lemma StopsInStep(s: Src, s1: Src, z: nat, next: seq<Src>, points: seq<Src>, g: Gap)
    requires Upcoming(points, [s] + if z > 0 then [Warned(s1, z)] + next else next)
    requires |next| > 0 && Between(Warned(s1, z), next[0], g) && |s1.bits| <= |s.bits|
    requires s.starved == s1.starved == points[0].starved && (z == 0 ==> s1.warnings == s.warnings)
    ensures Stops(points, Warned(s1, z).warnings, g)
  {
    hide *;
    WarnedIs(s1, z);
    if z > 0 {
      UpcomingNext(points, s, [Warned(s1, z)] + next);
      StopsAtHead(points, Warned(s1, z), next, g);
    } else {
      Wider(s, Warned(s1, z), next[0], next[0], g);
      StopsAtHead(points, s, next, g);
    }
  }

  /** Giving up while correcting the rest of the band. */
  lemma StopsInBand(b: Block, k: nat, p: Params, s: Src, e: nat, points: seq<Src>, goal: Src, g: Gap)
    requires p.Se < 64 && SomeNonzero(b, k, p) && |points| > 0 && s.starved == points[0].starved
    requires Between(s, Corrections(b, k, p, s).1, g)
    requires if e > 0 then points == [s, goal] && goal == Corrections(b, k, p, s).1 else Upcoming(points, BandPoints(b, k, p, s))
    ensures Stops(points, s.warnings, g)
  {
    hide Corrections;
    hide Stops;
    var q := Corrections(b, k, p, s).1;
    if e > 0 { UpcomingSelf(points); }
    assert [s] + [q] == [s, q];
    StopsAtHead(points, s, [q], g);
  }

  /** The requests of the attempt that gave up and of the next one. */
  lemma RetryPoints(t: Table, b: Block, c: Block, eobrun: nat, p: Params, s: Src, s2: Src, dw: int, g: Gap)
    requires AcParams(p) && Same(s, s2, dw)
    requires SamePoints(AcPoints(t, b, eobrun, p, s), AcPoints(t, c, eobrun, p, s2), dw)
    requires Stops(AcPoints(t, b, eobrun, p, s), s2.warnings, g)
    ensures GaveUp(AcPoints(t, b, eobrun, p, s), AcPoints(t, c, eobrun, p, s2), g)
  {
    hide AcPoints;
    hide Stops;
  }

  lemma SameLength(ps: seq<Src>, qs: seq<Src>, dw: int)
    requires SamePoints(ps, qs, dw)
    ensures |ps| == |qs|
  {
  }

  /** Giving up at a bit on its own, which never comes with a warning. */
  lemma BitsOnly(s: Src, s2: Src, goal: Src, goal2: Src, g: Gap)
    requires Same(s, s2, 0) && Same(goal, goal2, 0) && Between(s, goal, g)
    ensures GaveUp([s, goal], [s2, goal2], g)
  {
    hide Stops;
    StopsHere([s, goal], s.warnings, g);
  }

  lemma RefineLeft(m: Mcu, i: nat, al: nat, s: Src)
    requires i <= |m|
    ensures |RestRefine(m, i, al, s).1.bits| <= |s.bits|
  {
    DcRefineLater(m[i..], al, s);
  }

  /** Running out between a and b is running out between any places around them. */
  lemma Wider(a: Src, b: Src, c: Src, d: Src, g: Gap)
    requires Between(b, c, g) && |b.bits| <= |a.bits| && |d.bits| <= |c.bits|
    ensures Between(a, d, g)
  {
  }

  lemma LeftDrop(s: Src, n: nat)
    ensures |s.Drop(n).bits| <= |s.bits|
  {
  }

  lemma LaterLeft(a: Src, b: Src)
    ensures Warnings.Later(a, b) ==> |b.bits| <= |a.bits| && b.warnings >= a.warnings
  {
  }

  /** While no data has been missing, only the symbol 0 can have come with a warning. */
  lemma OnlyZeroWarns(t: Table, s: Src, sym: byte, s1: Src)
    requires DecodeSym(t, s) == (sym, s1)
    ensures |s1.bits| <= |s.bits| && s1.warnings >= s.warnings
    ensures sym != 0 && s1.starved == s.starved ==> s1.warnings == s.warnings
  {
    hide DecodeSym;
    LaterSym(t, s);
  }

  lemma FirstEnd(t: Table, b: Block, k: nat, p: Params, s: Src)
    requires k > p.Se
    ensures DecFirst(t, b, k, p, s) == (b, 0, s)
  {
  }

  lemma AcFirstIs(t: Table, b: Block, eobrun: nat, p: Params, s: Src)
    requires AcParams(p) && p.Ah == 0
    ensures AcDecode(t, b, eobrun, p, s) ==
            if s.starved then (b, eobrun, s) else if eobrun > 0 then (b, eobrun - 1, s) else DecFirst(t, b, p.Ss, p, s)
  {
    hide DecFirst;
  }

  lemma AcRefineIs(t: Table, b: Block, eobrun: nat, p: Params, s: Src)
    requires AcParams(p) && p.Ah != 0
    ensures AcDecode(t, b, eobrun, p, s) ==
            if s.starved then (b, eobrun, s)
            else FinishBand(if eobrun == 0 then RefLoop(t, b, p.Ss, p, s) else (b, p.Ss, eobrun, s), p)
    ensures eobrun == 0 && !s.starved ==> AcDecode(t, b, eobrun, p, s) == RefRun(t, b, p.Ss, p, s)
  {
    hide RefLoop;
    hide FinishBand;
  }

  /** An AC block of which only the end of the data matters: no warning is issued in vain. */
  lemma OneRequest(t: Table, b: Block, c: Block, eobrun: nat, p: Params, s: Src, s2: Src, dw: int, g: Gap)
    requires AcParams(p) && !s.starved && (p.Ah == 0 <==> eobrun == 0) && Same(s, s2, dw) && s2.warnings == s.warnings
    requires Alike(AcDecode(t, c, eobrun, p, s2), AcDecode(t, b, eobrun, p, s), 0 - dw)
    requires Between(s, AcDecode(t, b, eobrun, p, s).2, g)
    ensures GaveUp(AcPoints(t, b, eobrun, p, s), AcPoints(t, c, eobrun, p, s2), g)
  {
    hide AcDecode;
    hide Stops;
    AcPointsIs(t, b, eobrun, p, s);
    AcPointsIs(t, c, eobrun, p, s2);
    StopsHere(AcPoints(t, b, eobrun, p, s), s.warnings, g);
  }

  lemma UndoableIs(d: Block, b: Block, newnz: set<nat>, lo: nat, ones: set<nat>, al: nat)
    requires Undoable(d, b, newnz, lo, ones, al)
    ensures (forall j :: j in newnz ==> j < 64) && Grown(d, Undone(b, newnz), lo, ones, al)
  {
  }

  /** The positions that a refinement block corrects upwards. */
  function BlockOnes(t: Table, b: Block, eobrun: nat, p: Params, s: Src): set<nat>
    requires AcParams(p)
  {
    if eobrun == 0 then RefOnes(t, b, p.Ss, p, s) else CorrOnes(b, p.Ss, p, s)
  }

  lemma BlockOnesIs(t: Table, b: Block, eobrun: nat, p: Params, s: Src)
    requires AcParams(p)
    ensures BlockOnes(t, b, eobrun, p, s) == if eobrun == 0 then RefOnes(t, b, p.Ss, p, s) else CorrOnes(b, p.Ss, p, s)
  {
  }

  lemma FinishIs(b: Block, k: nat, eobrun: nat, s: Src, p: Params)
    requires p.Se < 64
    ensures FinishBand((b, k, eobrun, s), p)
            == if eobrun > 0 then (Corrections(b, k, p, s).0, eobrun - 1, Corrections(b, k, p, s).1) else (b, 0, s)
  {
    hide Corrections;
  }

  /** A second attempt at a refinement block, after the undoing. */
  lemma Again(t: Table, b: Block, c: Block, eobrun: nat, p: Params, s: Src, s2: Src, dw: int)
    requires AcParams(p) && p.Ah != 0 && !s.starved && Same(s, s2, dw) && Grown(b, c, p.Ss, BlockOnes(t, b, eobrun, p, s), p.Al)
    ensures SamePoints(AcPoints(t, b, eobrun, p, s), AcPoints(t, c, eobrun, p, s2), dw)
    ensures Alike(AcDecode(t, c, eobrun, p, s2), AcDecode(t, b, eobrun, p, s), 0 - dw)
  {
    hide *;
    AcRange(p);
    NotStarved(s, s2, dw);
    BlockOnesIs(t, b, eobrun, p, s);
    AcRefineIs(t, b, eobrun, p, s);
    AcRefineIs(t, c, eobrun, p, s2);
    AlikeIs(AcDecode(t, c, eobrun, p, s2), AcDecode(t, b, eobrun, p, s), 0 - dw);
    if eobrun == 0 {
      RefAgain(t, b, c, p.Ss, p, s, s2, dw);
    } else {
      FinishIs(b, p.Ss, eobrun, s, p);
      FinishIs(c, p.Ss, eobrun, s2, p);
      CorrAgain(b, c, p.Ss, p, s, s2, dw);
    }
    AcPointsAgain(t, b, c, eobrun, p, s, s2, dw);
  }

  lemma NotStarved(s: Src, s2: Src, dw: int)
    requires Same(s, s2, dw)
    ensures s.starved == s2.starved
  {
  }

  lemma DiffIs(z: nat, s: Src)
    ensures DcScan.DiffValue(z, s) == if z == 0 then 0 else Extend(s.Peek(z), z)
    ensures z == 0 ==> s.Drop(z) == s
  {
  }

  /** The range check on DC symbols keeps every decoded one in range. */
  lemma {:induction false} SerialSmall(t: Table, code: nat, l: nat, s: Src)
    requires LegalD(t, true) && 1 <= l <= 17
    ensures Serial(t, code, l, s).0 <= 15
    decreases 17 - l
  {
    if l <= 16 {
      if code <= MaxCode(t, l) {
        StartBound(t, l);
      } else {
        SerialSmall(t, 2 * code + s.Peek(1), l + 1, s.Drop(1));
      }
    }
  }

  lemma SmallSymbol(t: Table, s: Src)
    requires LegalD(t, true)
    ensures DecodeSym(t, s).0 <= 15
  {
    hide LegalD;
    hide Serial;
    SerialSmall(t, s.Peek(1), 1, s.Drop(1));
  }

  // ---- The blocks of an MCU ----

  /** Each block of the MCU has its own storage. */
  ghost predicate Separate(blocks: seq<array<Coef>>)
  {
    && (forall i :: 0 <= i < |blocks| ==> blocks[i].Length == 64)
    && forall i, j :: 0 <= i < j < |blocks| ==> blocks[i] != blocks[j]
  }

  ghost function Contents(blocks: seq<array<Coef>>): (r: Mcu)
    requires Separate(blocks)
    reads blocks
    ensures |r| == |blocks|
    ensures forall i :: 0 <= i < |blocks| ==> r[i] == blocks[i][..]
  {
    seq(|blocks|, i requires 0 <= i < |blocks| && blocks[i].Length == 64 reads blocks => blocks[i][..])
  }

  /** Blocks before n hold their results, the others are as they were. */
  ghost predicate PartDone(blocks: seq<array<Coef>>, was: Mcu, rs: Mcu, n: nat)
    requires Separate(blocks)
    reads blocks
  {
    |was| == |rs| == |blocks| && forall i :: 0 <= i < |blocks| ==> blocks[i][..] == if i < n then rs[i] else was[i]
  }

  ghost predicate Alike3(x: (Mcu, seq<int>, Src), y: (Mcu, seq<int>, Src), dw: int)
  {
    x.0 == y.0 && x.1 == y.1 && Same(x.2, y.2, dw)
  }

  lemma ShapeSame(sc: Scan, tbls: Tables, m: Mcu, e: Mcu, preds: seq<int>)
    requires DcShape(sc, tbls, m, preds) && |e| == |m|
    ensures DcShape(sc, tbls, e, preds)
  {
  }

  lemma AfterIs(dct: Table, s: Src)
    ensures var (z, s1) := DecodeSym(dct, s); AfterDc(dct, s) == s1.Drop(z) && DiffOf(dct, s) == DcScan.DiffValue(z, s1)
  {
  }

  lemma WholeIs(sc: Scan, tbls: Tables, m: Mcu, preds: seq<int>)
    ensures WholeShape(sc, tbls, m, preds) ==> DcShape(sc, tbls, m, preds)
  {
  }

  lemma WholeSame(sc: Scan, tbls: Tables, m: Mcu, e: Mcu, preds: seq<int>, after: seq<int>)
    requires WholeShape(sc, tbls, m, preds) && |e| == |m| && |after| == |preds|
    ensures WholeShape(sc, tbls, e, after)
  {
  }

  lemma Alike3Is(x: (Mcu, seq<int>, Src), y: (Mcu, seq<int>, Src), dw: int)
    ensures Alike3(x, y, dw) <==> x.0 == y.0 && x.1 == y.1 && Same(x.2, y.2, dw)
    ensures Same(x.2, y.2, dw) <==> Same(y.2, x.2, 0 - dw)
  {
  }

  lemma SameBack(a: Src, b: Src, dw: int)
    ensures Same(a, b, dw) <==> Same(b, a, 0 - dw)
  {
  }

  /** Two outcomes of an MCU of which the second has dw more warnings, and nothing else that differs. */
  ghost predicate Like(x: (Mcu, State, Src), y: (Mcu, State, Src), dw: int)
  {
    x.0 == y.0 && x.1 == y.1 && Same(x.2, y.2, dw)
  }

  lemma LikeIs(x: (Mcu, State, Src), y: (Mcu, State, Src), dw: int)
    ensures Like(x, y, dw) <==> x.0 == y.0 && x.1 == y.1 && Same(x.2, y.2, dw)
  {
  }

  lemma ShapeIs(sc: Scan, tbls: Tables, m: Mcu, preds: seq<int>, e: nat)
    ensures DcShape(sc, tbls, m, preds) ==> |preds| == |sc.dcTbl| && |m| == |sc.members|
    ensures StateOk(sc, State(preds, e)) <==> |preds| == |sc.dcTbl|
  {
  }

  lemma MinusOne(a: nat)
    ensures Minus(a, 1) == if a > 0 then a - 1 else 0
  {
  }

  lemma AlikeIs(x: (Block, nat, Src), y: (Block, nat, Src), dw: int)
    ensures Alike(x, y, dw) <==> x.0 == y.0 && x.1 == y.1 && Same(x.2, y.2, dw)
    ensures Same(x.2, y.2, dw) <==> Same(y.2, x.2, 0 - dw)
  {
  }

  lemma CorrectIs(v: Coef, p: Params, s: Src)
    ensures Correct(v, p, s) ==
            if s.Peek(1) != 1 || BitSet(v, p.Al) then v else Jcoef(if v >= 0 then v + Pow2(p.Al) else v - Pow2(p.Al))
  {
    JcoefSelf(v);
  }

  lemma JcoefSelf(v: Coef)
    ensures Jcoef(v) == v
  {
  }

  /** JWRN_HUFF_BAD_CODE for a coefficient size other than 1. */
  function Warned(s: Src, z: nat): Src { if z > 1 then s.Warn() else s }

  lemma WarnedIs(s: Src, z: nat)
    ensures Warned(s, z) == if z > 1 then s.Warn() else s
    ensures Warned(s, z).starved == s.starved && Warned(s, z).warnings >= s.warnings && Warned(s, z).bits == s.bits
  {
  }

  lemma WarnedCount(s: Src)
    ensures s.Warn().warnings == s.warnings + 1
  {
  }

  lemma AcRange(p: Params)
    requires AcParams(p)
    ensures 0 < p.Ss <= p.Se < 64 && p.Al <= 13
  {
  }

  lemma RefLoopEnd(t: Table, b: Block, k: nat, p: Params, s: Src)
    requires p.Se < 64 && k > p.Se
    ensures RefLoop(t, b, k, p, s) == (b, k, 0, s)
  {
  }

  lemma NewCoefIs(s: Src, p: Params)
    ensures NewCoef(s, p) == Jcoef(if s.Peek(1) == 1 then Pow2(p.Al) else 0 - Pow2(p.Al))
  {
  }

  lemma RunIs(r: nat, s: Src)
    ensures RunLength(r, s) == Pow2(r) + s.Peek(r) > 0
    ensures r == 0 ==> s.Peek(r) == 0 && s.Drop(r) == s
  {
    assert Pow2(0) == 1;
  }

  lemma StartIs(sc: Scan, preds: seq<int>)
    requires |preds| == |sc.dcTbl| && forall i :: 0 <= i < |preds| ==> preds[i] == 0
    ensures State(preds, 0) == StartState(sc)
  {
    assert preds == StartState(sc).preds;
  }

  lemma RestartOf(inp: Input, data: seq<byte>, p: nat, unread: nat, starved: bool, warnings: nat, num: nat)
    requires p <= |data| && unread < 256
    requires inp.marker == Closing(data, p, unread).0 && inp.after == Closing(data, p, unread).1
    requires inp.src.starved == starved && inp.src.warnings == warnings
    ensures ReadRestart(inp, num) == ReadRestart(InputAt(data, p, unread, starved, warnings), num)
  {
  }

  /** The bits before a marker do not matter to whether it is skipped. */
  lemma SkipsAlike(data: seq<byte>, x: Input, x2: Input, y: Input, num: nat, avail: nat)
    requires x.marker == x2.marker && x.after == x2.after
    ensures (SkipsMarker(x, num) <==> SkipsMarker(x2, num)) && (Arrived(data, x, avail) <==> Arrived(data, x2, avail))
    ensures StillSkips(data, x, y, num, avail) <==> StillSkips(data, x2, y, num, avail)
  {
    hide Decide;
  }

  lemma TailByte(data: seq<byte>, p: nat, unread: nat)
    requires p <= |data| && unread < 256
    ensures Closing(data, p, unread).0 < 256
  {
  }

  /** The arrays of a derived table. */
  function Cells(h: Option<DDerivedTbl>): set<object>
  {
    match h
    case None => {}
    case Some(t) => {t.maxcode as object, t.valoffset, t.lookNbits, t.lookSym}
  }

  class Decoder {
    const sc: Scan
    const p: Params := sc.p
    const d: Decompress
    const derived: seq<Option<DDerivedTbl>>    // derived_tbls
    ghost const tbls: Tables
    ghost const cells: set<object>             // the storage of the derived tables
    var EOBRUN: nat
    var lastDc: seq<int>                       // last_dc_val, copied as a whole
    var restartsToGo: nat
    var nextRestartNum: nat                    // kept by the marker reader

    constructor (sc: Scan, d: Decompress, derived: seq<Option<DDerivedTbl>>, ghost tbls: Tables)
      ensures this.sc == sc && this.d == d && this.derived == derived && this.tbls == tbls
      ensures cells == set i, x | 0 <= i < |derived| && x in Cells(derived[i]) :: x
      ensures EOBRUN == 0 && lastDc == seq(|sc.dcTbl|, i => 0) && restartsToGo == sc.interval && nextRestartNum == 0
    {
      cells := set i, x | 0 <= i < |derived| && x in Cells(derived[i]) :: x;
      this.sc, this.d, this.derived, this.tbls := sc, d, derived, tbls;
      EOBRUN, lastDc := 0, seq(|sc.dcTbl|, i => 0);
      restartsToGo, nextRestartNum := sc.interval, 0;
    }

    /** The MCU's blocks are stored elsewhere. */
    ghost predicate Apart(blocks: seq<array<Coef>>)
    {
      Separate(blocks) && (d as object) !in cells && (this as object) !in cells && forall i :: 0 <= i < |blocks| ==> blocks[i] !in cells
    }

    /** Table n is present and derived. */
    ghost predicate Has(n: nat)
      reads cells
    {
      && n < |derived| == |tbls| && derived[n].Some? && derived[n].value.pub == tbls[n]
      && Cells(derived[n]) <= cells && derived[n].value.Valid()
    }

    /** The coefficient loop of decode_mcu_AC_first. */
    method AcFirstLoop(block: array<Coef>, htbl: DDerivedTbl) returns (ok: bool, eobrun: nat, st: BitState)
      requires d.Valid(d.saved) && htbl.Valid() && block.Length == 64 && AcParams(p)
      modifies block, d`unreadMarker, d`insufficientData, d`warnings, d`fake
      ensures var s := old(d.Stream(d.saved));
              && (ok ==> d.Valid(st) && d.Tail(st) == old(d.Tail(d.saved)))
              && (ok ==> (block[..], eobrun, d.Stream(st)) == DecFirst(htbl.pub, old(block[..]), p.Ss, p, s))
              && (!ok ==> Off(old(block[..]), block[..], Writes(htbl.pub, p.Ss, p, s)))
              && (!ok ==> d.warnings == old(d.warnings))
              && (!ok ==> Between(s, DecFirst(htbl.pub, old(block[..]), p.Ss, p, s).2, d.ToCome()))
      ensures !ok ==> d.unreadMarker == 0 && (d.avail < |d.data| || old(d.Tail(d.saved)).0 == 0)
      ensures d.unreadMarker == 0 ==> unchanged(d`unreadMarker, d`insufficientData, d`fake)
    {
      hide *;
      ghost var t, was := htbl.pub, block[..];
      ghost var start := d.Stream(d.saved);
      ghost var goal, at := DecFirst(t, was, p.Ss, p, start), Writes(t, p.Ss, p, start);
      var k := p.Ss;
      st, eobrun, ok := d.saved, 0, true;
      OffSelf(was, at);
      StreamOf(st);
      HandIs(st);
      while k <= p.Se
        invariant d.Valid(st) && htbl.Valid() && d.Tail(st) == old(d.Tail(d.saved))
        invariant DecFirst(t, block[..], k, p, d.Stream(st)) == goal
        invariant Writes(t, k, p, d.Stream(st)) <= at && Off(was, block[..], at)
        invariant d.unreadMarker == 0 ==> unchanged(d`unreadMarker, d`insufficientData, d`fake)
        invariant d.unreadMarker == 0 ==> d.warnings == old(d.warnings)
        invariant |d.Stream(st).bits| <= |start.bits|
        decreases p.Se + 1 - k
      {
        ghost var before, s := block[..], d.Stream(st);
        FirstLater(t, before, k, p, s);
        LaterLeft(s, goal.2);
        StreamOf(st);
        var sym: byte;
        ok, sym, st := d.HuffDecode(st, htbl);
        if !ok {
          Wider(start, s, s, goal.2, d.ToCome());
          return;
        }
        ghost var s1 := d.Stream(st);
        StreamOf(st);
        OnlyZeroWarns(t, s, sym, s1);
        LaterLeft(s1, goal.2);
        FirstMore(t, before, k, p, s, sym, d.Stream(st));
        SymFields(sym);
        var r, z := sym / 16, sym % 16;
        if z != 0 {
          k := k + r;
          var v: nat;
          ok, v, st := d.GetBits(st, z);
          if !ok {
            Wider(start, s1, s1, goal.2, d.ToCome());
            return;
          }
          LeftDrop(s1, z);
          OffWrite(was, before, Clamp(k), at, NewValue(v, z, p.Al));
          NewValueIs(v, z, p.Al);
          block[Clamp(k)] := NewValue(v, z, p.Al);
          assert block[..] == before[Clamp(k) := NewValue(v, z, p.Al)];
        } else if r == 15 {
          k := k + 15;
        } else {
          ok, eobrun, st := ReadRun(st, r);
          if ok { eobrun := eobrun - 1; } else { Wider(start, s1, s1, goal.2, d.ToCome()); }
          return;
        }
        k := k + 1;
      }
      FirstEnd(t, block[..], k, p, d.Stream(st));
    }

    /** An EOBn symbol's run length: 2^r plus r appended bits. */
    method ReadRun(st: BitState, r: nat) returns (ok: bool, run: nat, st': BitState)
      requires d.Valid(st) && r <= 15
      modifies d`unreadMarker, d`insufficientData, d`warnings, d`fake
      ensures !ok ==> d.unreadMarker == 0 && (d.avail < |d.data| || old(d.Tail(st)).0 == 0)
      ensures !ok ==> r > 0 && Between(old(d.Stream(st)), old(d.Stream(st)), d.ToCome())
      ensures d.unreadMarker == 0 ==> unchanged(d)
      ensures d.warnings >= old(d.warnings)
      ensures ok ==> d.Valid(st') && d.Tail(st') == old(d.Tail(st))
      ensures ok ==> run == RunLength(r, old(d.Stream(st))) > 0 && d.Stream(st') == old(d.Stream(st)).Drop(r)
    {
      ghost var s := d.Stream(st);
      hide *;
      HandIs(st);
      RunIs(r, s);
      run := Pow2(r);
      ok, st' := true, st;
      if r > 0 {
        var v: nat;
        ok, v, st' := d.GetBits(st, r);
        if !ok { return; }
        run := run + v;
      }
    }

    /** decode_mcu_AC_first without the restart bookkeeping. */
    method DecodeAcFirst(block: array<Coef>, htbl: DDerivedTbl) returns (ok: bool)
      requires d.Valid(d.saved) && htbl.Valid() && block.Length == 64 && AcParams(p) && p.Ah == 0
      modifies block, this`EOBRUN, d`saved, d`unreadMarker, d`insufficientData, d`warnings, d`fake
      ensures d.Valid(d.saved) && d.Tail(d.saved) == old(d.Tail(d.saved))
      ensures ok ==> (block[..], EOBRUN, d.Stream(d.saved))
                     == AcDecode(htbl.pub, old(block[..]), old(EOBRUN), p, old(d.Stream(d.saved)))
      ensures !ok ==> d.unreadMarker == 0 && (d.avail < |d.data| || d.Tail(d.saved).0 == 0) && EOBRUN == old(EOBRUN)
      ensures !ok ==> Alike(AcDecode(htbl.pub, block[..], EOBRUN, p, d.Stream(d.saved)),
                            AcDecode(htbl.pub, old(block[..]), old(EOBRUN), p, old(d.Stream(d.saved))), old(d.warnings) - d.warnings)
      ensures !ok ==> d.warnings == old(d.warnings)
      ensures !ok ==> GaveUp(AcPoints(htbl.pub, old(block[..]), old(EOBRUN), p, old(d.Stream(d.saved))),
                             AcPoints(htbl.pub, block[..], EOBRUN, p, d.Stream(d.saved)), d.ToCome())
    {
      hide *;
      ghost var was, start, e := block[..], d.Stream(d.saved), EOBRUN;
      StreamIs();
      AcFirstIs(htbl.pub, was, e, p, start);
      ok := true;
      if !d.insufficientData {
        if EOBRUN > 0 {
          EOBRUN := EOBRUN - 1;
        } else {
          var eobrun, st;
          ok, eobrun, st := AcFirstLoop(block, htbl);
          if !ok {
            Suspended(start);
            FirstAgain(htbl.pub, was, block[..], p.Ss, p, start, d.Stream(d.saved), 0);
            AcFirstIs(htbl.pub, block[..], e, p, d.Stream(d.saved));
            AlikeIs(AcDecode(htbl.pub, block[..], EOBRUN, p, d.Stream(d.saved)), AcDecode(htbl.pub, was, e, p, start), 0);
            OneRequest(htbl.pub, was, block[..], e, p, start, d.Stream(d.saved), 0, d.ToCome());
            return;
          }
          d.saved := st;
          EOBRUN := eobrun;
        }
      }
    }

    lemma StreamIs()
      requires d.Valid(d.saved)
      ensures d.Stream(d.saved).starved == d.insufficientData
    {
    }

    lemma StreamOf(st: BitState)
      requires d.Valid(st)
      ensures d.Stream(st).starved == d.insufficientData && d.Stream(st).warnings == d.warnings
    {
    }

    /** A refusal leaves the source where it was. */
    twostate lemma Suspended(start: Src)
      requires old(d.Valid(d.saved)) && start == old(d.Stream(d.saved))
      requires d.saved == old(d.saved) && d.avail == old(d.avail)
      requires unchanged(d`unreadMarker, d`insufficientData, d`fake)
      ensures d.Valid(d.saved) && d.Tail(d.saved) == old(d.Tail(d.saved)) && Same(start, d.Stream(d.saved), d.warnings - old(d.warnings))
      ensures d.Stream(d.saved).starved == d.insufficientData && d.Stream(d.saved).warnings == d.warnings
      ensures start.warnings == old(d.warnings)
    {
    }

    // ---- AC refinement ----

    /** A correction bit for a coefficient that is already nonzero. */
    method CorrectionBit(block: array<Coef>, k: nat, st: BitState) returns (ok: bool, st': BitState)
      requires d.Valid(st) && block.Length == 64 && k < 64 && block[k] != 0
      modifies block, d`unreadMarker, d`insufficientData, d`warnings, d`fake
      ensures !ok ==> d.unreadMarker == 0 && (d.avail < |d.data| || old(d.Tail(st)).0 == 0) && block[..] == old(block[..])
      ensures !ok ==> Between(old(d.Stream(st)), old(d.Stream(st)), d.ToCome())
      ensures d.unreadMarker == 0 ==> unchanged(d)
      ensures d.warnings >= old(d.warnings)
      ensures ok ==> d.Valid(st') && d.Tail(st') == old(d.Tail(st)) && d.Stream(st') == old(d.Stream(st)).Drop(1)
      ensures ok ==> block[..] == old(block[..])[k := Correct(old(block[..])[k], p, old(d.Stream(st)))]
    {
      ghost var was, s := block[..], d.Stream(st);
      hide *;
      HandIs(st);
      var bit: nat;
      ok, bit, st' := d.GetBits(st, 1);
      if !ok { return; }
      CorrectIs(was[k], p, s);
      if bit == 1 {
        if !BitSet(block[k], p.Al) {      // not corrected by an earlier attempt
          if block[k] >= 0 {
            block[k] := Jcoef(block[k] + Pow2(p.Al));
          } else {
            block[k] := Jcoef(block[k] - Pow2(p.Al));
          }
        }
      }
      assert block[..] == was[k := block[k]];
    }

    /** Pass r zero coefficients, correcting the nonzero ones on the way. */
    method SkipZeroes(block: array<Coef>, k0: nat, r0: nat, st0: BitState) returns (ok: bool, k: nat, st: BitState)
      requires d.Valid(st0) && block.Length == 64 && k0 <= p.Se < 64
      modifies block, d`unreadMarker, d`insufficientData, d`warnings, d`fake
      ensures !ok ==> d.unreadMarker == 0 && (d.avail < |d.data| || old(d.Tail(st0)).0 == 0)
      ensures d.unreadMarker == 0 ==> unchanged(d)
      ensures d.warnings >= old(d.warnings)
      ensures ok ==> d.Valid(st) && d.Tail(st) == old(d.Tail(st0))
      ensures ok ==> (block[..], k, d.Stream(st)) == Skip(old(block[..]), k0, r0, p, old(d.Stream(st0)))
      ensures !ok ==> Between(old(d.Stream(st0)), Skip(old(block[..]), k0, r0, p, old(d.Stream(st0))).2, d.ToCome())
      ensures Grown(old(block[..]), block[..], k0, SkipOnes(old(block[..]), k0, r0, p, old(d.Stream(st0))), p.Al)
    {
      hide *;
      ghost var was, s0 := block[..], d.Stream(st0);
      ghost var goal, ones := Skip(was, k0, r0, p, s0), SkipOnes(was, k0, r0, p, s0);
      var r := r0;
      k, st, ok := k0, st0, true;
      HandIs(st);
      GrewStart(was, k0, ones, p.Al);
      while k <= p.Se
        invariant d.Valid(st) && d.Tail(st) == old(d.Tail(st0)) && k0 <= k <= p.Se + 1
        invariant Skip(block[..], k, r, p, d.Stream(st)) == goal
        invariant SkipOnes(block[..], k, r, p, d.Stream(st)) <= ones && Grew(was, block[..], k0, k, ones, p.Al)
        invariant d.unreadMarker == 0 ==> unchanged(d)
        invariant d.warnings >= old(d.warnings) && |d.Stream(st).bits| <= |s0.bits|
      {
        ghost var b, s := block[..], d.Stream(st);
        GrewNext(was, b, k0, k, ones, p.Al);
        if block[k] != 0 {
          SkipNonzero(b, k, r, p, s);
          SkipLater(b, k, r, p, s);
          LaterLeft(s, goal.2);
          GrewCorrect(was, b, k0, k, ones, p, s);
          LeftDrop(s, 1);
          ok, st := CorrectionBit(block, k, st);
          if !ok {
            Wider(s0, s, s, goal.2, d.ToCome());
            return;
          }
        } else {
          SkipZero(b, k, r, p, s);
          if r == 0 { return; }        // block[k] is where the new coefficient goes
          r := r - 1;
        }
        k := k + 1;
      }
      GrewNext(was, block[..], k0, k, ones, p.Al);
      SkipEnd(block[..], k, r, p, d.Stream(st));
    }

    /** A nonzero coefficient where nothing has been changed yet was there before. */
    lemma NonzeroAt(was: Block, b: Block, lo: nat, k: nat, at: set<nat>, p: Params)
      requires Grew(was, b, lo, k, at, p.Al) && lo <= k <= p.Se < 64 && b[k] != 0
      ensures SomeNonzero(was, lo, p)
    {
      assert was[k] != 0;
    }

    /** Correction bits for the rest of the band. */
    method CorrectRest(block: array<Coef>, k0: nat, st0: BitState) returns (ok: bool, st: BitState)
      requires d.Valid(st0) && block.Length == 64 && p.Se < 64
      modifies block, d`unreadMarker, d`insufficientData, d`warnings, d`fake
      ensures !ok ==> d.unreadMarker == 0 && (d.avail < |d.data| || old(d.Tail(st0)).0 == 0)
      ensures d.unreadMarker == 0 ==> unchanged(d)
      ensures d.warnings >= old(d.warnings)
      ensures ok ==> d.Valid(st) && d.Tail(st) == old(d.Tail(st0))
      ensures ok ==> (block[..], d.Stream(st)) == Corrections(old(block[..]), k0, p, old(d.Stream(st0)))
      ensures !ok ==> SomeNonzero(old(block[..]), k0, p)
      ensures !ok ==> Between(old(d.Stream(st0)), Corrections(old(block[..]), k0, p, old(d.Stream(st0))).1, d.ToCome())
      ensures Grown(old(block[..]), block[..], k0, CorrOnes(old(block[..]), k0, p, old(d.Stream(st0))), p.Al)
    {
      hide *;
      ghost var was, s0 := block[..], d.Stream(st0);
      ghost var goal, ones := Corrections(was, k0, p, s0), CorrOnes(was, k0, p, s0);
      var k := k0;
      st, ok := st0, true;
      HandIs(st);
      GrewStart(was, k0, ones, p.Al);
      while k <= p.Se
        invariant d.Valid(st) && d.Tail(st) == old(d.Tail(st0)) && k0 <= k
        invariant Corrections(block[..], k, p, d.Stream(st)) == goal
        invariant CorrOnes(block[..], k, p, d.Stream(st)) <= ones && Grew(was, block[..], k0, k, ones, p.Al)
        invariant d.unreadMarker == 0 ==> unchanged(d)
        invariant d.warnings >= old(d.warnings) && |d.Stream(st).bits| <= |s0.bits|
      {
        ghost var b, s := block[..], d.Stream(st);
        GrewNext(was, b, k0, k, ones, p.Al);
        if block[k] != 0 {
          CorrNonzero(b, k, p, s);
          CorrLater(b, k, p, s);
          LaterLeft(s, goal.1);
          NonzeroAt(was, b, k0, k, ones, p);
          GrewCorrect(was, b, k0, k, ones, p, s);
          LeftDrop(s, 1);
          ok, st := CorrectionBit(block, k, st);
          if !ok {
            Wider(s0, s, s, goal.1, d.ToCome());
            return;
          }
        } else {
          CorrZero(b, k, p, s);
        }
        k := k + 1;
      }
      GrewNext(was, block[..], k0, k, ones, p.Al);
      CorrEnd(block[..], k, p, d.Stream(st));
    }

    /** The coefficient loop of decode_mcu_AC_refine. */
    method RefineLoop(block: array<Coef>, htbl: DDerivedTbl, newnzPos: array<nat>)
      returns (ok: bool, k: nat, eobrun: nat, num: nat, st: BitState)
      requires d.Valid(d.saved) && htbl.Valid() && block.Length == newnzPos.Length == 64 && AcParams(p)
      requires newnzPos != htbl.lookNbits
      modifies block, newnzPos, d`unreadMarker, d`insufficientData, d`warnings, d`fake
      ensures !ok ==> d.unreadMarker == 0 && (d.avail < |d.data| || old(d.Tail(d.saved)).0 == 0)
      ensures d.unreadMarker == 0 ==> unchanged(d`unreadMarker, d`insufficientData, d`fake)
      ensures ok ==> d.Valid(st) && d.Tail(st) == old(d.Tail(d.saved)) && num <= 64
      ensures ok ==> (block[..], k, eobrun, d.Stream(st)) == RefLoop(htbl.pub, old(block[..]), p.Ss, p, old(d.Stream(d.saved)))
      ensures !ok ==> Stops(RunPoints(htbl.pub, old(block[..]), p.Ss, p, old(d.Stream(d.saved))), d.warnings, d.ToCome())
      ensures ok && eobrun > 0 ==> Upcoming(RunPoints(htbl.pub, old(block[..]), p.Ss, p, old(d.Stream(d.saved))),
                                        BandPoints(block[..], k, p, d.Stream(st)))
      ensures d.warnings >= old(d.warnings)
      ensures var ones, was := RefOnes(htbl.pub, old(block[..]), p.Ss, p, old(d.Stream(d.saved))), old(block[..]);
              && (!ok ==> num <= 64 && Undoable(was, block[..], Positions(newnzPos[..num]), p.Ss, ones, p.Al))
              && (ok && eobrun > 0 ==> Tried(was, block[..], Positions(newnzPos[..num]), k, p.Ss, ones, p.Al)
                                       && CorrOnes(block[..], k, p, d.Stream(st)) <= ones)
    {
      hide *;
      AcRange(p);
      ghost var t, was, s0 := htbl.pub, block[..], d.Stream(d.saved);
      ghost var goal, ones := RefLoop(t, was, p.Ss, p, s0), RefOnes(t, was, p.Ss, p, s0);
      ghost var points := RunPoints(t, was, p.Ss, p, s0);
      UpcomingSelf(points);
      k, eobrun, num, st, ok := p.Ss, 0, 0, d.saved, true;
      HandIs(st);
      TriedStart(was, p.Ss, ones, p.Al);
      PositionsSnoc([], 0);
      assert newnzPos[..0] == [];
      StreamOf(st);
      while k <= p.Se
        invariant d.Valid(st) && htbl.Valid() && d.Tail(st) == old(d.Tail(d.saved)) && p.Ss <= k && num <= k - p.Ss && num <= 64
        invariant RefLoop(t, block[..], k, p, d.Stream(st)) == goal
        invariant RefOnes(t, block[..], k, p, d.Stream(st)) <= ones
        invariant Upcoming(points, RunPoints(t, block[..], k, p, d.Stream(st)))
        invariant k <= p.Se ==> Tried(was, block[..], Positions(newnzPos[..num]), k, p.Ss, ones, p.Al)
        invariant d.unreadMarker == 0 ==> unchanged(d`unreadMarker, d`insufficientData, d`fake)
        invariant d.warnings >= old(d.warnings)
        decreases p.Se + 1 - k
      {
        ghost var b, s, newnz := block[..], d.Stream(st), Positions(newnzPos[..num]);
        TriedUndoable(was, b, newnz, k, p.Ss, ones, p.Al);
        StreamOf(st);
        var sym: byte;
        ok, sym, st := d.HuffDecode(st, htbl);
        if !ok {
          StopsAtSymbol(t, b, k, p, s, points, d.ToCome());
          return;
        }
        ghost var s1 := d.Stream(st);
        StreamOf(st);
        OnlyZeroWarns(t, s, sym, s1);
        PointsAtSymbol(t, b, k, p, s, sym, s1);
        RefLoopMore(t, b, k, p, s, sym, s1);
        RefOnesMore(t, b, k, p, s, sym, s1);
        SymFields(sym);
        var r, z := sym / 16, sym % 16;
        if z == 0 && r != 15 {
          LeftDrop(s1, r);
          ok, eobrun, st := ReadRun(st, r);
          if ok {
            UpcomingNext(points, s, BandPoints(b, k, p, s1.Drop(r)));
          } else {
            Wider(s, s1, s1, s1.Drop(r), d.ToCome());
            StopsAtHead(points, s, BandPoints(b, k, p, s1.Drop(r)), d.ToCome());
          }
          return;
        }
        WarnedIs(s1, z);
        ghost var next := StepRest(t, b, k, r, z, p, s1);
        StepRestIs(t, b, k, r, z, p, s1);
        ok, k, num, st := RefineStep(block, newnzPos, r, z, k, num, st, was, ones);
        if !ok {
          StopsInStep(s, s1, z, next, points, d.ToCome());
          return;
        }
        if z > 0 { UpcomingNext(points, s, [Warned(s1, z)] + next); UpcomingNext(points, Warned(s1, z), next); } else { UpcomingNext(points, s, next); }
      }
      RefLoopEnd(t, block[..], k, p, d.Stream(st));
    }

    /** One symbol that is not an end-of-band: its sign bit, the skipping, the new coefficient. */
    method RefineStep(block: array<Coef>, newnzPos: array<nat>, r: nat, z: nat, k0: nat, num0: nat, st0: BitState,
                      ghost was: Block, ghost ones: set<nat>)
      returns (ok: bool, k: nat, num: nat, st: BitState)
      requires d.Valid(st0) && block.Length == newnzPos.Length == 64 && AcParams(p) && p.Ss <= k0 <= p.Se
      requires num0 <= k0 - p.Ss && num0 < 64 && Tried(was, block[..], Positions(newnzPos[..num0]), k0, p.Ss, ones, p.Al)
      requires SkipOnes(block[..], k0, r, p, if z > 0 then Warned(d.Stream(st0), z).Drop(1) else d.Stream(st0)) <= ones
      modifies block, newnzPos, d`unreadMarker, d`insufficientData, d`warnings, d`fake
      ensures !ok ==> d.unreadMarker == 0 && (d.avail < |d.data| || old(d.Tail(st0)).0 == 0)
      ensures d.unreadMarker == 0 ==> unchanged(d`unreadMarker, d`insufficientData, d`fake)
      ensures !ok ==> d.warnings == Warned(old(d.Stream(st0)), z).warnings
      ensures var s2 := Warned(old(d.Stream(st0)), z);
              !ok ==> Between(s2, Skip(old(block[..]), k0, r, p, if z > 0 then s2.Drop(1) else s2).2, d.ToCome())
      ensures d.warnings >= old(d.warnings)
      ensures num <= 64 && (!ok ==> Undoable(was, block[..], Positions(newnzPos[..num]), p.Ss, ones, p.Al))
      ensures ok ==> d.Valid(st) && d.Tail(st) == old(d.Tail(st0)) && num <= k - p.Ss && k > k0
      ensures ok ==>
        var s2 := Warned(old(d.Stream(st0)), z);
        var (d1, k1, s4) := Skip(old(block[..]), k0, r, p, if z > 0 then s2.Drop(1) else s2);
        k == k1 + 1 && d.Stream(st) == s4 && block[..] == if z > 0 then d1[Clamp(k1) := NewCoef(s2, p)] else d1
      ensures ok && k <= p.Se ==> Tried(was, block[..], Positions(newnzPos[..num]), k, p.Ss, ones, p.Al)
    {
      hide *;
      ghost var b, s1, newnz := block[..], d.Stream(st0), Positions(newnzPos[..num0]);
      ghost var s2 := Warned(s1, z);
      ghost var s3 := if z > 0 then s2.Drop(1) else s2;
      WarnedIs(s1, z);
      StreamOf(st0);
      WarnedCount(s1);
      AcRange(p);
      SkipLater(b, k0, r, p, s3);
      LaterLeft(s3, Skip(b, k0, r, p, s3).2);
      LeftDrop(s2, 1);
      HandIs(st0);
      TriedUndoable(was, b, newnz, k0, p.Ss, ones, p.Al);
      ok, k, num, st := true, k0, num0, st0;
      var v: Coef := 0;
      if z != 0 {
        if z != 1 { d.Warn(st); }
        ok, v, st := NewSign(st);
        if !ok {
          Wider(s2, s2, s2, Skip(b, k0, r, p, s3).2, d.ToCome());
          return;
        }
      }
      ok, k, st := SkipZeroes(block, k0, r, st);
      ghost var here := SkipOnes(b, k0, r, p, s3);
      TriedMore(was, b, block[..], newnz, k0, p.Ss, here, ones, p.Al);
      if !ok {
        Wider(s2, s3, Skip(b, k0, r, p, s3).2, Skip(b, k0, r, p, s3).2, d.ToCome());
        return;
      }
      SkipOnesBounds(b, k0, r, p, s3);
      SkipBounds(b, k0, r, p, s3);
      SkipStops(b, k0, r, p, s3);
      ghost var c := block[..];
      TriedSkip(was, b, c, newnz, k0, k, p.Ss, here, ones, p.Al);
      TriedNext(was, c, newnz, k, p.Ss, ones, p.Al);
      if z != 0 {
        ClampIs(k);
        if k <= p.Se { TriedNew(was, c, newnz, k, p.Ss, ones, p.Al, v); }
        var pos := Clamp(k);
        block[pos] := v;
        assert block[..] == c[pos := v];
        ghost var before := newnzPos[..num];
        newnzPos[num] := pos;
        num := num + 1;
        assert newnzPos[..num] == before + [pos];
        PositionsSnoc(before, pos);
      }
      k := k + 1;
    }

    /** The sign bit of a newly nonzero coefficient. */
    method NewSign(st: BitState) returns (ok: bool, v: Coef, st': BitState)
      requires d.Valid(st)
      modifies d`unreadMarker, d`insufficientData, d`warnings, d`fake
      ensures !ok ==> d.unreadMarker == 0 && (d.avail < |d.data| || old(d.Tail(st)).0 == 0)
      ensures !ok ==> Between(old(d.Stream(st)), old(d.Stream(st)), d.ToCome())
      ensures d.unreadMarker == 0 ==> unchanged(d)
      ensures d.warnings >= old(d.warnings)
      ensures ok ==> d.Valid(st') && d.Tail(st') == old(d.Tail(st)) && d.Stream(st') == old(d.Stream(st)).Drop(1)
      ensures ok ==> v == NewCoef(old(d.Stream(st)), p)
    {
      ghost var s := d.Stream(st);
      hide *;
      HandIs(st);
      NewCoefIs(s, p);
      v := 0;
      var bit: nat;
      ok, bit, st' := d.GetBits(st, 1);
      if !ok { return; }
      v := Jcoef(if bit == 1 then Pow2(p.Al) else 0 - Pow2(p.Al));
    }

    /** undoit: re-zero the coefficients this attempt made nonzero. */
    method Undo(block: array<Coef>, newnzPos: array<nat>, num0: nat)
      requires block.Length == newnzPos.Length == 64 && num0 <= 64 && forall x :: x in Positions(newnzPos[..num0]) ==> x < 64
      modifies block
      ensures block[..] == Undone(old(block[..]), Positions(newnzPos[..num0]))
    {
      var num := num0;
      while num > 0
        invariant 0 <= num <= num0
        invariant forall j :: 0 <= j < 64 ==> block[j] == if j in newnzPos[num..num0] then 0 else old(block[j])
      {
        num := num - 1;
        assert newnzPos[..num0][num] in Positions(newnzPos[..num0]);
        block[newnzPos[num]] := 0;
        assert newnzPos[num..num0] == [newnzPos[num]] + newnzPos[num + 1..num0];
      }
    }

    /** decode_mcu_AC_refine without the restart bookkeeping. */
    method DecodeAcRefine(block: array<Coef>, htbl: DDerivedTbl) returns (ok: bool)
      requires d.Valid(d.saved) && htbl.Valid() && block.Length == 64 && AcParams(p) && p.Ah != 0
      modifies block, this`EOBRUN, d`saved, d`unreadMarker, d`insufficientData, d`warnings, d`fake
      ensures d.Valid(d.saved) && d.Tail(d.saved) == old(d.Tail(d.saved))
      ensures ok ==> (block[..], EOBRUN, d.Stream(d.saved))
                     == AcDecode(htbl.pub, old(block[..]), old(EOBRUN), p, old(d.Stream(d.saved)))
      ensures !ok ==> d.unreadMarker == 0 && (d.avail < |d.data| || d.Tail(d.saved).0 == 0) && EOBRUN == old(EOBRUN)
      ensures !ok ==> Alike(AcDecode(htbl.pub, block[..], EOBRUN, p, d.Stream(d.saved)),
                            AcDecode(htbl.pub, old(block[..]), old(EOBRUN), p, old(d.Stream(d.saved))), old(d.warnings) - d.warnings)
      ensures !ok ==> GaveUp(AcPoints(htbl.pub, old(block[..]), old(EOBRUN), p, old(d.Stream(d.saved))),
                             AcPoints(htbl.pub, block[..], EOBRUN, p, d.Stream(d.saved)), d.ToCome())
    {
      hide *;
      AcRange(p);
      ghost var was, start, e := block[..], d.Stream(d.saved), EOBRUN;
      ghost var goal := AcDecode(htbl.pub, was, e, p, start);
      StreamIs();
      AcRefineIs(htbl.pub, was, e, p, start);
      ok := true;
      if !d.insufficientData {
        var newnzPos := new nat[64];
        var num, eobrun, k, st: BitState := 0, EOBRUN, p.Ss, d.saved;
        ghost var ones := BlockOnes(htbl.pub, was, e, p, start);
        BlockOnesIs(htbl.pub, was, e, p, start);
        TriedStart(was, p.Ss, ones, p.Al);
        assert newnzPos[..0] == [];
        PositionsSnoc([], 0);
        StreamOf(st);
        ghost var points := AcPoints(htbl.pub, was, e, p, start);
        HandIs(st);
        AcPointsIs(htbl.pub, was, e, p, start);
        if EOBRUN == 0 {
          ok, k, eobrun, num, st := RefineLoop(block, htbl, newnzPos);
        }
        if ok { FinishIs(block[..], k, eobrun, d.Stream(st), p); }
        if ok && eobrun > 0 {
          ghost var b, newnz, here := block[..], Positions(newnzPos[..num]), CorrOnes(block[..], k, p, d.Stream(st));
          ghost var cur := d.Stream(st);
          StreamOf(st);
          ok, st := CorrectRest(block, k, st);
          if !ok { StopsInBand(b, k, p, cur, e, points, goal.2, d.ToCome()); }
          TriedMore(was, b, block[..], newnz, k, p.Ss, here, ones, p.Al);
          eobrun := eobrun - 1;
        }
        if !ok {
          UndoableIs(was, block[..], Positions(newnzPos[..num]), p.Ss, ones, p.Al);
          Undo(block, newnzPos, num);
          Suspended(start);
          Again(htbl.pub, was, block[..], e, p, start, d.Stream(d.saved), d.warnings - old(d.warnings));
          RetryPoints(htbl.pub, was, block[..], e, p, start, d.Stream(d.saved), d.warnings - old(d.warnings), d.ToCome());
          return;
        }
        d.saved := st;
        EOBRUN := eobrun;
      }
    }

    // ---- DC scans ----

    /** One DC coefficient of a first scan. */
    method DecodeDiff(st: BitState, n: nat, ghost s: Src) returns (ok: bool, v: int, st': BitState)
      requires d.Valid(st) && Has(n) && LegalD(tbls[n], true) && s == d.Stream(st)
      modifies d`unreadMarker, d`insufficientData, d`warnings, d`fake
      ensures !ok ==> d.unreadMarker == 0 && (d.avail < |d.data| || old(d.Tail(st)).0 == 0)
      ensures !ok ==> d.warnings == old(d.warnings) && Between(s, AfterDc(tbls[n], s), d.ToCome())
      ensures d.warnings >= old(d.warnings)
      ensures d.unreadMarker == 0 ==> unchanged(d`unreadMarker, d`insufficientData, d`fake)
      ensures ok ==> d.Valid(st') && d.Tail(st') == old(d.Tail(st))
      ensures ok ==> var (z, s1) := DecodeSym(tbls[n], s); v == DcScan.DiffValue(z, s1) && d.Stream(st') == s1.Drop(z)
    {
      hide *;
      UseTable(n);
      SmallSymbol(tbls[n], s);
      DiffLater(tbls[n], s);
      StreamOf(st);
      var z: byte;
      v := 0;
      HandIs(st);
      ok, z, st' := d.HuffDecode(st, derived[n].value);
      if !ok {
        Wider(s, s, s, AfterDc(tbls[n], s), d.ToCome());
        return;
      }
      ghost var s1 := d.Stream(st');
      StreamOf(st');
      DiffIs(z, s1);
      var r: nat := 0;
      if z != 0 {
        ok, r, st' := d.GetBits(st', z);
        if !ok {
          Wider(s, s1, s1, AfterDc(tbls[n], s), d.ToCome());
          return;
        }
        v := Extend(r, z);
      }
    }

    /** What is left after a difference, and how many warnings its symbol gave. */
    lemma DiffLater(t: Table, s: Src)
      ensures var (z, s1) := DecodeSym(t, s);
              && |AfterDc(t, s).bits| <= |s1.bits| <= |s.bits|
              && (z != 0 && s1.starved == s.starved ==> s1.warnings == s.warnings)
      ensures MIN_GET_BITS <= MAX_AT_HAND
    {
      hide DecodeSym;
      LaterSym(t, s);
    }

    lemma UseTable(n: nat)
      requires Has(n)
      ensures n < |derived| == |tbls| && derived[n].Some? && derived[n].value.Valid() && derived[n].value.pub == tbls[n]
    {
    }

    /** Every component's table is ready for a first DC scan. */
    ghost predicate DcReady()
      reads cells
    {
      forall c :: 0 <= c < |sc.dcTbl| ==> Has(sc.dcTbl[c]) && LegalD(tbls[sc.dcTbl[c]], true)
    }

    /** Store a DC coefficient, completing block i. */
    method StoreDc(blocks: seq<array<Coef>>, i: nat, v: Coef, ghost was: Mcu, ghost rs: Mcu)
      requires Apart(blocks) && PartDone(blocks, was, rs, i) && i < |blocks| && rs[i] == was[i][0 := v] && DcReady()
      modifies blocks[i]
      ensures PartDone(blocks, was, rs, i + 1) && DcReady()
    {
      SetDc(blocks, i, v, was, rs);
    }

    lemma ApartIs(blocks: seq<array<Coef>>)
      requires Apart(blocks)
      ensures Separate(blocks) && (d as object) !in cells && (this as object) !in cells
    {
    }

    lemma PartIs(blocks: seq<array<Coef>>, was: Mcu, rs: Mcu, n: nat)
      requires Separate(blocks) && PartDone(blocks, was, rs, n) && n <= |blocks|
      ensures Mixed(was, Contents(blocks), rs) && (n == |blocks| ==> Contents(blocks) == rs)
    {
    }

    lemma PartStart(blocks: seq<array<Coef>>, rs: Mcu)
      requires Separate(blocks) && |rs| == |blocks|
      ensures PartDone(blocks, Contents(blocks), rs, 0)
    {
    }

    lemma DcTable(c: nat)
      requires DcReady() && c < |sc.dcTbl|
      ensures Has(sc.dcTbl[c]) && sc.dcTbl[c] < |tbls| && LegalD(tbls[sc.dcTbl[c]], true)
    {
    }

    /** The outer loop of decode_mcu_DC_first, on a working copy of the predictions. */
    method DcFirstLoop(blocks: seq<array<Coef>>, ghost was: Mcu, ghost goal: (Mcu, seq<int>, Src))
      returns (ok: bool, state: seq<int>, st: BitState)
      requires d.Valid(d.saved) && Apart(blocks) && DcReady() && was == Contents(blocks) && DcShape(sc, tbls, was, lastDc)
      requires goal == RestRun(sc, tbls, was, 0, lastDc, d.Stream(d.saved)) && |goal.0| == |was|
      modifies blocks, d`unreadMarker, d`insufficientData, d`warnings, d`fake
      ensures !ok ==> d.unreadMarker == 0 && (d.avail < |d.data| || old(d.Tail(d.saved)).0 == 0) && Mixed(was, Contents(blocks), goal.0)
      ensures DcTables(sc, tbls) && (!ok ==> Stops(DcPoints(sc, tbls, 0, old(d.Stream(d.saved))), d.warnings, d.ToCome()))
      ensures d.unreadMarker == 0 ==> unchanged(d`unreadMarker, d`insufficientData, d`fake)
      ensures ok ==> d.Valid(st) && d.Tail(st) == old(d.Tail(d.saved)) && DcShape(sc, tbls, was, state)
      ensures ok ==> (Contents(blocks), state, d.Stream(st)) == goal
    {
      hide *;
      ApartIs(blocks);
      PartStart(blocks, goal.0);
      assert goal.0[0..] == goal.0;
      var blkn := 0;
      ok, state, st := true, lastDc, d.saved;
      ghost var start := d.Stream(st);
      StreamOf(st);
      TablesIn(sc, tbls, was, state);
      HandIs(st);
      ghost var points := DcPoints(sc, tbls, 0, start);
      UpcomingSelf(points);
      while blkn < |blocks|
        invariant 0 <= blkn <= |blocks| && DcShape(sc, tbls, was, state) && DcReady()
        invariant d.Valid(st) && d.Tail(st) == old(d.Tail(d.saved))
        invariant Upcoming(points, DcPoints(sc, tbls, blkn, d.Stream(st)))
        invariant RestRun(sc, tbls, was, blkn, state, d.Stream(st)) == (goal.0[blkn..], goal.1, goal.2)
        invariant PartDone(blocks, was, goal.0, blkn)
        invariant d.unreadMarker == 0 ==> unchanged(d`unreadMarker, d`insufficientData, d`fake)
      {
        PartIs(blocks, was, goal.0, blkn);
        ghost var s := d.Stream(st);
        StreamOf(st);
        ok, state, st := DcFirstStep(blocks, blkn, state, st, was, goal);
        if !ok {
          DcStops(sc, tbls, blkn, s, points, d.ToCome());
          return;
        }
        DcUpcoming(sc, tbls, blkn, s, points);
        blkn := blkn + 1;
      }
      PartIs(blocks, was, goal.0, blkn);
      RestRunEnd(sc, tbls, was, state, d.Stream(st));
    }

    /** One block of that loop. */
    method DcFirstStep(blocks: seq<array<Coef>>, blkn: nat, state0: seq<int>, st0: BitState, ghost was: Mcu, ghost goal: (Mcu, seq<int>, Src))
      returns (ok: bool, state: seq<int>, st: BitState)
      requires d.Valid(st0) && Apart(blocks) && DcReady() && DcShape(sc, tbls, was, state0) && blkn < |blocks| == |was| == |goal.0|
      requires RestRun(sc, tbls, was, blkn, state0, d.Stream(st0)) == (goal.0[blkn..], goal.1, goal.2)
      requires PartDone(blocks, was, goal.0, blkn)
      modifies blocks, d`unreadMarker, d`insufficientData, d`warnings, d`fake
      ensures !ok ==> d.unreadMarker == 0 && (d.avail < |d.data| || old(d.Tail(st0)).0 == 0) && Contents(blocks) == old(Contents(blocks))
      ensures DcTables(sc, tbls) && blkn < |sc.members|
      ensures !ok ==> d.warnings == old(d.warnings)
      ensures var after := AfterDc(tbls[sc.dcTbl[sc.members[blkn]]], old(d.Stream(st0)));
              if ok then d.Valid(st) && d.Stream(st) == after else Between(old(d.Stream(st0)), after, d.ToCome())
      ensures d.unreadMarker == 0 ==> unchanged(d`unreadMarker, d`insufficientData, d`fake)
      ensures ok ==> d.Valid(st) && d.Tail(st) == old(d.Tail(st0)) && DcShape(sc, tbls, was, state) && DcReady()
      ensures ok ==> RestRun(sc, tbls, was, blkn + 1, state, d.Stream(st)) == (goal.0[blkn + 1..], goal.1, goal.2)
      ensures ok ==> PartDone(blocks, was, goal.0, blkn + 1)
    {
      hide *;
      ApartIs(blocks);
      ghost var s := d.Stream(st0);
      TablesIn(sc, tbls, was, state0);
      ShapeAt(sc, tbls, was, state0, blkn);
      var ci := sc.members[blkn];
      DcTable(ci);
      AfterIs(tbls[sc.dcTbl[ci]], s);
      RestRunNext(sc, tbls, was, blkn, state0, s, DecodeSym(tbls[sc.dcTbl[ci]], s).0, DecodeSym(tbls[sc.dcTbl[ci]], s).1);
      state := state0;
      var v: int;
      ok, v, st := DecodeDiff(st0, sc.dcTbl[ci], s);
      if !ok { return; }
      v := v + state0[ci];
      ShapeSet(sc, tbls, was, state0, ci, v);
      state := state0[ci := v];
      TailOf(goal.0, blkn, was[blkn][0 := Jcoef(Shl(v, sc.p.Al))], RestRun(sc, tbls, was, blkn + 1, state, d.Stream(st)).0);
      StoreDc(blocks, blkn, Jcoef(Shl(v, sc.p.Al)), was, goal.0);
    }

    /** decode_mcu_DC_first without the restart bookkeeping: the working predictions are
        stored back only when the MCU is complete. */
    method DecodeDcFirst(blocks: seq<array<Coef>>) returns (ok: bool)
      requires d.Valid(d.saved) && Apart(blocks) && DcReady() && DcShape(sc, tbls, Contents(blocks), lastDc)
      modifies blocks, this`lastDc, d`saved, d`unreadMarker, d`insufficientData, d`warnings, d`fake
      ensures d.Valid(d.saved) && d.Tail(d.saved) == old(d.Tail(d.saved)) && DcShape(sc, tbls, Contents(blocks), lastDc)
      ensures ok ==> (Contents(blocks), lastDc, d.Stream(d.saved))
                     == DcFirstRun(sc, tbls, old(Contents(blocks)), old(lastDc), old(d.Stream(d.saved)))
      ensures !ok ==> d.unreadMarker == 0 && (d.avail < |d.data| || d.Tail(d.saved).0 == 0) && lastDc == old(lastDc)
      ensures !ok ==> Alike3(DcFirstRun(sc, tbls, Contents(blocks), lastDc, d.Stream(d.saved)),
                             DcFirstRun(sc, tbls, old(Contents(blocks)), old(lastDc), old(d.Stream(d.saved))), old(d.warnings) - d.warnings)
      ensures DcTables(sc, tbls)
      ensures !ok ==> !old(d.insufficientData) && !d.insufficientData
      ensures !ok ==> GaveUp(DcPoints(sc, tbls, 0, old(d.Stream(d.saved))), DcPoints(sc, tbls, 0, d.Stream(d.saved)), d.ToCome())
    {
      hide *;
      ApartIs(blocks);
      ghost var was, start, preds := Contents(blocks), d.Stream(d.saved), lastDc;
      StreamIs();
      DcFirstRunIs(sc, tbls, was, preds, start);
      TablesIn(sc, tbls, was, preds);
      ok := true;
      if !d.insufficientData {
        RestRunLength(sc, tbls, was, 0, preds, start);
        var state, st;
        ok, state, st := DcFirstLoop(blocks, was, RestRun(sc, tbls, was, 0, preds, start));
        if !ok {
          Suspended(start);
          ShapeSame(sc, tbls, was, Contents(blocks), preds);
          ghost var dw := d.warnings - old(d.warnings);
          DcFirstRunAgain(sc, tbls, was, Contents(blocks), preds, start, d.Stream(d.saved), dw);
          Alike3Is(DcFirstRun(sc, tbls, Contents(blocks), preds, d.Stream(d.saved)), DcFirstRun(sc, tbls, was, preds, start), 0 - dw);
          DcPointsAgain(sc, tbls, 0, start, d.Stream(d.saved), dw);
          GaveUpIs(DcPoints(sc, tbls, 0, start), DcPoints(sc, tbls, 0, d.Stream(d.saved)), d.ToCome());
          SameLength(DcPoints(sc, tbls, 0, start), DcPoints(sc, tbls, 0, d.Stream(d.saved)), dw);
          return;
        }
        ShapeSame(sc, tbls, was, Contents(blocks), state);
        d.saved := st;
        lastDc := state;
      }
    }

    /** decode_mcu_DC_refine without the restart bookkeeping; there is no check for the end
        of the data, since zeroes change nothing. */
    method DecodeDcRefine(blocks: seq<array<Coef>>) returns (ok: bool)
      requires d.Valid(d.saved) && Separate(blocks) && p.Al <= 13
      modifies blocks, d`saved, d`unreadMarker, d`insufficientData, d`warnings, d`fake
      ensures d.Valid(d.saved) && d.Tail(d.saved) == old(d.Tail(d.saved))
      ensures ok ==> (Contents(blocks), d.Stream(d.saved)) == DcScan.DecRefine(old(Contents(blocks)), p.Al, old(d.Stream(d.saved)))
      ensures !ok ==> d.unreadMarker == 0 && (d.avail < |d.data| || d.Tail(d.saved).0 == 0)
      ensures !ok ==>
        var x, y := DcScan.DecRefine(Contents(blocks), p.Al, d.Stream(d.saved)),
                    DcScan.DecRefine(old(Contents(blocks)), p.Al, old(d.Stream(d.saved)));
        && x.0 == y.0 && Same(x.1, y.1, old(d.warnings) - d.warnings) && d.warnings == old(d.warnings)
        && GaveUp([old(d.Stream(d.saved)), y.1], [d.Stream(d.saved), x.1], d.ToCome())
    {
      hide *;
      ghost var was, start := Contents(blocks), d.Stream(d.saved);
      ghost var goal := DcScan.DecRefine(was, p.Al, start);
      RestRefineEnds(was, p.Al, start);
      RefineLength(was, p.Al, start);
      PartStart(blocks, goal.0);
      assert goal.0[0..] == goal.0;
      var st, blkn := d.saved, 0;
      ok := true;
      HandIs(st);
      while blkn < |blocks|
        modifies blocks, d`unreadMarker, d`insufficientData, d`warnings, d`fake
        invariant 0 <= blkn <= |blocks| && d.Valid(st) && d.Tail(st) == old(d.Tail(d.saved))
        invariant RestRefine(was, blkn, p.Al, d.Stream(st)) == (goal.0[blkn..], goal.1)
        invariant PartDone(blocks, was, goal.0, blkn)
        invariant d.unreadMarker == 0 ==> unchanged(d)
        invariant ok && |d.Stream(st).bits| <= |start.bits|
      {
        PartIs(blocks, was, goal.0, blkn);
        ghost var s := d.Stream(st);
        RefineLeft(was, blkn, p.Al, s);
        LeftDrop(s, 1);
        ok, st := DcRefineStep(blocks, blkn, st, was, goal);
        if !ok {
          Wider(start, s, s, goal.1, d.ToCome());
          break;
        }
        blkn := blkn + 1;
      }
      if !ok {
        PartIs(blocks, was, goal.0, blkn);
        Suspended(start);
        DcRefineAgain(was, Contents(blocks), p.Al, start, d.Stream(d.saved), 0);
        SameBack(DcScan.DecRefine(was, p.Al, start).1, DcScan.DecRefine(Contents(blocks), p.Al, d.Stream(d.saved)).1, 0);
        BitsOnly(start, d.Stream(d.saved), goal.1, DcScan.DecRefine(Contents(blocks), p.Al, d.Stream(d.saved)).1, d.ToCome());
        return;
      }
      PartIs(blocks, was, goal.0, blkn);
      RestRefineEnds(was, p.Al, d.Stream(st));
      d.saved := st;
    }

    /** One block: the bit is set if it comes as 1, and left alone otherwise. */
    method DcRefineStep(blocks: seq<array<Coef>>, blkn: nat, st0: BitState, ghost was: Mcu, ghost goal: (Mcu, Src))
      returns (ok: bool, st: BitState)
      requires d.Valid(st0) && Separate(blocks) && blkn < |blocks| == |was| == |goal.0|
      requires RestRefine(was, blkn, p.Al, d.Stream(st0)) == (goal.0[blkn..], goal.1)
      requires PartDone(blocks, was, goal.0, blkn)
      modifies blocks, d`unreadMarker, d`insufficientData, d`warnings, d`fake
      ensures !ok ==> d.unreadMarker == 0 && (d.avail < |d.data| || old(d.Tail(st0)).0 == 0) && PartDone(blocks, was, goal.0, blkn)
      ensures !ok ==> Between(old(d.Stream(st0)), old(d.Stream(st0)), d.ToCome())
      ensures d.unreadMarker == 0 ==> unchanged(d)
      ensures ok ==> d.Valid(st) && d.Tail(st) == old(d.Tail(st0)) && d.Stream(st) == old(d.Stream(st0)).Drop(1)
      ensures ok ==> RestRefine(was, blkn + 1, p.Al, d.Stream(st)) == (goal.0[blkn + 1..], goal.1)
      ensures ok ==> PartDone(blocks, was, goal.0, blkn + 1)
    {
      hide *;
      ghost var s := d.Stream(st0);
      HandIs(st0);
      RestRefineNext(was, blkn, p.Al, s);
      PartAt(blocks, was, goal.0, blkn);
      var bit: nat;
      ok, bit, st := d.GetBits(st0, 1);
      if !ok { return; }
      var v := if bit == 1 then DcScan.SetBit(blocks[blkn][0], p.Al) else blocks[blkn][0];
      assert was[blkn][0 := was[blkn][0]] == was[blkn];
      TailOf(goal.0, blkn, was[blkn][0 := v], RestRefine(was, blkn + 1, p.Al, d.Stream(st)).0);
      SetDc(blocks, blkn, v, was, goal.0);
    }

    lemma PartAt(blocks: seq<array<Coef>>, was: Mcu, rs: Mcu, i: nat)
      requires Separate(blocks) && PartDone(blocks, was, rs, i) && i < |blocks|
      ensures blocks[i].Length == 64 && blocks[i][0] == was[i][0]
    {
    }

    method SetDc(blocks: seq<array<Coef>>, i: nat, v: Coef, ghost was: Mcu, ghost rs: Mcu)
      requires Separate(blocks) && PartDone(blocks, was, rs, i) && i < |blocks| && rs[i] == was[i][0 := v]
      modifies blocks[i]
      ensures PartDone(blocks, was, rs, i + 1)
    {
      blocks[i][0] := v;
      assert blocks[i][..] == was[i][0 := v];
    }

    // ---- Sequential scans ----

    /** The AC table of every component is ready as well. */
    ghost predicate AcsReady()
      reads cells
    {
      forall c :: 0 <= c < |sc.acTbls| ==> Has(sc.acTbls[c])
    }

    /** The AC loop of decode_mcu. */
    method AcCoefsLoop(block: array<Coef>, htbl: DDerivedTbl, st0: BitState) returns (ok: bool, st: BitState)
      requires d.Valid(st0) && htbl.Valid() && block.Length == 64
      modifies block, d`unreadMarker, d`insufficientData, d`warnings, d`fake
      ensures ok ==> d.Valid(st) && d.Tail(st) == old(d.Tail(st0))
      ensures ok ==> (block[..], d.Stream(st)) == Sequential.DecAc(htbl.pub, old(block[..]), 1, old(d.Stream(st0)))
      ensures !ok ==> Off(old(block[..]), block[..], Writes(htbl.pub, 1, Sequential.ALL_AC, old(d.Stream(st0))))
      ensures !ok ==> d.warnings == old(d.warnings)
      ensures !ok ==> Between(old(d.Stream(st0)), Sequential.DecAc(htbl.pub, old(block[..]), 1, old(d.Stream(st0))).1, d.ToCome())
      ensures !ok ==> d.unreadMarker == 0 && (d.avail < |d.data| || old(d.Tail(st0)).0 == 0)
      ensures d.unreadMarker == 0 ==> unchanged(d`unreadMarker, d`insufficientData, d`fake)
    {
      hide *;
      ghost var t, was, start := htbl.pub, block[..], d.Stream(st0);
      ghost var goal, at := Sequential.DecAc(t, was, 1, start), Writes(t, 1, Sequential.ALL_AC, start);
      var k := 1;
      st, ok := st0, true;
      OffSelf(was, at);
      HandIs(st);
      StreamOf(st);
      while k < 64
        invariant d.Valid(st) && htbl.Valid() && d.Tail(st) == old(d.Tail(st0))
        invariant Sequential.DecAc(t, block[..], k, d.Stream(st)) == goal
        invariant Writes(t, k, Sequential.ALL_AC, d.Stream(st)) <= at && Off(was, block[..], at)
        invariant d.unreadMarker == 0 ==> unchanged(d`unreadMarker, d`insufficientData, d`fake)
        invariant d.unreadMarker == 0 ==> d.warnings == old(d.warnings)
        invariant |d.Stream(st).bits| <= |start.bits|
        decreases 64 - k
      {
        ghost var before, s := block[..], d.Stream(st);
        AcCoefsLater(t, before, k, s);
        LaterLeft(s, goal.1);
        StreamOf(st);
        var sym: byte;
        ok, sym, st := d.HuffDecode(st, htbl);
        if !ok {
          Wider(start, s, s, goal.1, d.ToCome());
          return;
        }
        ghost var s1 := d.Stream(st);
        StreamOf(st);
        OnlyZeroWarns(t, s, sym, s1);
        LaterLeft(s1, goal.1);
        AcMore(t, before, k, s, sym, d.Stream(st));
        SymFields(sym);
        var r, z := sym / 16, sym % 16;
        if z != 0 {
          k := k + r;
          var v: nat;
          ok, v, st := d.GetBits(st, z);
          if !ok {
            Wider(start, s1, s1, goal.1, d.ToCome());
            return;
          }
          LeftDrop(s1, z);
          var value := Jcoef(Extend(v, z));
          OffWrite(was, before, Clamp(k), at, value);
          block[Clamp(k)] := value;
          assert block[..] == before[Clamp(k) := value];
        } else {
          if r != 15 { return; }
          k := k + 15;
        }
        k := k + 1;
      }
      AcEnd(t, block[..], k, d.Stream(st));
    }

    lemma HandIs(st: BitState)
      ensures MIN_GET_BITS <= MAX_AT_HAND && (d.Valid(st) ==> d.avail <= |d.data|)
    {
    }

    /** One block of a sequential scan, given the prediction of its component. */
    method DecodeBlock(block: array<Coef>, c: nat, pred: int, st0: BitState) returns (ok: bool, v: int, st: BitState)
      requires d.Valid(st0) && c < |sc.dcTbl| == |sc.acTbls| && block.Length == 64
      requires Has(sc.dcTbl[c]) && LegalD(tbls[sc.dcTbl[c]], true) && Has(sc.acTbls[c]) && (d as object) !in cells && block !in cells
      modifies block, d`unreadMarker, d`insufficientData, d`warnings, d`fake
      ensures !ok ==> d.unreadMarker == 0 && (d.avail < |d.data| || old(d.Tail(st0)).0 == 0)
      ensures d.unreadMarker == 0 ==> unchanged(d`unreadMarker, d`insufficientData, d`fake)
      ensures sc.dcTbl[c] < |tbls| && sc.acTbls[c] < |tbls|
      ensures var dct, act, s := tbls[sc.dcTbl[c]], tbls[sc.acTbls[c]], old(d.Stream(st0));
              && (ok ==> d.Valid(st) && d.Tail(st) == old(d.Tail(st0)))
              && (ok ==> (block[..], v, d.Stream(st)) == Sequential.DecBlock(dct, act, old(block[..]), pred, s))
              && (!ok ==> Off(old(block[..]), block[..], BlockWrites(dct, act, s)))
              && (!ok ==> Stops([s, AfterDc(dct, s), Sequential.DecBlock(dct, act, old(block[..]), pred, s).2], d.warnings, d.ToCome()))
    {
      hide *;
      UseTable(sc.dcTbl[c]);
      UseTable(sc.acTbls[c]);
      ghost var dct, act, s, was := tbls[sc.dcTbl[c]], tbls[sc.acTbls[c]], d.Stream(st0), block[..];
      BlockIs(dct, act, was, pred, s);
      AfterIs(dct, s);
      OffSelf(was, BlockWrites(dct, act, s));
      StreamOf(st0);
      ghost var goal := Sequential.DecBlock(dct, act, was, pred, s);
      HandIs(st0);
      ok, v, st := DecodeDiff(st0, sc.dcTbl[c], s);
      if !ok {
        StopsHere([s, AfterDc(dct, s), goal.2], d.warnings, d.ToCome());
        return;
      }
      StreamOf(st);
      v := v + pred;
      block[0] := Jcoef(v);
      ghost var begun := was[0 := Jcoef(v)];
      assert block[..] == begun;
      UseTable(sc.acTbls[c]);
      ok, st := AcCoefsLoop(block, derived[sc.acTbls[c]].value, st);
      if !ok {
        OffPast(was, 0, Jcoef(v), block[..], Writes(act, 1, Sequential.ALL_AC, AfterDc(dct, s)));
        StopsHere([AfterDc(dct, s), goal.2], d.warnings, d.ToCome());
        StopsNext(s, [AfterDc(dct, s), goal.2], d.warnings, d.ToCome());
        assert [s] + [AfterDc(dct, s), goal.2] == [s, AfterDc(dct, s), goal.2];
      }
    }

    lemma WholeTables(m: Mcu, preds: seq<int>, i: nat)
      requires WholeShape(sc, tbls, m, preds) && DcReady() && AcsReady() && i < |m|
      ensures |m| == |sc.members| && sc.members[i] < |sc.dcTbl| == |sc.acTbls| == |preds|
      ensures Has(sc.dcTbl[sc.members[i]]) && sc.dcTbl[sc.members[i]] < |tbls| && LegalD(tbls[sc.dcTbl[sc.members[i]]], true)
      ensures Has(sc.acTbls[sc.members[i]])
    {
    }

    /** One block of decode_mcu's loop. */
    method WholeStep(blocks: seq<array<Coef>>, blkn: nat, state0: seq<int>, st0: BitState, ghost was: Mcu, ghost preds: seq<int>, ghost start: Src)
      returns (ok: bool, state: seq<int>, st: BitState)
      requires d.Valid(st0) && Apart(blocks) && DcReady() && AcsReady() && WholeShape(sc, tbls, was, preds) && blkn < |blocks| == |was|
      requires Upto(sc, tbls, was, preds, start, blkn) == (state0, d.Stream(st0))
      requires PartDone(blocks, was, Results(sc, tbls, was, preds, start), blkn)
      modifies blocks, d`unreadMarker, d`insufficientData, d`warnings, d`fake
      ensures !ok ==> d.unreadMarker == 0 && (d.avail < |d.data| || old(d.Tail(st0)).0 == 0)
      ensures !ok ==> Partly(sc, tbls, was, Contents(blocks), preds, start)
      ensures |was| == |sc.members| && sc.members[blkn] < |sc.dcTbl| && sc.dcTbl[sc.members[blkn]] < |tbls|
      ensures var s := old(d.Stream(st0));
              !ok ==> Stops([s, AfterDc(tbls[sc.dcTbl[sc.members[blkn]]], s), Upto(sc, tbls, was, preds, start, blkn + 1).1], d.warnings, d.ToCome())
      ensures d.unreadMarker == 0 ==> unchanged(d`unreadMarker, d`insufficientData, d`fake)
      ensures ok ==> d.Valid(st) && d.Tail(st) == old(d.Tail(st0)) && DcReady() && AcsReady()
      ensures ok ==> Upto(sc, tbls, was, preds, start, blkn + 1) == (state, d.Stream(st))
      ensures ok ==> PartDone(blocks, was, Results(sc, tbls, was, preds, start), blkn + 1)
    {
      hide *;
      ApartIs(blocks);
      BlockApart(blocks);
      UptoNext(sc, tbls, was, preds, start, blkn);
      WholeTables(was, preds, blkn);
      PartContents(blocks, was, Results(sc, tbls, was, preds, start), blkn);
      ghost var before := Contents(blocks);
      var ci := sc.members[blkn];
      var v: int;
      state := state0;
      Distinct(blocks, blkn);
      ok, v, st := DecodeBlock(blocks[blkn], ci, state0[ci], st0);
      OneChanged(blocks, blkn, before);
      if !ok {
        PartlyMade(sc, tbls, was, Contents(blocks), preds, start, blkn);
        return;
      }
      state := state0[ci := v];
      PartMore(blocks, was, Results(sc, tbls, was, preds, start), blkn, before);
    }

    lemma Distinct(blocks: seq<array<Coef>>, i: nat)
      requires Separate(blocks) && i < |blocks|
      ensures forall j :: 0 <= j < |blocks| && j != i ==> blocks[j] != blocks[i]
    {
    }

    /** What the blocks hold after one of them was written. */
    lemma OneChanged(blocks: seq<array<Coef>>, i: nat, before: Mcu)
      requires Separate(blocks) && i < |blocks| == |before|
      requires forall j :: 0 <= j < |blocks| && j != i ==> blocks[j][..] == before[j]
      ensures Contents(blocks) == before[i := blocks[i][..]]
    {
    }

    lemma PartContents(blocks: seq<array<Coef>>, was: Mcu, rs: Mcu, n: nat)
      requires Separate(blocks) && PartDone(blocks, was, rs, n)
      ensures |was| == |rs| == |blocks|
      ensures forall i :: 0 <= i < |blocks| ==> Contents(blocks)[i] == if i < n then rs[i] else was[i]
    {
    }

    lemma PartMore(blocks: seq<array<Coef>>, was: Mcu, rs: Mcu, n: nat, before: Mcu)
      requires Separate(blocks) && n < |blocks| == |before| == |was| == |rs| && Contents(blocks) == before[n := rs[n]]
      requires forall i :: 0 <= i < |blocks| ==> before[i] == if i < n then rs[i] else was[i]
      ensures PartDone(blocks, was, rs, n + 1)
    {
      forall i | 0 <= i < |blocks| ensures blocks[i][..] == if i < n + 1 then rs[i] else was[i] {
        assert Contents(blocks)[i] == blocks[i][..];
      }
    }

    /** The loop over the blocks, on a working copy of the predictions. */
    method WholeLoop(blocks: seq<array<Coef>>, ghost was: Mcu, ghost start: Src)
      returns (ok: bool, state: seq<int>, st: BitState)
      requires d.Valid(d.saved) && Apart(blocks) && DcReady() && AcsReady() && was == Contents(blocks)
      requires WholeShape(sc, tbls, was, lastDc) && start == d.Stream(d.saved)
      modifies blocks, d`unreadMarker, d`insufficientData, d`warnings, d`fake
      ensures !ok ==> d.unreadMarker == 0 && (d.avail < |d.data| || old(d.Tail(d.saved)).0 == 0)
      ensures !ok ==> Partly(sc, tbls, was, Contents(blocks), lastDc, start)
      ensures !ok ==> Stops(WholePoints(sc, tbls, was, lastDc, start, 0), d.warnings, d.ToCome())
      ensures d.unreadMarker == 0 ==> unchanged(d`unreadMarker, d`insufficientData, d`fake)
      ensures ok ==> d.Valid(st) && d.Tail(st) == old(d.Tail(d.saved)) && |state| == |lastDc|
      ensures ok ==> Contents(blocks) == Results(sc, tbls, was, lastDc, start)
      ensures ok ==> (state, d.Stream(st)) == Upto(sc, tbls, was, lastDc, start, |was|)
    {
      hide *;
      ApartIs(blocks);
      ghost var rs := Results(sc, tbls, was, lastDc, start);
      PartStart(blocks, rs);
      UptoStart(sc, tbls, was, lastDc, start);
      var blkn := 0;
      ok, state, st := true, lastDc, d.saved;
      StreamOf(st);
      ghost var points := WholePoints(sc, tbls, was, lastDc, start, 0);
      HandIs(st);
      UpcomingSelf(points);
      while blkn < |blocks|
        invariant 0 <= blkn <= |blocks| && DcReady() && AcsReady()
        invariant Upcoming(points, WholePoints(sc, tbls, was, lastDc, start, blkn))
        invariant d.Valid(st) && d.Tail(st) == old(d.Tail(d.saved))
        invariant (state, d.Stream(st)) == Upto(sc, tbls, was, lastDc, start, blkn)
        invariant PartDone(blocks, was, rs, blkn)
        invariant d.unreadMarker == 0 ==> unchanged(d`unreadMarker, d`insufficientData, d`fake)
      {
        ghost var s := d.Stream(st);
        StreamOf(st);
        ok, state, st := WholeStep(blocks, blkn, state, st, was, lastDc, start);
        if !ok {
          WholeStops(sc, tbls, was, lastDc, start, blkn, points, d.warnings, d.ToCome());
          return;
        }
        WholeUpcoming(sc, tbls, was, lastDc, start, blkn, points);
        blkn := blkn + 1;
      }
      PartIs(blocks, was, rs, blkn);
    }

    /** decode_mcu of jdhuff.c without the restart bookkeeping. */
    method DecodeSequential(blocks: seq<array<Coef>>) returns (ok: bool)
      requires d.Valid(d.saved) && Apart(blocks) && DcReady() && AcsReady() && WholeShape(sc, tbls, Contents(blocks), lastDc)
      modifies blocks, this`lastDc, d`saved, d`unreadMarker, d`insufficientData, d`warnings, d`fake
      ensures d.Valid(d.saved) && d.Tail(d.saved) == old(d.Tail(d.saved)) && WholeShape(sc, tbls, Contents(blocks), lastDc)
      ensures ok ==> (Contents(blocks), lastDc, d.Stream(d.saved))
                     == WholeRun(sc, tbls, old(Contents(blocks)), old(lastDc), old(d.Stream(d.saved)))
      ensures !ok ==> d.unreadMarker == 0 && (d.avail < |d.data| || d.Tail(d.saved).0 == 0) && lastDc == old(lastDc)
      ensures !ok ==> Alike3(WholeRun(sc, tbls, Contents(blocks), lastDc, d.Stream(d.saved)),
                             WholeRun(sc, tbls, old(Contents(blocks)), old(lastDc), old(d.Stream(d.saved))), old(d.warnings) - d.warnings)
      ensures !ok ==> !old(d.insufficientData) && !d.insufficientData
      ensures !ok ==> GaveUp(WholePoints(sc, tbls, old(Contents(blocks)), old(lastDc), old(d.Stream(d.saved)), 0),
                             WholePoints(sc, tbls, Contents(blocks), lastDc, d.Stream(d.saved), 0), d.ToCome())
    {
      hide *;
      ApartIs(blocks);
      ghost var was, start, preds := Contents(blocks), d.Stream(d.saved), lastDc;
      StreamIs();
      WholeRunIs(sc, tbls, was, preds, start);
      ok := true;
      if !d.insufficientData {
        var state, st;
        ok, state, st := WholeLoop(blocks, was, start);
        if !ok {
          Suspended(start);
          WholeSame(sc, tbls, was, Contents(blocks), preds, preds);
          ghost var dw := d.warnings - old(d.warnings);
          WholeAgain(sc, tbls, was, Contents(blocks), preds, start, d.Stream(d.saved), dw);
          Alike3Is(WholeRun(sc, tbls, Contents(blocks), preds, d.Stream(d.saved)), WholeRun(sc, tbls, was, preds, start), 0 - dw);
          WholePointsAgain(sc, tbls, was, Contents(blocks), preds, start, d.Stream(d.saved), 0, dw);
          ghost var ps, qs := WholePoints(sc, tbls, was, preds, start, 0), WholePoints(sc, tbls, Contents(blocks), preds, d.Stream(d.saved), 0);
          SameLength(ps, qs, dw);
          UptoStart(sc, tbls, was, preds, start);
          UptoStart(sc, tbls, Contents(blocks), preds, d.Stream(d.saved));
          GaveUpIs(ps, qs, d.ToCome());
          return;
        }
        WholeSame(sc, tbls, was, Contents(blocks), preds, state);
        d.saved := st;
        lastDc := state;
      }
    }

    // ---- MCUs ----

    /** The scan was accepted by start_pass, and the tables its routine uses are derived. */
    ghost predicate Ready()
      reads cells, `lastDc
    {
      && ScanOk(sc, tbls) && |lastDc| == |sc.dcTbl|
      && (sc.p.Ss != 0 ==> Has(sc.acTbl)) && (sc.p.Ss == 0 && sc.p.Ah == 0 ==> DcReady())
      && (sc.p.Ss == 0 && sc.p.Se != 0 ==> AcsReady())
    }

    ghost function Saved(): State
      reads `EOBRUN, `lastDc
    {
      State(lastDc, EOBRUN)
    }

    lemma ReadyIs(m: Mcu)
      requires Ready() && |m| == |sc.members|
      ensures ScanOk(sc, tbls) && DcShape(sc, tbls, m, lastDc) && StateOk(sc, Saved())
      ensures p == sc.p && p.Al <= 13 && (sc.p.Ss != 0 ==> AcParams(p) && |m| == 1 && Has(sc.acTbl))
      ensures sc.p.Ss == 0 && sc.p.Ah == 0 ==> DcReady()
      ensures sc.p.Ss == 0 && sc.p.Se != 0 ==> AcsReady() && DcReady()
    {
    }

    lemma KeepReady()
      requires ScanOk(sc, tbls) && |lastDc| == |sc.dcTbl|
      requires (sc.p.Ss != 0 ==> Has(sc.acTbl)) && (sc.p.Ss == 0 && sc.p.Ah == 0 ==> DcReady())
      requires sc.p.Ss == 0 && sc.p.Se != 0 ==> AcsReady()
      ensures Ready()
    {
    }

    /** An AC scan's MCU is its one block. */
    method DecodeAcMcu(blocks: seq<array<Coef>>) returns (ok: bool)
      requires d.Valid(d.saved) && Apart(blocks) && |blocks| == |sc.members| && Ready() && sc.p.Ss != 0
      modifies blocks, this`EOBRUN, d`saved, d`unreadMarker, d`insufficientData, d`warnings, d`fake
      ensures d.Valid(d.saved) && d.Tail(d.saved) == old(d.Tail(d.saved)) && Ready()
      ensures ok ==> (Contents(blocks), Saved(), d.Stream(d.saved)) == DecMcu(sc, tbls, old(Contents(blocks)), old(Saved()), old(d.Stream(d.saved)))
      ensures !ok ==> d.unreadMarker == 0 && (d.avail < |d.data| || d.Tail(d.saved).0 == 0) && Saved() == old(Saved())
      ensures !ok ==> Like(DecMcu(sc, tbls, Contents(blocks), Saved(), d.Stream(d.saved)),
                           DecMcu(sc, tbls, old(Contents(blocks)), old(Saved()), old(d.Stream(d.saved))), old(d.warnings) - d.warnings)
      ensures !ok ==> GaveUp(McuPoints(sc, tbls, old(Contents(blocks)), old(Saved()), old(d.Stream(d.saved))),
                             McuPoints(sc, tbls, Contents(blocks), Saved(), d.Stream(d.saved)), d.ToCome())
    {
      hide *;
      ApartIs(blocks);
      ReadyIs(Contents(blocks));
      ghost var was, st, s := Contents(blocks), Saved(), d.Stream(d.saved);
      SavedIs();
      UseTable(sc.acTbl);
      AcMcuIs(sc, tbls, was, st, s);
      AcKindIs(sc, tbls, was, st, s);
      var htbl := derived[sc.acTbl].value;
      BlockApart(blocks);
      if sc.p.Ah == 0 {
        ok := DecodeAcFirst(blocks[0], htbl);
      } else {
        ok := DecodeAcRefine(blocks[0], htbl);
      }
      BlockApart(blocks);
      SavedIs();
      assert Contents(blocks) == [blocks[0][..]];
      if !ok {
        AcMcuIs(sc, tbls, Contents(blocks), Saved(), d.Stream(d.saved));
        AcKindIs(sc, tbls, Contents(blocks), Saved(), d.Stream(d.saved));
        ghost var dw := old(d.warnings) - d.warnings;
        AlikeIs(AcDecode(htbl.pub, blocks[0][..], EOBRUN, p, d.Stream(d.saved)), AcDecode(htbl.pub, was[0], st.eobrun, p, s), dw);
        LikeIs(DecMcu(sc, tbls, Contents(blocks), Saved(), d.Stream(d.saved)), DecMcu(sc, tbls, was, st, s), dw);
      }
    }

    lemma SavedIs()
      ensures Saved() == State(lastDc, EOBRUN)
    {
    }

    lemma BlockApart(blocks: seq<array<Coef>>)
      requires Apart(blocks)
      ensures forall i :: 0 <= i < |blocks| ==> blocks[i].Length == 64 && blocks[i] !in cells && Contents(blocks)[i] == blocks[i][..]
    {
    }

    method DecodeDcMcu(blocks: seq<array<Coef>>) returns (ok: bool)
      requires d.Valid(d.saved) && Apart(blocks) && |blocks| == |sc.members| && Ready() && sc.p.Ss == 0
      modifies blocks, this`lastDc, d`saved, d`unreadMarker, d`insufficientData, d`warnings, d`fake
      ensures d.Valid(d.saved) && d.Tail(d.saved) == old(d.Tail(d.saved)) && Ready()
      ensures ok ==> (Contents(blocks), Saved(), d.Stream(d.saved)) == DecMcu(sc, tbls, old(Contents(blocks)), old(Saved()), old(d.Stream(d.saved)))
      ensures !ok ==> d.unreadMarker == 0 && (d.avail < |d.data| || d.Tail(d.saved).0 == 0) && Saved() == old(Saved())
      ensures !ok ==> Like(DecMcu(sc, tbls, Contents(blocks), Saved(), d.Stream(d.saved)),
                           DecMcu(sc, tbls, old(Contents(blocks)), old(Saved()), old(d.Stream(d.saved))), old(d.warnings) - d.warnings)
      ensures !ok ==> GaveUp(McuPoints(sc, tbls, old(Contents(blocks)), old(Saved()), old(d.Stream(d.saved))),
                             McuPoints(sc, tbls, Contents(blocks), Saved(), d.Stream(d.saved)), d.ToCome())
    {
      hide *;
      ApartIs(blocks);
      ReadyIs(Contents(blocks));
      ghost var was, st, s := Contents(blocks), Saved(), d.Stream(d.saved);
      SavedIs();
      DcMcuIs(sc, tbls, was, st, s);
      DcKindIs(sc, tbls, was, st, s);
      StreamIs();
      BlockApart(blocks);
      if sc.p.Se != 0 {
        ok := DecodeSequential(blocks);
        WholeIs(sc, tbls, Contents(blocks), lastDc);
      } else if sc.p.Ah == 0 {
        ok := DecodeDcFirst(blocks);
      } else {
        ok := DecodeDcRefine(blocks);
      }
      SavedIs();
      ShapeIs(sc, tbls, Contents(blocks), lastDc, EOBRUN);
      KeepReady();
      if !ok {
        DcMcuIs(sc, tbls, Contents(blocks), Saved(), d.Stream(d.saved));
        DcKindIs(sc, tbls, Contents(blocks), Saved(), d.Stream(d.saved));
        StreamIs();
        ghost var dw := old(d.warnings) - d.warnings;
        LikeIs(DecMcu(sc, tbls, Contents(blocks), Saved(), d.Stream(d.saved)), DecMcu(sc, tbls, was, st, s), dw);
        if sc.p.Se != 0 {
          Alike3Is(WholeRun(sc, tbls, Contents(blocks), lastDc, d.Stream(d.saved)), WholeRun(sc, tbls, was, st.preds, s), dw);
        } else if sc.p.Ah == 0 {
          Alike3Is(DcFirstRun(sc, tbls, Contents(blocks), lastDc, d.Stream(d.saved)), DcFirstRun(sc, tbls, was, st.preds, s), dw);
        }
      }
    }

    /** The decode_mcu routine that start_pass selected, without the restart bookkeeping. */
    method DecodeMcuData(blocks: seq<array<Coef>>) returns (ok: bool)
      requires d.Valid(d.saved) && Apart(blocks) && |blocks| == |sc.members| && Ready()
      modifies blocks, this`EOBRUN, this`lastDc, d`saved, d`unreadMarker, d`insufficientData, d`warnings, d`fake
      ensures d.Valid(d.saved) && d.Tail(d.saved) == old(d.Tail(d.saved)) && Ready()
      ensures ok ==> (Contents(blocks), Saved(), d.Stream(d.saved)) == DecMcu(sc, tbls, old(Contents(blocks)), old(Saved()), old(d.Stream(d.saved)))
      ensures !ok ==> d.unreadMarker == 0 && (d.avail < |d.data| || d.Tail(d.saved).0 == 0) && Saved() == old(Saved())
      ensures !ok ==> Like(DecMcu(sc, tbls, Contents(blocks), Saved(), d.Stream(d.saved)),
                           DecMcu(sc, tbls, old(Contents(blocks)), old(Saved()), old(d.Stream(d.saved))), old(d.warnings) - d.warnings)
      ensures !ok ==> GaveUp(McuPoints(sc, tbls, old(Contents(blocks)), old(Saved()), old(d.Stream(d.saved))),
                             McuPoints(sc, tbls, Contents(blocks), Saved(), d.Stream(d.saved)), d.ToCome())
    {
      hide *;
      if sc.p.Ss == 0 { ok := DecodeDcMcu(blocks); } else { ok := DecodeAcMcu(blocks); }
    }

    // ---- Restarts ----

    /** What the decoder has before it. */
    ghost function Before(): Input
      requires d.Valid(d.saved)
      reads d
    {
      TailByte(d.data, d.saved.next, d.unreadMarker);
      Input(d.Stream(d.saved), d.Tail(d.saved).0, d.Tail(d.saved).1)
    }

    /** The decoder between MCUs. */
    ghost function Now(): Position
      requires d.Valid(d.saved)
      reads this, d
    {
      Position(Saved(), restartsToGo, nextRestartNum, Before())
    }

    /** The warnings that an attempt at a restart issues in vain. */
    ghost function Vain(inp: Input, num: nat): nat
      reads d`avail
    {
      if SkipsMarker(inp, num) && Arrived(d.data, inp, d.avail) then 1 else 0
    }

    /** process_restart. */
    method ProcessRestart() returns (ok: bool)
      requires d.Valid(d.saved) && Ready() && nextRestartNum < 8 && (d as object) !in cells && (this as object) !in cells
      modifies this`EOBRUN, this`lastDc, this`restartsToGo, this`nextRestartNum
      modifies d`saved, d`unreadMarker, d`insufficientData, d`warnings, d`fake
      ensures d.Valid(d.saved) && Ready() && nextRestartNum < 8
      ensures ok ==> ReadRestart(old(Before()), old(nextRestartNum)) == Some(Before()) && Saved() == StartState(sc)
      ensures ok ==> restartsToGo == sc.interval && nextRestartNum == (old(nextRestartNum) + 1) % 8
      ensures !ok ==> SameInput(ReadRestart(Before(), nextRestartNum), ReadRestart(old(Before()), old(nextRestartNum)), old(d.warnings) - d.warnings)
      ensures !ok ==> d.warnings == old(d.warnings) + Vain(old(Before()), old(nextRestartNum))
      ensures !ok ==> StillSkips(d.data, old(Before()), Before(), nextRestartNum, d.avail)
      ensures !ok ==> Saved() == old(Saved()) && restartsToGo == old(restartsToGo) && nextRestartNum == old(nextRestartNum)
      ensures !ok ==> d.avail < |d.data| || ReadRestart(old(Before()), old(nextRestartNum)) == None
    {
      hide *;
      BeforeRestart();
      ghost var before, x := Before(), InputAt(d.data, d.saved.next, d.unreadMarker, d.insufficientData, d.warnings);
      ReadyParts();
      DropBits();
      ok := ReadRestartMarker(d, nextRestartNum);
      EmptyBuffer();
      KeepReady();
      if !ok {
        SkipsAlike(d.data, before, x, Before(), nextRestartNum, d.avail);
        VainIs(before, nextRestartNum);
        return;
      }
      StartInterval();
    }

    /** The state at the start of a restart interval. */
    method StartInterval()
      requires d.Valid(d.saved) && d.saved.bitsLeft == 0 && Ready() && (d as object) !in cells && (this as object) !in cells
      modifies this`EOBRUN, this`lastDc, this`restartsToGo, this`nextRestartNum, d`insufficientData
      ensures d.Valid(d.saved) && Ready() && Saved() == StartState(sc)
      ensures restartsToGo == sc.interval && nextRestartNum == (old(nextRestartNum) + 1) % 8
      ensures Before() == InputAt(d.data, d.saved.next, d.unreadMarker, d.unreadMarker != 0 && old(d.insufficientData), d.warnings)
    {
      hide *;
      ReadyParts();
      nextRestartNum := (nextRestartNum + 1) % 8;
      ClearPredictions();
      EOBRUN := 0;
      restartsToGo := sc.interval;
      if d.unreadMarker == 0 {
        ResetData();
      }
      EmptyBuffer();
      KeepReady();
      SavedIs();
      StartIs(sc, lastDc);
    }

    /** The bits left over do not matter to a restart. */
    lemma BeforeRestart()
      requires d.Valid(d.saved)
      ensures d.saved.next <= |d.data| && d.unreadMarker < 256
      ensures var x := InputAt(d.data, d.saved.next, d.unreadMarker, d.insufficientData, d.warnings);
              x.marker == Before().marker && x.after == Before().after
      ensures ReadRestart(Before(), nextRestartNum)
              == ReadRestart(InputAt(d.data, d.saved.next, d.unreadMarker, d.insufficientData, d.warnings), nextRestartNum)
    {
      hide ReadRestart;
      hide Ahead;
      RestartOf(Before(), d.data, d.saved.next, d.unreadMarker, d.insufficientData, d.warnings, nextRestartNum);
    }

    /** Bits left in the buffer are of no use after a marker. */
    method DropBits()
      requires d.Valid(d.saved)
      modifies d`saved, d`fake
      ensures d.Valid(d.saved) && d.saved == old(d.saved).(bitsLeft := 0)
    {
      d.saved := d.saved.(bitsLeft := 0);
      d.fake := 0;
    }

    method ResetData()
      requires d.Valid(d.saved) && d.saved.bitsLeft == 0
      modifies d`insufficientData
      ensures d.Valid(d.saved) && !d.insufficientData
    {
      d.insufficientData := false;
    }

    method ClearPredictions()
      modifies this`lastDc
      ensures |lastDc| == |old(lastDc)| && forall i :: 0 <= i < |lastDc| ==> lastDc[i] == 0
    {
      var ci := 0;
      while ci < |lastDc|
        invariant 0 <= ci <= |lastDc| == |old(lastDc)| && forall i :: 0 <= i < ci ==> lastDc[i] == 0
      {
        lastDc := lastDc[ci := 0];
        ci := ci + 1;
      }
    }

    /** With nothing buffered, the input is what the source holds. */
    lemma EmptyBuffer()
      requires d.Valid(d.saved) && d.saved.bitsLeft == 0
      ensures Before() == InputAt(d.data, d.saved.next, d.unreadMarker, d.insufficientData, d.warnings)
    {
      assert [] + Ahead(d.data, d.saved.next, d.unreadMarker) == Ahead(d.data, d.saved.next, d.unreadMarker);
    }

    lemma ReadyParts()
      requires Ready()
      ensures ScanOk(sc, tbls) && |lastDc| == |sc.dcTbl|
      ensures (sc.p.Ss != 0 ==> Has(sc.acTbl)) && (sc.p.Ss == 0 && sc.p.Ah == 0 ==> DcReady())
      ensures sc.p.Ss == 0 && sc.p.Se != 0 ==> AcsReady()
    {
    }

    /** The restart at the start of the decode_mcu routines. */
    method RestartIfDue() returns (ok: bool)
      requires d.Valid(d.saved) && Ready() && nextRestartNum < 8 && (d as object) !in cells && (this as object) !in cells
      modifies this`EOBRUN, this`lastDc, this`restartsToGo, this`nextRestartNum
      modifies d`saved, d`unreadMarker, d`insufficientData, d`warnings, d`fake
      ensures d.Valid(d.saved) && Ready() && nextRestartNum < 8 && (ok ==> sc.interval > 0 ==> restartsToGo > 0)
      ensures ok ==> Restarted(sc, old(Now())) == Some(Now())
      ensures !ok ==> sc.interval > 0 && old(restartsToGo) == 0 && Now() == old(Now()).(inp := Before())
      ensures !ok ==> SameInput(ReadRestart(Before(), nextRestartNum), ReadRestart(old(Before()), old(nextRestartNum)), old(d.warnings) - d.warnings)
      ensures !ok ==> d.warnings == old(d.warnings) + Vain(old(Before()), old(nextRestartNum))
      ensures !ok ==> StillSkips(d.data, old(Before()), Before(), nextRestartNum, d.avail)
      ensures !ok ==> d.avail < |d.data| || ReadRestart(old(Before()), old(nextRestartNum)) == None
    {
      hide *;
      NowIs();
      RestartedIs(sc, Now());
      ok := true;
      if sc.interval > 0 {
        if restartsToGo == 0 {
          ok := ProcessRestart();
          NowIs();
        }
      }
    }

    lemma StateReady()
      requires Ready()
      ensures ScanOk(sc, tbls) && StateOk(sc, Saved())
    {
    }

    lemma FreshApart(blocks: seq<array<Coef>>)
      requires Separate(blocks) && (forall i :: 0 <= i < |blocks| ==> blocks[i] !in cells)
      requires (d as object) !in cells && (this as object) !in cells
      ensures Apart(blocks)
    {
    }

    lemma NowIs()
      requires d.Valid(d.saved)
      ensures Now() == Position(Saved(), restartsToGo, nextRestartNum, Before())
      ensures Before() == Input(d.Stream(d.saved), Before().marker, Before().after)
      ensures (Before().marker, Before().after) == d.Tail(d.saved) && d.avail <= |d.data|
      ensures d.Stream(d.saved).warnings == d.warnings
    {
    }

    lemma VainIs(inp: Input, num: nat)
      ensures Vain(inp, num) == if SkipsMarker(inp, num) && Arrived(d.data, inp, d.avail) then 1 else 0
    {
    }

    lemma ToComeIs()
      requires d.avail <= |d.data|
      ensures d.ToCome() == Coming(d.data, d.avail)
    {
    }

    /** decode_mcu. A completed call is a step of the scan; a call that has to suspend leaves
        a step that comes to the same, but for the warnings which the call issued in vain. These
        are determined by the data and how much of it had arrived (Attempted), and so are those of
        every later attempt (Retries). With all the data there, and a marker at its end, no call
        suspends. */
    method DecodeMcu(blocks: seq<array<Coef>>) returns (ok: bool, ghost a: Attempt)
      requires d.Valid(d.saved) && Apart(blocks) && |blocks| == |sc.members| && Ready() && nextRestartNum < 8
      modifies blocks, this`EOBRUN, this`lastDc, this`restartsToGo, this`nextRestartNum
      modifies d`saved, d`unreadMarker, d`insufficientData, d`warnings, d`fake
      ensures d.Valid(d.saved) && Ready() && nextRestartNum < 8
      ensures ScanOk(sc, tbls) && StateOk(sc, old(Saved())) && StateOk(sc, Saved())
      ensures ok ==> McuStep(sc, tbls, old(Contents(blocks)), old(Now())) == Some((Contents(blocks), Now()))
      ensures !ok ==> LikeStep(McuStep(sc, tbls, Contents(blocks), Now()), McuStep(sc, tbls, old(Contents(blocks)), old(Now())), 0 - a.issued)
      ensures !ok ==> a.avail == d.avail && Attempted(sc, tbls, old(Contents(blocks)), old(Now()), d.data, a)
      ensures !ok ==> Retries(sc, tbls, old(Contents(blocks)), old(Now()), Contents(blocks), Now(), d.data, d.avail, a.issued)
      ensures !ok && a.restarting ==> d.warnings == old(d.warnings) + a.issued
      ensures !ok && !a.restarting ==>
        Restarted(sc, old(Now())).Some? && d.warnings == Restarted(sc, old(Now())).value.inp.src.warnings + a.issued
      ensures !ok ==> d.avail < |d.data| || Stuck(sc, old(Now()))
      ensures !ok ==> (Stuck(sc, Now()) <==> Stuck(sc, old(Now())))
    {
      hide *;
      ApartIs(blocks);
      NowIs();
      ReadyIs(Contents(blocks));
      ghost var was, x := Contents(blocks), Now();
      BlockApart(blocks);
      a := Attempt(0, true, 0);
      ok := RestartIfDue();
      ReadyIs(Contents(blocks));
      NowIs();
      if !ok {
        a := Attempt(d.avail, true, Vain(x.inp, x.num));
        VainIs(x.inp, x.num);
        DueIs(sc, x);
        RestartRetry(sc, tbls, was, x, Now(), d.data, a);
        return;
      }
      ghost var u := Now();
      ok := DecodeMcuData(blocks);
      ReadyIs(Contents(blocks));
      NowIs();
      if !ok {
        ghost var ps, qs := McuPoints(sc, tbls, was, u.st, u.inp.src), McuPoints(sc, tbls, Contents(blocks), Saved(), d.Stream(d.saved));
        McuChain(sc, tbls, was, u.st, u.inp.src);
        MoreWarnings(ps, qs, d.ToCome());
        a := Attempt(d.avail, false, d.warnings - u.inp.src.warnings);
        ToComeIs();
        LikeIs(DecMcu(sc, tbls, Contents(blocks), Saved(), d.Stream(d.saved)), DecMcu(sc, tbls, was, u.st, u.inp.src), 0 - a.issued);
        DataRetry(sc, tbls, was, Contents(blocks), x, u, Now(), d.data, a);
        return;
      }
      if restartsToGo > 0 { restartsToGo := restartsToGo - 1; }
      NowIs();
      MinusOne(u.togo);
      DataDone(sc, tbls, was, x, u);
    }
  }

  lemma DueIs(sc: Scan, x: Position)
    ensures Due(sc, x) <==> sc.interval > 0 && x.togo == 0
  {
  }

  /** An attempt that gave up has issued what the next one starts with. */
  lemma MoreWarnings(ps: seq<Src>, qs: seq<Src>, g: Gap)
    requires GaveUp(ps, qs, g) && |ps| > 0 && Chain(ps)
    ensures |qs| > 0 && qs[0].warnings >= ps[0].warnings
  {
    var n: nat :| StopsAt(ps, n, qs[0].warnings, g);
    assert Warnings.Later(ps[0], ps[n]);
  }

  // ---- Whole scans ----

  /** Storage for the blocks of an MCU. */
  method NewBlocks(m: Mcu) returns (blocks: seq<array<Coef>>)
    ensures Separate(blocks) && Contents(blocks) == m && forall i :: 0 <= i < |blocks| ==> fresh(blocks[i])
  {
    blocks := [];
    while |blocks| < |m|
      invariant |blocks| <= |m| && Separate(blocks)
      invariant forall i :: 0 <= i < |blocks| ==> fresh(blocks[i]) && blocks[i][..] == m[i]
    {
      var b := m[|blocks|];
      var a := new Coef[64](k requires 0 <= k < 64 => b[k]);
      assert a[..] == b;
      blocks := blocks + [a];
    }
  }

  method ReadBlocks(blocks: seq<array<Coef>>) returns (m: Mcu)
    requires Separate(blocks)
    ensures m == Contents(blocks)
  {
    m := [];
    while |m| < |blocks|
      invariant |m| <= |blocks| && forall i :: 0 <= i < |m| ==> m[i] == blocks[i][..]
    {
      m := m + [blocks[|m|][..]];
    }
  }

  /** One MCU, tried again after each arrival of data until it is complete: tries are the attempts
      that gave up, and the warnings are those of an uninterrupted run and of these attempts. */
  method DecodeMcuInPieces(dec: Decoder, blocks: seq<array<Coef>>, arrivals: seq<nat>, n0: nat)
    returns (ok: bool, n: nat, ghost tries: seq<Attempt>)
    requires dec.d.Valid(dec.d.saved) && dec.Apart(blocks) && |blocks| == |dec.sc.members| && dec.Ready() && dec.nextRestartNum < 8
    requires n0 <= |arrivals|
    modifies blocks, dec, dec.d
    ensures n0 <= n <= |arrivals| && dec.d.Valid(dec.d.saved) && dec.Ready() && dec.nextRestartNum < 8
    ensures ScanOk(dec.sc, dec.tbls) && StateOk(dec.sc, old(dec.Saved())) && StateOk(dec.sc, dec.Saved())
    ensures ok ==> LikeStep(Some((Contents(blocks), dec.Now())), McuStep(dec.sc, dec.tbls, old(Contents(blocks)), old(dec.Now())), 0 - Issued(tries))
    ensures AllAttempted(dec.sc, dec.tbls, old(Contents(blocks)), old(dec.Now()), dec.d.data, tries)
    ensures !ok ==> Stuck(dec.sc, old(dec.Now()))
  {
    hide *;
    dec.ApartIs(blocks);
    dec.NowIs();
    dec.ReadyIs(Contents(blocks));
    ghost var sc, tbls, data := dec.sc, dec.tbls, dec.d.data;
    ghost var was, x := Contents(blocks), dec.Now();
    LikeSelf(McuStep(sc, tbls, was, x));
    RetriesSelf(sc, tbls, was, x, data);
    NoTries(sc, tbls, was, x, data);
    n, tries := n0, [];
    ghost var seen: nat, extra: nat := 0, 0;
    while true
      invariant n0 <= n <= |arrivals| && dec.d.Valid(dec.d.saved) && dec.Ready() && dec.nextRestartNum < 8
      invariant StateOk(sc, dec.Saved()) && dec.Now().st == dec.Saved() && extra == Issued(tries) && seen <= dec.d.avail
      invariant LikeStep(McuStep(sc, tbls, Contents(blocks), dec.Now()), McuStep(sc, tbls, was, x), 0 - extra)
      invariant Retries(sc, tbls, was, x, Contents(blocks), dec.Now(), data, seen, extra)
      invariant AllAttempted(sc, tbls, was, x, data, tries)
      invariant Stuck(sc, dec.Now()) <==> Stuck(sc, x)
      decreases |arrivals| - n, |dec.d.data| - dec.d.avail
    {
      ghost var e, y := Contents(blocks), dec.Now();
      ghost var a: Attempt;
      ok, a := dec.DecodeMcu(blocks);
      dec.NowIs();
      if ok { return; }
      LikeTrans(McuStep(sc, tbls, Contents(blocks), dec.Now()), McuStep(sc, tbls, e, y), McuStep(sc, tbls, was, x), 0 - a.issued, 0 - extra);
      AttemptBefore(sc, tbls, was, x, e, y, data, seen, extra, a);
      RetriesTrans(sc, tbls, was, x, e, y, Contents(blocks), dec.Now(), data, seen, extra, dec.d.avail, a.issued);
      OneMoreTry(sc, tbls, was, x, data, tries, a);
      tries, extra, seen := tries + [a], extra + a.issued, dec.d.avail;
      if dec.d.avail == |dec.d.data| { return; }
      n := MoreData(dec, arrivals, n);
    }
  }

  method MoreData(dec: Decoder, arrivals: seq<nat>, n0: nat) returns (n: nat)
    requires dec.d.Valid(dec.d.saved) && dec.Ready() && n0 <= |arrivals| && (dec.d as object) !in dec.cells && dec.d.avail < |dec.d.data|
    modifies dec.d`avail
    ensures dec.d.Valid(dec.d.saved) && dec.Ready() && dec.Now() == old(dec.Now()) && n0 <= n <= |arrivals|
    ensures dec.d.avail >= old(dec.d.avail)
    ensures n > n0 || (n == |arrivals| && dec.d.avail > old(dec.d.avail))
  {
    hide *;
    dec.NowIs();
    n := n0;
    if n < |arrivals| {
      dec.d.Arrive(arrivals[n]);
      n := n + 1;
    } else {
      dec.d.Arrive(|dec.d.data|);
    }
    dec.NowIs();
  }

  /** Decoding a scan whose data arrives in any pieces whatever: the blocks are those of an
      uninterrupted run, and if the data ends with a marker the scan is completed. The warnings
      are those of an uninterrupted run and those that the attempts which gave up (tries, by MCU)
      have issued in vain; there are none of the latter if no MCU asks for data after a warning. */
  method DecodeInPieces(dec: Decoder, ms: seq<Mcu>, arrivals: seq<nat>)
    returns (ok: bool, out: seq<Mcu>, ghost tries: seq<seq<Attempt>>)
    requires dec.d.Valid(dec.d.saved) && dec.Ready() && dec.nextRestartNum < 8 && Shaped(dec.sc, ms)
    requires (dec.d as object) !in dec.cells && (dec as object) !in dec.cells
    modifies dec, dec.d
    ensures ScanOk(dec.sc, dec.tbls) && StateOk(dec.sc, old(dec.Saved()))
    ensures ok ==> ScanBlocks(dec.sc, dec.tbls, ms, old(dec.Now())) == Some(out)
    ensures ok ==> dec.d.Valid(dec.d.saved)
                   && SameInput(Some(dec.Before()), ScanInput(dec.sc, dec.tbls, ms, old(dec.Now())), 0 - IssuedInAll(tries))
    ensures ScanAttempted(dec.sc, dec.tbls, ms, old(dec.Now()), dec.d.data, tries)
    ensures NeverAsks(dec.sc, dec.tbls, ms, old(dec.Now())) ==> IssuedInAll(tries) == 0
    ensures Ends(dec.d.data) && Sound(dec.d.data, old(dec.Now()).inp.marker, old(dec.Now()).inp.after) ==> ok
  {
    hide *;
    dec.NowIs();
    dec.StateReady();
    ghost var sc, tbls, x0, data := dec.sc, dec.tbls, dec.Now(), dec.d.data;
    ghost var sound := Ends(data) && Sound(data, x0.inp.marker, x0.inp.after);
    out, tries := [], [];
    ghost var extra: nat := 0;
    var i, n := 0, 0;
    ok := true;
    ReachedStart(sc, tbls, ms, x0, data);
    while i < |ms|
      invariant 0 <= i <= |ms| && n <= |arrivals| && Shaped(sc, ms[i..]) && ok
      invariant dec.d.Valid(dec.d.saved) && dec.Ready() && dec.nextRestartNum < 8 && StateOk(sc, dec.Saved())
      invariant dec.Now().st == dec.Saved() && dec.Now().num == dec.nextRestartNum
      invariant Reached(sc, tbls, ms, i, x0, out, dec.Now(), extra)
      invariant |tries| == i && ScanAttempted(sc, tbls, ms, x0, data, tries) && IssuedInAll(tries) == extra
      invariant sound ==> Sound(data, dec.Now().inp.marker, dec.Now().inp.after)
    {
      ShapedFrom(sc, ms, i);
      ghost var x := dec.Now();
      ReachedRun(sc, tbls, ms, i, x0, out, x, extra);
      var blocks := NewBlocks(ms[i]);
      dec.FreshApart(blocks);
      if sound { StepSound(sc, tbls, ms[i], x, data); }
      ghost var more: seq<Attempt>;
      ok, n, more := DecodeMcuInPieces(dec, blocks, arrivals, n);
      AttemptedNext(sc, tbls, ms, i, x0, x, extra, data, tries, more);
      tries := tries + [more];
      if !ok { break; }
      var m := ReadBlocks(blocks);
      dec.NowIs();
      LikeStepIs(Some((m, dec.Now())), McuStep(sc, tbls, ms[i], x), 0 - Issued(more));
      ReachedNext(sc, tbls, ms, i, x0, out, x, extra, m, dec.Now(), Issued(more));
      extra := extra + Issued(more);
      out := out + [m];
      i := i + 1;
    }
    if NeverAsks(sc, tbls, ms, x0) { NothingInVain(sc, tbls, ms, x0, data, tries); }
    if !ok { return; }
    dec.NowIs();
    ReachedEnd(sc, tbls, ms, x0, out, dec.Now(), extra);
  }

  // ---- start_pass_phuff_decoder ----

  /** The scan parameters that raise no JERR_BAD_PROGRESSION. */
  predicate GoodParams(p: Params, compsInScan: nat)
  {
    && (if p.Ss == 0 then p.Se == 0 else p.Ss <= p.Se < 64 && compsInScan == 1)
    && (p.Ah != 0 ==> p.Al == p.Ah - 1) && p.Al <= 13
  }

  /** What start_pass asks of a table number. */
  ghost predicate Derivable(ptrs: seq<Option<Table>>, isDC: bool, n: nat)
  {
    n < |ptrs| && ptrs[n].Some? && LegalD(ptrs[n].value, isDC)
  }

  /** What derived table n is good for. */
  ghost predicate Fits(derived: seq<Option<DDerivedTbl>>, tbls: Tables, n: nat)
    reads if n < |derived| then Cells(derived[n]) else {}
  {
    n < |derived| == |tbls| && derived[n].Some? && derived[n].value.Valid() && derived[n].value.pub == tbls[n]
  }

  /** Derive the tables of some components. */
  method Derive(ptrs: seq<Option<Table>>, isDC: bool, nos: seq<nat>) returns (ok: bool, derived: seq<Option<DDerivedTbl>>)
    requires |ptrs| == NUM_HUFF_TBLS
    ensures ok <==> forall i :: 0 <= i < |nos| ==> Derivable(ptrs, isDC, nos[i])
    ensures ok ==> forall i :: 0 <= i < |nos| ==> Fits(derived, PassTables(ptrs), nos[i]) && LegalD(PassTables(ptrs)[nos[i]], isDC)
    ensures |derived| == NUM_HUFF_TBLS && forall i :: 0 <= i < |derived| && derived[i].Some? ==> fresh(derived[i].value)
    ensures forall i, x :: 0 <= i < |derived| && x in Cells(derived[i]) ==> fresh(x)
  {
    hide LegalD;
    derived := seq(NUM_HUFF_TBLS, i => None);
    var ci := 0;
    while ci < |nos|
      invariant 0 <= ci <= |nos| && |derived| == |ptrs|
      invariant forall i :: 0 <= i < ci ==> Derivable(ptrs, isDC, nos[i]) && Fits(derived, PassTables(ptrs), nos[i])
      invariant forall i :: 0 <= i < |derived| && derived[i].Some? ==> fresh(derived[i].value)
      invariant forall i, x :: 0 <= i < |derived| && x in Cells(derived[i]) ==> fresh(x)
    {
      var t := MakeDDerivedTbl(ptrs, isDC, nos[ci]);
      if t.None? { return false, derived; }
      derived := derived[nos[ci] := t];
      ci := ci + 1;
    }
    ok := true;
  }

  method CheckParams(p: Params, compsInScan: nat) returns (bad: bool)
    ensures !bad <==> GoodParams(p, compsInScan)
  {
    bad := false;
    if p.Ss == 0 {
      if p.Se != 0 { bad := true; }
    } else {
      if p.Ss > p.Se || p.Se >= 64 { bad := true; }
      if compsInScan != 1 { bad := true; }
    }
    if p.Ah != 0 {
      if p.Al != p.Ah - 1 { bad := true; }
    }
    if p.Al > 13 { bad := true; }
  }

  /** The table numbers the pass uses are usable; refinement of DC needs none. */
  ghost predicate TablesUsable(p: Params, dcNos: seq<nat>, acNo: nat, ptrs: seq<Option<Table>>)
  {
    if p.Ss != 0 then Derivable(ptrs, false, acNo)
    else p.Ah == 0 ==> forall i :: 0 <= i < |dcNos| ==> Derivable(ptrs, true, dcNos[i])
  }

  /** The scan as the decoder keeps it; table numbers that are not used do not matter. */
  function ScanFor(p: Params, members: seq<nat>, dcNos: seq<nat>, acNo: nat, interval: nat): Scan
  {
    Scan(p, members, if p.Ss == 0 && p.Ah == 0 then dcNos else seq(|dcNos|, i => 0), if p.Ss != 0 then acNo else 0, interval, [])
  }

  /** The conditions of start_pass_phuff_decoder in full. */
  lemma StartNeeds(p: Params, dcNos: seq<nat>, acNo: nat, ptrs: seq<Option<Table>>)
    requires |ptrs| == NUM_HUFF_TBLS
    ensures GoodParams(p, |dcNos|) <==>
            && ((p.Ss == 0 && p.Se == 0) || (1 <= p.Ss <= p.Se <= 63 && |dcNos| == 1))
            && (p.Ah == 0 || p.Ah == p.Al + 1) && p.Al <= 13
    ensures p.Ss > 0 ==> (TablesUsable(p, dcNos, acNo, ptrs) <==> acNo < 4 && ptrs[acNo].Some? && LegalTree(ptrs[acNo].value))
    ensures p.Ss == 0 && p.Ah > 0 ==> TablesUsable(p, dcNos, acNo, ptrs)
    ensures p.Ss == 0 && p.Ah == 0 ==>
            (TablesUsable(p, dcNos, acNo, ptrs) <==>
             forall i :: 0 <= i < |dcNos| ==> dcNos[i] < 4 && ptrs[dcNos[i]].Some? && LegalD(ptrs[dcNos[i]].value, true))
  {
    hide LegalTree;
  }

  method DeriveTables(p: Params, dcNos: seq<nat>, acNo: nat, ptrs: seq<Option<Table>>)
    returns (ok: bool, derived: seq<Option<DDerivedTbl>>)
    requires |ptrs| == NUM_HUFF_TBLS
    ensures ok <==> TablesUsable(p, dcNos, acNo, ptrs)
    ensures ok && p.Ss != 0 ==> Fits(derived, PassTables(ptrs), acNo)
    ensures ok && p.Ss == 0 && p.Ah == 0 ==>
      forall i :: 0 <= i < |dcNos| ==> Fits(derived, PassTables(ptrs), dcNos[i]) && LegalD(PassTables(ptrs)[dcNos[i]], true)
    ensures |derived| == NUM_HUFF_TBLS && forall i, x :: 0 <= i < |derived| && x in Cells(derived[i]) ==> fresh(x)
  {
    hide LegalD;
    hide Fits;
    derived := seq(NUM_HUFF_TBLS, i => None);
    ok := true;
    if p.Ss != 0 {
      ok, derived := Derive(ptrs, false, [acNo]);
      assert [acNo][0] == acNo;
    } else if p.Ah == 0 {
      ok, derived := Derive(ptrs, true, dcNos);
    }
  }

  lemma MakeReady(c: Decoder, p: Params, members: seq<nat>, dcNos: seq<nat>, acNo: nat, interval: nat)
    requires c.sc == ScanFor(p, members, dcNos, acNo, interval) && GoodParams(p, |dcNos|) && |c.tbls| == NUM_HUFF_TBLS
    requires (forall i :: 0 <= i < |members| ==> members[i] < |dcNos|) && (|dcNos| == 1 ==> |members| == 1)
    requires c.lastDc == seq(|c.sc.dcTbl|, i => 0) && c.EOBRUN == 0
    requires forall i, x :: 0 <= i < |c.derived| && x in Cells(c.derived[i]) ==> x in c.cells
    requires p.Ss != 0 ==> Fits(c.derived, c.tbls, acNo)
    requires p.Ss == 0 && p.Ah == 0 ==>
      forall i :: 0 <= i < |dcNos| ==> Fits(c.derived, c.tbls, dcNos[i]) && LegalD(c.tbls[dcNos[i]], true)
    ensures c.Ready() && c.Saved() == StartState(c.sc)
  {
    hide LegalD;
    forall n: nat | Fits(c.derived, c.tbls, n) ensures c.Has(n) {
      assert Cells(c.derived[n]) <= c.cells;
    }
  }

  /** The bit reader as start_pass leaves it. */
  method ResetBits(d: Decompress)
    requires d.Valid(d.saved)
    modifies d`saved, d`insufficientData, d`fake
    ensures d.Valid(d.saved) && d.saved == old(d.saved).(bitsLeft := 0, getBuffer := 0) && !d.insufficientData
  {
    d.saved := d.saved.(bitsLeft := 0, getBuffer := 0);
    d.insufficientData := false;
    d.fake := 0;
  }

  /** start_pass_phuff_decoder, without the progression warnings (see Script.UpdateCoefBits). */
  method StartPass(p: Params, members: seq<nat>, dcNos: seq<nat>, acNo: nat, interval: nat, ptrs: seq<Option<Table>>, d: Decompress)
    returns (ok: bool, dec: Option<Decoder>)
    requires |ptrs| == NUM_HUFF_TBLS && (forall i :: 0 <= i < |members| ==> members[i] < |dcNos|)
    requires (|dcNos| == 1 ==> |members| == 1) && d.Valid(d.saved)
    modifies d`saved, d`insufficientData, d`fake
    ensures ok == dec.Some?
    ensures ok <==> GoodParams(p, |dcNos|) && TablesUsable(p, dcNos, acNo, ptrs)
    ensures ok ==>
      var c := dec.value;
      && fresh(c) && c.d == d && c.sc == ScanFor(p, members, dcNos, acNo, interval) && c.tbls == PassTables(ptrs)
      && c.Ready() && c.Saved() == StartState(c.sc) && c.nextRestartNum == 0 && c.restartsToGo == interval
      && (d as object) !in c.cells && (c as object) !in c.cells
    ensures ok ==> d.Valid(d.saved) && d.saved == old(d.saved).(bitsLeft := 0, getBuffer := 0) && !d.insufficientData
  {
    dec := None;
    var bad := CheckParams(p, |dcNos|);
    if bad { return false, None; }
    var derived;
    ok, derived := DeriveTables(p, dcNos, acNo, ptrs);
    if ok {
      hide *;
      var c := new Decoder(ScanFor(p, members, dcNos, acNo, interval), d, derived, PassTables(ptrs));
      MakeReady(c, p, members, dcNos, acNo, interval);
      ResetBits(d);
      dec := Some(c);
    }
  }

  // ---- start_pass_huff_decoder ----

  /** Both tables of every component are usable. */
  ghost predicate BothUsable(dc: seq<Option<Table>>, ac: seq<Option<Table>>, dcNos: seq<nat>, acNos: seq<nat>)
    requires |dcNos| == |acNos|
  {
    forall i :: 0 <= i < |dcNos| ==> Derivable(dc, true, dcNos[i]) && Derivable(ac, false, acNos[i])
  }

  /** A sequential scan: AC table n is table n + 4 of the pass. */
  function WholeScan(members: seq<nat>, dcNos: seq<nat>, acNos: seq<nat>, interval: nat): (sc: Scan)
    ensures sc.p == SEQUENTIAL && sc.members == members && sc.dcTbl == dcNos && sc.interval == interval && sc.acTbl == 0
    ensures |sc.acTbls| == |acNos| && forall i :: 0 <= i < |acNos| ==> sc.acTbls[i] == NUM_HUFF_TBLS + acNos[i]
  {
    Scan(SEQUENTIAL, members, dcNos, 0, interval, seq(|acNos|, i requires 0 <= i < |acNos| => NUM_HUFF_TBLS + acNos[i]))
  }

  lemma FitsBoth(dcd: seq<Option<DDerivedTbl>>, acd: seq<Option<DDerivedTbl>>, dc: seq<Option<Table>>, ac: seq<Option<Table>>, n: nat)
    requires |dc| == |ac| == |dcd| == |acd| == NUM_HUFF_TBLS && n < NUM_HUFF_TBLS
    ensures Fits(dcd, PassTables(dc), n) ==> Fits(dcd + acd, PassTables(dc + ac), n)
    ensures Fits(acd, PassTables(ac), n) ==> Fits(dcd + acd, PassTables(dc + ac), NUM_HUFF_TBLS + n)
    ensures PassTables(dc + ac)[n] == PassTables(dc)[n]
  {
  }

  /** Derive both kinds of tables. */
  method DeriveBoth(dc: seq<Option<Table>>, ac: seq<Option<Table>>, dcNos: seq<nat>, acNos: seq<nat>)
    returns (ok: bool, derived: seq<Option<DDerivedTbl>>)
    requires |dc| == |ac| == NUM_HUFF_TBLS && |dcNos| == |acNos|
    ensures ok <==> BothUsable(dc, ac, dcNos, acNos)
    ensures ok ==> forall i :: 0 <= i < |dcNos| ==>
      && Fits(derived, PassTables(dc + ac), dcNos[i]) && LegalD(PassTables(dc + ac)[dcNos[i]], true)
      && Fits(derived, PassTables(dc + ac), NUM_HUFF_TBLS + acNos[i])
    ensures ok ==> |derived| == 2 * NUM_HUFF_TBLS && forall i, x :: 0 <= i < |derived| && x in Cells(derived[i]) ==> fresh(x)
  {
    hide LegalD;
    var dcd := [];
    ok, dcd := Derive(dc, true, dcNos);
    derived := dcd;
    if !ok { return; }
    var acd := [];
    ok, acd := Derive(ac, false, acNos);
    if !ok { return; }
    derived := dcd + acd;
    hide Fits;
    hide Cells;
    hide PassTables;
    forall i | 0 <= i < |dcNos|
      ensures Fits(derived, PassTables(dc + ac), dcNos[i]) && LegalD(PassTables(dc + ac)[dcNos[i]], true)
      ensures Fits(derived, PassTables(dc + ac), NUM_HUFF_TBLS + acNos[i])
    {
      FitsBoth(dcd, acd, dc, ac, dcNos[i]);
      FitsBoth(dcd, acd, dc, ac, acNos[i]);
    }
  }

  lemma MakeReadyWhole(c: Decoder, members: seq<nat>, dcNos: seq<nat>, acNos: seq<nat>, interval: nat)
    requires |dcNos| == |acNos| && c.sc == WholeScan(members, dcNos, acNos, interval) && |c.tbls| == 2 * NUM_HUFF_TBLS
    requires forall i :: 0 <= i < |members| ==> members[i] < |dcNos|
    requires c.lastDc == seq(|c.sc.dcTbl|, i => 0) && c.EOBRUN == 0
    requires forall i, x :: 0 <= i < |c.derived| && x in Cells(c.derived[i]) ==> x in c.cells
    requires forall i :: 0 <= i < |dcNos| ==>
      && Fits(c.derived, c.tbls, dcNos[i]) && LegalD(c.tbls[dcNos[i]], true) && Fits(c.derived, c.tbls, NUM_HUFF_TBLS + acNos[i])
    ensures c.Ready() && c.Saved() == StartState(c.sc)
  {
    hide LegalD;
    hide WholeScan;
    forall n: nat | Fits(c.derived, c.tbls, n) ensures c.Has(n) {
      assert Cells(c.derived[n]) <= c.cells;
    }
  }

  /** JWRN_NOT_SEQUENTIAL. */
  method CheckSequential(p: Params, d: Decompress)
    requires d.Valid(d.saved)
    modifies d`warnings
    ensures d.Valid(d.saved) && d.warnings == old(d.warnings) + if p == SEQUENTIAL then 0 else 1
  {
    if p.Ss != 0 || p.Se != 63 || p.Ah != 0 || p.Al != 0 { d.Warn(d.saved); }
  }

  /** start_pass_huff_decoder: other than sequential parameters are warned about and ignored. */
  method StartPassHuff(p: Params, members: seq<nat>, dcNos: seq<nat>, acNos: seq<nat>, interval: nat,
                       dc: seq<Option<Table>>, ac: seq<Option<Table>>, d: Decompress)
    returns (ok: bool, dec: Option<Decoder>)
    requires |dc| == |ac| == NUM_HUFF_TBLS && |dcNos| == |acNos| && (forall i :: 0 <= i < |members| ==> members[i] < |dcNos|)
    requires d.Valid(d.saved)
    modifies d`saved, d`insufficientData, d`fake, d`warnings
    ensures d.warnings == old(d.warnings) + if p == SEQUENTIAL then 0 else 1
    ensures ok == dec.Some?
    ensures ok <==> BothUsable(dc, ac, dcNos, acNos)
    ensures ok ==>
      var c := dec.value;
      && fresh(c) && c.d == d && c.sc == WholeScan(members, dcNos, acNos, interval) && c.tbls == PassTables(dc + ac)
      && c.Ready() && c.Saved() == StartState(c.sc) && c.nextRestartNum == 0 && c.restartsToGo == interval
      && (d as object) !in c.cells && (c as object) !in c.cells
    ensures ok ==> d.Valid(d.saved) && d.saved == old(d.saved).(bitsLeft := 0, getBuffer := 0) && !d.insufficientData
  {
    dec := None;
    CheckSequential(p, d);
    var derived;
    ok, derived := DeriveBoth(dc, ac, dcNos, acNos);
    if ok {
      hide *;
      var c := new Decoder(WholeScan(members, dcNos, acNos, interval), d, derived, PassTables(dc + ac));
      MakeReadyWhole(c, members, dcNos, acNos, interval);
      ResetBits(d);
      dec := Some(c);
    }
  }
}
