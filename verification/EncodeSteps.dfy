/** Value-level steps of the progressive encoder: how the tokens of a block come about piece
    by piece, and which pieces may be refused. */
module EncodeSteps {
  import opened Bits
  import opened HuffTable
  import opened Tokens
  import opened EobRun
  import opened Blocks
  import opened AcFirst
  import opened AcRefine
  import opened AcScan
  import DcScan
  import Sequential

  /** emit_eobrun's safety check never fires: the run fits in 15 bits. */
  lemma RunFits(e: nat)
    requires e <= 0x7FFF
    ensures NBits(e) <= 15
  {
    assert Pow2(15) == 32768 by { Pow15(); }
    if NBits(e) > 15 { Pow2Mono(15, NBits(e) - 1); }
  }

  lemma RunTokens(tbl: nat, e: nat, ts: seq<Token>)
    requires 0 < e <= 0x7FFF
    ensures NBits(e) > 0 && 16 * (NBits(e) - 1) < 256 && EobTokens(tbl, e) != [] && EobTokens(tbl, e)[0] == Sym(tbl, 16 * (NBits(e) - 1))
    ensures if NBits(e) == 1 then ts + [EobTokens(tbl, e)[0]] == ts + EobTokens(tbl, e)
            else ts + [EobTokens(tbl, e)[0]] + [Raw(e, NBits(e) - 1)] == ts + EobTokens(tbl, e)
  {
    RunFits(e);
  }

  /** What emit_eobrun writes, and when it can. */
  lemma FlushParts(gather: bool, tbls: Tables, tbl: nat, st: RunState)
    requires gather || AllWritable(tbls, st.out)
    ensures st.eobrun == 0 ==> Flush(tbl, st) == st
    ensures st.eobrun > 0 ==> EobTokens(tbl, st.eobrun) != []
    ensures st.eobrun > 0 ==> Flush(tbl, st) == RunState(st.out + EobTokens(tbl, st.eobrun) + Raws(st.be), 0, [])
    ensures st.eobrun > 0 && !gather ==> (AllWritable(tbls, Flush(tbl, st).out) <==> Writable(tbls, EobTokens(tbl, st.eobrun)[0]))
  {
    if st.eobrun > 0 {
      var ts := Flush(tbl, st).out;
      assert ts[|st.out|] == EobTokens(tbl, st.eobrun)[0];
    }
  }

  /** What cannot be written keeps everything that starts with it from being written. */
  lemma PrefixWritable(tbls: Tables, a: seq<Token>, b: seq<Token>)
    requires a <= b
    ensures AllWritable(tbls, b) ==> AllWritable(tbls, a)
  {
    if AllWritable(tbls, b) {
      forall i | 0 <= i < |a| ensures Writable(tbls, a[i]) { assert a[i] == b[i]; }
    }
  }

  lemma RawsSnoc(a: seq<Token>, b: Bits, i: nat)
    requires i < |b|
    ensures a + Raws(b[..i + 1]) == a + Raws(b[..i]) + [Raw(if b[i] then 1 else 0, 1)]
  {
    assert b[..i + 1] == b[..i] + [b[i]];
    assert Raws(b[..i + 1]) == Raws(b[..i]) + [Raw(if b[i] then 1 else 0, 1)];
  }

  lemma Refused(tbls: Tables, ts: seq<Token>, whole: seq<Token>, x: Token)
    requires x in whole && !Writable(tbls, x)
    ensures !AllWritable(tbls, whole)
  {
  }

  lemma ZrlsNext(tbl: nat, r: nat, ts: seq<Token>)
    ensures r <= 15 ==> ts + Zrls(tbl, r) == ts
    ensures r > 15 ==> ts + Zrls(tbl, r) == ts + [Sym(tbl, 0xF0)] + Zrls(tbl, r - 16)
  {
  }

  lemma AbsNonzero(t: int)
    requires t != 0
    ensures Abs(t) > 0
  {
  }

  /** The tokens of a coefficient one by one, and which of them may be refused. */
  lemma FrontParts(gather: bool, tbls: Tables, ts: seq<Token>, tbl: nat, r: nat, t: int)
    requires t != 0
    ensures MAX_COEF_BITS == 10
    ensures var n := NBits(Abs(t));
            var x, y, z := Zrls(tbl, r), Sym(tbl, 16 * (r % 16) + n), Raw(Field(t), n);
            && ts + FirstFront(tbl, r, t) == ts + x + [y] + [z]
            && n > 0 && (n <= MAX_COEF_BITS ==>
              (AllWritable(tbls, ts + FirstFront(tbl, r, t)) <==> AllWritable(tbls, ts + x) && Writable(tbls, y)))
  {
    hide *;
    var n := NBits(Abs(t));
    var x, y, z := Zrls(tbl, r), Sym(tbl, 16 * (r % 16) + n), Raw(Field(t), n);
    FrontIs(tbl, r, t);
    TwoMore(ts, x, y, z);
    BitsOfSnocAll(tbls, ts + x, y, z);
    RawWritable(tbls, Field(t), n);
  }

  lemma FrontIs(tbl: nat, r: nat, t: int)
    requires t != 0
    ensures MAX_COEF_BITS == 10 && NBits(Abs(t)) > 0
    ensures FirstFront(tbl, r, t) == Zrls(tbl, r) + [Sym(tbl, 16 * (r % 16) + NBits(Abs(t))), Raw(Field(t), NBits(Abs(t)))]
  {
    hide Zrls;
  }

  lemma TwoMore(ts: seq<Token>, x: seq<Token>, y: Token, z: Token)
    ensures ts + (x + [y, z]) == ts + x + [y] + [z]
  {
  }

  lemma RawWritable(tbls: Tables, v: int, n: nat)
    ensures Writable(tbls, Raw(v, n)) <==> 1 <= n <= 16
  {
  }

  lemma SnocWritable(tbls: Tables, ts: seq<Token>, x: Token)
    ensures AllWritable(tbls, ts + [x]) <==> AllWritable(tbls, ts) && Writable(tbls, x)
  {
    hide Writable;
    PrefixWritable(tbls, ts, ts + [x]);
    assert (ts + [x])[|ts|] == x;
  }

  lemma BitsOfSnocAll(tbls: Tables, ts: seq<Token>, y: Token, z: Token)
    ensures AllWritable(tbls, ts + [y] + [z]) <==> AllWritable(tbls, ts) && Writable(tbls, y) && Writable(tbls, z)
  {
    hide AllWritable;
    SnocWritable(tbls, ts, y);
    SnocWritable(tbls, ts + [y], z);
  }

  lemma FrontWritable(tbls: Tables, ts: seq<Token>, front: seq<Token>)
    ensures AllWritable(tbls, ts + front) ==> AllWritable(tbls, ts)
  {
    PrefixWritable(tbls, ts, ts + front);
  }

  lemma FlushEmpties(tbl: nat, st: RunState)
    requires Pending(st)
    ensures Flush(tbl, st) == RunState(Flush(tbl, st).out, 0, []) && (st.eobrun == 0 ==> Flush(tbl, st) == st && st.be == [])
    ensures st.eobrun < 0x7FFF && |st.be| <= MAX_CORR_BITS && |st.be| + 63 <= MAX_CORR_BITS
  {
  }

  lemma EmptyPending(out: seq<Token>)
    ensures Pending(RunState(out, 0, []))
  {
  }

  /** The point transform as the encoder computes it, with the bits to send. */
  lemma Transform(v: int, al: nat)
    ensures Abs(PtAc(v, al)) == Mag(v, al) == Shr(if v < 0 then 0 - v else v, al)
    ensures v == 0 ==> PtAc(v, al) == 0
    ensures PtAc(v, al) == 0 <==> Mag(v, al) == 0
    ensures PtAc(v, al) != 0 ==> Field(PtAc(v, al)) == if v < 0 then 0 - Mag(v, al) - 1 else Mag(v, al)
  {
  }

  lemma AcBand(p: Params)
    requires AcParams(p)
    ensures 0 < p.Ss <= p.Se < 64
  {
  }

  lemma FirstBand(tbl: nat, b: Block, p: Params)
    requires AcParams(p) && p.Ah == 0
    ensures 0 < p.Ss <= p.Se < 64
    ensures AcCode(tbl, b, p) == FirstCode(tbl, b, p.Ss, 0, p) && (AcInRange(b, p) <==> FirstInRange(b, p.Ss, p))
  {
  }

  // ---- What is still to come of a block ----

  lemma FlushExtends(tbl: nat, st: RunState)
    ensures st.out <= Flush(tbl, st).out
  {
    hide EobTokens;
    hide Raws;
  }

  lemma TrailExtends(tbl: nat, st: RunState, c: BlockCode)
    ensures st.out <= Trail(tbl, st, c).out
  {
    hide Flush;
    FlushExtends(tbl, st.(eobrun := st.eobrun + 1, be := st.be + c.corr));
  }

  lemma TrailIs(tbl: nat, st: RunState, trailing: bool, corr: Bits)
    ensures MAX_CORR_BITS == 1000 && DCTSIZE2 == 64
    ensures !trailing ==> Trail(tbl, st, BlockCode([], trailing, corr)) == st
    ensures trailing ==>
      var next := st.(eobrun := st.eobrun + 1, be := st.be + corr);
      Trail(tbl, st, BlockCode([], trailing, corr))
      == if next.eobrun == 0x7FFF || |next.be| > MAX_CORR_BITS - DCTSIZE2 + 1 then Flush(tbl, next) else next
  {
    hide Flush;
  }

  lemma StepExtends(tbl: nat, st: RunState, c: BlockCode)
    ensures st.out <= Step(tbl, st, c).out
  {
    hide Flush;
    hide Trail;
    FlushExtends(tbl, st);
    TrailExtends(tbl, Head(tbl, st, c), c);
  }

  lemma HeadJoin(tbl: nat, st: RunState, front: seq<Token>, c: BlockCode)
    requires front != [] && (st.eobrun == 0 ==> st.be == [])
    ensures Head(tbl, st, c.(head := front + c.head)) == Head(tbl, RunState(Flush(tbl, st).out + front, 0, []), c)
  {
    var f := Flush(tbl, st);
    assert f == RunState(f.out, 0, []);
    assert f.out + (front + c.head) == (f.out + front) + c.head;
    if c.head == [] { assert front + c.head == front; }
  }

  /** Writing the front of a block's head now leaves the rest to be coded from there. */
  lemma StepHead(tbl: nat, st: RunState, front: seq<Token>, c: BlockCode)
    requires front != [] && (st.eobrun == 0 ==> st.be == [])
    ensures Step(tbl, st, c.(head := front + c.head)) == Step(tbl, RunState(Flush(tbl, st).out + front, 0, []), c)
    ensures Flush(tbl, st).out + front <= Step(tbl, st, c.(head := front + c.head)).out
  {
    hide Flush;
    hide Head;
    HeadJoin(tbl, st, front, c);
    StepExtends(tbl, RunState(Flush(tbl, st).out + front, 0, []), c);
  }

  lemma NoHead(tbl: nat, st: RunState, trailing: bool, corr: Bits)
    ensures Step(tbl, st, BlockCode([], trailing, corr)) == Trail(tbl, st, BlockCode([], trailing, corr))
  {
  }

  lemma FirstZero(tbl: nat, b: Block, k: nat, r: nat, p: Params)
    requires k <= p.Se < 64 && PtAc(b[k], p.Al) == 0
    ensures FirstCode(tbl, b, k, r, p) == FirstCode(tbl, b, k + 1, r + 1, p)
    ensures FirstInRange(b, k, p) <==> FirstInRange(b, k + 1, p)
  {
    MagZero(b[k], p.Al);
  }

  lemma MagZero(v: int, al: nat)
    requires PtAc(v, al) == 0
    ensures Mag(v, al) == 0 && NBits(Mag(v, al)) == 0
  {
  }

  function FirstFront(tbl: nat, r: nat, t: int): (ts: seq<Token>)
    ensures ts != []
  {
    Zrls(tbl, r) + CoefTokens(tbl, r % 16, t)
  }

  lemma FirstCoef(tbl: nat, st: RunState, b: Block, k: nat, r: nat, p: Params)
    requires k <= p.Se < 64 && PtAc(b[k], p.Al) != 0 && (st.eobrun == 0 ==> st.be == [])
    ensures var front := FirstFront(tbl, r, PtAc(b[k], p.Al));
            && Step(tbl, st, FirstCode(tbl, b, k, r, p))
               == Step(tbl, RunState(Flush(tbl, st).out + front, 0, []), FirstCode(tbl, b, k + 1, 0, p))
            && Flush(tbl, st).out + front <= Step(tbl, st, FirstCode(tbl, b, k, r, p)).out
    ensures FirstInRange(b, k, p) <==> NBits(Mag(b[k], p.Al)) <= MAX_COEF_BITS && FirstInRange(b, k + 1, p)
  {
    hide Step;
    hide Flush;
    hide Zrls;
    hide CoefTokens;
    hide Mag;
    hide NBits;
    var t := PtAc(b[k], p.Al);
    var rest := FirstCode(tbl, b, k + 1, 0, p);
    StepHead(tbl, st, FirstFront(tbl, r, t), rest);
    FirstFrontAssoc(tbl, r, t, rest.head);
  }

  lemma FirstFrontAssoc(tbl: nat, r: nat, t: int, ts: seq<Token>)
    ensures FirstFront(tbl, r, t) + ts == Zrls(tbl, r) + (CoefTokens(tbl, r % 16, t) + ts)
  {
  }

  lemma FirstEnd(tbl: nat, b: Block, k: nat, r: nat, p: Params)
    requires k == p.Se + 1 <= 64
    ensures FirstCode(tbl, b, k, r, p) == BlockCode([], r > 0, []) && FirstInRange(b, k, p)
  {
  }

  // ---- The same for the AC coefficients of a sequential block ----

  lemma WholeBand()
    ensures Sequential.ALL_AC == Params(1, 63, 0, 0)
  {
  }

  lemma WholeZero(tbl: nat, b: Block, k: nat, r: nat)
    requires k <= 63 && b[k] == 0
    ensures Sequential.AcRest(tbl, b, k, r) == Sequential.AcRest(tbl, b, k + 1, r + 1)
    ensures FirstInRange(b, k, Sequential.ALL_AC) <==> FirstInRange(b, k + 1, Sequential.ALL_AC)
  {
    FirstZero(tbl, b, k, r, Sequential.ALL_AC);
  }

  lemma WholeCoef(tbl: nat, b: Block, k: nat, r: nat, ts: seq<Token>)
    requires k <= 63 && b[k] != 0
    ensures ts + Sequential.AcRest(tbl, b, k, r) == ts + FirstFront(tbl, r, b[k]) + Sequential.AcRest(tbl, b, k + 1, 0)
    ensures FirstInRange(b, k, Sequential.ALL_AC) <==> NBits(Abs(b[k])) <= MAX_COEF_BITS && FirstInRange(b, k + 1, Sequential.ALL_AC)
  {
    hide FirstInRange;
    hide NBits;
    TransformNone(b[k]);
    FirstCoef(tbl, RunState([], 0, []), b, k, r, Sequential.ALL_AC);
    var rest := FirstCode(tbl, b, k + 1, 0, Sequential.ALL_AC);
    FirstFrontAssoc(tbl, r, b[k], rest.head);
    FirstFrontAssoc(tbl, r, b[k], rest.head + if rest.trailing then [Sym(tbl, 0)] else []);
  }

  lemma TransformNone(v: int)
    ensures PtAc(v, 0) == v && Mag(v, 0) == Abs(v)
  {
  }

  lemma Magnitude(v: int)
    ensures Abs(v) == if v < 0 then 0 - v else v
    ensures v != 0 ==> Field(v) == if v < 0 then v - 1 else v
  {
  }

  lemma WholeEnd(tbl: nat, b: Block, r: nat)
    ensures Sequential.AcRest(tbl, b, 64, r) == (if r > 0 then [Sym(tbl, 0)] else []) && FirstInRange(b, 64, Sequential.ALL_AC)
  {
  }

  lemma WholeStart(dcTbl: nat, tbl: nat, b: Block, pred: int, ts: seq<Token>)
    ensures ts + Sequential.BlockTokens(dcTbl, tbl, b, pred) == ts + DcScan.DiffTokens(dcTbl, b[0] - pred) + Sequential.AcRest(tbl, b, 1, 0)
    ensures Sequential.AcInRange(b) <==> FirstInRange(b, 1, Sequential.ALL_AC)
  {
    hide Sequential.AcRest;
    hide DcScan.DiffTokens;
  }

  // ---- The same for refinement scans ----

  lemma RefineZero(tbl: nat, b: Block, k: nat, r: nat, br: Bits, eob: nat, p: Params)
    requires k <= p.Se < 64 && Mag(b[k], p.Al) == 0
    ensures RefineCode(tbl, b, k, r, br, eob, p) == RefineCode(tbl, b, k + 1, r + 1, br, eob, p)
  {
  }

  lemma RefineCorr(tbl: nat, b: Block, k: nat, r: nat, br: Bits, eob: nat, p: Params)
    requires k <= p.Se < 64 && Mag(b[k], p.Al) > 1 && !(r > 15 && k <= eob)
    ensures RefineCode(tbl, b, k, r, br, eob, p) == RefineCode(tbl, b, k + 1, r, br + [Mag(b[k], p.Al) % 2 == 1], eob, p)
  {
  }

  function ZrlFront(tbl: nat, br: Bits): (ts: seq<Token>)
    ensures ts != []
  {
    [Sym(tbl, 0xF0)] + Raws(br)
  }

  function NewFront(tbl: nat, r: nat, v: int, br: Bits): (ts: seq<Token>)
    ensures ts != []
  {
    NewTokens(tbl, r, v) + Raws(br)
  }

  lemma RefineZrl(tbl: nat, st: RunState, b: Block, k: nat, r: nat, br: Bits, eob: nat, p: Params)
    requires k <= p.Se < 64 && Mag(b[k], p.Al) > 0 && r > 15 && k <= eob && Pending(st)
    ensures var out := Flush(tbl, st).out + ZrlFront(tbl, br);
            && Step(tbl, st, RefineCode(tbl, b, k, r, br, eob, p))
               == Step(tbl, RunState(out, 0, []), RefineCode(tbl, b, k, r - 16, [], eob, p))
            && out <= Step(tbl, st, RefineCode(tbl, b, k, r, br, eob, p)).out
  {
    hide Step;
    hide Flush;
    hide Raws;
    hide Mag;
    StepHead(tbl, st, ZrlFront(tbl, br), RefineCode(tbl, b, k, r - 16, [], eob, p));
  }

  lemma RefineNew(tbl: nat, st: RunState, b: Block, k: nat, r: nat, br: Bits, eob: nat, p: Params)
    requires k <= p.Se < 64 && Mag(b[k], p.Al) == 1 && !(r > 15 && k <= eob) && Pending(st)
    ensures var out := Flush(tbl, st).out + NewFront(tbl, r, b[k], br);
            && Step(tbl, st, RefineCode(tbl, b, k, r, br, eob, p))
               == Step(tbl, RunState(out, 0, []), RefineCode(tbl, b, k + 1, 0, [], eob, p))
            && out <= Step(tbl, st, RefineCode(tbl, b, k, r, br, eob, p)).out
  {
    hide Step;
    hide Flush;
    hide Raws;
    hide Mag;
    hide NewTokens;
    StepHead(tbl, st, NewFront(tbl, r, b[k], br), RefineCode(tbl, b, k + 1, 0, [], eob, p));
  }

  lemma RefineEnd(tbl: nat, b: Block, k: nat, r: nat, br: Bits, eob: nat, p: Params)
    requires k == p.Se + 1 <= 64
    ensures RefineCode(tbl, b, k, r, br, eob, p) == BlockCode([], r > 0 || |br| > 0, br)
  {
  }

  lemma RefineBand(tbl: nat, b: Block, p: Params)
    requires AcParams(p) && p.Ah != 0
    ensures 0 < p.Ss <= p.Se < 64 && MAX_CORR_BITS == 1000
    ensures AcCode(tbl, b, p) == RefineCode(tbl, b, p.Ss, 0, [], EobPos(b, p.Ss, 0, p), p) && AcInRange(b, p)
    ensures forall j :: p.Ss <= j <= p.Se && Mag(b[j], p.Al) == 1 ==> j <= EobPos(b, p.Ss, 0, p)
  {
    EobPosLast(b, p.Ss, 0, p);
  }

  /** The tokens that go with buffered bits, one group at a time. */
  lemma ZrlParts(tbls: Tables, ts: seq<Token>, tbl: nat, br: Bits)
    ensures ts + ZrlFront(tbl, br) == ts + [Sym(tbl, 0xF0)] + Raws(br)
    ensures AllWritable(tbls, ts + ZrlFront(tbl, br)) <==> AllWritable(tbls, ts + [Sym(tbl, 0xF0)])
  {
    assert ts + ZrlFront(tbl, br) == ts + [Sym(tbl, 0xF0)] + Raws(br);
    RawsWritable(tbls, ts + [Sym(tbl, 0xF0)], br);
  }

  lemma NewParts(tbls: Tables, ts: seq<Token>, tbl: nat, r: nat, v: int, br: Bits)
    ensures var x, y := Sym(tbl, 16 * r + 1), Raw(if v < 0 then 0 else 1, 1);
            && ts + NewFront(tbl, r, v, br) == ts + [x] + [y] + Raws(br)
            && (AllWritable(tbls, ts + NewFront(tbl, r, v, br)) <==> AllWritable(tbls, ts + [x]))
  {
    var x, y := Sym(tbl, 16 * r + 1), Raw(if v < 0 then 0 else 1, 1);
    assert ts + NewFront(tbl, r, v, br) == ts + [x] + [y] + Raws(br);
    RawsWritable(tbls, ts + [x] + [y], br);
    PrefixWritable(tbls, ts + [x], ts + [x] + [y]);
  }

  lemma RawsWritable(tbls: Tables, ts: seq<Token>, br: Bits)
    ensures AllWritable(tbls, ts + Raws(br)) <==> AllWritable(tbls, ts)
  {
    PrefixWritable(tbls, ts, ts + Raws(br));
  }

  // ---- DC differences ----

  lemma DiffParts(tbls: Tables, ts: seq<Token>, tbl: nat, d: int)
    ensures MAX_COEF_BITS == 10 && Abs(d) == if d < 0 then 0 - d else d
    ensures var n := NBits(Abs(d));
            && (ts + DcScan.DiffTokens(tbl, d) == if n == 0 then ts + [Sym(tbl, n)] else ts + [Sym(tbl, n)] + [Raw(if d < 0 then d - 1 else d, n)])
            && (n <= MAX_COEF_BITS + 1 ==>
                  (AllWritable(tbls, ts + DcScan.DiffTokens(tbl, d)) <==> AllWritable(tbls, ts) && Writable(tbls, Sym(tbl, n))))
  {
    var n := NBits(Abs(d));
    SnocWritable(tbls, ts, Sym(tbl, n));
    SnocWritable(tbls, ts + [Sym(tbl, n)], Raw(Field(d), n));
    if d == 0 {
      assert ts + DcScan.DiffTokens(tbl, d) == ts + [Sym(tbl, n)];
    } else {
      assert ts + DcScan.DiffTokens(tbl, d) == ts + [Sym(tbl, n)] + [Raw(Field(d), n)];
    }
  }
}
