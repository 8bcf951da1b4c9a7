/** Sequential Huffman coding of blocks (sections F.1.2 and F.2.2 of T.81): encode_one_block
    of jchuff.c and the block loop of decode_mcu in jdhuff.c. */
module Sequential {
  import opened Bits
  import opened BitStream
  import opened HuffTable
  import opened Tokens
  import opened EobRun
  import opened Blocks
  import opened AcFirst
  import DcScan

  /** Ss, Se, Ah and Al of a sequential scan's AC coefficients. */
  const ALL_AC := Params(1, 63, 0, 0)

  /** The AC part of a block from position k on, after r zeroes, with an end-of-block if it
      ends in zeroes. */
  function AcRest(tbl: nat, b: Block, k: nat, r: nat): seq<Token>
  {
    var c := FirstCode(tbl, b, k, r, ALL_AC);
    c.head + if c.trailing then [Sym(tbl, 0)] else []
  }

  function AcTokens(tbl: nat, b: Block): seq<Token> { AcRest(tbl, b, 1, 0) }

  /** encode_one_block. */
  function BlockTokens(dcTbl: nat, acTbl: nat, b: Block, pred: int): seq<Token>
  {
    DcScan.DiffTokens(dcTbl, b[0] - pred) + AcTokens(acTbl, b)
  }

  /** A block whose AC coefficients are zero, as the decoder's caller leaves it. */
  ghost predicate ZeroAc(d: Block) { forall j :: 1 <= j < 64 ==> d[j] == 0 }

  /** No AC coefficient raises JERR_BAD_DCT_COEF. */
  ghost predicate AcInRange(b: Block) { FirstInRange(b, 1, ALL_AC) }

  /** The AC loop of decode_mcu. */
  function DecAc(t: Table, d: Block, k: nat, s: Src): (Block, Src)
    decreases 64 - k
  {
    if k > 63 then (d, s)
    else
      var (sym, s1) := DecodeSym(t, s);
      var r, z := sym / 16, sym % 16;
      if z != 0 then DecAc(t, d[Clamp(k + r) := Jcoef(Extend(s1.Peek(z), z))], k + r + 1, s1.Drop(z))
      else if r == 15 then DecAc(t, d, k + 16, s1)
      else (d, s1)
  }

  /** One block: its DC value becomes the next prediction. */
  function DecBlock(dct: Table, act: Table, d: Block, pred: int, s: Src): (Block, int, Src)
  {
    var (z, s1) := DecodeSym(dct, s);
    var v := DcScan.DiffValue(z, s1) + pred;
    var (d1, s2) := DecAc(act, d[0 := Jcoef(v)], 1, s1.Drop(z));
    (d1, v, s2)
  }

  /** The AC symbols of a block: those of its coefficients, and an end-of-block exactly if it
      ends in a zero. */
  lemma BlockSymbols(tbl: nat, b: Block)
    ensures Symbols(AcTokens(tbl, b)) == RunSizes(b, 1, 0, ALL_AC) + if b[63] == 0 then [0] else []
  {
    hide *;
    AcTokensIs(tbl, b);
    FirstSymbols(tbl, b, 1, 0, ALL_AC);
    FirstTrailing(tbl, b, 1, 0, ALL_AC);
    var c := FirstCode(tbl, b, 1, 0, ALL_AC);
    SymbolsConcat(c.head, if c.trailing then [Sym(tbl, 0)] else []);
    OneSymbol(Sym(tbl, 0));
  }

  lemma AcTokensIs(tbl: nat, b: Block)
    ensures var c := FirstCode(tbl, b, 1, 0, ALL_AC); AcTokens(tbl, b) == c.head + if c.trailing then [Sym(tbl, 0)] else []
    ensures ALL_AC == Params(1, 63, 0, 0) && (PtAc(b[63], 0) == 0 <==> b[63] == 0)
  {
  }

  lemma OneSymbol(t: Token)
    ensures Symbols([t]) == (if t.Sym? then [t.s] else []) && Symbols([]) == []
  {
    assert [t][1..] == [];
  }

  // ---- An MCU: blocks with their components ----

  function McuTokens(dcTbl: seq<nat>, acTbls: seq<nat>, cis: seq<nat>, bs: seq<Block>, preds: seq<int>): seq<Token>
    requires |cis| == |bs| && |dcTbl| == |acTbls| == |preds| && forall i :: 0 <= i < |cis| ==> cis[i] < |preds|
    decreases bs
  {
    if bs == [] then []
    else BlockTokens(dcTbl[cis[0]], acTbls[cis[0]], bs[0], preds[cis[0]])
         + McuTokens(dcTbl, acTbls, cis[1..], bs[1..], preds[cis[0] := bs[0][0]])
  }

  /** decode_mcu's loop over the blocks. */
  function DecMcu(tbls: Tables, dcTbl: seq<nat>, acTbls: seq<nat>, cis: seq<nat>, ds: seq<Block>, preds: seq<int>, s: Src)
    : (seq<Block>, seq<int>, Src)
    requires |cis| == |ds| && |dcTbl| == |acTbls| == |preds| && forall i :: 0 <= i < |cis| ==> cis[i] < |preds|
    requires forall i :: 0 <= i < |dcTbl| ==> dcTbl[i] < |tbls| && acTbls[i] < |tbls|
    decreases ds
  {
    if ds == [] then ([], preds, s)
    else
      var (d, v, s1) := DecBlock(tbls[dcTbl[cis[0]]], tbls[acTbls[cis[0]]], ds[0], preds[cis[0]], s);
      var (rest, preds2, s2) := DecMcu(tbls, dcTbl, acTbls, cis[1..], ds[1..], preds[cis[0] := v], s1);
      ([d] + rest, preds2, s2)
  }

  // ---- Decoding undoes encoding ----

  /** With no end-of-band run in sight, the progressive loop is the sequential one. */
  lemma {:induction false} SameLoop(t: Table, d: Block, k: nat, s: Src)
    requires DecFirst(t, d, k, ALL_AC, s).1 == 0
    ensures DecAc(t, d, k, s) == (DecFirst(t, d, k, ALL_AC, s).0, DecFirst(t, d, k, ALL_AC, s).2)
    decreases 64 - k
  {
    hide DecodeSym;
    hide Extend;
    hide Jcoef;
    hide Clamp;
    if k <= 63 {
      var (sym, s1) := DecodeSym(t, s);
      var r, z := sym / 16, sym % 16;
      if z != 0 {
        ShlNone(Extend(s1.Peek(z), z));
        SameLoop(t, d[Clamp(k + r) := Jcoef(Extend(s1.Peek(z), z))], k + r + 1, s1.Drop(z));
      } else if r == 15 {
        SameLoop(t, d, k + 16, s1);
      } else {
        RunZero(r, s1);
      }
    }
  }

  lemma ShlNone(v: int)
    ensures Shl(v, 0) == v
  {
  }

  lemma ShrNone(v: int)
    ensures Shr(v, 0) == v
  {
  }

  lemma RunZero(r: nat, s: Src)
    requires RunLength(r, s) - 1 == 0
    ensures r == 0 && s.Drop(r) == s
  {
    PowBig(r);
  }

  lemma PowBig(r: nat)
    ensures r > 0 ==> Pow2(r) >= 2
  {
    if r > 0 { assert Pow2(r) == 2 * Pow2(r - 1); }
  }

  lemma EobOne(tbl: nat)
    ensures EobTokens(tbl, 1 + 0) == [Sym(tbl, 0)] && Raws([]) == []
  {
    assert NBits(1) == 1 + NBits(0);
  }

  /** The AC coefficients of a zeroed block come back. */
  lemma AcReads(tbls: Tables, tbl: nat, d: Block, b: Block, ts: seq<Token>, rest: Bits, w: nat)
    requires tbl < |tbls| && AcInRange(b) && ZeroAc(d)
    requires AllWritable(tbls, AcTokens(tbl, b) + ts)
    ensures AllWritable(tbls, ts)
    ensures DecAc(tbls[tbl], d, 1, Feed(tbls, AcTokens(tbl, b) + ts, rest, w)) == (b[0 := d[0]], Feed(tbls, ts, rest, w))
  {
    hide DecFirst;
    hide DecAc;
    hide BitsOf;
    hide FirstCode;
    hide FirstInRange;
    var c := FirstCode(tbl, b, 1, 0, ALL_AC);
    TailIs(tbl, b, ts);
    FirstReads(tbls, tbl, b, 1, 0, d, 0, ALL_AC, ts, rest, w);
    SameLoop(tbls[tbl], d, 1, Feed(tbls, AcTokens(tbl, b) + ts, rest, w));
    FilledAll(d, b);
  }

  lemma TailIs(tbl: nat, b: Block, ts: seq<Token>)
    ensures var c := FirstCode(tbl, b, 1, 0, ALL_AC); c.head + (Tail(tbl, c, 0) + ts) == AcTokens(tbl, b) + ts
  {
    hide FirstCode;
    EobOne(tbl);
    var c := FirstCode(tbl, b, 1, 0, ALL_AC);
    CorrNone(tbl, b, 1, 0);
    assert Tail(tbl, c, 0) == if c.trailing then [Sym(tbl, 0)] else [];
  }

  lemma {:induction false} CorrNone(tbl: nat, b: Block, k: nat, r: nat)
    ensures FirstCode(tbl, b, k, r, ALL_AC).corr == []
    decreases 64 - k
  {
    hide PtAc;
    if k <= 63 {
      if PtAc(b[k], 0) == 0 { CorrNone(tbl, b, k + 1, r + 1); } else { CorrNone(tbl, b, k + 1, 0); }
    }
  }

  lemma FilledAll(d: Block, b: Block)
    ensures FillRange(d, b, 1, 64, 0) == b[0 := d[0]]
  {
    forall j | 0 <= j < 64 ensures FillRange(d, b, 1, 64, 0)[j] == b[0 := d[0]][j] { TruncZero(b[j]); }
  }

  /** A block comes back whole. */
  lemma BlockReads(tbls: Tables, dcTbl: nat, acTbl: nat, d: Block, b: Block, pred: int, ts: seq<Token>, rest: Bits, w: nat)
    requires dcTbl < |tbls| && acTbl < |tbls| && AcInRange(b) && ZeroAc(d)
    requires AllWritable(tbls, BlockTokens(dcTbl, acTbl, b, pred) + ts)
    ensures AllWritable(tbls, ts)
    ensures DecBlock(tbls[dcTbl], tbls[acTbl], d, pred, Feed(tbls, BlockTokens(dcTbl, acTbl, b, pred) + ts, rest, w))
            == (b, b[0] as int, Feed(tbls, ts, rest, w))
  {
    hide *;
    var t := b[0] - pred;
    BlockAssoc(dcTbl, acTbl, b, pred, ts);
    var more := AcTokens(acTbl, b) + ts;
    DcScan.DiffRead(tbls, dcTbl, t, more, rest, w);
    DecBlockIs(tbls[dcTbl], tbls[acTbl], d, pred, Feed(tbls, BlockTokens(dcTbl, acTbl, b, pred) + ts, rest, w),
               NBits(Abs(t)), Feed(tbls, DcScan.DiffTokens(dcTbl, t)[1..] + more, rest, w));
    JcoefSelf(b[0]);
    StillZero(d, b[0]);
    AcReads(tbls, acTbl, d[0 := b[0]], b, ts, rest, w);
    assert b[0 := b[0]] == b;
  }

  lemma BlockAssoc(dcTbl: nat, acTbl: nat, b: Block, pred: int, ts: seq<Token>)
    ensures BlockTokens(dcTbl, acTbl, b, pred) + ts == DcScan.DiffTokens(dcTbl, b[0] - pred) + (AcTokens(acTbl, b) + ts)
  {
    hide AcTokens;
    hide DcScan.DiffTokens;
  }

  lemma StillZero(d: Block, v: Coef)
    requires ZeroAc(d)
    ensures ZeroAc(d[0 := v])
  {
  }

  lemma JcoefSelf(v: Coef)
    ensures Jcoef(v) == v
  {
  }

  lemma DecBlockIs(dct: Table, act: Table, d: Block, pred: int, s: Src, z: byte, s1: Src)
    requires DecodeSym(dct, s) == (z, s1)
    ensures var v := DcScan.DiffValue(z, s1) + pred;
            var x := DecAc(act, d[0 := Jcoef(v)], 1, s1.Drop(z));
            DecBlock(dct, act, d, pred, s) == (x.0, v, x.1)
  {
    hide DecodeSym;
    hide DecAc;
    hide DcScan.DiffValue;
  }

  /** Every block of an MCU comes back. */
  lemma {:induction false} McuReads(tbls: Tables, dcTbl: seq<nat>, acTbls: seq<nat>, cis: seq<nat>, ds: seq<Block>, bs: seq<Block>,
                                    preds: seq<int>, ts: seq<Token>, rest: Bits, w: nat)
    requires |cis| == |bs| == |ds| && |dcTbl| == |acTbls| == |preds| && (forall i :: 0 <= i < |cis| ==> cis[i] < |preds|)
    requires forall i :: 0 <= i < |dcTbl| ==> dcTbl[i] < |tbls| && acTbls[i] < |tbls|
    requires forall i :: 0 <= i < |bs| ==> ZeroAc(ds[i]) && AcInRange(bs[i])
    requires AllWritable(tbls, McuTokens(dcTbl, acTbls, cis, bs, preds) + ts)
    ensures AllWritable(tbls, ts)
    ensures DecMcu(tbls, dcTbl, acTbls, cis, ds, preds, Feed(tbls, McuTokens(dcTbl, acTbls, cis, bs, preds) + ts, rest, w))
            == (bs, DcScan.Preds(cis, bs, preds, 0), Feed(tbls, ts, rest, w))
    decreases bs
  {
    hide *;
    if bs == [] {
      NoTokens(dcTbl, acTbls, cis, preds);
      assert [] + ts == ts;
      McuNone(tbls, dcTbl, acTbls, cis, preds, Feed(tbls, ts, rest, w));
    } else {
      var c := cis[0];
      var more := McuTokens(dcTbl, acTbls, cis[1..], bs[1..], preds[c := bs[0][0]]);
      McuCons(dcTbl, acTbls, cis, bs, preds, ts);
      BlockReads(tbls, dcTbl[c], acTbls[c], ds[0], bs[0], preds[c], more + ts, rest, w);
      var s := Feed(tbls, McuTokens(dcTbl, acTbls, cis, bs, preds) + ts, rest, w);
      DecMcuCons(tbls, dcTbl, acTbls, cis, ds, preds, s);
      McuReads(tbls, dcTbl, acTbls, cis[1..], ds[1..], bs[1..], preds[c := bs[0][0]], ts, rest, w);
    }
  }

  lemma NoTokens(dcTbl: seq<nat>, acTbls: seq<nat>, cis: seq<nat>, preds: seq<int>)
    requires |dcTbl| == |acTbls| == |preds| && cis == []
    ensures McuTokens(dcTbl, acTbls, cis, [], preds) == []
  {
  }

  lemma McuNone(tbls: Tables, dcTbl: seq<nat>, acTbls: seq<nat>, cis: seq<nat>, preds: seq<int>, s: Src)
    requires |dcTbl| == |acTbls| == |preds| && cis == []
    requires forall i :: 0 <= i < |dcTbl| ==> dcTbl[i] < |tbls| && acTbls[i] < |tbls|
    ensures DcScan.Preds(cis, [], preds, 0) == preds
    ensures DecMcu(tbls, dcTbl, acTbls, cis, [], preds, s) == ([], preds, s)
  {
  }

  lemma McuCons(dcTbl: seq<nat>, acTbls: seq<nat>, cis: seq<nat>, bs: seq<Block>, preds: seq<int>, ts: seq<Token>)
    requires |cis| == |bs| && |dcTbl| == |acTbls| == |preds| && bs != [] && forall i :: 0 <= i < |cis| ==> cis[i] < |preds|
    ensures McuTokens(dcTbl, acTbls, cis, bs, preds) + ts
            == BlockTokens(dcTbl[cis[0]], acTbls[cis[0]], bs[0], preds[cis[0]])
               + (McuTokens(dcTbl, acTbls, cis[1..], bs[1..], preds[cis[0] := bs[0][0]]) + ts)
    ensures DcScan.Preds(cis, bs, preds, 0) == DcScan.Preds(cis[1..], bs[1..], preds[cis[0] := bs[0][0]], 0)
    ensures bs == [bs[0]] + bs[1..]
  {
    hide BlockTokens;
  }

  lemma DecMcuCons(tbls: Tables, dcTbl: seq<nat>, acTbls: seq<nat>, cis: seq<nat>, ds: seq<Block>, preds: seq<int>, s: Src)
    requires |cis| == |ds| && |dcTbl| == |acTbls| == |preds| && ds != [] && forall i :: 0 <= i < |cis| ==> cis[i] < |preds|
    requires forall i :: 0 <= i < |dcTbl| ==> dcTbl[i] < |tbls| && acTbls[i] < |tbls|
    ensures var x := DecBlock(tbls[dcTbl[cis[0]]], tbls[acTbls[cis[0]]], ds[0], preds[cis[0]], s);
            var y := DecMcu(tbls, dcTbl, acTbls, cis[1..], ds[1..], preds[cis[0] := x.1], x.2);
            DecMcu(tbls, dcTbl, acTbls, cis, ds, preds, s) == ([x.0] + y.0, y.1, y.2)
  {
    hide DecBlock;
  }

  lemma {:induction false} DecMcuLength(tbls: Tables, dcTbl: seq<nat>, acTbls: seq<nat>, cis: seq<nat>, ds: seq<Block>, preds: seq<int>, s: Src)
    requires |cis| == |ds| && |dcTbl| == |acTbls| == |preds| && forall i :: 0 <= i < |cis| ==> cis[i] < |preds|
    requires forall i :: 0 <= i < |dcTbl| ==> dcTbl[i] < |tbls| && acTbls[i] < |tbls|
    ensures var x := DecMcu(tbls, dcTbl, acTbls, cis, ds, preds, s); |x.0| == |ds| && |x.1| == |preds|
    decreases ds
  {
    hide DecBlock;
    if ds != [] {
      var x := DecBlock(tbls[dcTbl[cis[0]]], tbls[acTbls[cis[0]]], ds[0], preds[cis[0]], s);
      DecMcuLength(tbls, dcTbl, acTbls, cis[1..], ds[1..], preds[cis[0] := x.1], x.2);
    }
  }

  // ---- The prediction chain ----

  /** A run in two parts: the second starts with the predictions the first leaves. */
  lemma {:induction false} McuConcat(dcTbl: seq<nat>, acTbls: seq<nat>, c1: seq<nat>, b1: seq<Block>, c2: seq<nat>, b2: seq<Block>, preds: seq<int>)
    requires |c1| == |b1| && |c2| == |b2| && |dcTbl| == |acTbls| == |preds|
    requires (forall j :: 0 <= j < |c1| ==> c1[j] < |preds|) && forall j :: 0 <= j < |c2| ==> c2[j] < |preds|
    ensures McuTokens(dcTbl, acTbls, c1 + c2, b1 + b2, preds)
            == McuTokens(dcTbl, acTbls, c1, b1, preds) + McuTokens(dcTbl, acTbls, c2, b2, DcScan.Preds(c1, b1, preds, 0))
    decreases b1
  {
    hide BlockTokens;
    if b1 == [] {
      assert c1 + c2 == c2 && b1 + b2 == b2;
    } else {
      McuCons(dcTbl, acTbls, c1 + c2, b1 + b2, preds, []);
      McuCons(dcTbl, acTbls, c1, b1, preds, []);
      assert (c1 + c2)[1..] == c1[1..] + c2 && (b1 + b2)[1..] == b1[1..] + b2;
      McuConcat(dcTbl, acTbls, c1[1..], b1[1..], c2, b2, preds[c1[0] := b1[0][0] as int]);
    }
  }

  /** Block i of a run is coded with the DC value of the block of its component that came last, or
      with the prediction at the start if there was none, and by the tables of its component. */
  lemma Predictions(dcTbl: seq<nat>, acTbls: seq<nat>, cis: seq<nat>, bs: seq<Block>, preds: seq<int>, i: nat) returns (pred: int)
    requires |cis| == |bs| && |dcTbl| == |acTbls| == |preds| && i < |bs| && forall j :: 0 <= j < |cis| ==> cis[j] < |preds|
    ensures McuTokens(dcTbl, acTbls, cis, bs, preds)
            == McuTokens(dcTbl, acTbls, cis[..i], bs[..i], preds) + (BlockTokens(dcTbl[cis[i]], acTbls[cis[i]], bs[i], pred)
               + McuTokens(dcTbl, acTbls, cis[i + 1..], bs[i + 1..], DcScan.Preds(cis[..i + 1], bs[..i + 1], preds, 0)))
    ensures cis[i] !in cis[..i] ==> pred == preds[cis[i]]
    ensures forall j :: 0 <= j < i && cis[j] == cis[i] && cis[i] !in cis[j + 1..i] ==> pred == bs[j][0]
  {
    hide *;
    pred := DcScan.LastBefore(cis, bs, preds, 0, i);
    DcScan.PredsNext(dcTbl, cis, bs, preds, 0, i);
    McuConcat(dcTbl, acTbls, cis[..i], bs[..i], cis[i..], bs[i..], preds);
    McuCons(dcTbl, acTbls, cis[i..], bs[i..], DcScan.Preds(cis[..i], bs[..i], preds, 0), []);
    forall v: int ensures Shr(v, 0) == v { ShrNone(v); }
    NoneAfter(McuTokens(dcTbl, acTbls, cis[i..], bs[i..], DcScan.Preds(cis[..i], bs[..i], preds, 0)));
    NoneAfter(McuTokens(dcTbl, acTbls, cis[i + 1..], bs[i + 1..], DcScan.Preds(cis[..i + 1], bs[..i + 1], preds, 0)));
  }

  lemma NoneAfter(ts: seq<Token>)
    ensures ts + [] == ts
  {
  }

  /** On any data: a symbol of size 0 other than ZRL ends the block, whatever its run, and a run
      beyond the last coefficient stores there. */
  lemma AnySymbol(t: Table, d: Block, k: nat, s: Src, sym: byte, s1: Src)
    requires k <= 63 && DecodeSym(t, s) == (sym, s1)
    ensures sym % 16 == 0 && sym != 0xF0 ==> DecAc(t, d, k, s) == (d, s1)
    ensures sym % 16 != 0 && k + sym / 16 >= 63 ==>
            DecAc(t, d, k, s) == (d[63 := Jcoef(Extend(s1.Peek(sym % 16), sym % 16))], s1.Drop(sym % 16))
  {
    hide DecodeSym;
    hide Jcoef;
    hide Extend;
    ClampIs(k + sym / 16);
  }
}
