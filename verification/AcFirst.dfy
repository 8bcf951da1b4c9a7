/** First AC scans (section G.1.2.2 of T.81): encode_mcu_AC_first and
    decode_mcu_AC_first on one block. */
module AcFirst {
  import opened Bits
  import opened BitStream
  import opened HuffTable
  import opened Tokens
  import opened EobRun
  import opened Blocks

  const MAX_COEF_BITS: nat := 10

  /** The ZRL symbols for a run of r zeroes. */
  function Zrls(tbl: nat, r: nat): (ts: seq<Token>)
  {
    if r > 15 then [Sym(tbl, 0xF0)] + Zrls(tbl, r - 16) else []
  }

  /** The Huffman symbol and the value bits of a nonzero coefficient t after r <= 15 zeroes. */
  function CoefTokens(tbl: nat, r: nat, t: int): seq<Token>
  {
    [Sym(tbl, 16 * r + NBits(Abs(t))), Raw(Field(t), NBits(Abs(t)))]
  }

  /** Encoding from position k on, after r zeroes. */
  function FirstCode(tbl: nat, b: Block, k: nat, r: nat, p: Params): BlockCode
    requires p.Se < 64
    decreases p.Se + 1 - k
  {
    if k > p.Se then BlockCode([], r > 0, [])
    else
      var t := PtAc(b[k], p.Al);
      if t == 0 then FirstCode(tbl, b, k + 1, r + 1, p)
      else
        var rest := FirstCode(tbl, b, k + 1, 0, p);
        rest.(head := Zrls(tbl, r) + (CoefTokens(tbl, r % 16, t) + rest.head))
  }

  /** No coefficient raises JERR_BAD_DCT_COEF. */
  ghost predicate FirstInRange(b: Block, k: nat, p: Params)
    requires p.Se < 64
  {
    forall j {:trigger b[j]} :: k <= j <= p.Se ==> NBits(Mag(b[j], p.Al)) <= MAX_COEF_BITS
  }

  /** jpeg_natural_order has 16 extra entries that all name the last coefficient. */
  function Clamp(k: nat): (i: nat)
    ensures i < 64
  {
    if k < 64 then k else 63
  }

  /** The value of a run of 2^r plus r appended bits, of which this block is the first. */
  function RunLength(r: nat, s: Src): nat { Pow2(r) + s.Peek(r) }

  /** Decoding from position k on: the block, the remaining EOBRUN, and the stream. */
  function DecFirst(t: Table, d: Block, k: nat, p: Params, s: Src): (Block, nat, Src)
    decreases p.Se + 1 - k
  {
    if k > p.Se then (d, 0, s)
    else
      var (sym, s1) := DecodeSym(t, s);
      var r, z := sym / 16, sym % 16;
      if z != 0 then
        var v := Shl(Extend(s1.Peek(z), z), p.Al);
        DecFirst(t, d[Clamp(k + r) := Jcoef(v)], k + r + 1, p, s1.Drop(z))
      else if r == 15 then DecFirst(t, d, k + 16, p, s1)
      else (d, RunLength(r, s1) - 1, s1.Drop(r))
  }

  /** One block of a first AC scan. */
  function DecFirstBlock(t: Table, d: Block, eobrun: nat, p: Params, s: Src): (Block, nat, Src)
  {
    if eobrun > 0 then (d, eobrun - 1, s) else DecFirst(t, d, p.Ss, p, s)
  }

  /** The bits after an EOBn symbol. */
  function EobBits(e: nat): seq<Token>
    requires e > 0
  {
    if NBits(e) > 1 then [Raw(e, NBits(e) - 1)] else []
  }

  /** Reading back an EOBn symbol. */
  lemma EobRead(tbls: Tables, tbl: nat, e: nat, ts: seq<Token>, rest: Bits, w: nat)
    requires 0 < e <= 0x7FFF && AllWritable(tbls, EobTokens(tbl, e) + ts)
    ensures AllWritable(tbls, ts) && AllWritable(tbls, EobBits(e) + ts) && tbl < |tbls| && NBits(e) <= 15
    ensures DecodeSym(tbls[tbl], Feed(tbls, EobTokens(tbl, e) + ts, rest, w))
            == (16 * (NBits(e) - 1), Feed(tbls, EobBits(e) + ts, rest, w))
    ensures RunLength(NBits(e) - 1, Feed(tbls, EobBits(e) + ts, rest, w)) == e
    ensures Feed(tbls, EobBits(e) + ts, rest, w).Drop(NBits(e) - 1) == Feed(tbls, ts, rest, w)
  {
    EobSize(e);
    var n := NBits(e) - 1;
    EobSplit(tbl, e, ts);
    FeedSym(tbls, tbl, 16 * n, EobBits(e) + ts, rest, w);
    EobBitsRead(tbls, e, ts, rest, w);
  }

  lemma EobSplit(tbl: nat, e: nat, ts: seq<Token>)
    requires e > 0
    ensures EobTokens(tbl, e) + ts == [Sym(tbl, 16 * (NBits(e) - 1))] + (EobBits(e) + ts)
  {
  }

  lemma EobBitsRead(tbls: Tables, e: nat, ts: seq<Token>, rest: Bits, w: nat)
    requires 0 < e <= 0x7FFF && AllWritable(tbls, EobBits(e) + ts)
    ensures AllWritable(tbls, ts)
    ensures RunLength(NBits(e) - 1, Feed(tbls, EobBits(e) + ts, rest, w)) == e
    ensures Feed(tbls, EobBits(e) + ts, rest, w).Drop(NBits(e) - 1) == Feed(tbls, ts, rest, w)
  {
    EobSize(e);
    if NBits(e) > 1 {
      FeedRaw(tbls, e, NBits(e) - 1, ts, rest, w);
    } else {
      assert EobBits(e) + ts == ts;
    }
  }

  lemma EobSize(e: nat)
    requires 0 < e <= 0x7FFF
    ensures 1 <= NBits(e) <= 15 && Low(e, NBits(e) - 1) == e - Pow2(NBits(e) - 1)
    ensures NBits(e) == 1 ==> e == 1
  {
    Pow15();
    if NBits(e) > 15 { Pow2Mono(15, NBits(e) - 1); }
    LowTop(e, NBits(e) - 1);
  }

  /** One round of decode_mcu_AC_first, by the symbol it reads. */
  lemma StepFirst(t: Table, d: Block, k: nat, p: Params, s: Src, sym: byte, s1: Src)
    requires k <= p.Se && DecodeSym(t, s) == (sym, s1)
    ensures var r, z := sym / 16, sym % 16;
            DecFirst(t, d, k, p, s) ==
            if z != 0 then DecFirst(t, d[Clamp(k + r) := Jcoef(Shl(Extend(s1.Peek(z), z), p.Al))], k + r + 1, p, s1.Drop(z))
            else if r == 15 then DecFirst(t, d, k + 16, p, s1)
            else (d, RunLength(r, s1) - 1, s1.Drop(r))
  {
    hide DecodeSym;
  }

  lemma DecFirstEnd(t: Table, d: Block, k: nat, p: Params, s: Src)
    requires k > p.Se
    ensures DecFirst(t, d, k, p, s) == (d, 0, s)
  {
  }

  /** ZRL symbols move the decoder 16 positions each. */
  lemma {:induction false} ZrlsRead(tbls: Tables, tbl: nat, r: nat, d: Block, k: nat, p: Params, ts: seq<Token>, rest: Bits, w: nat)
    requires tbl < |tbls| && r <= k <= p.Se
    requires AllWritable(tbls, Zrls(tbl, r) + ts)
    ensures AllWritable(tbls, ts)
    ensures DecFirst(tbls[tbl], d, k - r, p, Feed(tbls, Zrls(tbl, r) + ts, rest, w))
            == DecFirst(tbls[tbl], d, k - r % 16, p, Feed(tbls, ts, rest, w))
  {
    hide DecodeSym;
    hide DecFirst;
    if r > 15 {
      var more := Zrls(tbl, r - 16) + ts;
      assert Zrls(tbl, r) + ts == [Sym(tbl, 0xF0)] + more;
      FeedSym(tbls, tbl, 0xF0, more, rest, w);
      StepFirst(tbls[tbl], d, k - r, p, Feed(tbls, [Sym(tbl, 0xF0)] + more, rest, w), 0xF0, Feed(tbls, more, rest, w));
      ZrlsRead(tbls, tbl, r - 16, d, k, p, ts, rest, w);
    } else {
      assert Zrls(tbl, r) + ts == ts;
    }
  }

  /** A coefficient symbol stores the coefficient. */
  lemma CoefRead(tbls: Tables, tbl: nat, b: Block, r: nat, d: Block, k: nat, p: Params, ts: seq<Token>, rest: Bits, w: nat)
    requires tbl < |tbls| && r <= 15 && r <= k <= p.Se < 64 && p.Al <= 13
    requires PtAc(b[k], p.Al) != 0 && NBits(Mag(b[k], p.Al)) <= MAX_COEF_BITS
    requires AllWritable(tbls, CoefTokens(tbl, r, PtAc(b[k], p.Al)) + ts)
    ensures AllWritable(tbls, ts) && -32768 <= TruncAc(b[k], p.Al) <= 32767
    ensures DecFirst(tbls[tbl], d, k - r, p, Feed(tbls, CoefTokens(tbl, r, PtAc(b[k], p.Al)) + ts, rest, w))
            == DecFirst(tbls[tbl], d[k := TruncAc(b[k], p.Al)], k + 1, p, Feed(tbls, ts, rest, w))
  {
    hide *;
    var t := PtAc(b[k], p.Al);
    var n := NBits(Abs(t));
    CoefValue(b[k], p.Al);
    CoefSplit(tbl, r, t, ts);
    SymParts(r, n);
    FeedSym(tbls, tbl, 16 * r + n, [Raw(Field(t), n)] + ts, rest, w);
    FeedRaw(tbls, Field(t), n, ts, rest, w);
    StepFirst(tbls[tbl], d, k - r, p, Feed(tbls, CoefTokens(tbl, r, t) + ts, rest, w), 16 * r + n,
              Feed(tbls, [Raw(Field(t), n)] + ts, rest, w));
    ClampIs(k);
  }

  lemma ClampIs(k: nat)
    ensures Clamp(k) == if k < 64 then k else 63
  {
  }

  lemma CoefSplit(tbl: nat, r: nat, t: int, ts: seq<Token>)
    ensures CoefTokens(tbl, r, t) + ts == [Sym(tbl, 16 * r + NBits(Abs(t)))] + ([Raw(Field(t), NBits(Abs(t)))] + ts)
  {
  }

  /** Reading back the value bits of a coefficient gives its truncated value. */
  lemma CoefValue(v: Coef, al: nat)
    requires al <= 13 && PtAc(v, al) != 0 && NBits(Mag(v, al)) <= MAX_COEF_BITS
    ensures -32768 <= TruncAc(v, al) <= 32767
    ensures var t := PtAc(v, al);
            var n := NBits(Abs(t));
            0 < n < 16 && Jcoef(Shl(Extend(Low(Field(t), n), n), al)) == TruncAc(v, al)
  {
    hide *;
    CoefDefs(v, al);
    ExtendField(PtAc(v, al));
    TruncFits(v, al);
  }

  lemma CoefDefs(v: Coef, al: nat)
    ensures Abs(PtAc(v, al)) == Mag(v, al) && TruncAc(v, al) == Shl(PtAc(v, al), al) && MAX_COEF_BITS == 10
    ensures -32768 <= TruncAc(v, al) <= 32767 ==> Jcoef(TruncAc(v, al)) == TruncAc(v, al)
  {
    hide Shl;
    hide Shr;
  }

  lemma SymParts(r: nat, n: nat)
    requires n < 16
    ensures (16 * r + n) / 16 == r && (16 * r + n) % 16 == n
  {
  }

  lemma EobStop(tbls: Tables, tbl: nat, m: nat, d: Block, k: nat, p: Params, ts: seq<Token>, rest: Bits, w: nat)
    requires tbl < |tbls| && k <= p.Se && m < 0x7FFF && AllWritable(tbls, EobTokens(tbl, 1 + m) + ts)
    ensures AllWritable(tbls, ts)
    ensures DecFirst(tbls[tbl], d, k, p, Feed(tbls, EobTokens(tbl, 1 + m) + ts, rest, w)) == (d, m, Feed(tbls, ts, rest, w))
  {
    hide *;
    EobRead(tbls, tbl, 1 + m, ts, rest, w);
    SymParts(NBits(1 + m) - 1, 0);
    StepFirst(tbls[tbl], d, k, p, Feed(tbls, EobTokens(tbl, 1 + m) + ts, rest, w), 16 * (NBits(1 + m) - 1),
              Feed(tbls, EobBits(1 + m) + ts, rest, w));
  }

  lemma Assoc3(a: seq<Token>, b: seq<Token>, c: seq<Token>, d: seq<Token>)
    ensures (a + (b + c)) + d == a + (b + (c + d))
  {
  }

  /** Decoding from the start of the open zero run undoes encoding from position k. */
  lemma {:induction false} FirstReads(tbls: Tables, tbl: nat, b: Block, k: nat, r: nat, d: Block, m: nat, p: Params,
                                      ts: seq<Token>, rest: Bits, w: nat)
    requires tbl < |tbls| && r <= k <= p.Se + 1 <= 64 && p.Al <= 13 && m < 0x7FFF
    requires FirstInRange(b, k, p)
    requires forall j :: k <= j <= p.Se ==> d[j] == 0
    requires var c := FirstCode(tbl, b, k, r, p); AllWritable(tbls, c.head + (Tail(tbl, c, m) + ts))
    ensures AllWritable(tbls, ts)
    ensures var c := FirstCode(tbl, b, k, r, p);
            DecFirst(tbls[tbl], d, k - r, p, Feed(tbls, c.head + (Tail(tbl, c, m) + ts), rest, w))
            == (FillRange(d, b, k, p.Se + 1, p.Al), if c.trailing then m else 0, Feed(tbls, ts, rest, w))
    decreases p.Se + 1 - k
  {
    hide *;
    if k > p.Se {
      FirstReadsEnd(tbls, tbl, b, k, r, d, m, p, ts, rest, w);
    } else if PtAc(b[k], p.Al) == 0 {
      ZeroUnfold(tbl, b, k, r, p);
      TruncOfZero(b[k], p.Al);
      FillSame(d, b, k, p.Se + 1, p.Al);
      FirstReads(tbls, tbl, b, k + 1, r + 1, d, m, p, ts, rest, w);
    } else {
      var c1 := FirstCode(tbl, b, k + 1, 0, p);
      var more := c1.head + (Tail(tbl, c1, m) + ts);
      CoefUnfold(tbl, b, k, r, m, p, ts);
      ZrlsRead(tbls, tbl, r, d, k, p, CoefTokens(tbl, r % 16, PtAc(b[k], p.Al)) + more, rest, w);
      CoefInRange(b, k, p);
      CoefRead(tbls, tbl, b, r % 16, d, k, p, more, rest, w);
      FirstReads(tbls, tbl, b, k + 1, 0, d[k := TruncAc(b[k], p.Al)], m, p, ts, rest, w);
      FillFirst(d, b, k, p.Se + 1, p.Al);
    }
  }

  lemma ZeroUnfold(tbl: nat, b: Block, k: nat, r: nat, p: Params)
    requires k <= p.Se < 64 && PtAc(b[k], p.Al) == 0
    ensures FirstCode(tbl, b, k, r, p) == FirstCode(tbl, b, k + 1, r + 1, p)
    ensures FirstInRange(b, k, p) ==> FirstInRange(b, k + 1, p)
    ensures Mag(b[k], p.Al) == 0
  {
  }

  lemma CoefInRange(b: Block, k: nat, p: Params)
    requires k <= p.Se < 64 && FirstInRange(b, k, p)
    ensures NBits(Mag(b[k], p.Al)) <= MAX_COEF_BITS && FirstInRange(b, k + 1, p)
  {
  }

  lemma CoefUnfold(tbl: nat, b: Block, k: nat, r: nat, m: nat, p: Params, ts: seq<Token>)
    requires k <= p.Se < 64 && PtAc(b[k], p.Al) != 0
    ensures var c, c1 := FirstCode(tbl, b, k, r, p), FirstCode(tbl, b, k + 1, 0, p);
            && c.head + (Tail(tbl, c, m) + ts)
               == Zrls(tbl, r) + (CoefTokens(tbl, r % 16, PtAc(b[k], p.Al)) + (c1.head + (Tail(tbl, c1, m) + ts)))
            && c.trailing == c1.trailing
  {
    var c1 := FirstCode(tbl, b, k + 1, 0, p);
    Assoc3(Zrls(tbl, r), CoefTokens(tbl, r % 16, PtAc(b[k], p.Al)), c1.head, Tail(tbl, c1, m) + ts);
  }

  lemma FirstReadsEnd(tbls: Tables, tbl: nat, b: Block, k: nat, r: nat, d: Block, m: nat, p: Params,
                      ts: seq<Token>, rest: Bits, w: nat)
    requires tbl < |tbls| && r <= k == p.Se + 1 <= 64 && p.Al <= 13 && m < 0x7FFF
    requires var c := FirstCode(tbl, b, k, r, p); AllWritable(tbls, c.head + (Tail(tbl, c, m) + ts))
    ensures AllWritable(tbls, ts)
    ensures var c := FirstCode(tbl, b, k, r, p);
            DecFirst(tbls[tbl], d, k - r, p, Feed(tbls, c.head + (Tail(tbl, c, m) + ts), rest, w))
            == (FillRange(d, b, k, p.Se + 1, p.Al), if c.trailing then m else 0, Feed(tbls, ts, rest, w))
  {
    hide DecFirst;
    hide DecodeSym;
    var c := FirstCode(tbl, b, k, r, p);
    assert c == BlockCode([], r > 0, []);
    FillEmpty(d, b, k, p.Al);
    if r > 0 {
      assert c.head + (Tail(tbl, c, m) + ts) == EobTokens(tbl, 1 + m) + ts;
      EobStop(tbls, tbl, m, d, k - r, p, ts, rest, w);
    } else {
      assert c.head + (Tail(tbl, c, m) + ts) == ts;
      DecFirstEnd(tbls[tbl], d, k, p, Feed(tbls, ts, rest, w));
    }
  }

  // ---- Which symbols a block has ----

  /** The first coefficient from k on that is not zero after the point transform, or Se + 1. */
  function NextNonzero(b: Block, k: nat, p: Params): (n: nat)
    requires k <= p.Se + 1 <= 64
    ensures k <= n <= p.Se + 1 && (forall j :: k <= j < n ==> PtAc(b[j], p.Al) == 0)
    ensures n <= p.Se ==> PtAc(b[n], p.Al) != 0
    decreases p.Se + 1 - k
  {
    if k > p.Se || PtAc(b[k], p.Al) != 0 then k else NextNonzero(b, k + 1, p)
  }

  /** The symbols that section F.1.2.2 of T.81 asks for from k on, after r zeroes: for each
      nonzero coefficient its run of zeroes, sixteen at a time, and its size; nothing after the
      last one. */
  function RunSizes(b: Block, k: nat, r: nat, p: Params): seq<nat>
    requires k <= p.Se + 1 <= 64
    decreases p.Se + 1 - k
  {
    var n := NextNonzero(b, k, p);
    if n > p.Se then []
    else
      var z := r + (n - k);
      Times(0xF0, z / 16) + [16 * (z % 16) + NBits(Abs(PtAc(b[n], p.Al)))] + RunSizes(b, n + 1, 0, p)
  }

  lemma {:induction false} ZrlSymbols(tbl: nat, r: nat)
    ensures Symbols(Zrls(tbl, r)) == Times(0xF0, r / 16)
  {
    if r > 15 {
      ZrlSymbols(tbl, r - 16);
      assert (r - 16) / 16 == r / 16 - 1;
      assert Times(0xF0, r / 16) == [0xF0] + Times(0xF0, r / 16 - 1);
    } else {
      assert Times(0xF0, r / 16) == [];
    }
  }

  lemma CoefSymbols(tbl: nat, r: nat, t: int)
    ensures Symbols(CoefTokens(tbl, r, t)) == [16 * r + NBits(Abs(t))]
  {
    var ts := CoefTokens(tbl, r, t);
    assert ts[1..] == [Raw(Field(t), NBits(Abs(t)))] && ts[1..][1..] == [];
    assert Symbols(ts[1..]) == [] + Symbols(ts[1..][1..]);
  }

  lemma RunSizesZero(b: Block, k: nat, r: nat, p: Params)
    requires k <= p.Se < 64 && PtAc(b[k], p.Al) == 0
    ensures RunSizes(b, k, r, p) == RunSizes(b, k + 1, r + 1, p)
  {
    hide PtAc;
    hide NBits;
    assert NextNonzero(b, k, p) == NextNonzero(b, k + 1, p);
  }

  /** The encoder writes exactly those symbols. */
  lemma {:induction false} FirstSymbols(tbl: nat, b: Block, k: nat, r: nat, p: Params)
    requires k <= p.Se + 1 <= 64
    ensures Symbols(FirstCode(tbl, b, k, r, p).head) == RunSizes(b, k, r, p)
    decreases p.Se + 1 - k
  {
    hide PtAc;
    hide NBits;
    hide Zrls;
    hide CoefTokens;
    if k <= p.Se {
      var t := PtAc(b[k], p.Al);
      if t == 0 {
        RunSizesZero(b, k, r, p);
        FirstSymbols(tbl, b, k + 1, r + 1, p);
      } else {
        assert NextNonzero(b, k, p) == k;
        var rest := FirstCode(tbl, b, k + 1, 0, p).head;
        FirstSymbols(tbl, b, k + 1, 0, p);
        ZrlSymbols(tbl, r);
        CoefSymbols(tbl, r % 16, t);
        SymbolsConcat(Zrls(tbl, r), CoefTokens(tbl, r % 16, t) + rest);
        SymbolsConcat(CoefTokens(tbl, r % 16, t), rest);
      }
    }
  }

  /** An end-of-band follows exactly when the band ends in a coefficient that is zero. */
  lemma {:induction false} FirstTrailing(tbl: nat, b: Block, k: nat, r: nat, p: Params)
    requires k <= p.Se + 1 <= 64
    ensures FirstCode(tbl, b, k, r, p).trailing <==> if k > p.Se then r > 0 else PtAc(b[p.Se], p.Al) == 0
    decreases p.Se + 1 - k
  {
    hide PtAc;
    if k <= p.Se { FirstTrailing(tbl, b, k + 1, if PtAc(b[k], p.Al) == 0 then r + 1 else 0, p); }
  }

  /** The coefficients that are not refused: those of at most ten bits. */
  lemma RangeIs(b: Block, k: nat, p: Params)
    requires p.Se < 64
    ensures FirstInRange(b, k, p) <==> forall j :: k <= j <= p.Se ==> -1024 < PtAc(b[j], p.Al) < 1024
  {
    assert Pow2(10) == 1024 by { assert Pow2(5) == 32; }
    forall j | k <= j <= p.Se ensures NBits(Mag(b[j], p.Al)) <= MAX_COEF_BITS <==> -1024 < PtAc(b[j], p.Al) < 1024 {
      BitsBelow(Mag(b[j], p.Al), 10);
    }
    hide Mag;
    hide NBits;
    hide PtAc;
    if forall j :: k <= j <= p.Se ==> -1024 < PtAc(b[j], p.Al) < 1024 {
      assert forall j {:trigger b[j]} :: k <= j <= p.Se ==> NBits(Mag(b[j], p.Al)) <= MAX_COEF_BITS;
    }
  }

  /** A number has at most n bits if it is below 2^n. */
  lemma BitsBelow(m: nat, n: nat)
    ensures NBits(m) <= n <==> m < Pow2(n)
  {
    if NBits(m) <= n {
      Pow2Mono(NBits(m), n);
    } else {
      Pow2Mono(n, NBits(m) - 1);
    }
  }
}
