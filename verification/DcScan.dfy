/** DC scans, first or refining (section G.1.2.1 of T.81): the blocks of a run of MCUs,
    each with the number of its component within the scan. */
module DcScan {
  import opened Bits
  import opened BitStream
  import opened HuffTable
  import opened Tokens
  import opened Blocks

  /** The difference symbol and the value bits of a DC coefficient. */
  function DiffTokens(tbl: nat, t: int): (ts: seq<Token>)
    ensures |ts| > 0
  {
    [Sym(tbl, NBits(Abs(t)))] + if t == 0 then [] else [Raw(Field(t), NBits(Abs(t)))]
  }

  /** A block of a scan: its component's index in the scan. */
  type Members = seq<nat>

  /** encode_mcu_DC_first over a run of blocks; preds are the predictions by component. */
  function FirstTokens(dcTbl: seq<nat>, cis: Members, bs: seq<Block>, preds: seq<int>, al: nat): seq<Token>
    requires |cis| == |bs| && |dcTbl| == |preds| && forall i :: 0 <= i < |cis| ==> cis[i] < |preds|
    decreases bs
  {
    if bs == [] then []
    else
      var v := Shr(bs[0][0], al);
      DiffTokens(dcTbl[cis[0]], v - preds[cis[0]]) + FirstTokens(dcTbl, cis[1..], bs[1..], preds[cis[0] := v], al)
  }

  /** The value of a decoded DC difference symbol z. */
  function DiffValue(z: nat, s: Src): int
  {
    if z == 0 then 0 else Extend(s.Peek(z), z)
  }

  /** decode_mcu_DC_first over a run of blocks. */
  function DecFirst(tbls: Tables, dcTbl: seq<nat>, cis: Members, ds: seq<Block>, preds: seq<int>, al: nat, s: Src)
    : (seq<Block>, seq<int>, Src)
    requires |cis| == |ds| && |dcTbl| == |preds| && forall i :: 0 <= i < |cis| ==> cis[i] < |preds|
    requires forall i :: 0 <= i < |dcTbl| ==> dcTbl[i] < |tbls|
    decreases ds
  {
    if ds == [] then ([], preds, s)
    else
      var (z, s1) := DecodeSym(tbls[dcTbl[cis[0]]], s);
      var v := DiffValue(z, s1) + preds[cis[0]];
      var (rest, preds2, s2) := DecFirst(tbls, dcTbl, cis[1..], ds[1..], preds[cis[0] := v], al, s1.Drop(z));
      ([ds[0][0 := Jcoef(Shl(v, al))]] + rest, preds2, s2)
  }

  /** encode_mcu_DC_refine over a run of blocks: the al'th bit of each DC coefficient. */
  function RefineTokens(bs: seq<Block>, al: nat): (ts: seq<Token>)
  {
    seq(|bs|, i requires 0 <= i < |bs| => Raw(Shr(bs[i][0], al), 1))
  }

  /** Setting bit al of a DC coefficient. */
  function SetBit(v: Coef, al: nat): Coef
  {
    if Shr(v, al) % 2 == 1 then v else Jcoef(v + Pow2(al))
  }

  /** decode_mcu_DC_refine over a run of blocks. */
  function DecRefine(ds: seq<Block>, al: nat, s: Src): (seq<Block>, Src)
    decreases ds
  {
    if ds == [] then ([], s)
    else
      var d := if s.Peek(1) == 1 then ds[0][0 := SetBit(ds[0][0], al)] else ds[0];
      var (rest, s1) := DecRefine(ds[1..], al, s.Drop(1));
      ([d] + rest, s1)
  }

  /** d with its DC coefficient known down to bit al. */
  function DcTarget(d: Block, b: Block, al: nat): Block
    requires al <= 13
  {
    TruncFits(b[0], al);
    d[0 := TruncDc(b[0], al)]
  }

  function DcTargets(ds: seq<Block>, bs: seq<Block>, al: nat): (r: seq<Block>)
    requires |ds| == |bs| && al <= 13
    ensures |r| == |ds|
  {
    if ds == [] then [] else [DcTarget(ds[0], bs[0], al)] + DcTargets(ds[1..], bs[1..], al)
  }

  /** d with the al'th bit of b's DC coefficient set in its own. */
  function RefineTarget(d: Block, b: Block, al: nat): Block
  {
    if Shr(b[0], al) % 2 == 1 then d[0 := SetBit(d[0], al)] else d
  }

  function RefineTargets(ds: seq<Block>, bs: seq<Block>, al: nat): (r: seq<Block>)
    requires |ds| == |bs|
    ensures |r| == |ds|
  {
    if ds == [] then [] else [RefineTarget(ds[0], bs[0], al)] + RefineTargets(ds[1..], bs[1..], al)
  }

  /** The predictions after a run of blocks. */
  function Preds(cis: Members, bs: seq<Block>, preds: seq<int>, al: nat): (r: seq<int>)
    requires |cis| == |bs| && forall i :: 0 <= i < |cis| ==> cis[i] < |preds|
    ensures |r| == |preds|
    decreases bs
  {
    if bs == [] then preds else Preds(cis[1..], bs[1..], preds[cis[0] := Shr(bs[0][0], al)], al)
  }

  lemma DiffRead(tbls: Tables, tbl: nat, t: int, ts: seq<Token>, rest: Bits, w: nat)
    requires tbl < |tbls| && AllWritable(tbls, DiffTokens(tbl, t) + ts)
    ensures AllWritable(tbls, ts) && NBits(Abs(t)) < 256
    ensures AllWritable(tbls, DiffTokens(tbl, t)[1..] + ts)
    ensures var s1 := Feed(tbls, DiffTokens(tbl, t)[1..] + ts, rest, w);
            && DecodeSym(tbls[tbl], Feed(tbls, DiffTokens(tbl, t) + ts, rest, w)) == (NBits(Abs(t)), s1)
            && DiffValue(NBits(Abs(t)), s1) == t && s1.Drop(NBits(Abs(t))) == Feed(tbls, ts, rest, w)
  {
    hide DecodeSym;
    hide BitsOf;
    hide Extend;
    var n := NBits(Abs(t));
    var tail := DiffTokens(tbl, t)[1..];
    assert DiffTokens(tbl, t) + ts == [Sym(tbl, n)] + (tail + ts);
    FeedSym(tbls, tbl, n, tail + ts, rest, w);
    if t == 0 {
      assert tail + ts == ts;
    } else {
      assert tail == [Raw(Field(t), n)];
      FeedRaw(tbls, Field(t), n, ts, rest, w);
      ExtendField(t);
    }
  }

  lemma DecFirstCons(tbls: Tables, dcTbl: seq<nat>, cis: Members, ds: seq<Block>, preds: seq<int>, al: nat, s: Src,
                     z: byte, s1: Src, v: int)
    requires |cis| == |ds| && |dcTbl| == |preds| && forall i :: 0 <= i < |cis| ==> cis[i] < |preds|
    requires forall i :: 0 <= i < |dcTbl| ==> dcTbl[i] < |tbls|
    requires ds != [] && DecodeSym(tbls[dcTbl[cis[0]]], s) == (z, s1) && v == DiffValue(z, s1) + preds[cis[0]]
    ensures var y := DecFirst(tbls, dcTbl, cis[1..], ds[1..], preds[cis[0] := v], al, s1.Drop(z));
            DecFirst(tbls, dcTbl, cis, ds, preds, al, s) == ([ds[0][0 := Jcoef(Shl(v, al))]] + y.0, y.1, y.2)
  {
    hide DecodeSym;
    hide DiffValue;
  }

  lemma FirstCons(dcTbl: seq<nat>, cis: Members, bs: seq<Block>, preds: seq<int>, al: nat)
    requires |cis| == |bs| && |dcTbl| == |preds| && bs != [] && forall i :: 0 <= i < |cis| ==> cis[i] < |preds|
    ensures var v := Shr(bs[0][0], al);
            FirstTokens(dcTbl, cis, bs, preds, al)
            == DiffTokens(dcTbl[cis[0]], v - preds[cis[0]]) + FirstTokens(dcTbl, cis[1..], bs[1..], preds[cis[0] := v], al)
    ensures Preds(cis, bs, preds, al) == Preds(cis[1..], bs[1..], preds[cis[0] := Shr(bs[0][0], al)], al)
  {
    hide DiffTokens;
  }

  lemma TargetsCons(ds: seq<Block>, bs: seq<Block>, al: nat)
    requires |ds| == |bs| && ds != [] && al <= 13
    ensures DcTargets(ds, bs, al) == [DcTarget(ds[0], bs[0], al)] + DcTargets(ds[1..], bs[1..], al)
  {
  }

  lemma TargetValue(d: Block, b: Block, al: nat)
    requires al <= 13
    ensures d[0 := Jcoef(Shl(Shr(b[0], al), al))] == DcTarget(d, b, al)
  {
    TruncFits(b[0], al);
  }

  lemma FirstNone(tbls: Tables, dcTbl: seq<nat>, cis: Members, ds: seq<Block>, preds: seq<int>, al: nat, s: Src)
    requires cis == [] && ds == [] && |dcTbl| == |preds| && forall i :: 0 <= i < |dcTbl| ==> dcTbl[i] < |tbls|
    ensures FirstTokens(dcTbl, cis, [], preds, al) == [] && Preds(cis, [], preds, al) == preds
    ensures DecFirst(tbls, dcTbl, cis, ds, preds, al, s) == ([], preds, s)
    ensures al <= 13 ==> DcTargets(ds, [], al) == []
  {
  }

  /** First DC scan: decoding the differences gives back every point-transformed value. */
  lemma {:induction false} FirstReads(tbls: Tables, dcTbl: seq<nat>, cis: Members, ds: seq<Block>, bs: seq<Block>,
                                      preds: seq<int>, al: nat, ts: seq<Token>, rest: Bits, w: nat)
    requires |cis| == |bs| == |ds| && |dcTbl| == |preds| && al <= 13
    requires forall i :: 0 <= i < |cis| ==> cis[i] < |preds|
    requires forall i :: 0 <= i < |dcTbl| ==> dcTbl[i] < |tbls|
    requires AllWritable(tbls, FirstTokens(dcTbl, cis, bs, preds, al) + ts)
    ensures AllWritable(tbls, ts)
    ensures DecFirst(tbls, dcTbl, cis, ds, preds, al, Feed(tbls, FirstTokens(dcTbl, cis, bs, preds, al) + ts, rest, w))
            == (DcTargets(ds, bs, al), Preds(cis, bs, preds, al), Feed(tbls, ts, rest, w))
    decreases bs
  {
    hide *;
    if bs == [] {
      FirstNone(tbls, dcTbl, cis, ds, preds, al, Feed(tbls, FirstTokens(dcTbl, cis, bs, preds, al) + ts, rest, w));
      assert [] + ts == ts;
    } else {
      var v := Shr(bs[0][0], al);
      var tbl, t := dcTbl[cis[0]], v - preds[cis[0]];
      var preds1 := preds[cis[0] := v];
      var more := FirstTokens(dcTbl, cis[1..], bs[1..], preds1, al);
      FirstCons(dcTbl, cis, bs, preds, al);
      Assoc(DiffTokens(tbl, t), more, ts);
      DiffRead(tbls, tbl, t, more + ts, rest, w);
      DecFirstCons(tbls, dcTbl, cis, ds, preds, al, Feed(tbls, FirstTokens(dcTbl, cis, bs, preds, al) + ts, rest, w),
                   NBits(Abs(t)), Feed(tbls, DiffTokens(tbl, t)[1..] + (more + ts), rest, w), v);
      FirstReads(tbls, dcTbl, cis[1..], ds[1..], bs[1..], preds1, al, ts, rest, w);
      TargetValue(ds[0], bs[0], al);
      TargetsCons(ds, bs, al);
    }
  }

  lemma Assoc(a: seq<Token>, b: seq<Token>, c: seq<Token>)
    ensures (a + b) + c == a + (b + c)
  {
  }

  /** Setting the next bit of a known DC coefficient. */
  lemma NextBit(v: Coef, al: nat)
    requires al <= 13
    ensures -32768 <= TruncDc(v, al + 1) <= 32767
    ensures Shr(TruncDc(v, al + 1), al) % 2 == 0
    ensures TruncDc(v, al) == if Shr(v, al) % 2 == 1 then TruncDc(v, al + 1) + Pow2(al) else TruncDc(v, al + 1)
  {
    TruncFits(v, al + 1);
    var h := Shr(v, al + 1);
    ShlDouble(h, al);
    ShrShl(2 * h, al);
    ShlSucc(2 * h, al);
  }

  lemma RefineCons(bs: seq<Block>, al: nat, ts: seq<Token>)
    requires bs != []
    ensures RefineTokens(bs, al) + ts == [Raw(Shr(bs[0][0], al), 1)] + (RefineTokens(bs[1..], al) + ts)
  {
  }

  lemma DecRefineCons(ds: seq<Block>, al: nat, s: Src)
    requires ds != []
    ensures var d := if s.Peek(1) == 1 then ds[0][0 := SetBit(ds[0][0], al)] else ds[0];
            var y := DecRefine(ds[1..], al, s.Drop(1));
            DecRefine(ds, al, s) == ([d] + y.0, y.1)
  {
    hide SetBit;
  }

  lemma LowBit(v: int)
    ensures Low(v, 1) == v % 2
  {
    assert Low(v, 1) == 2 * Low(v / 2, 0) + v % 2;
  }

  /** On a coefficient known down to bit al + 1, one more bit is known afterwards. */
  lemma RefineCompletes(d: Block, b: Block, al: nat)
    requires al <= 13 && d[0] == TruncDc(b[0], al + 1)
    ensures RefineTarget(d, b, al) == DcTarget(d, b, al)
  {
    NextBit(b[0], al);
    TruncFits(b[0], al);
  }

  lemma RefineTargetsCons(ds: seq<Block>, bs: seq<Block>, al: nat)
    requires |ds| == |bs| && ds != []
    ensures RefineTargets(ds, bs, al) == [RefineTarget(ds[0], bs[0], al)] + RefineTargets(ds[1..], bs[1..], al)
  {
  }

  lemma RefineTargetIs(d: Block, b: Block, al: nat)
    ensures RefineTarget(d, b, al) == if Shr(b[0], al) % 2 == 1 then d[0 := SetBit(d[0], al)] else d
  {
  }

  /** DC refinement scan: every DC coefficient gets its next bit. */
  lemma {:induction false} RefineReads(tbls: Tables, ds: seq<Block>, bs: seq<Block>, al: nat, ts: seq<Token>, rest: Bits, w: nat)
    requires |ds| == |bs| && AllWritable(tbls, RefineTokens(bs, al) + ts)
    ensures AllWritable(tbls, ts)
    ensures DecRefine(ds, al, Feed(tbls, RefineTokens(bs, al) + ts, rest, w)) == (RefineTargets(ds, bs, al), Feed(tbls, ts, rest, w))
    decreases bs
  {
    if bs == [] {
      assert RefineTokens(bs, al) + ts == ts;
    } else {
      hide *;
      RefineCons(bs, al, ts);
      DecRefineCons(ds, al, Feed(tbls, RefineTokens(bs, al) + ts, rest, w));
      FeedRaw(tbls, Shr(bs[0][0], al), 1, RefineTokens(bs[1..], al) + ts, rest, w);
      LowBit(Shr(bs[0][0], al));
      RefineTargetIs(ds[0], bs[0], al);
      RefineReads(tbls, ds[1..], bs[1..], al, ts, rest, w);
      RefineTargetsCons(ds, bs, al);
    }
  }

  // ---- The prediction chain ----

  /** A run in two parts: the second starts with the predictions the first leaves. */
  lemma {:induction false} FirstConcat(dcTbl: seq<nat>, c1: Members, b1: seq<Block>, c2: Members, b2: seq<Block>, preds: seq<int>, al: nat)
    requires |c1| == |b1| && |c2| == |b2| && |dcTbl| == |preds|
    requires (forall j :: 0 <= j < |c1| ==> c1[j] < |preds|) && forall j :: 0 <= j < |c2| ==> c2[j] < |preds|
    ensures Preds(c1 + c2, b1 + b2, preds, al) == Preds(c2, b2, Preds(c1, b1, preds, al), al)
    ensures FirstTokens(dcTbl, c1 + c2, b1 + b2, preds, al)
            == FirstTokens(dcTbl, c1, b1, preds, al) + FirstTokens(dcTbl, c2, b2, Preds(c1, b1, preds, al), al)
    decreases b1
  {
    hide DiffTokens;
    if b1 == [] {
      assert c1 + c2 == c2 && b1 + b2 == b2;
    } else {
      FirstCons(dcTbl, c1 + c2, b1 + b2, preds, al);
      FirstCons(dcTbl, c1, b1, preds, al);
      assert (c1 + c2)[1..] == c1[1..] + c2 && (b1 + b2)[1..] == b1[1..] + b2;
      FirstConcat(dcTbl, c1[1..], b1[1..], c2, b2, preds[c1[0] := Shr(b1[0][0], al)], al);
    }
  }

  /** The prediction of component c after a run is its last block there, if there is one. */
  lemma {:induction false} PredIs(cis: Members, bs: seq<Block>, preds: seq<int>, al: nat, c: nat)
    requires |cis| == |bs| && c < |preds| && forall j :: 0 <= j < |cis| ==> cis[j] < |preds|
    ensures c !in cis ==> Preds(cis, bs, preds, al)[c] == preds[c]
    ensures forall j :: 0 <= j < |cis| && cis[j] == c && c !in cis[j + 1..] ==> Preds(cis, bs, preds, al)[c] == Shr(bs[j][0], al)
    decreases bs
  {
    if bs != [] {
      var next := preds[cis[0] := Shr(bs[0][0], al)];
      PredIs(cis[1..], bs[1..], next, al, c);
      forall j | 0 <= j < |cis| && cis[j] == c && c !in cis[j + 1..] ensures Preds(cis, bs, preds, al)[c] == Shr(bs[j][0], al) {
        if j > 0 { assert cis[1..][j - 1] == c && cis[1..][j..] == cis[j + 1..]; }
      }
    }
  }

  /** One more block moves the prediction of its component. */
  lemma PredsNext(dcTbl: seq<nat>, cis: Members, bs: seq<Block>, preds: seq<int>, al: nat, i: nat)
    requires |cis| == |bs| && |dcTbl| == |preds| && i < |bs| && forall j :: 0 <= j < |cis| ==> cis[j] < |preds|
    ensures Preds(cis[..i + 1], bs[..i + 1], preds, al) == Preds(cis[..i], bs[..i], preds, al)[cis[i] := Shr(bs[i][0], al)]
    ensures |bs[i..]| > 0 && cis[i..][0] == cis[i] && bs[i..][0] == bs[i] && cis[i..][1..] == cis[i + 1..] && bs[i..][1..] == bs[i + 1..]
    ensures cis == cis[..i] + cis[i..] && bs == bs[..i] + bs[i..]
  {
    hide FirstTokens;
    FirstConcat(dcTbl, cis[..i], bs[..i], [cis[i]], [bs[i]], preds, al);
    assert cis[..i + 1] == cis[..i] + [cis[i]] && bs[..i + 1] == bs[..i] + [bs[i]];
    assert [bs[i]][1..] == [];
  }

  /** The prediction for block i is the block of its component that came last, if there is one. */
  lemma LastBefore(cis: Members, bs: seq<Block>, preds: seq<int>, al: nat, i: nat) returns (pred: int)
    requires |cis| == |bs| && i < |bs| && forall j :: 0 <= j < |cis| ==> cis[j] < |preds|
    ensures pred == Preds(cis[..i], bs[..i], preds, al)[cis[i]]
    ensures cis[i] !in cis[..i] ==> pred == preds[cis[i]]
    ensures forall j :: 0 <= j < i && cis[j] == cis[i] && cis[i] !in cis[j + 1..i] ==> pred == Shr(bs[j][0], al)
  {
    hide Preds;
    PredIs(cis[..i], bs[..i], preds, al, cis[i]);
    pred := Preds(cis[..i], bs[..i], preds, al)[cis[i]];
    forall j | 0 <= j < i && cis[j] == cis[i] && cis[i] !in cis[j + 1..i] ensures pred == Shr(bs[j][0], al) {
      assert cis[..i][j] == cis[i] && cis[..i][j + 1..] == cis[j + 1..i];
    }
  }

  /** Block i is coded as the size and the value bits of its difference from the block of its
      component that came last, or from the prediction at the start if there was none. */
  lemma Predictions(dcTbl: seq<nat>, cis: Members, bs: seq<Block>, preds: seq<int>, al: nat, i: nat) returns (pred: int)
    requires |cis| == |bs| && |dcTbl| == |preds| && i < |bs| && forall j :: 0 <= j < |cis| ==> cis[j] < |preds|
    ensures FirstTokens(dcTbl, cis, bs, preds, al)
            == FirstTokens(dcTbl, cis[..i], bs[..i], preds, al) + (DiffTokens(dcTbl[cis[i]], Shr(bs[i][0], al) - pred)
               + FirstTokens(dcTbl, cis[i + 1..], bs[i + 1..], Preds(cis[..i + 1], bs[..i + 1], preds, al), al))
    ensures cis[i] !in cis[..i] ==> pred == preds[cis[i]]
    ensures forall j :: 0 <= j < i && cis[j] == cis[i] && cis[i] !in cis[j + 1..i] ==> pred == Shr(bs[j][0], al)
  {
    hide *;
    pred := LastBefore(cis, bs, preds, al, i);
    PredsNext(dcTbl, cis, bs, preds, al, i);
    FirstConcat(dcTbl, cis[..i], bs[..i], cis[i..], bs[i..], preds, al);
    FirstCons(dcTbl, cis[i..], bs[i..], Preds(cis[..i], bs[..i], preds, al), al);
  }

  // ---- The bits of a difference and of a refinement ----

  /** A difference is its size, then that many bits: itself if positive, else itself less one,
      so that the first bit tells the sign; a zero has no bits. */
  lemma DiffBits(tbl: nat, t: int) returns (n: nat, b: Bits)
    ensures t == 0 ==> DiffTokens(tbl, t) == [Sym(tbl, 0)]
    ensures t != 0 ==> n > 0 && |b| == n && Pow2(n - 1) <= Abs(t) < Pow2(n)
    ensures t != 0 ==> DiffTokens(tbl, t)[0] == Sym(tbl, n) && SoleField(DiffTokens(tbl, t)[1..], b)
    ensures t != 0 ==> b[0] == (t > 0) && FromBits(b) == if t > 0 then t else t + Pow2(n) - 1
  {
    n := NBits(Abs(t));
    b := ToBits(Field(t), n);
    if t != 0 {
      FromTo(Field(t), n);
      LowFits(Field(t), n);
      HighBit(b);
    }
  }

  /** The tokens are one field with the bits b. */
  ghost predicate SoleField(ts: seq<Token>, b: Bits)
  {
    |ts| == 1 && ts[0].Raw? && ToBits(ts[0].v, ts[0].n) == b
  }

  lemma RefineOne(d: Block, al: nat, s: Src)
    ensures DecRefine([d], al, s) == ([if s.Peek(1) == 1 then d[0 := SetBit(d[0], al)] else d], s.Drop(1))
  {
    hide SetBit;
    DecRefineCons([d], al, s);
    var none: seq<Block> := [d][1..];
    assert none == [];
    assert DecRefine(none, al, s.Drop(1)) == ([], s.Drop(1));
    var e := if s.Peek(1) == 1 then d[0 := SetBit(d[0], al)] else d;
    assert [d][0] == d && [e] + [] == [e];
  }

  /** A refinement sends bit al of each DC coefficient, and a 1 sets it. */
  lemma RefineBit(bs: seq<Block>, al: nat, i: nat, d: Block, s: Src)
    requires i < |bs|
    ensures |RefineTokens(bs, al)| == |bs| && SoleField([RefineTokens(bs, al)[i]], [Shr(bs[i][0], al) % 2 == 1])
    ensures DecRefine([d], al, s) == ([if s.Peek(1) == 1 then d[0 := SetBit(d[0], al)] else d], s.Drop(1))
  {
    var v := Shr(bs[i][0], al);
    assert ToBits(v, 1) == ToBits(v / 2, 0) + [v % 2 == 1];
    RefineOne(d, al, s);
  }

  lemma Slices<T>(s: seq<T>, i: nat)
    requires 0 < i < |s|
    ensures s[1..][..i - 1] == s[..i][1..] && s[..i][0] == s[0] && s[1..][i - 1] == s[i]
  {
  }
}
