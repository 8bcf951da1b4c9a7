/** The coefficient buffer controllers of jccoefct.c, jctrans.c and jdcoefct.c. Whichever of
    them runs, and whenever the entropy coder suspends, the MCUs are those of the scan's
    layout in order, with the same dummy blocks. */
module CoefControllers {
  import opened Geometry
  import opened Layouts
  import opened ScanSetup
  import opened Blocks
  import opened Scans
  import opened Image

  // ---- Where a controller is in its scan ----

  /** MCU_rows_per_iMCU_row. */
  function RowsIn(f: Frame, cs: seq<nat>, i: nat): nat
    requires FrameOk(f) && CompsIn(f, cs)
  {
    if |cs| > 1 then 1 else if i + 1 < ImcuRows(f) then f.comps[cs[0]].v else LastRowHeight(f, cs[0])
  }

  /** The first MCU row of iMCU row i. */
  function FirstRow(f: Frame, cs: seq<nat>, i: nat): nat
    requires FrameOk(f) && CompsIn(f, cs)
  {
    if |cs| > 1 then i else i * f.comps[cs[0]].v
  }

  /** The iMCU rows follow one another, and the last ends with the scan. */
  lemma RowsFollow(f: Frame, cs: seq<nat>, i: nat)
    requires FrameOk(f) && CompsIn(f, cs) && i < ImcuRows(f)
    ensures RowsIn(f, cs, i) > 0 && FirstRow(f, cs, 0) == 0 && ImcuRows(f) > 0
    ensures FirstRow(f, cs, i) + RowsIn(f, cs, i) == if i + 1 < ImcuRows(f) then FirstRow(f, cs, i + 1) else McuRows(f, cs)
  {
    hide HeightInBlocks;
    hide ImcuRows;
    hide LastRowHeight;
    var c := cs[0];
    LastParts(f, cs, c);
    Next(i, f.comps[c].v);
  }

  /** How many MCUs of the scan come before one. */
  function Position(f: Frame, cs: seq<nat>, i: nat, y: nat, col: nat): nat
    requires FrameOk(f) && CompsIn(f, cs)
  {
    if i < ImcuRows(f) then PlaceIn(FirstRow(f, cs, i) + y, col, McusPerRow(f, cs)) else PlaceIn(McuRows(f, cs), 0, McusPerRow(f, cs))
  }

  /** The MCU at a position. */
  lemma PositionIs(f: Frame, cs: seq<nat>, i: nat, y: nat, col: nat)
    requires FrameOk(f) && CompsIn(f, cs) && i < ImcuRows(f) && y < RowsIn(f, cs, i) && col < McusPerRow(f, cs)
    ensures var n := Position(f, cs, i, y, col);
            && n < |LayoutOf(f, cs)| && LayoutOf(f, cs)[n] == McuIds(f, cs, FirstRow(f, cs, i) + y, col, 0)
            && Position(f, cs, i, y, col + 1) == n + 1
  {
    hide *;
    var r, p := FirstRow(f, cs, i) + y, McusPerRow(f, cs);
    RowsUpto(f, cs, i);
    PairBelow(r, col, McuRows(f, cs), p);
    PlaceIs(r, col, p);
    PositionAt(f, cs, i, y, col);
    PositionAt(f, cs, i, y, col + 1);
  }

  lemma PositionAt(f: Frame, cs: seq<nat>, i: nat, y: nat, col: nat)
    requires FrameOk(f) && CompsIn(f, cs) && i < ImcuRows(f)
    ensures Position(f, cs, i, y, col) == (FirstRow(f, cs, i) + y) * McusPerRow(f, cs) + col
  {
  }

  lemma {:induction false} RowsUpto(f: Frame, cs: seq<nat>, i: nat)
    requires FrameOk(f) && CompsIn(f, cs) && i < ImcuRows(f)
    ensures FirstRow(f, cs, i) + RowsIn(f, cs, i) <= McuRows(f, cs)
    decreases ImcuRows(f) - i
  {
    hide RowsIn;
    hide FirstRow;
    hide McuRows;
    RowsFollow(f, cs, i);
    if i + 1 < ImcuRows(f) { RowsUpto(f, cs, i + 1); }
  }

  /** At the end of a row the next one starts. */
  lemma RowEnds(f: Frame, cs: seq<nat>, i: nat, y: nat)
    requires FrameOk(f) && CompsIn(f, cs) && i < ImcuRows(f)
    ensures Position(f, cs, i, y, McusPerRow(f, cs)) == Position(f, cs, i, y + 1, 0)
    ensures Position(f, cs, i, RowsIn(f, cs, i), 0) == Position(f, cs, i + 1, 0, 0)
    ensures Position(f, cs, 0, 0, 0) == 0 && Position(f, cs, ImcuRows(f), 0, 0) == |LayoutOf(f, cs)|
  {
    hide RowsIn;
    hide FirstRow;
    hide McuRows;
    hide McusPerRow;
    RowsFollow(f, cs, i);
    Next(FirstRow(f, cs, i) + y, McusPerRow(f, cs));
  }

  // ---- The loops that point out the blocks of an MCU ----

  lemma GroupPart(c: nat, row: nat, col: nat, w: nat, h: nat, y: nat, x: nat)
    requires y < h && x < w
    ensures y * w + x + 1 <= w * h
    ensures Group(c, row, col, w, h)[..y * w + x + 1] == Group(c, row, col, w, h)[..y * w + x] + [BlockId(c, row + y, col + x)]
  {
    PairBelow(y, x, h, w);
    Commute(w, h);
    DivModIs(y, x, w);
  }

  lemma GroupRow(w: nat, h: nat, y: nat)
    requires y < h
    ensures y * w + w == (y + 1) * w <= w * h
  {
    Next(y, w);
    MulOrder(y + 1, h, w);
    Commute(w, h);
  }

  /** Where the blocks of one MCU are stored. */
  method PointerList(f: Frame, cs: seq<nat>, i: nat, yoffset: nat, col: nat) returns (ids: seq<BlockId>)
    requires FrameOk(f) && CompsIn(f, cs) && i < ImcuRows(f) && yoffset < RowsIn(f, cs, i)
    ensures ids == McuIds(f, cs, FirstRow(f, cs, i) + yoffset, col, 0)
  {
    hide McuWidth;
    hide McuHeight;
    hide McuIds;
    hide RowsIn;
    hide FirstRow;
    hide Group;
    ghost var r := FirstRow(f, cs, i) + yoffset;
    ids := [];
    var ci := 0;
    assert ids + McuIds(f, cs, r, col, 0) == McuIds(f, cs, r, col, 0);
    while ci < |cs|
      invariant 0 <= ci <= |cs| && ids + McuIds(f, cs, r, col, ci) == McuIds(f, cs, r, col, 0)
    {
      var c := cs[ci];
      var start := col * McuWidth(f, cs, c);
      ghost var before := ids;
      IdsNext(f, cs, i, yoffset, col, ci, before);
      ids := GroupList(ids, c, i * f.comps[c].v + yoffset, start, McuWidth(f, cs, c), McuHeight(f, cs, c));
      ci := ci + 1;
    }
    IdsEnd(f, cs, r, col);
    assert ids + [] == ids;
  }

  lemma IdsEnd(f: Frame, cs: seq<nat>, r: nat, col: nat)
    requires FrameOk(f) && CompsIn(f, cs)
    ensures McuIds(f, cs, r, col, |cs|) == []
  {
  }

  /** The row where component ci of an MCU begins, counted from its iMCU row. */
  lemma IdsNext(f: Frame, cs: seq<nat>, i: nat, yoffset: nat, col: nat, ci: nat, front: seq<BlockId>)
    requires FrameOk(f) && CompsIn(f, cs) && i < ImcuRows(f) && yoffset < RowsIn(f, cs, i) && ci < |cs|
    ensures var r, c := FirstRow(f, cs, i) + yoffset, cs[ci];
            && McuWidth(f, cs, c) > 0
            && r * McuHeight(f, cs, c) == i * f.comps[c].v + yoffset
            && front + McuIds(f, cs, r, col, ci)
               == front + Group(c, i * f.comps[c].v + yoffset, col * McuWidth(f, cs, c), McuWidth(f, cs, c), McuHeight(f, cs, c))
                  + McuIds(f, cs, r, col, ci + 1)
  {
    hide Group;
    WidthPositive(f, cs, cs[ci]);
    if |cs| == 1 { assert ci == 0; }
  }

  method GroupList(front: seq<BlockId>, c: nat, row: nat, start: nat, w: nat, h: nat) returns (ids: seq<BlockId>)
    requires w > 0
    ensures ids == front + Group(c, row, start, w, h)
  {
    hide Group;
    ids := front;
    ghost var g := Group(c, row, start, w, h);
    var yindex := 0;
    while yindex < h
      invariant 0 <= yindex <= h && yindex * w <= w * h && ids == front + g[..yindex * w]
    {
      GroupRow(w, h, yindex);
      var xindex := 0;
      while xindex < w
        invariant 0 <= xindex <= w && ids == front + g[..yindex * w + xindex]
      {
        GroupPart(c, row, start, w, h, yindex, xindex);
        ids := ids + [BlockId(c, row + yindex, start + xindex)];
        xindex := xindex + 1;
      }
      yindex := yindex + 1;
    }
    Commute(w, h);
    assert g[..w * h] == g;
  }

  // ---- Dummy blocks ----

  /** All zeroes but for the DC coefficient. */
  function Dummy(dc: Coef): (b: Block)
    ensures b[0] == dc && forall k :: 1 <= k < 64 ==> b[k] == 0
  {
    seq(64, k => if k == 0 then dc else 0)
  }

  /** The blocks that forward_DCT produces: one for each real position. */
  ghost predicate RealOnes(f: Frame, dct: Coefs)
  {
    forall id :: RealId(f, id) ==> id in dct
  }

  /** A block of the padded arrays: beyond the right edge a dummy with the DC value of the last
      real block, below the bottom one with the DC value of the last block above in its MCU. */
  ghost function Padded(f: Frame, dct: Coefs, id: BlockId): Block
    requires FrameOk(f) && id.comp < |f.comps| && RealOnes(f, dct)
    decreases id.row
  {
    if RealId(f, id) then dct[id]
    else if id.row < HeightInBlocks(f, id.comp) then
      LastRealCol(f, id);
      Dummy(dct[id.(col := WidthInBlocks(f, id.comp) - 1)][0])
    else if id.row == 0 then Dummy(0)
    else Dummy(Padded(f, dct, id.(row := id.row - 1, col := LastInMcu(f, id)))[0])
  }

  /** The last column of the interleaved MCU that holds the block. */
  function LastInMcu(f: Frame, id: BlockId): nat
    requires FrameOk(f) && id.comp < |f.comps|
  {
    id.col / f.comps[id.comp].h * f.comps[id.comp].h + f.comps[id.comp].h - 1
  }

  lemma LastRealCol(f: Frame, id: BlockId)
    requires FrameOk(f) && id.comp < |f.comps| && id.row < HeightInBlocks(f, id.comp)
    ensures WidthInBlocks(f, id.comp) > 0 && RealId(f, id.(col := WidthInBlocks(f, id.comp) - 1))
  {
    BlockCols(f, id.comp);
    MulOrder(0, ImcuCols(f) - 1, f.comps[id.comp].h);
  }

  /** pad holds the padded components. */
  ghost predicate IsPadded(f: Frame, dct: Coefs, pad: Coefs)
    requires FrameOk(f) && RealOnes(f, dct)
  {
    Arrays(f, pad) && forall id :: id in pad ==> pad[id] == Padded(f, dct, id)
  }

  // ---- The entropy coder as the controllers see it ----

  /** An entropy encoder that may have to suspend, in any pattern. */
  class Sink {
    var sent: seq<Mcu>
    var answers: seq<bool>    // false for each suspension still to come

    constructor (answers: seq<bool>)
      ensures sent == [] && this.answers == answers
    {
      sent, this.answers := [], answers;
    }

    method EncodeMcu(m: Mcu) returns (ok: bool)
      modifies this
      ensures ok ==> sent == old(sent) + [m] && |answers| <= |old(answers)|
      ensures !ok ==> sent == old(sent) && |answers| < |old(answers)|
    {
      ok := answers == [] || answers[0];
      if answers != [] { answers := answers[1..]; }
      if ok { sent := sent + [m]; }
    }
  }

  // ---- One row of blocks of an MCU ----

  function RowIds(c: nat, row: nat, start: nat, w: nat): (r: seq<BlockId>)
    ensures |r| == w && forall x :: 0 <= x < w ==> r[x] == BlockId(c, row, start + x)
  {
    seq(w, x requires 0 <= x < w => BlockId(c, row, start + x))
  }

  lemma GroupByRows(c: nat, row: nat, start: nat, w: nat, h: nat, y: nat)
    requires w > 0 && y < h
    ensures y * w <= (y + 1) * w <= w * h
    ensures Group(c, row, start, w, h)[..(y + 1) * w] == Group(c, row, start, w, h)[..y * w] + RowIds(c, row + y, start, w)
  {
    hide Group;
    hide RowIds;
    GroupRow(w, h, y);
    GroupUpto(c, row, start, w, h, y, w);
    assert RowIds(c, row + y, start, w)[..w] == RowIds(c, row + y, start, w);
  }

  lemma {:induction false} GroupUpto(c: nat, row: nat, start: nat, w: nat, h: nat, y: nat, x: nat)
    requires w > 0 && y < h && x <= w
    ensures y * w + x <= w * h
    ensures Group(c, row, start, w, h)[..y * w + x] == Group(c, row, start, w, h)[..y * w] + RowIds(c, row + y, start, w)[..x]
  {
    hide Group;
    hide RowIds;
    GroupRow(w, h, y);
    if x > 0 {
      GroupUpto(c, row, start, w, h, y, x - 1);
      GroupPart(c, row, start, w, h, y, x - 1);
    }
  }

  /** All ids are in the arrays. */
  ghost predicate In(ids: seq<BlockId>, img: Coefs)
  {
    forall j :: 0 <= j < |ids| ==> ids[j] in img
  }

  lemma InWithin(ids: seq<BlockId>, img: Coefs)
    ensures In(ids, img) <==> Within(ids, img.Keys)
  {
  }

  /** The blocks at the given positions. */
  ghost function Pick(img: Coefs, ids: seq<BlockId>): (b: Mcu)
    requires In(ids, img)
    ensures |b| == |ids| && forall j :: 0 <= j < |ids| ==> b[j] == img[ids[j]]
  {
    InWithin(ids, img);
    Gather1(img, ids)
  }

  lemma InParts(img: Coefs, a: seq<BlockId>, b: seq<BlockId>)
    requires In(a + b, img)
    ensures In(a, img) && In(b, img)
  {
    forall j | 0 <= j < |a| ensures a[j] in img { assert (a + b)[j] == a[j]; }
    forall j | 0 <= j < |b| ensures b[j] in img { assert (a + b)[|a| + j] == b[j]; }
  }

  /** Real columns in a row of an MCU. */
  function Useful(f: Frame, cs: seq<nat>, c: nat, col: nat): nat
    requires FrameOk(f) && CompsIn(f, cs) && c < |f.comps|
  {
    if col + 1 < McusPerRow(f, cs) then McuWidth(f, cs, c) else LastColWidth(f, cs, c)
  }

  /** What a row of real blocks holds in the padded arrays. */
  lemma RealRow(f: Frame, cs: seq<nat>, dct: Coefs, id: BlockId, col: nat, x: nat)
    requires FrameOk(f) && CompsIn(f, cs) && id.comp in cs && RealOnes(f, dct) && id.comp < |f.comps| && id.row < HeightInBlocks(f, id.comp)
    requires col < McusPerRow(f, cs) && x < McuWidth(f, cs, id.comp) && id.col == col * McuWidth(f, cs, id.comp) + x
    ensures 0 < Useful(f, cs, id.comp, col) <= McuWidth(f, cs, id.comp)
    ensures x < Useful(f, cs, id.comp, col) ==> id in dct && Padded(f, dct, id) == dct[id]
    ensures x >= Useful(f, cs, id.comp, col) ==> id.col > 0 && Padded(f, dct, id) == Dummy(Padded(f, dct, id.(col := id.col - 1))[0])
  {
    var c := id.comp;
    var w, p := McuWidth(f, cs, c), McusPerRow(f, cs);
    LastParts(f, cs, c);
    hide WidthInBlocks;
    hide HeightInBlocks;
    hide LastColWidth;
    if x < Useful(f, cs, c, col) {
      if col + 1 < p {
        MulOrder(col + 1, p - 1, w);
        Next(col, w);
      }
      assert RealId(f, id);
    } else {
      assert col == p - 1;
      LastRealCol(f, id);
    }
  }

  /** What a row below the bottom holds. */
  lemma DummyRow(f: Frame, cs: seq<nat>, dct: Coefs, c: nat, row: nat, col: nat, x: nat)
    requires FrameOk(f) && CompsIn(f, cs) && |cs| > 1 && c in cs && RealOnes(f, dct) && row >= HeightInBlocks(f, c)
    requires x < McuWidth(f, cs, c)
    ensures row > 0
    ensures var w := McuWidth(f, cs, c);
            Padded(f, dct, BlockId(c, row, col * w + x)) == Dummy(Padded(f, dct, BlockId(c, row - 1, col * w + w - 1))[0])
  {
    BlockRows(f, c);
    MulOrder(0, ImcuRows(f) - 1, f.comps[c].v);
    DivModIs(col, x, f.comps[c].h);
    hide WidthInBlocks;
    hide HeightInBlocks;
  }

  /** The test for a row of real blocks. */
  lemma RowTest(f: Frame, cs: seq<nat>, i: nat, yoffset: nat, c: nat, y: nat)
    requires FrameOk(f) && CompsIn(f, cs) && c < |f.comps| && c in cs
    requires i < ImcuRows(f) && yoffset < RowsIn(f, cs, i) && y < McuHeight(f, cs, c)
    ensures (i + 1 < ImcuRows(f) || yoffset + y < LastRowHeight(f, c)) <==> Top(f, c, i, yoffset) + y < HeightInBlocks(f, c)
    ensures !(i + 1 < ImcuRows(f) || yoffset + y < LastRowHeight(f, c)) ==> |cs| > 1 && y > 0 && yoffset == 0
  {
    LastParts(f, cs, c);
    var v := f.comps[c].v;
    hide HeightInBlocks;
    hide LastRowHeight;
    if |cs| == 1 { assert c == cs[0]; }
    if i + 1 < ImcuRows(f) {
      MulOrder(i + 1, ImcuRows(f) - 1, v);
      Next(i, v);
    }
  }

  /** Append a block that the padded arrays hold. */
  lemma Appended(pad: Coefs, ids: seq<BlockId>, m: Mcu, id: BlockId, b: Block)
    requires In(ids, pad) && m == Pick(pad, ids) && id in pad && pad[id] == b
    ensures In(ids + [id], pad) && m + [b] == Pick(pad, ids + [id])
  {
  }

  /** A row of an MCU as far as it has been filled in. */
  ghost predicate Filled(pad: Coefs, ids: seq<BlockId>, m: Mcu) { In(ids, pad) && m == Pick(pad, ids) }

  /** The row lies in the arrays; above a row of dummy blocks there is the row before. */
  ghost predicate RowFits(f: Frame, cs: seq<nat>, pad: Coefs, ids0: seq<BlockId>, c: nat, row: nat, col: nat, isReal: bool)
    requires FrameOk(f) && CompsIn(f, cs) && c < |f.comps|
  {
    var w := McuWidth(f, cs, c);
    && c in cs && col < McusPerRow(f, cs) && In(RowIds(c, row, col * w, w), pad)
    && (isReal <==> row < HeightInBlocks(f, c))
    && (!isReal ==> |cs| > 1 && row > 0 && ids0 != [] && ids0[|ids0| - 1] == BlockId(c, row - 1, col * w + w - 1))
  }

  /** The next block of a row: a real one, or a dummy made from the block before it, which in a
      row of dummy blocks comes to the same as the last block of the row above. */
  lemma RowStep(f: Frame, cs: seq<nat>, dct: Coefs, pad: Coefs, ids0: seq<BlockId>, m: Mcu, c: nat, row: nat, col: nat, isReal: bool, x: nat)
    requires FrameOk(f) && CompsIn(f, cs) && c < |f.comps| && RowFits(f, cs, pad, ids0, c, row, col, isReal)
    requires RealOnes(f, dct) && IsPadded(f, dct, pad) && x < McuWidth(f, cs, c)
    requires Filled(pad, ids0 + RowIds(c, row, col * McuWidth(f, cs, c), McuWidth(f, cs, c))[..x], m)
    ensures 0 < Useful(f, cs, c, col)
    ensures var ids, id := RowIds(c, row, col * McuWidth(f, cs, c), McuWidth(f, cs, c)), BlockId(c, row, col * McuWidth(f, cs, c) + x);
            && (isReal && x < Useful(f, cs, c, col) ==> id in dct && Filled(pad, ids0 + ids[..x + 1], m + [dct[id]]))
            && (!isReal || x >= Useful(f, cs, c, col) ==> |m| > 0 && Filled(pad, ids0 + ids[..x + 1], m + [Dummy(m[|m| - 1][0])]))
            && (!isReal ==> |m| >= |ids0| > 0 && Filled(pad, ids0 + ids[..x + 1], m + [Dummy(m[|ids0| - 1][0])]))
  {
    hide *;
    var ids := RowIds(c, row, col * McuWidth(f, cs, c), McuWidth(f, cs, c));
    var sofar := ids0 + ids[..x];
    assert ids0 + ids[..x + 1] == sofar + [ids[x]];
    RowFitsIs(f, cs, pad, ids0, c, row, col, isReal);
    UsefulWidth(f, cs, c, col);
    FilledLast(pad, ids0, ids, x, m);
    if isReal {
      RealRow(f, cs, dct, BlockId(c, row, col * McuWidth(f, cs, c) + x), col, x);
    } else {
      DummyRow(f, cs, dct, c, row, col, x);
      if x > 0 { DummyRow(f, cs, dct, c, row, col, x - 1); }
      DummyDc(Padded(f, dct, BlockId(c, row - 1, col * McuWidth(f, cs, c) + McuWidth(f, cs, c) - 1))[0]);
    }
    RowPadded(f, cs, dct, pad, ids0, c, row, col, isReal, x);
    if x > 0 { RowPadded(f, cs, dct, pad, ids0, c, row, col, isReal, x - 1); }
    FilledMore(pad, sofar, m, ids[x]);
  }

  lemma RowFitsIs(f: Frame, cs: seq<nat>, pad: Coefs, ids0: seq<BlockId>, c: nat, row: nat, col: nat, isReal: bool)
    requires FrameOk(f) && CompsIn(f, cs) && c < |f.comps| && RowFits(f, cs, pad, ids0, c, row, col, isReal)
    ensures c in cs && col < McusPerRow(f, cs) && (isReal <==> row < HeightInBlocks(f, c))
    ensures !isReal ==> |cs| > 1 && row > 0 && ids0 != []
    ensures !isReal ==> ids0[|ids0| - 1] == BlockId(c, row - 1, col * McuWidth(f, cs, c) + McuWidth(f, cs, c) - 1)
  {
  }

  /** The row's blocks in the arrays, and the last block of the row above. */
  lemma RowPadded(f: Frame, cs: seq<nat>, dct: Coefs, pad: Coefs, ids0: seq<BlockId>, c: nat, row: nat, col: nat, isReal: bool, x: nat)
    requires FrameOk(f) && CompsIn(f, cs) && c < |f.comps| && RowFits(f, cs, pad, ids0, c, row, col, isReal)
    requires RealOnes(f, dct) && IsPadded(f, dct, pad) && x < McuWidth(f, cs, c)
    ensures var ids, id := RowIds(c, row, col * McuWidth(f, cs, c), McuWidth(f, cs, c)), BlockId(c, row, col * McuWidth(f, cs, c) + x);
            ids[x] == id && id in pad && pad[id] == Padded(f, dct, id)
    ensures !isReal && ids0[|ids0| - 1] in pad ==> pad[ids0[|ids0| - 1]] == Padded(f, dct, ids0[|ids0| - 1])
  {
    hide Padded;
    hide McuWidth;
    hide HeightInBlocks;
    hide McusPerRow;
    hide PaddedId;
    var ids := RowIds(c, row, col * McuWidth(f, cs, c), McuWidth(f, cs, c));
    assert ids[x] in pad;
  }

  lemma FilledLast(pad: Coefs, ids0: seq<BlockId>, ids: seq<BlockId>, x: nat, m: Mcu)
    requires x <= |ids| && Filled(pad, ids0 + ids[..x], m)
    ensures |m| == |ids0| + x
    ensures x > 0 ==> ids[x - 1] in pad && m[|m| - 1] == pad[ids[x - 1]]
    ensures ids0 != [] ==> ids0[|ids0| - 1] in pad && m[|ids0| - 1] == pad[ids0[|ids0| - 1]]
  {
    var sofar := ids0 + ids[..x];
    if x > 0 { assert sofar[|sofar| - 1] == ids[x - 1]; }
    if ids0 != [] { assert sofar[|ids0| - 1] == ids0[|ids0| - 1]; }
  }

  lemma FilledMore(pad: Coefs, ids: seq<BlockId>, m: Mcu, id: BlockId)
    requires Filled(pad, ids, m) && id in pad
    ensures forall b :: b == pad[id] ==> Filled(pad, ids + [id], m + [b])
  {
    Appended(pad, ids, m, id, pad[id]);
  }

  lemma DummyDc(dc: Coef)
    ensures Dummy(dc)[0] == dc
  {
  }

  lemma FillStart(pad: Coefs, ids0: seq<BlockId>, c: nat, row: nat, start: nat, w: nat, m: Mcu)
    requires Filled(pad, ids0, m)
    ensures Filled(pad, ids0 + RowIds(c, row, start, w)[..0], m)
  {
    assert ids0 + RowIds(c, row, start, w)[..0] == ids0;
  }

  lemma FillEnd(pad: Coefs, ids0: seq<BlockId>, c: nat, row: nat, start: nat, w: nat, m: Mcu)
    requires Filled(pad, ids0 + RowIds(c, row, start, w)[..w], m)
    ensures Filled(pad, ids0 + RowIds(c, row, start, w), m)
  {
    assert RowIds(c, row, start, w)[..w] == RowIds(c, row, start, w);
  }

  /** Where the blocks of a component begin in an MCU. */
  function Top(f: Frame, c: nat, i: nat, yoffset: nat): nat
    requires c < |f.comps|
  {
    i * f.comps[c].v + yoffset
  }

  function Left(f: Frame, cs: seq<nat>, c: nat, col: nat): nat
    requires c < |f.comps|
  {
    col * McuWidth(f, cs, c)
  }

  /** The blocks that an MCU takes from one component. */
  function ComponentIds(f: Frame, cs: seq<nat>, i: nat, yoffset: nat, col: nat, ci: nat): seq<BlockId>
    requires FrameOk(f) && CompsIn(f, cs) && ci < |cs| && McuWidth(f, cs, cs[ci]) > 0
  {
    var c := cs[ci];
    Group(c, Top(f, c, i, yoffset), Left(f, cs, c, col), McuWidth(f, cs, c), McuHeight(f, cs, c))
  }

  lemma PartIn(pad: Coefs, g: seq<BlockId>, from: nat, to: nat, here: seq<BlockId>)
    requires In(g, pad) && from <= to <= |g| && g[..to] == g[..from] + here
    ensures In(here, pad)
  {
    forall j | 0 <= j < |here| ensures here[j] in pad {
      assert g[..to][from + j] == here[j];
      assert g[from + j] in pad;
    }
  }

  /** The block before a row of blocks is the last of the row above. */
  lemma LastOfRow(ids0: seq<BlockId>, c: nat, row: nat, start: nat, w: nat, h: nat, y: nat)
    requires w > 0 && 0 < y < h
    ensures y * w <= w * h
    ensures var ids := ids0 + Group(c, row, start, w, h)[..y * w];
            ids != [] && ids[|ids| - 1] == BlockId(c, row + y - 1, start + w - 1)
  {
    GroupRow(w, h, y - 1);
    GroupByRows(c, row, start, w, h, y - 1);
    hide Group;
  }

  // ---- The controllers of the compressor ----

  /** compress_output of jccoefct.c, after the first pass has filled the arrays; compress_data,
      straight from the DCT; compress_output of jctrans.c, from arrays of real blocks only. */
  datatype Mode = Buffered | OnePass | Transcoding

  class Controller {
    const mode: Mode
    const f: Frame
    const cs: seq<nat>
    const dct: Coefs             // the real blocks: from forward_DCT, or supplied for transcoding
    var iMCU_row_num: nat
    var mcu_ctr: nat
    var MCU_vert_offset: nat
    var MCU_rows_per_iMCU_row: nat
    var whole: Coefs             // whole_image, the virtual arrays

    constructor (mode: Mode, f: Frame, cs: seq<nat>, dct: Coefs, whole: Coefs)
      requires FrameOk(f) && CompsIn(f, cs)
      ensures this.mode == mode && this.f == f && this.cs == cs && this.dct == dct && this.whole == whole
      ensures Valid() && iMCU_row_num == 0 && Here() == 0
    {
      this.mode, this.f, this.cs, this.dct, this.whole := mode, f, cs, dct, whole;
      iMCU_row_num := 0;
      new;
      StartRow();
      BlockRows(f, cs[0]);
      RowsFollow(f, cs, 0);
      RowEnds(f, cs, 0, 0);
    }

    /** The scan's parameters are set up, and the counters lie within the current row. */
    ghost predicate Valid()
      reads `iMCU_row_num, `mcu_ctr, `MCU_vert_offset, `MCU_rows_per_iMCU_row
    {
      && FrameOk(f) && CompsIn(f, cs) && iMCU_row_num <= ImcuRows(f)
      && (iMCU_row_num < ImcuRows(f) ==>
            && MCU_rows_per_iMCU_row == RowsIn(f, cs, iMCU_row_num) && MCU_vert_offset < MCU_rows_per_iMCU_row
            && mcu_ctr < McusPerRow(f, cs))
      && (iMCU_row_num == ImcuRows(f) ==> MCU_vert_offset == mcu_ctr == 0)
    }

    /** How many MCUs of the scan are done. */
    ghost function Here(): nat
      requires FrameOk(f) && CompsIn(f, cs)
      reads `iMCU_row_num, `mcu_ctr, `MCU_vert_offset
    {
      Position(f, cs, iMCU_row_num, MCU_vert_offset, mcu_ctr)
    }

    /** start_iMCU_row. */
    method StartRow()
      requires FrameOk(f) && CompsIn(f, cs) && iMCU_row_num <= ImcuRows(f)
      modifies `mcu_ctr, `MCU_vert_offset, `MCU_rows_per_iMCU_row
      ensures Valid() && mcu_ctr == MCU_vert_offset == 0
    {
      if |cs| > 1 {
        MCU_rows_per_iMCU_row := 1;
      } else if iMCU_row_num + 1 < ImcuRows(f) {
        MCU_rows_per_iMCU_row := f.comps[cs[0]].v;
      } else {
        MCU_rows_per_iMCU_row := LastRowHeight(f, cs[0]);
      }
      mcu_ctr := 0;
      MCU_vert_offset := 0;
      RowsPositive(f, cs);
      if iMCU_row_num < ImcuRows(f) { RowsFollow(f, cs, iMCU_row_num); }
    }

    /** What the routine reads: the real blocks, or the current rows of the filled arrays. */
    ghost predicate Loaded(pad: Coefs)
      reads `whole, `iMCU_row_num
    {
      && FrameOk(f) && RealOnes(f, dct) && IsPadded(f, dct, pad)
      && (mode == Buffered ==> forall id :: id in pad && InRow(f, id, iMCU_row_num) ==> id in whole && whole[id] == pad[id])
    }

    lemma UseLoaded(pad: Coefs)
      requires Loaded(pad)
      ensures FrameOk(f) && RealOnes(f, dct) && IsPadded(f, dct, pad)
    {
    }

    /** One row of blocks in compress_data. */
    method OnePassRow(m0: Mcu, ghost ids0: seq<BlockId>, ghost pad: Coefs, c: nat, row: nat, col: nat, isReal: bool) returns (m: Mcu)
      requires FrameOk(f) && CompsIn(f, cs) && Loaded(pad) && c < |f.comps|
      requires RowFits(f, cs, pad, ids0, c, row, col, isReal) && Filled(pad, ids0, m0)
      ensures Filled(pad, ids0 + RowIds(c, row, Left(f, cs, c, col), McuWidth(f, cs, c)), m)
    {
      hide *;
      UseLoaded(pad);
      LeftIs(f, cs, c, col);
      var w := McuWidth(f, cs, c);
      ghost var ids := RowIds(c, row, col * w, w);
      var blockcnt := Useful(f, cs, c, col);
      FillStart(pad, ids0, c, row, col * w, w, m0);
      m := m0;
      FilledLength(pad, ids0, m);
      var bi := 0;
      while bi < w
        invariant 0 <= bi <= w && Filled(pad, ids0 + ids[..bi], m) && |m| == |m0| + bi
      {
        RowStep(f, cs, dct, pad, ids0, m, c, row, col, isReal, bi);
        if isReal && bi < blockcnt {
          m := m + [dct[BlockId(c, row, col * w + bi)]];
        } else if isReal {
          m := m + [Dummy(m[|m| - 1][0])];
        } else {
          m := m + [Dummy(m[|m0| - 1][0])];
        }
        bi := bi + 1;
      }
      FillEnd(pad, ids0, c, row, col * w, w, m);
    }

    lemma FilledLength(pad: Coefs, ids: seq<BlockId>, m: Mcu)
      requires Filled(pad, ids, m)
      ensures |m| == |ids|
    {
    }

    /** One row of blocks in compress_output of jctrans.c. */
    method TranscodingRow(m0: Mcu, ghost ids0: seq<BlockId>, ghost pad: Coefs, c: nat, row: nat, col: nat, isReal: bool) returns (m: Mcu)
      requires FrameOk(f) && CompsIn(f, cs) && Loaded(pad) && c < |f.comps|
      requires RowFits(f, cs, pad, ids0, c, row, col, isReal) && Filled(pad, ids0, m0)
      ensures Filled(pad, ids0 + RowIds(c, row, Left(f, cs, c, col), McuWidth(f, cs, c)), m)
    {
      hide *;
      UseLoaded(pad);
      LeftIs(f, cs, c, col);
      var w := McuWidth(f, cs, c);
      ghost var ids := RowIds(c, row, col * w, w);
      var blockcnt := Useful(f, cs, c, col);
      FillStart(pad, ids0, c, row, col * w, w, m0);
      m := m0;
      var xindex := 0;
      if isReal {
        RowFitsIs(f, cs, pad, ids0, c, row, col, isReal);
        UsefulWidth(f, cs, c, col);
        while xindex < blockcnt
          invariant 0 <= xindex <= blockcnt && Filled(pad, ids0 + ids[..xindex], m)
        {
          RowStep(f, cs, dct, pad, ids0, m, c, row, col, isReal, xindex);
          m := m + [dct[BlockId(c, row, col * w + xindex)]];
          xindex := xindex + 1;
        }
      }
      while xindex < w
        invariant 0 <= xindex <= w && Filled(pad, ids0 + ids[..xindex], m) && (isReal ==> xindex >= blockcnt)
      {
        RowStep(f, cs, dct, pad, ids0, m, c, row, col, isReal, xindex);
        m := m + [Dummy(m[|m| - 1][0])];
        xindex := xindex + 1;
      }
      FillEnd(pad, ids0, c, row, col * w, w, m);
    }

    /** One row of a component's blocks: the test for the bottom of the image. */
    method ComponentRow(m0: Mcu, ghost ids0: seq<BlockId>, ghost pad: Coefs, yoffset: nat, col: nat, c: nat, yindex: nat) returns (m: Mcu)
      requires FrameOk(f) && CompsIn(f, cs) && Loaded(pad) && c < |f.comps| && c in cs && mode != Buffered && Filled(pad, ids0, m0)
      requires iMCU_row_num < ImcuRows(f) && yoffset < RowsIn(f, cs, iMCU_row_num) && yindex < McuHeight(f, cs, c)
      requires var row := Top(f, c, iMCU_row_num, yoffset) + yindex;
               RowFits(f, cs, pad, ids0, c, row, col, row < HeightInBlocks(f, c))
      ensures Filled(pad, ids0 + RowIds(c, Top(f, c, iMCU_row_num, yoffset) + yindex, Left(f, cs, c, col), McuWidth(f, cs, c)), m)
    {
      hide *;
      RowTest(f, cs, iMCU_row_num, yoffset, c, yindex);
      LeftIs(f, cs, c, col);
      var row := Top(f, c, iMCU_row_num, yoffset) + yindex;
      var isReal := iMCU_row_num + 1 < ImcuRows(f) || yoffset + yindex < LastRowHeight(f, c);
      if mode == OnePass {
        m := OnePassRow(m0, ids0, pad, c, row, col, isReal);
      } else {
        m := TranscodingRow(m0, ids0, pad, c, row, col, isReal);
      }
    }

    /** The blocks of one component in compress_data or in the transcoder's compress_output. */
    method ComponentBlocks(m0: Mcu, ghost ids0: seq<BlockId>, ghost pad: Coefs, yoffset: nat, col: nat, ci: nat) returns (m: Mcu)
      requires FrameOk(f) && CompsIn(f, cs) && Loaded(pad) && ci < |cs| && col < McusPerRow(f, cs) && mode != Buffered
      requires iMCU_row_num < ImcuRows(f) && yoffset < RowsIn(f, cs, iMCU_row_num) && Filled(pad, ids0, m0)
      requires McuWidth(f, cs, cs[ci]) > 0 && In(ComponentIds(f, cs, iMCU_row_num, yoffset, col, ci), pad)
      ensures Filled(pad, ids0 + ComponentIds(f, cs, iMCU_row_num, yoffset, col, ci), m)
    {
      hide *;
      CompInFrame(f, cs, ci);
      var c := cs[ci];
      var w, h := McuWidth(f, cs, c), McuHeight(f, cs, c);
      var row0, start := Top(f, c, iMCU_row_num, yoffset), Left(f, cs, c, col);
      ComponentIs(f, cs, iMCU_row_num, yoffset, col, ci);
      TopRowsEnds(c, row0, start, w, h);
      m := m0;
      assert ids0 + [] == ids0;
      var yindex := 0;
      while yindex < h
        invariant 0 <= yindex <= h && Filled(pad, ids0 + TopRows(c, row0, start, w, h, yindex), m)
      {
        RowTest(f, cs, iMCU_row_num, yoffset, c, yindex);
        NextRow(f, cs, pad, ids0, c, row0, col, yindex, row0 + yindex < HeightInBlocks(f, c));
        m := ComponentRow(m, ids0 + TopRows(c, row0, start, w, h, yindex), pad, yoffset, col, c, yindex);
        yindex := yindex + 1;
      }
    }

    /** The MCU as compress_data or the transcoder's compress_output makes it up. */
    method MakeUpMcu(ghost pad: Coefs, yoffset: nat, col: nat) returns (m: Mcu)
      requires FrameOk(f) && CompsIn(f, cs) && Loaded(pad) && mode != Buffered
      requires iMCU_row_num < ImcuRows(f) && yoffset < RowsIn(f, cs, iMCU_row_num) && col < McusPerRow(f, cs)
      ensures Filled(pad, McuIds(f, cs, FirstRow(f, cs, iMCU_row_num) + yoffset, col, 0), m)
    {
      hide *;
      UseLoaded(pad);
      ghost var r := FirstRow(f, cs, iMCU_row_num) + yoffset;
      ghost var ids: seq<BlockId> := [];
      m := [];
      NoneFilled(pad);
      McuInside(f, cs, dct, pad, iMCU_row_num, yoffset, col);
      assert ids + McuIds(f, cs, r, col, 0) == McuIds(f, cs, r, col, 0);
      var ci := 0;
      while ci < |cs|
        invariant 0 <= ci <= |cs| && Filled(pad, ids, m) && ids + McuIds(f, cs, r, col, ci) == McuIds(f, cs, r, col, 0)
      {
        IdsNext(f, cs, iMCU_row_num, yoffset, col, ci, ids);
        ghost var here := ComponentIds(f, cs, iMCU_row_num, yoffset, col, ci);
        ComponentNext(f, cs, iMCU_row_num, yoffset, col, ci, ids);
        InParts(pad, ids + here, McuIds(f, cs, r, col, ci + 1));
        InParts(pad, ids, here);
        m := ComponentBlocks(m, ids, pad, yoffset, col, ci);
        ids := ids + here;
        ci := ci + 1;
      }
      IdsEnd(f, cs, r, col);
      assert ids + [] == ids;
    }

    /** The MCU as compress_output reads it from the virtual arrays. */
    method FetchMcu(ghost pad: Coefs, yoffset: nat, col: nat) returns (m: Mcu)
      requires FrameOk(f) && CompsIn(f, cs) && Loaded(pad) && mode == Buffered
      requires iMCU_row_num < ImcuRows(f) && yoffset < RowsIn(f, cs, iMCU_row_num) && col < McusPerRow(f, cs)
      ensures Filled(pad, McuIds(f, cs, FirstRow(f, cs, iMCU_row_num) + yoffset, col, 0), m)
    {
      hide *;
      UseLoaded(pad);
      var ids := PointerList(f, cs, iMCU_row_num, yoffset, col);
      McuInside(f, cs, dct, pad, iMCU_row_num, yoffset, col);
      NoneFilled(pad);
      m := [];
      assert ids[..0] == [];
      var blkn := 0;
      while blkn < |ids|
        invariant 0 <= blkn <= |ids| && Filled(pad, ids[..blkn], m)
      {
        McuInRow(f, cs, iMCU_row_num, yoffset, col, blkn);
        RowLoaded(pad, ids, blkn);
        assert ids[..blkn + 1] == ids[..blkn] + [ids[blkn]];
        FilledMore(pad, ids[..blkn], m, ids[blkn]);
        m := m + [whole[ids[blkn]]];
        blkn := blkn + 1;
      }
      assert ids[..|ids|] == ids;
    }

    lemma RowLoaded(pad: Coefs, ids: seq<BlockId>, j: nat)
      requires Loaded(pad) && mode == Buffered && j < |ids| && In(ids, pad) && InRow(f, ids[j], iMCU_row_num)
      ensures ids[j] in pad && ids[j] in whole && whole[ids[j]] == pad[ids[j]]
    {
    }

    /** What has been sent is the scan's MCUs so far. */
    ghost predicate SentSoFar(sink: Sink, pad: Coefs, n: nat)
      reads sink`sent
    {
      && FrameOk(f) && CompsIn(f, cs) && Inside(LayoutOf(f, cs), pad.Keys) && n <= |LayoutOf(f, cs)|
      && sink.sent == Gather(pad, LayoutOf(f, cs))[..n]
    }

    /** One MCU: make it up or fetch it, and hand it to the entropy encoder. */
    method SendMcu(sink: Sink, ghost pad: Coefs, yoffset: nat, col: nat) returns (ok: bool)
      requires FrameOk(f) && CompsIn(f, cs) && Loaded(pad)
      requires iMCU_row_num < ImcuRows(f) && yoffset < RowsIn(f, cs, iMCU_row_num) && col < McusPerRow(f, cs)
      requires SentSoFar(sink, pad, Position(f, cs, iMCU_row_num, yoffset, col))
      modifies sink
      ensures !ok ==> |sink.answers| < |old(sink.answers)| && SentSoFar(sink, pad, Position(f, cs, iMCU_row_num, yoffset, col))
      ensures ok ==> |sink.answers| <= |old(sink.answers)| && SentSoFar(sink, pad, Position(f, cs, iMCU_row_num, yoffset, col + 1))
    {
      hide *;
      var m: Mcu;
      if mode == Buffered {
        m := FetchMcu(pad, yoffset, col);
      } else {
        m := MakeUpMcu(pad, yoffset, col);
      }
      PositionIs(f, cs, iMCU_row_num, yoffset, col);
      SentIs(sink, pad, Position(f, cs, iMCU_row_num, yoffset, col));
      ghost var before := sink.sent;
      ok := sink.EncodeMcu(m);
      if ok { SentOneMore(sink, pad, Position(f, cs, iMCU_row_num, yoffset, col), before, m); }
    }

    lemma SentIs(sink: Sink, pad: Coefs, n: nat)
      requires SentSoFar(sink, pad, n)
      ensures FrameOk(f) && CompsIn(f, cs) && Inside(LayoutOf(f, cs), pad.Keys) && n <= |LayoutOf(f, cs)|
      ensures sink.sent == Gather(pad, LayoutOf(f, cs))[..n]
    {
    }

    lemma SentOneMore(sink: Sink, pad: Coefs, n: nat, before: seq<Mcu>, m: Mcu)
      requires FrameOk(f) && CompsIn(f, cs) && Inside(LayoutOf(f, cs), pad.Keys) && n < |LayoutOf(f, cs)|
      requires before == Gather(pad, LayoutOf(f, cs))[..n] && sink.sent == before + [m] && Filled(pad, LayoutOf(f, cs)[n], m)
      ensures SentSoFar(sink, pad, n + 1)
    {
      hide *;
      var lay := LayoutOf(f, cs);
      InsideAt(lay, pad, n);
      FilledIs(pad, lay[n], m);
      GatherMore(lay, pad, n, m);
      SentMake(sink, pad, n + 1);
    }

    lemma SentMake(sink: Sink, pad: Coefs, n: nat)
      requires FrameOk(f) && CompsIn(f, cs) && Inside(LayoutOf(f, cs), pad.Keys) && n <= |LayoutOf(f, cs)|
      requires sink.sent == Gather(pad, LayoutOf(f, cs))[..n]
      ensures SentSoFar(sink, pad, n)
    {
    }

    /** compress_data or compress_output: as much of the current iMCU row as the entropy encoder
        takes. A suspension keeps the place, completion moves on to the next row. */
    method CompressRow(sink: Sink, ghost pad: Coefs) returns (ok: bool)
      requires Valid() && Loaded(pad) && iMCU_row_num < ImcuRows(f) && SentSoFar(sink, pad, Here())
      modifies sink, `iMCU_row_num, `mcu_ctr, `MCU_vert_offset, `MCU_rows_per_iMCU_row
      ensures Valid() && SentSoFar(sink, pad, Here())
      ensures ok ==> iMCU_row_num == old(iMCU_row_num) + 1 && |sink.answers| <= |old(sink.answers)|
      ensures !ok ==> iMCU_row_num == old(iMCU_row_num) && |sink.answers| < |old(sink.answers)|
    {
      hide *;
      UseValid();
      var i := iMCU_row_num;
      var yoffset := MCU_vert_offset;
      while yoffset < MCU_rows_per_iMCU_row
        invariant 0 <= yoffset <= MCU_rows_per_iMCU_row == RowsIn(f, cs, i) && iMCU_row_num == i && Loaded(pad)
        invariant mcu_ctr < McusPerRow(f, cs) && (yoffset == MCU_rows_per_iMCU_row ==> mcu_ctr == 0)
        decreases RowsIn(f, cs, i) - yoffset
        invariant SentSoFar(sink, pad, Position(f, cs, i, yoffset, mcu_ctr)) && |sink.answers| <= |old(sink.answers)|
      {
        var MCU_col_num := mcu_ctr;
        while MCU_col_num < McusPerRow(f, cs)
          invariant 0 <= MCU_col_num <= McusPerRow(f, cs) && iMCU_row_num == i && Loaded(pad)
          invariant SentSoFar(sink, pad, Position(f, cs, i, yoffset, MCU_col_num)) && |sink.answers| <= |old(sink.answers)|
          invariant mcu_ctr < McusPerRow(f, cs) && MCU_rows_per_iMCU_row == RowsIn(f, cs, i)
        {
          ok := SendMcu(sink, pad, yoffset, MCU_col_num);
          if !ok {
            MCU_vert_offset := yoffset;
            mcu_ctr := MCU_col_num;
            MakeValid();
            return;
          }
          MCU_col_num := MCU_col_num + 1;
        }
        RowEnds(f, cs, i, yoffset);
        mcu_ctr := 0;
        yoffset := yoffset + 1;
      }
      RowEnds(f, cs, i, 0);
      iMCU_row_num := iMCU_row_num + 1;
      StartRow();
      HereIs();
      ok := true;
    }

    lemma UseValid()
      requires Valid()
      ensures FrameOk(f) && CompsIn(f, cs) && iMCU_row_num <= ImcuRows(f) && McusPerRow(f, cs) > 0
      ensures iMCU_row_num < ImcuRows(f) ==>
        MCU_rows_per_iMCU_row == RowsIn(f, cs, iMCU_row_num) && MCU_vert_offset < MCU_rows_per_iMCU_row && mcu_ctr < McusPerRow(f, cs)
      ensures Here() == Position(f, cs, iMCU_row_num, MCU_vert_offset, mcu_ctr)
    {
      RowsPositive(f, cs);
    }

    lemma HereIs()
      requires FrameOk(f) && CompsIn(f, cs)
      ensures Here() == Position(f, cs, iMCU_row_num, MCU_vert_offset, mcu_ctr)
    {
    }

    lemma MakeValid()
      requires FrameOk(f) && CompsIn(f, cs) && iMCU_row_num < ImcuRows(f)
      requires MCU_rows_per_iMCU_row == RowsIn(f, cs, iMCU_row_num) && MCU_vert_offset < MCU_rows_per_iMCU_row && mcu_ctr < McusPerRow(f, cs)
      ensures Valid() && Here() == Position(f, cs, iMCU_row_num, MCU_vert_offset, mcu_ctr)
    {
    }

    // ---- Filling the arrays ----

    /** What is known of the arrays while they are filled. */
    ghost predicate Fillable()
      reads `whole
    {
      FrameOk(f) && RealOnes(f, dct) && Arrays(f, whole)
    }

    lemma UseFillable(id: BlockId)
      requires Fillable()
      ensures FrameOk(f) && RealOnes(f, dct) && Arrays(f, whole) && (id in whole <==> PaddedId(f, id))
    {
    }

    lemma StillFillable(was: Coefs)
      requires FrameOk(f) && RealOnes(f, dct) && Arrays(f, was) && whole.Keys == was.Keys
      ensures Fillable()
    {
      assert forall id :: id in whole <==> id in was;
    }

    /** A block row with real blocks, and the dummy blocks at its right. */
    method FillRealRow(c: nat, row: nat)
      requires Fillable() && c < |f.comps| && row < HeightInBlocks(f, c)
      modifies `whole
      ensures Fillable() && FilledRows(f, dct, old(whole), whole, c, row, row + 1)
    {
      hide *;
      ghost var was := whole;
      UseFillable(BlockId(c, row, 0));
      var blocks_across := WidthInBlocks(f, c);
      var h_samp_factor := f.comps[c].h;
      FrameComp(f, c);
      var ndummy := blocks_across % h_samp_factor;
      if ndummy > 0 { ndummy := h_samp_factor - ndummy; }
      Across(f, c, ndummy);
      RowStart(f, dct, was, c, row);
      var x := 0;
      while x < blocks_across
        invariant 0 <= x <= blocks_across && FilledPart(f, dct, was, whole, c, row, x)
      {
        RealInside(f, dct, was, c, row, x);
        PartKeys(f, dct, was, whole, c, row, x);
        var b := dct[BlockId(c, row, x)];
        PartNext(f, dct, was, whole, c, row, x, b);
        whole := whole[BlockId(c, row, x) := b];
        x := x + 1;
      }
      LastReal(f, dct, was, whole, c, row);
      var lastDC := whole[BlockId(c, row, blocks_across - 1)][0];
      var bi := 0;
      while bi < ndummy
        invariant 0 <= bi <= ndummy && FilledPart(f, dct, was, whole, c, row, blocks_across + bi)
      {
        DummyInside(f, dct, was, c, row, blocks_across + bi);
        PartKeys(f, dct, was, whole, c, row, blocks_across + bi);
        PartNext(f, dct, was, whole, c, row, blocks_across + bi, Dummy(lastDC));
        whole := whole[BlockId(c, row, blocks_across + bi) := Dummy(lastDC)];
        bi := bi + 1;
      }
      PartRow(f, dct, was, whole, c, row);
      RowsKeys(f, dct, was, whole, c, row, row + 1);
      StillFillable(was);
    }

    /** A row of dummy blocks below the bottom of the component. */
    method FillDummyRow(c: nat, row: nat)
      requires Fillable() && c < |f.comps| && HeightInBlocks(f, c) <= row < ImcuRows(f) * f.comps[c].v
      requires row > 0 && RowPresent(f, dct, whole, c, row - 1)
      modifies `whole
      ensures Fillable() && FilledRows(f, dct, old(whole), whole, c, row, row + 1)
    {
      hide *;
      ghost var was := whole;
      UseFillable(BlockId(c, row, 0));
      FrameComp(f, c);
      var h_samp_factor := f.comps[c].h;
      var MCUs_across := ImcuCols(f);
      RowStart(f, dct, was, c, row);
      var MCUindex := 0;
      ZeroTimes(h_samp_factor);
      while MCUindex < MCUs_across
        invariant 0 <= MCUindex <= MCUs_across && FilledPart(f, dct, was, whole, c, row, MCUindex * h_samp_factor)
      {
        var start := MCUindex * h_samp_factor;
        AboveInside(f, dct, was, whole, c, row, MCUindex);
        var lastDC := whole[BlockId(c, row - 1, start + h_samp_factor - 1)][0];
        var bi := 0;
        while bi < h_samp_factor
          invariant 0 <= bi <= h_samp_factor && FilledPart(f, dct, was, whole, c, row, start + bi)
        {
          BelowInside(f, dct, was, c, row, MCUindex, bi, start);
          PartKeys(f, dct, was, whole, c, row, start + bi);
          PartNext(f, dct, was, whole, c, row, start + bi, Dummy(lastDC));
          whole := whole[BlockId(c, row, start + bi) := Dummy(lastDC)];
          bi := bi + 1;
        }
        Next(MCUindex, h_samp_factor);
        MCUindex := MCUindex + 1;
      }
      PartRow(f, dct, was, whole, c, row);
      RowsKeys(f, dct, was, whole, c, row, row + 1);
      StillFillable(was);
    }

    /** One component's block rows of the current iMCU row. */
    method FillComponent(c: nat)
      requires Fillable() && c < |f.comps| && iMCU_row_num < ImcuRows(f)
      modifies `whole
      ensures Fillable() && FilledRows(f, dct, old(whole), whole, c, Top(f, c, iMCU_row_num, 0), Top(f, c, iMCU_row_num + 1, 0))
    {
      hide *;
      ghost var was := whole;
      UseFillable(BlockId(c, 0, 0));
      FrameComp(f, c);
      var v_samp_factor := f.comps[c].v;
      var i := iMCU_row_num;
      var block_rows: nat;
      if i + 1 < ImcuRows(f) {
        block_rows := v_samp_factor;
      } else {
        block_rows := HeightInBlocks(f, c) % v_samp_factor;
        if block_rows == 0 { block_rows := v_samp_factor; }
      }
      LastRowIs(f, c);
      BlockRowsIn(f, c, i, block_rows);
      NoRows(f, dct, was, c, Top(f, c, i, 0));
      var block_row := 0;
      while block_row < block_rows
        invariant 0 <= block_row <= block_rows && Fillable()
        invariant FilledRows(f, dct, was, whole, c, Top(f, c, i, 0), Top(f, c, i, 0) + block_row)
      {
        ghost var before := whole;
        FillRealRow(c, Top(f, c, i, 0) + block_row);
        RowsJoin(f, dct, was, before, whole, c, Top(f, c, i, 0), Top(f, c, i, 0) + block_row);
        block_row := block_row + 1;
      }
      if i + 1 == ImcuRows(f) {
        while block_row < v_samp_factor
          invariant block_rows <= block_row <= v_samp_factor && Fillable()
          invariant FilledRows(f, dct, was, whole, c, Top(f, c, i, 0), Top(f, c, i, 0) + block_row)
        {
          ghost var before := whole;
          RowThere(f, dct, was, whole, c, Top(f, c, i, 0), Top(f, c, i, 0) + block_row);
          FillDummyRow(c, Top(f, c, i, 0) + block_row);
          RowsJoin(f, dct, was, before, whole, c, Top(f, c, i, 0), Top(f, c, i, 0) + block_row);
          block_row := block_row + 1;
        }
      }
    }

    /** The loop of compress_first_pass over all components of the image. */
    method FillRows()
      requires Fillable() && iMCU_row_num < ImcuRows(f)
      modifies `whole
      ensures Fillable() && FilledComps(f, dct, old(whole), whole, iMCU_row_num, |f.comps|)
    {
      hide *;
      ghost var was := whole;
      UseFillable(BlockId(0, 0, 0));
      NoComps(f, dct, was, iMCU_row_num);
      var ci := 0;
      while ci < |f.comps|
        invariant 0 <= ci <= |f.comps| && Fillable() && FilledComps(f, dct, was, whole, iMCU_row_num, ci)
      {
        ghost var before := whole;
        FillComponent(ci);
        CompsJoin(f, dct, was, before, whole, iMCU_row_num, ci);
        ci := ci + 1;
      }
    }

    /** The arrays are right as far as iMCU row i. */
    ghost predicate LoadedUpto(pad: Coefs, i: nat)
      reads `whole
    {
      && FrameOk(f) && RealOnes(f, dct) && IsPadded(f, dct, pad) && whole.Keys == pad.Keys
      && forall id :: id in pad && id.row < i * f.comps[id.comp].v ==> whole[id] == pad[id]
    }

    lemma FillLoads(was: Coefs, pad: Coefs)
      requires FrameOk(f) && RealOnes(f, dct) && IsPadded(f, dct, pad) && was.Keys == pad.Keys
      requires forall id :: id in pad && id.row < iMCU_row_num * f.comps[id.comp].v ==> was[id] == pad[id]
      requires FilledComps(f, dct, was, whole, iMCU_row_num, |f.comps|)
      ensures LoadedUpto(pad, iMCU_row_num + 1) && (mode == Buffered ==> Loaded(pad))
    {
      hide Padded;
      forall id | id in pad && id.row < (iMCU_row_num + 1) * f.comps[id.comp].v ensures whole[id] == pad[id] {
        assert PaddedId(f, id);
      }
    }

    lemma LoadedIs(pad: Coefs, i: nat)
      requires LoadedUpto(pad, i)
      ensures FrameOk(f) && RealOnes(f, dct) && IsPadded(f, dct, pad) && whole.Keys == pad.Keys && Fillable()
      ensures forall id :: id in pad && id.row < i * f.comps[id.comp].v ==> id.comp < |f.comps| && whole[id] == pad[id]
    {
      hide Padded;
      assert forall id :: id in pad ==> PaddedId(f, id);
    }

    /** compress_first_pass: fill the current rows of the arrays, then compress them; after a
        suspension all of it is done again. */
    method FirstPassRow(sink: Sink, ghost pad: Coefs) returns (ok: bool)
      requires Valid() && mode == Buffered && LoadedUpto(pad, iMCU_row_num) && iMCU_row_num < ImcuRows(f) && SentSoFar(sink, pad, Here())
      modifies sink, `whole, `iMCU_row_num, `mcu_ctr, `MCU_vert_offset, `MCU_rows_per_iMCU_row
      ensures Valid() && SentSoFar(sink, pad, Here()) && LoadedUpto(pad, iMCU_row_num)
      ensures ok ==> iMCU_row_num == old(iMCU_row_num) + 1 && |sink.answers| <= |old(sink.answers)|
      ensures !ok ==> iMCU_row_num == old(iMCU_row_num) && |sink.answers| < |old(sink.answers)|
    {
      hide *;
      ghost var was, i := whole, iMCU_row_num;
      LoadedIs(pad, i);
      FillRows();
      FillLoads(was, pad);
      ok := CompressRow(sink, pad);
      LoadedLess(pad, i);
    }

    lemma LoadedLess(pad: Coefs, i: nat)
      requires LoadedUpto(pad, i + 1)
      ensures LoadedUpto(pad, i)
    {
      hide Padded;
      forall id | id in pad && id.row < i * f.comps[id.comp].v ensures whole[id] == pad[id] {
        assert PaddedId(f, id);
        Next(i, f.comps[id.comp].v);
      }
    }

    /** A whole first pass, whatever the suspensions: the entropy encoder gets the MCUs of the
        scan, and the arrays end up with every block of every component. */
    method FirstPassScan(sink: Sink, ghost pad: Coefs)
      requires Valid() && mode == Buffered && iMCU_row_num == 0 && Here() == 0 && sink.sent == []
      requires FrameOk(f) && RealOnes(f, dct) && IsPadded(f, dct, pad) && whole.Keys == pad.Keys
      modifies sink, this
      ensures Inside(LayoutOf(f, cs), pad.Keys) && sink.sent == Gather(pad, LayoutOf(f, cs)) && whole == pad
    {
      hide *;
      UseValid();
      ScanStart(sink, pad);
      while iMCU_row_num < ImcuRows(f)
        invariant Valid() && iMCU_row_num <= ImcuRows(f) && SentSoFar(sink, pad, Here()) && LoadedUpto(pad, iMCU_row_num)
        decreases ImcuRows(f) - iMCU_row_num, |sink.answers|
      {
        var ok := FirstPassRow(sink, pad);
        UseValid();
      }
      ScanEnd(sink, pad);
      AllLoaded(pad);
    }

    /** A whole pass of compress_data, of compress_output over filled arrays, or of the
        transcoder's compress_output. */
    method CompressScan(sink: Sink, ghost pad: Coefs)
      requires Valid() && iMCU_row_num == 0 && Here() == 0 && sink.sent == []
      requires FrameOk(f) && RealOnes(f, dct) && IsPadded(f, dct, pad) && (mode == Buffered ==> whole == pad)
      modifies sink, `iMCU_row_num, `mcu_ctr, `MCU_vert_offset, `MCU_rows_per_iMCU_row
      ensures Inside(LayoutOf(f, cs), pad.Keys) && sink.sent == Gather(pad, LayoutOf(f, cs))
    {
      hide *;
      UseValid();
      ScanStarts(sink, pad);
      while iMCU_row_num < ImcuRows(f)
        invariant Valid() && iMCU_row_num <= ImcuRows(f) && SentSoFar(sink, pad, Here()) && (mode == Buffered ==> whole == pad)
        decreases ImcuRows(f) - iMCU_row_num, |sink.answers|
      {
        MakeLoaded(pad);
        var ok := CompressRow(sink, pad);
        UseValid();
      }
      ScanEnd(sink, pad);
    }

    lemma MakeLoaded(pad: Coefs)
      requires FrameOk(f) && RealOnes(f, dct) && IsPadded(f, dct, pad) && (mode == Buffered ==> whole == pad)
      ensures Loaded(pad)
    {
    }

    lemma ScanStarts(sink: Sink, pad: Coefs)
      requires FrameOk(f) && CompsIn(f, cs) && RealOnes(f, dct) && IsPadded(f, dct, pad) && sink.sent == [] && Here() == 0
      ensures SentSoFar(sink, pad, Here())
    {
      hide *;
      LayoutIn(f, cs, dct, pad);
      SentMake(sink, pad, 0) by { GatherNone(pad, LayoutOf(f, cs)); }
    }

    lemma ScanStart(sink: Sink, pad: Coefs)
      requires FrameOk(f) && CompsIn(f, cs) && RealOnes(f, dct) && IsPadded(f, dct, pad) && sink.sent == [] && Here() == 0
      requires whole.Keys == pad.Keys
      ensures SentSoFar(sink, pad, Here()) && LoadedUpto(pad, 0)
    {
      ScanStarts(sink, pad);
      hide Padded;
      forall id | id in pad ensures 0 * (if id.comp < |f.comps| then f.comps[id.comp].v else 0) == 0 {}
    }

    lemma ScanEnd(sink: Sink, pad: Coefs)
      requires Valid() && iMCU_row_num == ImcuRows(f) && SentSoFar(sink, pad, Here())
      ensures Inside(LayoutOf(f, cs), pad.Keys) && sink.sent == Gather(pad, LayoutOf(f, cs))
    {
      BlockRows(f, cs[0]);
      RowEnds(f, cs, 0, 0);
      hide LayoutOf;
      assert Gather(pad, LayoutOf(f, cs))[..|LayoutOf(f, cs)|] == Gather(pad, LayoutOf(f, cs));
    }

    lemma AllLoaded(pad: Coefs)
      requires LoadedUpto(pad, ImcuRows(f))
      ensures whole == pad
    {
      hide Padded;
      forall id | id in pad ensures whole[id] == pad[id] { assert PaddedId(f, id); }
    }
  }

  // ---- Filling the arrays ----

  /** now is was, with the blocks of iMCU row i filled in for the first n components. */
  ghost predicate FilledComps(f: Frame, dct: Coefs, was: Coefs, now: Coefs, i: nat, n: nat)
  {
    && FrameOk(f) && RealOnes(f, dct) && now.Keys == was.Keys
    && forall id :: id in now ==> now[id] == if id.comp < n && InRow(f, id, i) then Padded(f, dct, id) else was[id]
  }

  lemma NoComps(f: Frame, dct: Coefs, was: Coefs, i: nat)
    requires FrameOk(f) && RealOnes(f, dct)
    ensures FilledComps(f, dct, was, was, i, 0)
  {
  }

  lemma CompsJoin(f: Frame, dct: Coefs, was: Coefs, mid: Coefs, now: Coefs, i: nat, c: nat)
    requires FilledComps(f, dct, was, mid, i, c) && c < |f.comps|
    requires FilledRows(f, dct, mid, now, c, Top(f, c, i, 0), Top(f, c, i + 1, 0))
    ensures FilledComps(f, dct, was, now, i, c + 1)
  {
    hide Padded;
  }

  lemma NoRows(f: Frame, dct: Coefs, was: Coefs, c: nat, lo: nat)
    requires FrameOk(f) && RealOnes(f, dct) && c < |f.comps|
    ensures FilledRows(f, dct, was, was, c, lo, lo + 0)
  {
  }

  lemma RowsJoin(f: Frame, dct: Coefs, was: Coefs, mid: Coefs, now: Coefs, c: nat, lo: nat, row: nat)
    requires lo <= row && FilledRows(f, dct, was, mid, c, lo, row) && FilledRows(f, dct, mid, now, c, row, row + 1)
    ensures FilledRows(f, dct, was, now, c, lo, row + 1)
  {
    hide Padded;
  }

  lemma RowThere(f: Frame, dct: Coefs, was: Coefs, now: Coefs, c: nat, lo: nat, row: nat)
    requires lo < row && FilledRows(f, dct, was, now, c, lo, row)
    ensures row > 0 && RowPresent(f, dct, now, c, row - 1)
  {
    hide Padded;
  }

  lemma LastRowIs(f: Frame, c: nat)
    requires FrameOk(f) && c < |f.comps| && f.comps[c].v > 0
    ensures var n := HeightInBlocks(f, c) % f.comps[c].v; LastRowHeight(f, c) == if n == 0 then f.comps[c].v else n
  {
  }

  /** Which rows of the iMCU row are real. */
  lemma BlockRowsIn(f: Frame, c: nat, i: nat, block_rows: nat)
    requires FrameOk(f) && c < |f.comps| && i < ImcuRows(f)
    requires block_rows == if i + 1 < ImcuRows(f) then f.comps[c].v else LastRowHeight(f, c)
    ensures 0 < block_rows <= f.comps[c].v && Top(f, c, i, 0) + f.comps[c].v == Top(f, c, i + 1, 0) <= ImcuRows(f) * f.comps[c].v
    ensures Top(f, c, i, 0) + block_rows <= HeightInBlocks(f, c)
    ensures i + 1 == ImcuRows(f) ==> HeightInBlocks(f, c) == Top(f, c, i, 0) + block_rows
  {
    BlockRows(f, c);
    var v, h, n := f.comps[c].v, HeightInBlocks(f, c), ImcuRows(f);
    hide HeightInBlocks;
    hide ImcuRows;
    LastPartIs(h, v, n);
    Next(i, v);
    MulOrder(i + 1, n, v);
    if i + 1 < n { MulOrder(i + 1, n - 1, v); }
  }

  /** The layout lies in the arrays. */
  lemma LayoutIn(f: Frame, cs: seq<nat>, dct: Coefs, pad: Coefs)
    requires FrameOk(f) && CompsIn(f, cs) && RealOnes(f, dct) && IsPadded(f, dct, pad)
    ensures Inside(LayoutOf(f, cs), pad.Keys)
  {
    hide *;
    var lay := LayoutOf(f, cs);
    forall n: nat | n < |lay| ensures Within(lay[n], pad.Keys) {
      forall j | 0 <= j < |lay[n]| ensures lay[n][j] in pad {
        LayoutInside(f, cs, n, j);
        PaddedIn(f, dct, pad, lay[n][j]);
      }
      MakeIn(lay[n], pad);
      InWithin(lay[n], pad);
    }
    MakeInside(lay, pad);
  }

  lemma MakeInside(lay: Layout, pad: Coefs)
    requires forall n: nat :: n < |lay| ==> Within(lay[n], pad.Keys)
    ensures Inside(lay, pad.Keys)
  {
    hide Within;
  }

  lemma GatherNone(pad: Coefs, lay: Layout)
    requires Inside(lay, pad.Keys)
    ensures 0 <= |lay| && Gather(pad, lay)[..0] == []
  {
  }

  /** now is was, with the blocks of rows lo to hi of component c filled in. */
  ghost predicate FilledRows(f: Frame, dct: Coefs, was: Coefs, now: Coefs, c: nat, lo: nat, hi: nat)
  {
    && FrameOk(f) && RealOnes(f, dct) && c < |f.comps| && now.Keys == was.Keys
    && forall id :: id in now ==> now[id] == if id.comp == c && lo <= id.row < hi then Padded(f, dct, id) else was[id]
  }

  /** The same for the first x blocks of one row. */
  ghost predicate FilledPart(f: Frame, dct: Coefs, was: Coefs, now: Coefs, c: nat, row: nat, x: nat)
  {
    && FrameOk(f) && RealOnes(f, dct) && c < |f.comps| && now.Keys == was.Keys
    && forall id :: id in now ==> now[id] == if id.comp == c && id.row == row && id.col < x then Padded(f, dct, id) else was[id]
  }

  /** A row of the arrays that is filled already. */
  ghost predicate RowPresent(f: Frame, dct: Coefs, whole: Coefs, c: nat, row: nat)
  {
    && FrameOk(f) && RealOnes(f, dct) && c < |f.comps|
    && forall id :: id in whole && id.comp == c && id.row == row ==> whole[id] == Padded(f, dct, id)
  }

  lemma FrameComp(f: Frame, c: nat)
    requires FrameOk(f) && c < |f.comps|
    ensures f.comps[c].h > 0 && f.comps[c].v > 0 && WidthInBlocks(f, c) > 0 && HeightInBlocks(f, c) > 0 && ImcuRows(f) > 0
  {
    BlockRows(f, c);
    BlockCols(f, c);
    MulOrder(0, ImcuRows(f) - 1, f.comps[c].v);
    MulOrder(0, ImcuCols(f) - 1, f.comps[c].h);
  }

  /** The dummy blocks complete the last MCU. */
  lemma Across(f: Frame, c: nat, ndummy: nat)
    requires FrameOk(f) && c < |f.comps| && f.comps[c].h > 0
    requires var n := WidthInBlocks(f, c) % f.comps[c].h; ndummy == if n > 0 then f.comps[c].h - n else 0
    ensures WidthInBlocks(f, c) + ndummy == ImcuCols(f) * f.comps[c].h
  {
    BlockCols(f, c);
    hide WidthInBlocks;
    hide ImcuCols;
    LastPartIs(WidthInBlocks(f, c), f.comps[c].h, ImcuCols(f));
    Next(ImcuCols(f) - 1, f.comps[c].h);
  }

  lemma RowStart(f: Frame, dct: Coefs, was: Coefs, c: nat, row: nat)
    requires FrameOk(f) && RealOnes(f, dct) && c < |f.comps|
    ensures FilledPart(f, dct, was, was, c, row, 0)
  {
  }

  lemma ZeroTimes(n: nat)
    ensures 0 * n == 0
  {
  }

  lemma RealInside(f: Frame, dct: Coefs, was: Coefs, c: nat, row: nat, x: nat)
    requires FrameOk(f) && RealOnes(f, dct) && Arrays(f, was) && c < |f.comps| && row < HeightInBlocks(f, c) && x < WidthInBlocks(f, c)
    ensures var id := BlockId(c, row, x); id in dct && id in was && Padded(f, dct, id) == dct[id]
  {
    RealPadded(f, BlockId(c, row, x));
  }

  lemma DummyInside(f: Frame, dct: Coefs, was: Coefs, c: nat, row: nat, x: nat)
    requires FrameOk(f) && RealOnes(f, dct) && Arrays(f, was) && c < |f.comps|
    requires row < HeightInBlocks(f, c) && WidthInBlocks(f, c) <= x < ImcuCols(f) * f.comps[c].h
    ensures WidthInBlocks(f, c) > 0 && BlockId(c, row, WidthInBlocks(f, c) - 1) in dct && BlockId(c, row, x) in was
    ensures Padded(f, dct, BlockId(c, row, x)) == Dummy(dct[BlockId(c, row, WidthInBlocks(f, c) - 1)][0])
  {
    BlockRows(f, c);
    LastRealCol(f, BlockId(c, row, x));
  }

  lemma LastReal(f: Frame, dct: Coefs, was: Coefs, now: Coefs, c: nat, row: nat)
    requires FrameOk(f) && Arrays(f, was) && c < |f.comps| && row < HeightInBlocks(f, c)
    requires FilledPart(f, dct, was, now, c, row, WidthInBlocks(f, c))
    ensures WidthInBlocks(f, c) > 0 && BlockId(c, row, WidthInBlocks(f, c) - 1) in now && BlockId(c, row, WidthInBlocks(f, c) - 1) in dct
    ensures now[BlockId(c, row, WidthInBlocks(f, c) - 1)] == dct[BlockId(c, row, WidthInBlocks(f, c) - 1)]
  {
    FrameComp(f, c);
    RealInside(f, dct, was, c, row, WidthInBlocks(f, c) - 1);
  }

  lemma PartKeys(f: Frame, dct: Coefs, was: Coefs, now: Coefs, c: nat, row: nat, x: nat)
    requires FilledPart(f, dct, was, now, c, row, x)
    ensures now.Keys == was.Keys
  {
  }

  lemma RowsKeys(f: Frame, dct: Coefs, was: Coefs, now: Coefs, c: nat, lo: nat, hi: nat)
    requires FilledRows(f, dct, was, now, c, lo, hi)
    ensures now.Keys == was.Keys
  {
  }

  lemma PartNext(f: Frame, dct: Coefs, was: Coefs, now: Coefs, c: nat, row: nat, x: nat, b: Block)
    requires FilledPart(f, dct, was, now, c, row, x) && FrameOk(f) && RealOnes(f, dct) && c < |f.comps|
    requires BlockId(c, row, x) in now && b == Padded(f, dct, BlockId(c, row, x))
    ensures FilledPart(f, dct, was, now[BlockId(c, row, x) := b], c, row, x + 1)
  {
    hide Padded;
    var next := now[BlockId(c, row, x) := b];
    forall id | id in next
      ensures next[id] == if id.comp == c && id.row == row && id.col < x + 1 then Padded(f, dct, id) else was[id]
    {
      if id.comp == c && id.row == row && id.col == x { assert id == BlockId(c, row, x); }
    }
  }

  lemma PartRow(f: Frame, dct: Coefs, was: Coefs, now: Coefs, c: nat, row: nat)
    requires FrameOk(f) && Arrays(f, was) && c < |f.comps| && FilledPart(f, dct, was, now, c, row, ImcuCols(f) * f.comps[c].h)
    ensures FilledRows(f, dct, was, now, c, row, row + 1)
  {
    hide Padded;
    forall id | id in now && id.comp == c && id.row == row ensures id.col < ImcuCols(f) * f.comps[c].h { assert PaddedId(f, id); }
  }

  lemma AboveInside(f: Frame, dct: Coefs, was: Coefs, now: Coefs, c: nat, row: nat, MCUindex: nat)
    requires FrameOk(f) && RealOnes(f, dct) && Arrays(f, was) && c < |f.comps| && row > 0 && RowPresent(f, dct, was, c, row - 1)
    requires row < ImcuRows(f) * f.comps[c].v && MCUindex < ImcuCols(f) && f.comps[c].h > 0
    requires FilledPart(f, dct, was, now, c, row, MCUindex * f.comps[c].h)
    ensures var id := BlockId(c, row - 1, MCUindex * f.comps[c].h + f.comps[c].h - 1);
            id in now && now[id] == Padded(f, dct, id)
  {
    hide Padded;
    PairBelow(MCUindex, f.comps[c].h - 1, ImcuCols(f), f.comps[c].h);
    var id := BlockId(c, row - 1, MCUindex * f.comps[c].h + f.comps[c].h - 1);
    assert PaddedId(f, id);
  }

  /** A block below the bottom, in column bi of an MCU whose columns start at start. */
  lemma BelowInside(f: Frame, dct: Coefs, was: Coefs, c: nat, row: nat, MCUindex: nat, bi: nat, start: nat)
    requires FrameOk(f) && RealOnes(f, dct) && Arrays(f, was) && c < |f.comps| && row > 0 && start == MCUindex * f.comps[c].h
    requires HeightInBlocks(f, c) <= row < ImcuRows(f) * f.comps[c].v && MCUindex < ImcuCols(f) && bi < f.comps[c].h
    ensures BlockId(c, row, start + bi) in was
    ensures Padded(f, dct, BlockId(c, row, start + bi)) == Dummy(Padded(f, dct, BlockId(c, row - 1, start + f.comps[c].h - 1))[0])
  {
    hide Padded;
    hide HeightInBlocks;
    hide WidthInBlocks;
    hide LastInMcu;
    PairBelow(MCUindex, bi, ImcuCols(f), f.comps[c].h);
    assert PaddedId(f, BlockId(c, row, start + bi));
    LastOfMcu(f, BlockId(c, row, start + bi), MCUindex, bi);
    PaddedBelow(f, dct, BlockId(c, row, start + bi));
  }

  lemma LastOfMcu(f: Frame, id: BlockId, MCUindex: nat, bi: nat)
    requires FrameOk(f) && id.comp < |f.comps| && bi < f.comps[id.comp].h && id.col == MCUindex * f.comps[id.comp].h + bi
    ensures LastInMcu(f, id) == MCUindex * f.comps[id.comp].h + f.comps[id.comp].h - 1
  {
    DivModIs(MCUindex, bi, f.comps[id.comp].h);
  }

  lemma NoneFilled(pad: Coefs)
    ensures Filled(pad, [], [])
  {
  }

  lemma ComponentNext(f: Frame, cs: seq<nat>, i: nat, yoffset: nat, col: nat, ci: nat, ids: seq<BlockId>)
    requires FrameOk(f) && CompsIn(f, cs) && i < ImcuRows(f) && yoffset < RowsIn(f, cs, i) && ci < |cs| && McuWidth(f, cs, cs[ci]) > 0
    ensures var r := FirstRow(f, cs, i) + yoffset;
            ids + McuIds(f, cs, r, col, ci) == ids + ComponentIds(f, cs, i, yoffset, col, ci) + McuIds(f, cs, r, col, ci + 1)
  {
    hide Group;
    IdsNext(f, cs, i, yoffset, col, ci, ids);
  }

  /** The blocks of the MCU are in the arrays. */
  lemma McuInside(f: Frame, cs: seq<nat>, dct: Coefs, pad: Coefs, i: nat, yoffset: nat, col: nat)
    requires FrameOk(f) && CompsIn(f, cs) && RealOnes(f, dct) && IsPadded(f, dct, pad)
    requires i < ImcuRows(f) && yoffset < RowsIn(f, cs, i) && col < McusPerRow(f, cs)
    ensures In(McuIds(f, cs, FirstRow(f, cs, i) + yoffset, col, 0), pad)
  {
    hide *;
    PositionIs(f, cs, i, yoffset, col);
    var n := Position(f, cs, i, yoffset, col);
    var ids := McuIds(f, cs, FirstRow(f, cs, i) + yoffset, col, 0);
    forall j | 0 <= j < |ids| ensures ids[j] in pad {
      LayoutInside(f, cs, n, j);
      PaddedIn(f, dct, pad, ids[j]);
    }
    MakeIn(ids, pad);
  }

  lemma PaddedIn(f: Frame, dct: Coefs, pad: Coefs, id: BlockId)
    requires FrameOk(f) && RealOnes(f, dct) && IsPadded(f, dct, pad) && PaddedId(f, id)
    ensures id in pad
  {
  }

  lemma MakeIn(ids: seq<BlockId>, pad: Coefs)
    requires forall j :: 0 <= j < |ids| ==> ids[j] in pad
    ensures In(ids, pad)
  {
  }

  /** They lie in the current iMCU row. */
  lemma McuInRow(f: Frame, cs: seq<nat>, i: nat, yoffset: nat, col: nat, j: nat)
    requires FrameOk(f) && CompsIn(f, cs) && i < ImcuRows(f) && yoffset < RowsIn(f, cs, i)
    requires j < |McuIds(f, cs, FirstRow(f, cs, i) + yoffset, col, 0)|
    ensures InRow(f, McuIds(f, cs, FirstRow(f, cs, i) + yoffset, col, 0)[j], i)
  {
    hide *;
    var r := FirstRow(f, cs, i) + yoffset;
    SameLengths(f, cs, r, col, 0);
    var ci, k := Locate(f, cs, 0, j);
    IdAt(f, cs, r, col, 0, ci, k);
    IdInRow(f, cs, i, yoffset, col, ci, k);
  }

  lemma IdInRow(f: Frame, cs: seq<nat>, i: nat, yoffset: nat, col: nat, ci: nat, k: nat)
    requires FrameOk(f) && CompsIn(f, cs) && i < ImcuRows(f) && yoffset < RowsIn(f, cs, i) && ci < |cs| && k < McuSize(f, cs, cs[ci])
    ensures InRow(f, IdOf(f, cs, FirstRow(f, cs, i) + yoffset, col, ci, k), i)
  {
    hide *;
    CompInFrame(f, cs, ci);
    var y := RowOf(f, cs, i, yoffset, col, ci, k);
    InRowAt(f, IdOf(f, cs, FirstRow(f, cs, i) + yoffset, col, ci, k), i, y);
  }

  lemma InRowAt(f: Frame, id: BlockId, i: nat, y: nat)
    requires id.comp < |f.comps| && y < f.comps[id.comp].v && id.row == i * f.comps[id.comp].v + y
    ensures InRow(f, id, i)
  {
    Next(i, f.comps[id.comp].v);
  }

  lemma RowOf(f: Frame, cs: seq<nat>, i: nat, yoffset: nat, col: nat, ci: nat, k: nat) returns (y: nat)
    requires FrameOk(f) && CompsIn(f, cs) && i < ImcuRows(f) && yoffset < RowsIn(f, cs, i) && ci < |cs| && k < McuSize(f, cs, cs[ci])
    ensures var id := IdOf(f, cs, FirstRow(f, cs, i) + yoffset, col, ci, k);
            id.comp < |f.comps| && y < f.comps[id.comp].v && id.row == i * f.comps[id.comp].v + y
  {
    hide WidthInBlocks;
    hide HeightInBlocks;
    hide ImcuRows;
    hide ImcuCols;
    hide LastRowHeight;
    var c := cs[ci];
    LastParts(f, cs, c);
    if |cs| == 1 {
      y := yoffset;
    } else {
      var q, x := Split(k, f.comps[c].h, f.comps[c].v);
      y := q;
    }
  }

  lemma InsideAt(lay: Layout, pad: Coefs, n: nat)
    requires Inside(lay, pad.Keys) && n < |lay|
    ensures In(lay[n], pad)
  {
    assert Within(lay[n], pad.Keys);
  }

  lemma InAt(ids: seq<BlockId>, img: Coefs)
    requires In(ids, img)
    ensures forall j :: 0 <= j < |ids| ==> ids[j] in img
  {
  }

  lemma FilledIs(pad: Coefs, ids: seq<BlockId>, m: Mcu)
    requires Filled(pad, ids, m) && In(ids, pad)
    ensures |m| == |ids| && forall j :: 0 <= j < |ids| ==> m[j] == pad[ids[j]]
  {
  }

  lemma GatherMore(lay: Layout, pad: Coefs, n: nat, m: Mcu)
    requires Inside(lay, pad.Keys) && n < |lay| && In(lay[n], pad)
    requires |m| == |lay[n]| && forall j :: 0 <= j < |m| ==> m[j] == pad[lay[n][j]]
    ensures |Gather(pad, lay)| == |lay|
    ensures Gather(pad, lay)[..n + 1] == Gather(pad, lay)[..n] + [m]
  {
    hide *;
    var g := Gather(pad, lay);
    InAt(lay[n], pad);
    forall j | 0 <= j < |m| ensures g[n][j] == m[j] { assert g[n][j] == pad[lay[n][j]]; }
    assert g[n] == m;
    assert g[..n + 1] == g[..n] + [g[n]];
  }

  lemma LeftIs(f: Frame, cs: seq<nat>, c: nat, col: nat)
    requires c < |f.comps|
    ensures Left(f, cs, c, col) == col * McuWidth(f, cs, c)
  {
  }

  lemma CompInFrame(f: Frame, cs: seq<nat>, ci: nat)
    requires FrameOk(f) && CompsIn(f, cs) && ci < |cs|
    ensures cs[ci] < |f.comps| && cs[ci] in cs
  {
  }

  lemma UsefulWidth(f: Frame, cs: seq<nat>, c: nat, col: nat)
    requires FrameOk(f) && CompsIn(f, cs) && c < |f.comps|
    ensures c in cs ==> 0 < Useful(f, cs, c, col) <= McuWidth(f, cs, c)
  {
    if c in cs { LastParts(f, cs, c); }
  }

  lemma ComponentIs(f: Frame, cs: seq<nat>, i: nat, yoffset: nat, col: nat, ci: nat)
    requires FrameOk(f) && CompsIn(f, cs) && ci < |cs| && McuWidth(f, cs, cs[ci]) > 0
    ensures ComponentIds(f, cs, i, yoffset, col, ci)
            == Group(cs[ci], Top(f, cs[ci], i, yoffset), Left(f, cs, cs[ci], col), McuWidth(f, cs, cs[ci]), McuHeight(f, cs, cs[ci]))
  {
  }

  /** The first y rows of a component's blocks. */
  ghost function TopRows(c: nat, row: nat, start: nat, w: nat, h: nat, y: nat): seq<BlockId>
    requires w > 0 && y <= h
  {
    MulOrder(y, h, w);
    Commute(w, h);
    Group(c, row, start, w, h)[..y * w]
  }

  lemma TopRowsEnds(c: nat, row: nat, start: nat, w: nat, h: nat)
    requires w > 0
    ensures TopRows(c, row, start, w, h, 0) == [] && TopRows(c, row, start, w, h, h) == Group(c, row, start, w, h)
  {
    hide Group;
    Commute(w, h);
  }

  /** The next row of a component's blocks. */
  lemma NextRow(f: Frame, cs: seq<nat>, pad: Coefs, ids0: seq<BlockId>, c: nat, row: nat, col: nat, y: nat, isReal: bool)
    requires FrameOk(f) && CompsIn(f, cs) && c < |f.comps| && c in cs && col < McusPerRow(f, cs)
    requires var w, h := McuWidth(f, cs, c), McuHeight(f, cs, c);
             w > 0 && y < h && In(Group(c, row, Left(f, cs, c, col), w, h), pad)
    requires (isReal <==> row + y < HeightInBlocks(f, c)) && (!isReal ==> |cs| > 1 && y > 0)
    ensures var w, h := McuWidth(f, cs, c), McuHeight(f, cs, c);
            var above := ids0 + TopRows(c, row, Left(f, cs, c, col), w, h, y);
            && above + RowIds(c, row + y, Left(f, cs, c, col), w) == ids0 + TopRows(c, row, Left(f, cs, c, col), w, h, y + 1)
            && RowFits(f, cs, pad, above, c, row + y, col, isReal)
  {
    hide McuWidth;
    hide McuHeight;
    hide HeightInBlocks;
    hide McusPerRow;
    hide Group;
    hide RowIds;
    var w, h := McuWidth(f, cs, c), McuHeight(f, cs, c);
    var g := Group(c, row, col * w, w, h);
    GroupByRows(c, row, col * w, w, h, y);
    PartIn(pad, g, y * w, (y + 1) * w, RowIds(c, row + y, col * w, w));
    if !isReal { LastOfRow(ids0, c, row, col * w, w, h, y); }
  }

  /** The block lies in iMCU row i of its component. */
  ghost predicate InRow(f: Frame, id: BlockId, i: nat)
  {
    id.comp < |f.comps| && i * f.comps[id.comp].v <= id.row < (i + 1) * f.comps[id.comp].v
  }

  // ---- The virtual arrays ----

  ghost predicate RowsSoFar(f: Frame, whole: Coefs, c: nat, row: nat, col: nat)
  {
    forall id :: id in whole <==>
      PaddedId(f, id) && (id.comp < c || (id.comp == c && (id.row < row || (id.row == row && id.col < col))))
  }

  lemma NextBlock(f: Frame, whole: Coefs, c: nat, row: nat, col: nat, b: Block)
    requires RowsSoFar(f, whole, c, row, col) && PaddedId(f, BlockId(c, row, col))
    ensures RowsSoFar(f, whole[BlockId(c, row, col) := b], c, row, col + 1)
  {
    hide PaddedId;
  }

  lemma NextArrayRow(f: Frame, whole: Coefs, c: nat, row: nat, cols: nat)
    requires c < |f.comps| && cols == ImcuCols(f) * f.comps[c].h && RowsSoFar(f, whole, c, row, cols)
    ensures RowsSoFar(f, whole, c, row + 1, 0)
  {
    ColumnsEnd(f, c);
    hide PaddedId;
    hide ImcuCols;
  }

  lemma ColumnsEnd(f: Frame, c: nat)
    requires c < |f.comps|
    ensures forall id :: PaddedId(f, id) && id.comp == c ==> id.col < ImcuCols(f) * f.comps[c].h
  {
    hide ImcuCols;
    hide ImcuRows;
  }

  lemma NextArray(f: Frame, whole: Coefs, c: nat)
    requires c < |f.comps| && RowsSoFar(f, whole, c, ImcuRows(f) * f.comps[c].v, 0)
    ensures RowsSoFar(f, whole, c + 1, 0, 0)
  {
  }

  /** jinit_c_coef_controller and jinit_d_coef_controller: one zeroed array for each component,
      its size rounded up to a multiple of the sampling factors. */
  method RequestArrays(f: Frame) returns (whole: Coefs)
    requires FrameOk(f)
    ensures Arrays(f, whole) && Blank(whole)
  {
    whole := map[];
    var ci := 0;
    while ci < |f.comps|
      invariant 0 <= ci <= |f.comps| && RowsSoFar(f, whole, ci, 0, 0) && Blank(whole)
    {
      whole := RequestArray(f, whole, ci);
      ci := ci + 1;
    }
  }

  method RequestArray(f: Frame, whole0: Coefs, ci: nat) returns (whole: Coefs)
    requires FrameOk(f) && ci < |f.comps| && RowsSoFar(f, whole0, ci, 0, 0) && Blank(whole0)
    ensures RowsSoFar(f, whole, ci + 1, 0, 0) && Blank(whole)
  {
    hide *;
    FrameComp(f, ci);
    PaddedArrays(f, ci);
    var v, h := f.comps[ci].v, f.comps[ci].h;
    var rows, cols := CeilDiv(HeightInBlocks(f, ci), v) * v, CeilDiv(WidthInBlocks(f, ci), h) * h;
    whole := whole0;
    var row := 0;
    while row < rows
      invariant 0 <= row <= rows && RowsSoFar(f, whole, ci, row, 0) && Blank(whole)
    {
      var col := 0;
      while col < cols
        invariant 0 <= col <= cols && RowsSoFar(f, whole, ci, row, col) && Blank(whole)
      {
        InArray(f, ci, row, col);
        NextBlock(f, whole, ci, row, col, Dummy(0));
        BlankMore(whole, BlockId(ci, row, col));
        whole := whole[BlockId(ci, row, col) := Dummy(0)];
        col := col + 1;
      }
      NextArrayRow(f, whole, ci, row, cols);
      row := row + 1;
    }
    NextArray(f, whole, ci);
  }

  lemma InArray(f: Frame, c: nat, row: nat, col: nat)
    requires c < |f.comps| && row < ImcuRows(f) * f.comps[c].v && col < ImcuCols(f) * f.comps[c].h
    ensures PaddedId(f, BlockId(c, row, col))
  {
  }

  lemma BlankMore(whole: Coefs, id: BlockId)
    requires Blank(whole)
    ensures Blank(whole[id := Dummy(0)])
  {
  }

  // ---- The controllers agree ----

  /** The padded arrays for given real blocks. */
  ghost function PaddedOf(f: Frame, dct: Coefs): (pad: Coefs)
    requires FrameOk(f) && RealOnes(f, dct)
    ensures IsPadded(f, dct, pad)
  {
    var rows, cols := ImcuRows(f) * MAX_SAMP_FACTOR, ImcuCols(f) * MAX_SAMP_FACTOR;
    var ids := set c: nat, row: nat, col: nat | c < |f.comps| && row < rows && col < cols && PaddedId(f, BlockId(c, row, col)) :: BlockId(c, row, col);
    PaddedFinite(f, ids);
    map id | id in ids :: Padded(f, dct, id)
  }

  lemma PaddedFinite(f: Frame, ids: set<BlockId>)
    requires FrameOk(f)
    requires forall c: nat, row: nat, col: nat :: BlockId(c, row, col) in ids <==>
               && c < |f.comps| && row < ImcuRows(f) * MAX_SAMP_FACTOR && col < ImcuCols(f) * MAX_SAMP_FACTOR
               && PaddedId(f, BlockId(c, row, col))
    ensures forall id :: id in ids <==> PaddedId(f, id)
  {
    forall id: BlockId ensures id in ids <==> PaddedId(f, id) {
      assert id == BlockId(id.comp, id.row, id.col);
      if PaddedId(f, id) {
        Commute(ImcuRows(f), MAX_SAMP_FACTOR);
        Commute(ImcuCols(f), MAX_SAMP_FACTOR);
        Commute(ImcuRows(f), f.comps[id.comp].v);
        Commute(ImcuCols(f), f.comps[id.comp].h);
        MulOrder(f.comps[id.comp].v, MAX_SAMP_FACTOR, ImcuRows(f));
        MulOrder(f.comps[id.comp].h, MAX_SAMP_FACTOR, ImcuCols(f));
      }
    }
  }

  /** Compress one scan in all four ways, each with an entropy encoder that suspends in its own
      pattern: straight from the DCT, in a first pass that fills the arrays, from the filled
      arrays in a later pass, and by transcoding. All send the same MCUs. */
  method FourWays(f: Frame, cs: seq<nat>, dct: Coefs, arrays: Coefs, sinks: seq<Sink>) returns (sent: seq<Mcu>)
    requires FrameOk(f) && CompsIn(f, cs) && RealOnes(f, dct) && Arrays(f, arrays)
    requires |sinks| == 4 && (forall i :: 0 <= i < 4 ==> sinks[i].sent == []) && forall i, j :: 0 <= i < j < 4 ==> sinks[i] != sinks[j]
    modifies sinks
    ensures Inside(LayoutOf(f, cs), PaddedOf(f, dct).Keys) && sent == Gather(PaddedOf(f, dct), LayoutOf(f, cs))
    ensures forall i :: 0 <= i < 4 ==> sinks[i].sent == sent
  {
    hide *;
    ghost var pad := PaddedOf(f, dct);
    SameKeys(f, dct, arrays, pad);
    var a := new Controller(OnePass, f, cs, dct, map[]);
    a.CompressScan(sinks[0], pad);
    sent := sinks[0].sent;
    var b := new Controller(Buffered, f, cs, dct, arrays);
    b.FirstPassScan(sinks[1], pad);
    var c := new Controller(Buffered, f, cs, dct, b.whole);
    c.CompressScan(sinks[2], pad);
    var d := new Controller(Transcoding, f, cs, dct, map[]);
    d.CompressScan(sinks[3], pad);
  }

  lemma SameKeys(f: Frame, dct: Coefs, arrays: Coefs, pad: Coefs)
    requires FrameOk(f) && RealOnes(f, dct) && Arrays(f, arrays) && IsPadded(f, dct, pad)
    ensures arrays.Keys == pad.Keys
  {
    forall id ensures id in arrays <==> id in pad {}
  }

  // ---- Dummy blocks cost next to nothing ----

  /** The place in its group of a cell that lies in the last one of n, or in the same group. */
  lemma LastGroup(x: nat, n: nat, m: nat, w: nat)
    requires m > 0 && n > 0 && (n - 1) * m < w <= x < n * m
    ensures x % m > 0
  {
    Next(n - 1, m);
    DivModIs(n - 1, x - (n - 1) * m, m);
  }

  lemma SameGroup(x: nat, m: nat)
    requires m > 0 && x % m > 0
    ensures (x - 1) / m == x / m
  {
    DivModIs(x / m, x % m - 1, m);
    assert x == m * (x / m) + x % m;
    Commute(m, x / m);
  }

  lemma PaddedRight(f: Frame, dct: Coefs, id: BlockId)
    requires FrameOk(f) && RealOnes(f, dct) && id.comp < |f.comps| && id.col >= WidthInBlocks(f, id.comp) && id.row < HeightInBlocks(f, id.comp)
    ensures id.col > 0 && Padded(f, dct, id) == Dummy(Padded(f, dct, id.(col := id.col - 1))[0])
  {
    hide HeightInBlocks;
    hide WidthInBlocks;
    hide Dummy;
    LastRealCol(f, id);
    DummyDc(dct[id.(col := WidthInBlocks(f, id.comp) - 1)][0]);
  }

  lemma PaddedBelow(f: Frame, dct: Coefs, id: BlockId)
    requires FrameOk(f) && RealOnes(f, dct) && id.comp < |f.comps| && id.row >= HeightInBlocks(f, id.comp) && id.row > 0
    ensures Padded(f, dct, id) == Dummy(Padded(f, dct, id.(row := id.row - 1, col := LastInMcu(f, id)))[0])
  {
    hide HeightInBlocks;
    hide WidthInBlocks;
    hide Dummy;
    hide LastInMcu;
  }

  lemma LastInMcuIs(f: Frame, id: BlockId)
    requires FrameOk(f) && id.comp < |f.comps|
    ensures var h := f.comps[id.comp].h;
            && (Rem(id.col, h) > 0 ==> id.col > 0 && LastInMcu(f, id.(col := id.col - 1)) == LastInMcu(f, id))
            && (Rem(id.col, h) == 0 ==> LastInMcu(f, id) == id.col + h - 1)
  {
    var h := f.comps[id.comp].h;
    if id.col % h > 0 {
      SameGroup(id.col, h);
    } else {
      assert id.col == h * (id.col / h);
      Commute(h, id.col / h);
    }
  }

  /** A block beyond the right edge is not the first of its MCU's columns, one below the bottom not
      in the first of its rows. */
  lemma DummyPlace(f: Frame, id: BlockId)
    requires FrameOk(f) && PaddedId(f, id) && !RealId(f, id)
    ensures id.comp < |f.comps| && f.comps[id.comp].h > 0 && f.comps[id.comp].v > 0
    ensures id.row < HeightInBlocks(f, id.comp) ==> id.col >= WidthInBlocks(f, id.comp) && Rem(id.col, f.comps[id.comp].h) > 0
    ensures id.row >= HeightInBlocks(f, id.comp) ==> id.row > 0 && Rem(id.row, f.comps[id.comp].v) > 0
  {
    var c := id.comp;
    BlockRows(f, c);
    BlockCols(f, c);
    hide HeightInBlocks;
    hide WidthInBlocks;
    hide ImcuRows;
    hide ImcuCols;
    if id.row < HeightInBlocks(f, c) {
      LastGroup(id.col, ImcuCols(f), f.comps[c].h, WidthInBlocks(f, c));
    } else {
      LastGroup(id.row, ImcuRows(f), f.comps[c].v, HeightInBlocks(f, c));
      MulOrder(0, ImcuRows(f) - 1, f.comps[c].v);
    }
  }

  lemma DummyZeroes()
    ensures forall dc: Coef, k :: 1 <= k < 64 ==> Dummy(dc)[k] == 0
    ensures forall dc: Coef :: Dummy(dc)[0] == dc
  {
  }

  /** Some block comes before this one in its MCU of h by v blocks. */
  predicate NotFirst(id: BlockId, h: nat, v: nat)
  {
    h > 0 && v > 0 && (Rem(id.col, h) > 0 || (id.row > 0 && Rem(id.row, v) > 0))
  }

  /** The one that does: to the left, or the last of the row above. */
  function BlockBefore(id: BlockId, h: nat, v: nat): (r: BlockId)
    requires NotFirst(id, h, v)
    ensures r.comp == id.comp
    ensures id.col % h > 0 ==> r.row == id.row && r.col == id.col - 1
    ensures id.col % h == 0 ==> r.row == id.row - 1 && r.col == id.col + h - 1
  {
    if Rem(id.col, h) > 0 then
      assert id.col > 0;
      BlockId(id.comp, id.row, id.col - 1)
    else BlockId(id.comp, id.row - 1, id.col + h - 1)
  }

  lemma BlockBeforeIs(id: BlockId, h: nat, v: nat)
    requires h > 0 && v > 0 && (Rem(id.col, h) > 0 || (id.row > 0 && Rem(id.row, v) > 0))
    ensures NotFirst(id, h, v) && (Rem(id.col, h) > 0 ==> id.col > 0)
    ensures Rem(id.col, h) > 0 ==> BlockBefore(id, h, v) == id.(col := id.col - 1)
    ensures Rem(id.col, h) == 0 ==> BlockBefore(id, h, v) == id.(row := id.row - 1, col := id.col + h - 1)
  {
  }

  /** A block outside the image has no AC coefficients, and its DC value is that of the block that
      comes before it in its MCU, so that the difference to be coded is zero. */
  lemma DummyRepeats(f: Frame, dct: Coefs, id: BlockId)
    requires FrameOk(f) && RealOnes(f, dct) && PaddedId(f, id) && !RealId(f, id)
    ensures forall k :: 1 <= k < 64 ==> Padded(f, dct, id)[k] == 0
    ensures NotFirst(id, f.comps[id.comp].h, f.comps[id.comp].v)
    ensures Padded(f, dct, id)[0] == Padded(f, dct, BlockBefore(id, f.comps[id.comp].h, f.comps[id.comp].v))[0]
  {
    hide *;
    var c := id.comp;
    DummyPlace(f, id);
    LastInMcuIs(f, id);
    DummyZeroes();
    BlockBeforeIs(id, f.comps[c].h, f.comps[c].v);
    if id.row < HeightInBlocks(f, c) {
      PaddedRight(f, dct, id);
    } else {
      PaddedBelow(f, dct, id);
      if Rem(id.col, f.comps[c].h) > 0 { PaddedBelow(f, dct, id.(col := id.col - 1)); }
    }
  }
}
