/** Which blocks make up the MCUs of a scan: per_scan_setup and the loops of the coefficient
    controllers, as one list of block positions. */
module Layouts {
  import opened Geometry
  import opened Image

  /** The components of a scan, by increasing number. */
  predicate CompsIn(f: Frame, cs: seq<nat>)
  {
    && cs != [] && (forall i :: 0 <= i < |cs| ==> cs[i] < |f.comps|)
    && forall i, j :: 0 <= i < j < |cs| ==> cs[i] < cs[j]
  }

  // ---- Sizes in a scan: a scan of one component is not interleaved ----

  function McuWidth(f: Frame, cs: seq<nat>, c: nat): nat
    requires c < |f.comps|
  {
    if |cs| == 1 then 1 else f.comps[c].h
  }

  function McuHeight(f: Frame, cs: seq<nat>, c: nat): nat
    requires c < |f.comps|
  {
    if |cs| == 1 then 1 else f.comps[c].v
  }

  function McuSize(f: Frame, cs: seq<nat>, c: nat): nat
    requires c < |f.comps|
  {
    McuWidth(f, cs, c) * McuHeight(f, cs, c)
  }

  function McusPerRow(f: Frame, cs: seq<nat>): nat
    requires CompsIn(f, cs)
  {
    if |cs| == 1 then WidthInBlocks(f, cs[0]) else ImcuCols(f)
  }

  function McuRows(f: Frame, cs: seq<nat>): nat
    requires CompsIn(f, cs)
  {
    if |cs| == 1 then HeightInBlocks(f, cs[0]) else ImcuRows(f)
  }

  // ---- The blocks of an MCU ----

  /** A rectangle of blocks, row by row. */
  function Group(c: nat, row: nat, col: nat, w: nat, h: nat): (r: seq<BlockId>)
    requires w > 0
    ensures |r| == w * h && forall k :: 0 <= k < w * h ==> r[k] == BlockId(c, row + k / w, col + k % w)
  {
    seq(w * h, k requires 0 <= k < w * h => BlockId(c, row + k / w, col + k % w))
  }

  /** The blocks that MCU number col of MCU row r takes from component ci and those after it. */
  function McuIds(f: Frame, cs: seq<nat>, r: nat, col: nat, ci: nat): seq<BlockId>
    requires FrameOk(f) && CompsIn(f, cs) && ci <= |cs|
    decreases |cs| - ci
  {
    if ci == |cs| then []
    else
      var w, h := McuWidth(f, cs, cs[ci]), McuHeight(f, cs, cs[ci]);
      Group(cs[ci], r * h, col * w, w, h) + McuIds(f, cs, r, col, ci + 1)
  }

  function Same(x: nat, n: nat): (r: seq<nat>)
    ensures |r| == n && forall k :: 0 <= k < n ==> r[k] == x
  {
    seq(n, k => x)
  }

  /** MCU_membership. */
  function Members(f: Frame, cs: seq<nat>, ci: nat): seq<nat>
    requires CompsIn(f, cs) && ci <= |cs|
    decreases |cs| - ci
  {
    if ci == |cs| then [] else Same(ci, McuSize(f, cs, cs[ci])) + Members(f, cs, ci + 1)
  }

  /** The MCUs of the scan in order. */
  function LayoutOf(f: Frame, cs: seq<nat>): (r: Layout)
    requires FrameOk(f) && CompsIn(f, cs)
    ensures |r| == McuRows(f, cs) * McusPerRow(f, cs)
    ensures var p := McusPerRow(f, cs); p > 0 ==> forall n :: 0 <= n < |r| ==> r[n] == McuIds(f, cs, Quot(n, p), Rem(n, p), 0)
  {
    var p := McusPerRow(f, cs);
    if p == 0 then []
    else seq(McuRows(f, cs) * p, n requires 0 <= n < McuRows(f, cs) * p => McuIds(f, cs, Quot(n, p), Rem(n, p), 0))
  }

  // ---- Finding a block within an MCU ----

  /** How many blocks come before component i, counting from component ci. */
  function Start(f: Frame, cs: seq<nat>, ci: nat, i: nat): nat
    requires CompsIn(f, cs) && ci <= i <= |cs|
    decreases i - ci
  {
    if ci == i then 0 else McuSize(f, cs, cs[ci]) + Start(f, cs, ci + 1, i)
  }

  lemma WidthPositive(f: Frame, cs: seq<nat>, c: nat)
    requires FrameOk(f) && c < |f.comps|
    ensures McuWidth(f, cs, c) > 0 && McuHeight(f, cs, c) > 0
  {
  }

  /** Block k of component i in an MCU. */
  function IdOf(f: Frame, cs: seq<nat>, r: nat, col: nat, i: nat, k: nat): BlockId
    requires FrameOk(f) && CompsIn(f, cs) && i < |cs|
  {
    var w, h := McuWidth(f, cs, cs[i]), McuHeight(f, cs, cs[i]);
    BlockId(cs[i], r * h + k / w, col * w + k % w)
  }

  lemma {:induction false} IdAt(f: Frame, cs: seq<nat>, r: nat, col: nat, ci: nat, i: nat, k: nat)
    requires FrameOk(f) && CompsIn(f, cs) && ci <= i < |cs| && k < McuSize(f, cs, cs[i])
    ensures var j := Start(f, cs, ci, i) + k;
            && j < |McuIds(f, cs, r, col, ci)| == |Members(f, cs, ci)| && Members(f, cs, ci)[j] == i
            && McuIds(f, cs, r, col, ci)[j] == IdOf(f, cs, r, col, i, k)
    decreases i - ci
  {
    hide McuWidth;
    hide McuHeight;
    WidthPositive(f, cs, cs[ci]);
    WidthPositive(f, cs, cs[i]);
    SameLengths(f, cs, r, col, ci);
    SameLengths(f, cs, r, col, ci + 1);
    if ci < i { IdAt(f, cs, r, col, ci + 1, i, k); }
  }

  lemma {:induction false} SameLengths(f: Frame, cs: seq<nat>, r: nat, col: nat, ci: nat)
    requires FrameOk(f) && CompsIn(f, cs) && ci <= |cs|
    ensures |McuIds(f, cs, r, col, ci)| == |Members(f, cs, ci)| == Start(f, cs, ci, |cs|)
    decreases |cs| - ci
  {
    hide McuWidth;
    hide McuHeight;
    if ci < |cs| { SameLengths(f, cs, r, col, ci + 1); }
  }

  /** Every place of an MCU belongs to some component. */
  lemma {:induction false} Locate(f: Frame, cs: seq<nat>, ci: nat, j: nat) returns (i: nat, k: nat)
    requires FrameOk(f) && CompsIn(f, cs) && ci <= |cs| && j < |Members(f, cs, ci)|
    ensures ci <= i < |cs| && k < McuSize(f, cs, cs[i]) && j == Start(f, cs, ci, i) + k
    decreases |cs| - ci
  {
    hide McuSize;
    if j < McuSize(f, cs, cs[ci]) {
      i, k := ci, j;
    } else {
      i, k := Locate(f, cs, ci + 1, j - McuSize(f, cs, cs[ci]));
    }
  }

  // ---- No block comes twice, and every real block comes once ----

  lemma RowsPositive(f: Frame, cs: seq<nat>)
    requires FrameOk(f) && CompsIn(f, cs)
    ensures McuRows(f, cs) > 0 && McusPerRow(f, cs) > 0
  {
    BlockRows(f, cs[0]);
    BlockCols(f, cs[0]);
    MulOrder(0, ImcuRows(f) - 1, f.comps[cs[0]].v);
    MulOrder(0, ImcuCols(f) - 1, f.comps[cs[0]].h);
  }

  lemma GridUnique(w: nat, h: nat, r: nat, col: nat, k: nat, r': nat, col': nat, k': nat)
    requires w > 0 && h > 0 && k < w * h && k' < w * h
    requires r * h + k / w == r' * h + k' / w && col * w + k % w == col' * w + k' % w
    ensures r == r' && col == col' && k == k'
  {
    var y, x := Split(k, w, h);
    var y', x' := Split(k', w, h);
    DivModUnique(r, y, r', y', h);
    DivModUnique(col, x, col', x', w);
  }

  lemma Split(k: nat, w: nat, h: nat) returns (y: nat, x: nat)
    requires w > 0 && k < w * h
    ensures y == k / w && x == k % w && y < h && x < w && k == y * w + x
  {
    Commute(w, h);
    DivMod(k, h, w);
    y, x := k / w, k % w;
  }

  /** A block determines its MCU and its place there. */
  lemma SamePlace(f: Frame, cs: seq<nat>, r: nat, col: nat, j: nat, r': nat, col': nat, j': nat)
    requires FrameOk(f) && CompsIn(f, cs) && j < |McuIds(f, cs, r, col, 0)| && j' < |McuIds(f, cs, r', col', 0)|
    requires McuIds(f, cs, r, col, 0)[j] == McuIds(f, cs, r', col', 0)[j']
    ensures r == r' && col == col' && j == j'
  {
    hide *;
    SameLengths(f, cs, r, col, 0);
    SameLengths(f, cs, r', col', 0);
    var i, k := Locate(f, cs, 0, j);
    var i', k' := Locate(f, cs, 0, j');
    IdAt(f, cs, r, col, 0, i, k);
    IdAt(f, cs, r', col', 0, i', k');
    IdUnique(f, cs, r, col, i, k, r', col', i', k');
  }

  lemma IdUnique(f: Frame, cs: seq<nat>, r: nat, col: nat, i: nat, k: nat, r': nat, col': nat, i': nat, k': nat)
    requires FrameOk(f) && CompsIn(f, cs) && i < |cs| && i' < |cs| && IdOf(f, cs, r, col, i, k) == IdOf(f, cs, r', col', i', k')
    requires k < McuSize(f, cs, cs[i]) && k' < McuSize(f, cs, cs[i'])
    ensures r == r' && col == col' && i == i' && k == k'
  {
    hide McuWidth;
    hide McuHeight;
    WidthPositive(f, cs, cs[i]);
    if i == i' {
      GridUnique(McuWidth(f, cs, cs[i]), McuHeight(f, cs, cs[i]), r, col, k, r', col', k');
    }
  }

  /** MCU number n of the scan. */
  lemma LayoutPlace(f: Frame, cs: seq<nat>, n: nat) returns (r: nat, col: nat)
    requires FrameOk(f) && CompsIn(f, cs) && n < |LayoutOf(f, cs)|
    ensures r < McuRows(f, cs) && col < McusPerRow(f, cs) && n == r * McusPerRow(f, cs) + col
    ensures LayoutOf(f, cs)[n] == McuIds(f, cs, r, col, 0)
  {
    hide *;
    RowsPositive(f, cs);
    var p := McusPerRow(f, cs);
    r, col := Place(n, McuRows(f, cs), p);
  }

  lemma Place(n: nat, rows: nat, p: nat) returns (r: nat, col: nat)
    requires p > 0 && n < rows * p
    ensures r == Quot(n, p) && col == Rem(n, p) && r < rows && col < p && n == r * p + col
  {
    DivMod(n, rows, p);
    r, col := n / p, n % p;
  }

  lemma PlaceIs(r: nat, col: nat, p: nat)
    requires col < p
    ensures Quot(r * p + col, p) == r && Rem(r * p + col, p) == col
  {
    DivModIs(r, col, p);
  }

  lemma LayoutDistinct(f: Frame, cs: seq<nat>)
    requires FrameOk(f) && CompsIn(f, cs)
    ensures Distinct(LayoutOf(f, cs))
  {
    hide LayoutOf;
    hide McuIds;
    hide McusPerRow;
    hide McuRows;
    hide FrameOk;
    hide CompsIn;
    var lay, p := LayoutOf(f, cs), McusPerRow(f, cs);
    forall n: nat, j: nat, n': nat, j': nat | n < |lay| && j < |lay[n]| && n' < |lay| && j' < |lay[n']| && lay[n][j] == lay[n'][j']
      ensures n == n' && j == j'
    {
      LayoutOnce(f, cs, n, j, n', j');
    }
  }

  lemma LayoutOnce(f: Frame, cs: seq<nat>, n: nat, j: nat, n': nat, j': nat)
    requires FrameOk(f) && CompsIn(f, cs) && n < |LayoutOf(f, cs)| && n' < |LayoutOf(f, cs)|
    requires j < |LayoutOf(f, cs)[n]| && j' < |LayoutOf(f, cs)[n']| && LayoutOf(f, cs)[n][j] == LayoutOf(f, cs)[n'][j']
    ensures n == n' && j == j'
  {
    hide *;
    var r, c := LayoutPlace(f, cs, n);
    var r', c' := LayoutPlace(f, cs, n');
    SamePlace(f, cs, r, c, j, r', c', j');
  }

  /** The real blocks of a component, and the blocks its padded virtual array holds. */
  ghost predicate RealId(f: Frame, id: BlockId)
  {
    id.comp < |f.comps| && id.row < HeightInBlocks(f, id.comp) && id.col < WidthInBlocks(f, id.comp)
  }

  ghost predicate PaddedId(f: Frame, id: BlockId)
  {
    id.comp < |f.comps| && id.row < ImcuRows(f) * f.comps[id.comp].v && id.col < ImcuCols(f) * f.comps[id.comp].h
  }

  /** The virtual arrays are padded to a multiple of the sampling factors. */
  lemma PaddedArrays(f: Frame, c: nat)
    requires FrameOk(f) && c < |f.comps|
    ensures CeilDiv(WidthInBlocks(f, c), f.comps[c].h) * f.comps[c].h == ImcuCols(f) * f.comps[c].h
    ensures CeilDiv(HeightInBlocks(f, c), f.comps[c].v) * f.comps[c].v == ImcuRows(f) * f.comps[c].v
  {
    BlockRows(f, c);
    BlockCols(f, c);
    RoundUp(WidthInBlocks(f, c), f.comps[c].h, ImcuCols(f));
    RoundUp(HeightInBlocks(f, c), f.comps[c].v, ImcuRows(f));
  }

  lemma RoundUp(b: nat, s: nat, r: nat)
    requires s > 0 && r > 0 && (r - 1) * s < b <= r * s
    ensures CeilDiv(b, s) == r
  {
    hide CeilDiv;
    CeilBounds(b, s);
    var q := CeilDiv(b, s);
    Next(r, s);
    Next(r - 1, s);
    MulStrict(r - 1, q, s);
    MulStrict(q, r + 1, s);
  }

  lemma RealPadded(f: Frame, id: BlockId)
    requires FrameOk(f) && RealId(f, id)
    ensures PaddedId(f, id)
  {
    BlockRows(f, id.comp);
    BlockCols(f, id.comp);
  }

  /** A place of an MCU lies within the arrays. */
  lemma IdInside(f: Frame, cs: seq<nat>, r: nat, col: nat, i: nat, k: nat)
    requires FrameOk(f) && CompsIn(f, cs) && i < |cs| && k < McuSize(f, cs, cs[i]) && r < McuRows(f, cs) && col < McusPerRow(f, cs)
    ensures PaddedId(f, IdOf(f, cs, r, col, i, k)) && (|cs| == 1 ==> RealId(f, IdOf(f, cs, r, col, i, k)))
  {
    var c := cs[i];
    WidthPositive(f, cs, c);
    if |cs| == 1 {
      assert k == 0;
      RealPadded(f, IdOf(f, cs, r, col, i, k));
    } else {
      var w, h := f.comps[c].h, f.comps[c].v;
      hide HeightInBlocks;
      hide WidthInBlocks;
      hide ImcuRows;
      hide ImcuCols;
      Commute(w, h);
      DivMod(k, h, w);
      var y, x := k / w, k % w;
      PairBelow(r, y, McuRows(f, cs), h);
      PairBelow(col, x, McusPerRow(f, cs), w);
    }
  }

  /** Every block of the layout is in the arrays; without interleaving it is a real one. */
  lemma LayoutInside(f: Frame, cs: seq<nat>, n: nat, j: nat)
    requires FrameOk(f) && CompsIn(f, cs) && n < |LayoutOf(f, cs)| && j < |LayoutOf(f, cs)[n]|
    ensures var id := LayoutOf(f, cs)[n][j];
            && PaddedId(f, id) && (|cs| == 1 ==> RealId(f, id))
            && |LayoutOf(f, cs)[n]| == |Members(f, cs, 0)| && Members(f, cs, 0)[j] < |cs| && id.comp == cs[Members(f, cs, 0)[j]]
  {
    hide *;
    var r, col := LayoutPlace(f, cs, n);
    SameLengths(f, cs, r, col, 0);
    var i, k := Locate(f, cs, 0, j);
    IdAt(f, cs, r, col, 0, i, k);
    IdInside(f, cs, r, col, i, k);
    IdComp(f, cs, r, col, i, k);
  }

  lemma IdComp(f: Frame, cs: seq<nat>, r: nat, col: nat, i: nat, k: nat)
    requires FrameOk(f) && CompsIn(f, cs) && i < |cs|
    ensures IdOf(f, cs, r, col, i, k).comp == cs[i]
  {
  }

  /** Cutting a rectangle of rows * h by cols * w into groups of w by h: the group and the place
      in it of one cell. */
  lemma Cell(row: nat, col: nat, rows: nat, cols: nat, w: nat, h: nat) returns (r: nat, c: nat, k: nat)
    requires w > 0 && h > 0 && row < rows * h && col < cols * w
    ensures r < rows && c < cols && k < w * h && row == r * h + k / w && col == c * w + k % w
  {
    var y, x: nat;
    r, y := Place(row, rows, h);
    c, x := Place(col, cols, w);
    k := y * w + x;
    PairBelow(y, x, h, w);
    Commute(w, h);
    DivModIs(y, x, w);
  }

  /** Where a real block is to be found. */
  lemma PlaceOf(f: Frame, cs: seq<nat>, id: BlockId, i: nat) returns (r: nat, col: nat, k: nat)
    requires FrameOk(f) && CompsIn(f, cs) && RealId(f, id) && i < |cs| && cs[i] == id.comp
    ensures r < McuRows(f, cs) && col < McusPerRow(f, cs) && k < McuSize(f, cs, cs[i]) && IdOf(f, cs, r, col, i, k) == id
  {
    var c := id.comp;
    if |cs| == 1 {
      r, col, k := id.row, id.col, 0;
    } else {
      BlockRows(f, c);
      BlockCols(f, c);
      hide HeightInBlocks;
      hide WidthInBlocks;
      hide ImcuRows;
      hide ImcuCols;
      r, col, k := Cell(id.row, id.col, ImcuRows(f), ImcuCols(f), f.comps[c].h, f.comps[c].v);
    }
  }

  lemma RealVisited(f: Frame, cs: seq<nat>, id: BlockId)
    requires FrameOk(f) && CompsIn(f, cs) && RealId(f, id) && id.comp in cs
    ensures Visits(LayoutOf(f, cs), id)
  {
    hide *;
    var i :| 0 <= i < |cs| && cs[i] == id.comp;
    var r, col, k := PlaceOf(f, cs, id, i);
    IdAt(f, cs, r, col, 0, i, k);
    var p := McusPerRow(f, cs);
    var n := r * p + col;
    PairBelow(r, col, McuRows(f, cs), p);
    PlaceIs(r, col, p);
    VisitsAt(LayoutOf(f, cs), id, n, Start(f, cs, 0, i) + k);
  }

  lemma VisitsAt(lay: Layout, id: BlockId, n: nat, j: nat)
    requires n < |lay| && j < |lay[n]| && lay[n][j] == id
    ensures Visits(lay, id)
  {
  }

  // ---- The order within an MCU ----

  lemma {:induction false} StartOrder(f: Frame, cs: seq<nat>, ci: nat, i: nat, i': nat)
    requires CompsIn(f, cs) && ci <= i < i' <= |cs|
    ensures Start(f, cs, ci, i) + McuSize(f, cs, cs[i]) <= Start(f, cs, ci, i')
    decreases i - ci
  {
    hide McuSize;
    if ci < i { StartOrder(f, cs, ci + 1, i, i'); }
  }

  /** Of two cells of a rectangle counted row by row, the earlier one is higher or further left. */
  lemma CellOrder(k: nat, k': nat, w: nat)
    requires w > 0 && k < k'
    ensures k / w < k' / w || (k / w == k' / w && k % w < k' % w)
  {
    assert k == w * (k / w) + k % w && k' == w * (k' / w) + k' % w;
    Commute(w, k / w);
    Commute(w, k' / w);
    if k' / w < k / w { MulOrder(k' / w + 1, k / w, w); Next(k' / w, w); }
  }

  /** The blocks of an MCU come by component, in the order of the scan, and for each component row
      by row from left to right. */
  lemma McuOrder(f: Frame, cs: seq<nat>, r: nat, col: nat, j: nat, j': nat)
    requires FrameOk(f) && CompsIn(f, cs) && j < j' < |McuIds(f, cs, r, col, 0)|
    ensures var a, b := McuIds(f, cs, r, col, 0)[j], McuIds(f, cs, r, col, 0)[j'];
            a.comp < b.comp || (a.comp == b.comp && (a.row < b.row || (a.row == b.row && a.col < b.col)))
  {
    hide McuIds;
    hide McuWidth;
    hide McuHeight;
    hide McuSize;
    hide Start;
    SameLengths(f, cs, r, col, 0);
    var i, k := Locate(f, cs, 0, j);
    var i', k' := Locate(f, cs, 0, j');
    IdAt(f, cs, r, col, 0, i, k);
    IdAt(f, cs, r, col, 0, i', k');
    WidthPositive(f, cs, cs[i]);
    if i == i' {
      CellOrder(k, k', McuWidth(f, cs, cs[i]));
    } else if i' < i {
      StartOrder(f, cs, 0, i', i);
    }
  }

  /** They are the blocks of the scan's components in one cell of the grid of MCUs, whose cells are
      as large as the sampling factors, or single blocks if there is only one component. */
  lemma McuHolds(f: Frame, cs: seq<nat>, r: nat, col: nat, id: BlockId)
    requires FrameOk(f) && CompsIn(f, cs)
    ensures id in McuIds(f, cs, r, col, 0) <==>
            && id.comp in cs
            && if |cs| == 1 then id.row == r && id.col == col
               else id.row / f.comps[id.comp].v == r && id.col / f.comps[id.comp].h == col
  {
    hide McuIds;
    hide McuSize;
    hide Start;
    SameLengths(f, cs, r, col, 0);
    if id in McuIds(f, cs, r, col, 0) {
      var j :| 0 <= j < |McuIds(f, cs, r, col, 0)| && McuIds(f, cs, r, col, 0)[j] == id;
      var i, k := Locate(f, cs, 0, j);
      IdAt(f, cs, r, col, 0, i, k);
      InCell(f, cs, r, col, i, k);
    }
    if id.comp in cs && if |cs| == 1 then id.row == r && id.col == col
                        else id.row / f.comps[id.comp].v == r && id.col / f.comps[id.comp].h == col {
      var i :| 0 <= i < |cs| && cs[i] == id.comp;
      var k := CellIn(f, cs, r, col, id, i);
      IdAt(f, cs, r, col, 0, i, k);
    }
  }

  lemma InCell(f: Frame, cs: seq<nat>, r: nat, col: nat, i: nat, k: nat)
    requires FrameOk(f) && CompsIn(f, cs) && i < |cs| && k < McuSize(f, cs, cs[i])
    ensures var id := IdOf(f, cs, r, col, i, k);
            id.comp == cs[i]
            && if |cs| == 1 then id.row == r && id.col == col
               else id.row / f.comps[id.comp].v == r && id.col / f.comps[id.comp].h == col
  {
    var w, h := McuWidth(f, cs, cs[i]), McuHeight(f, cs, cs[i]);
    WidthPositive(f, cs, cs[i]);
    var y, x := Split(k, w, h);
    DivModIs(r, y, h);
    DivModIs(col, x, w);
  }

  lemma CellIn(f: Frame, cs: seq<nat>, r: nat, col: nat, id: BlockId, i: nat) returns (k: nat)
    requires FrameOk(f) && CompsIn(f, cs) && i < |cs| && cs[i] == id.comp
    requires if |cs| == 1 then id.row == r && id.col == col
             else id.row / f.comps[id.comp].v == r && id.col / f.comps[id.comp].h == col
    ensures k < McuSize(f, cs, cs[i]) && IdOf(f, cs, r, col, i, k) == id
  {
    if |cs| == 1 {
      k := 0;
    } else {
      var w, h := f.comps[id.comp].h, f.comps[id.comp].v;
      assert id.row == h * r + id.row % h && id.col == w * col + id.col % w;
      Commute(h, r);
      Commute(w, col);
      k := id.row % h * w + id.col % w;
      PairBelow(id.row % h, id.col % w, h, w);
      Commute(w, h);
      DivModIs(id.row % h, id.col % w, w);
    }
  }
}
