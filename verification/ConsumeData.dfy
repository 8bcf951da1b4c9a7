/** consume_data of jdcoefct.c: the decoded MCUs are stored in the virtual arrays where the
    compressor took them from, whenever the entropy decoder suspends. */
module ConsumeData {
  import opened Geometry
  import opened Layouts
  import opened ScanSetup
  import opened Blocks
  import opened Scans
  import opened Image
  import opened CoefControllers

  /** An entropy decoder that may have to suspend, in any pattern. It decodes MCU n of the scan
      from the blocks it finds, and a suspended call may leave anything in them; what it needs
      is to find the same again when it is called again. */
  class Source {
    const given: seq<Mcu>                   // the blocks of the arrays before the scan
    const decoded: seq<Mcu>                 // what they become
    var n: nat
    var answers: seq<seq<Block>>            // for each suspension still to come, what it leaves in the blocks
    ghost var left: Mcu                     // what the blocks of MCU n hold now

    constructor (given: seq<Mcu>, decoded: seq<Mcu>, answers: seq<seq<Block>>)
      requires |given| == |decoded|
      ensures this.given == given && this.decoded == decoded && this.answers == answers && n == 0
      ensures given != [] ==> left == given[0]
    {
      this.given, this.decoded, this.answers, n := given, decoded, answers, 0;
      left := if given == [] then [] else given[0];
    }

    method DecodeMcu(blocks: Mcu) returns (ok: bool, m: Mcu)
      requires n < |given| == |decoded| && blocks == left && |decoded[n]| == |blocks|
      modifies this
      ensures |m| == |blocks| && |answers| <= |old(answers)|
      ensures ok ==> m == decoded[old(n)] && n == old(n) + 1 && (n < |given| ==> left == given[n])
      ensures !ok ==> n == old(n) && left == m && |answers| < |old(answers)|
    {
      ok := answers == [];
      if ok {
        m := decoded[n];
        n := n + 1;
        left := if n < |given| then given[n] else [];
      } else {
        m := if |answers[0]| == |blocks| then answers[0] else blocks;
        answers := answers[1..];
        left := m;
      }
    }
  }

  // ---- Storing MCU by MCU ----

  lemma {:induction false} ScatterSnoc(img: Coefs, lay: Layout, ms: seq<Mcu>, ids: seq<BlockId>, m: Mcu)
    requires Fill(lay, ms) && Inside(lay, img.Keys) && |m| == |ids| && Within(ids, img.Keys)
    ensures Fill(lay + [ids], ms + [m]) && Inside(lay + [ids], img.Keys)
    ensures Scatter(img, lay + [ids], ms + [m]) == Scatter1(Scatter(img, lay, ms), ids, m)
    decreases lay
  {
    FillSnoc(lay, ms, ids, m);
    InsideSnoc(lay, img, ids);
    hide *;
    if lay == [] {
      ScatterStep(img, lay + [ids], ms + [m]);
      ScatterNone(img, lay, ms, ids, m);
    } else {
      ScatterStep(img, lay + [ids], ms + [m]);
      ScatterStep(img, lay, ms);
      assert (lay + [ids])[1..] == lay[1..] + [ids] && (ms + [m])[1..] == ms[1..] + [m];
      assert (lay + [ids])[0] == lay[0] && (ms + [m])[0] == ms[0];
      FillTail(lay, ms);
      var next := Scatter1(img, lay[0], ms[0]);
      ScatterSnoc(next, lay[1..], ms[1..], ids, m);
    }
  }

  lemma FillTail(lay: Layout, ms: seq<Mcu>)
    requires Fill(lay, ms) && lay != []
    ensures ms != [] && |ms[0]| == |lay[0]| && Fill(lay[1..], ms[1..])
  {
  }

  lemma FillSnoc(lay: Layout, ms: seq<Mcu>, ids: seq<BlockId>, m: Mcu)
    requires Fill(lay, ms) && |m| == |ids|
    ensures Fill(lay + [ids], ms + [m]) && |lay| == |ms|
  {
  }

  lemma InsideSnoc(lay: Layout, img: Coefs, ids: seq<BlockId>)
    requires Inside(lay, img.Keys) && Within(ids, img.Keys)
    ensures Inside(lay + [ids], img.Keys)
  {
    hide Within;
  }

  lemma ScatterNone(img: Coefs, lay: Layout, ms: seq<Mcu>, ids: seq<BlockId>, m: Mcu)
    requires lay == [] && Fill(lay, ms) && Inside(lay, img.Keys) && |m| == |ids| && Within(ids, img.Keys)
    ensures ms == [] && Scatter(img, lay, ms) == img
    ensures (lay + [ids])[0] == ids && (ms + [m])[0] == m && (lay + [ids])[1..] == [] && (ms + [m])[1..] == []
    ensures Scatter(Scatter1(img, ids, m), [], []) == Scatter1(img, ids, m)
  {
  }

  /** Storing again over what was stored. */
  lemma {:induction false} StoreAgain(img: Coefs, ids: seq<BlockId>, a: Mcu, b: Mcu)
    requires |a| == |b| == |ids| && Within(ids, img.Keys) && forall j, k :: 0 <= j < k < |ids| ==> ids[j] != ids[k]
    ensures Scatter1(Scatter1(img, ids, a), ids, b) == Scatter1(img, ids, b)
  {
    var x, y := Scatter1(Scatter1(img, ids, a), ids, b), Scatter1(img, ids, b);
    forall id | id in img ensures x[id] == y[id] {
      Scatter1At(img, ids, a, id);
      Scatter1At(Scatter1(img, ids, a), ids, b, id);
      Scatter1At(img, ids, b, id);
    }
  }

  lemma NoneStored(img: Coefs, lay: Layout, ms: seq<Mcu>)
    ensures Inside(lay[..0], img.Keys) && Fill(lay[..0], ms[..0]) && Scatter(img, lay[..0], ms[..0]) == img
  {
    assert lay[..0] == [] && ms[..0] == [];
  }

  /** Storing what is there already. */
  lemma StoreSame(img: Coefs, ids: seq<BlockId>)
    requires Within(ids, img.Keys) && forall j, k :: 0 <= j < k < |ids| ==> ids[j] != ids[k]
    ensures Scatter1(img, ids, Gather1(img, ids)) == img
  {
    var x := Scatter1(img, ids, Gather1(img, ids));
    forall id | id in img ensures x[id] == img[id] { Scatter1At(img, ids, Gather1(img, ids), id); }
  }

  /** What was stored is found. */
  lemma FindStored(img: Coefs, ids: seq<BlockId>, m: Mcu)
    requires |m| == |ids| && Within(ids, img.Keys) && forall j, k :: 0 <= j < k < |ids| ==> ids[j] != ids[k]
    ensures Gather1(Scatter1(img, ids, m), ids) == m
  {
    forall j | 0 <= j < |ids| ensures Gather1(Scatter1(img, ids, m), ids)[j] == m[j] { Scatter1At(img, ids, m, ids[j]); }
  }

  lemma DistinctParts(lay: Layout, n: nat)
    requires Distinct(lay) && n < |lay|
    ensures Distinct(lay[..n]) && forall j, k :: 0 <= j < k < |lay[n]| ==> lay[n][j] != lay[n][k]
    ensures forall j :: 0 <= j < |lay[n]| ==> !Visits(lay[..n], lay[n][j])
  {
    forall i, j, i', j' | 0 <= i < n && 0 <= j < |lay[i]| && 0 <= i' < n && 0 <= j' < |lay[i']| && lay[..n][i][j] == lay[..n][i'][j']
      ensures i == i' && j == j'
    {
      assert lay[i][j] == lay[i'][j'];
    }
    forall j | 0 <= j < |lay[n]| ensures !Visits(lay[..n], lay[n][j]) {
      var id := lay[n][j];
      assert forall i', j' {:trigger lay[..n][i'][j']} :: 0 <= i' < n && 0 <= j' < |lay[..n][i']| ==> lay[..n][i'][j'] == lay[i'][j'];
    }
  }

  /** The blocks of an MCU are untouched until its turn comes. */
  lemma FindGiven(img: Coefs, lay: Layout, ms: seq<Mcu>, n: nat)
    requires Distinct(lay) && Inside(lay, img.Keys) && n < |lay| && Fill(lay, ms)
    ensures Fill(lay[..n], ms[..n]) && Inside(lay[..n], img.Keys) && Within(lay[n], img.Keys)
    ensures Gather1(Scatter(img, lay[..n], ms[..n]), lay[n]) == Gather1(img, lay[n])
  {
    DistinctParts(lay, n);
    hide Scatter;
    hide Distinct;
    hide Visits;
    assert forall i :: 0 <= i < n ==> lay[..n][i] == lay[i];
    forall j | 0 <= j < |lay[n]| ensures Gather1(Scatter(img, lay[..n], ms[..n]), lay[n])[j] == img[lay[n][j]] {
      ScatterAt(img, lay[..n], ms[..n], lay[n][j]);
    }
  }

  // ---- consume_data ----

  class Consumer {
    const f: Frame
    const cs: seq<nat>
    var input_iMCU_row: nat
    var MCU_ctr: nat
    var MCU_vert_offset: nat
    var MCU_rows_per_iMCU_row: nat
    var whole: Coefs             // whole_image, the virtual arrays

    constructor (f: Frame, cs: seq<nat>, whole: Coefs)
      requires FrameOk(f) && CompsIn(f, cs)
      ensures this.f == f && this.cs == cs && this.whole == whole && Valid() && input_iMCU_row == 0 && Here() == 0
    {
      this.f, this.cs, this.whole := f, cs, whole;
      input_iMCU_row := 0;
      new;
      StartRow();
      BlockRows(f, cs[0]);
      RowsFollow(f, cs, 0);
      RowEnds(f, cs, 0, 0);
    }

    ghost predicate Valid()
      reads `input_iMCU_row, `MCU_ctr, `MCU_vert_offset, `MCU_rows_per_iMCU_row
    {
      && FrameOk(f) && CompsIn(f, cs) && input_iMCU_row <= ImcuRows(f)
      && (input_iMCU_row < ImcuRows(f) ==>
            && MCU_rows_per_iMCU_row == RowsIn(f, cs, input_iMCU_row) && MCU_vert_offset < MCU_rows_per_iMCU_row
            && MCU_ctr < McusPerRow(f, cs))
      && (input_iMCU_row == ImcuRows(f) ==> MCU_vert_offset == MCU_ctr == 0)
    }

    ghost function Here(): nat
      requires FrameOk(f) && CompsIn(f, cs)
      reads `input_iMCU_row, `MCU_ctr, `MCU_vert_offset
    {
      Position(f, cs, input_iMCU_row, MCU_vert_offset, MCU_ctr)
    }

    /** start_iMCU_row. */
    method StartRow()
      requires FrameOk(f) && CompsIn(f, cs) && input_iMCU_row <= ImcuRows(f)
      modifies `MCU_ctr, `MCU_vert_offset, `MCU_rows_per_iMCU_row
      ensures Valid() && MCU_ctr == MCU_vert_offset == 0
    {
      if |cs| > 1 {
        MCU_rows_per_iMCU_row := 1;
      } else if input_iMCU_row + 1 < ImcuRows(f) {
        MCU_rows_per_iMCU_row := f.comps[cs[0]].v;
      } else {
        MCU_rows_per_iMCU_row := LastRowHeight(f, cs[0]);
      }
      MCU_ctr := 0;
      MCU_vert_offset := 0;
      RowsPositive(f, cs);
      if input_iMCU_row < ImcuRows(f) { RowsFollow(f, cs, input_iMCU_row); }
    }

    /** The scan and its source fit the arrays as they were before the scan. */
    ghost predicate Fits(src: Source, was: Coefs)
    {
      && FrameOk(f) && CompsIn(f, cs) && Inside(LayoutOf(f, cs), was.Keys)
      && src.given == Gather(was, LayoutOf(f, cs)) && Fill(LayoutOf(f, cs), src.decoded)
    }

    /** n MCUs are stored; the blocks of the next hold what the decoder last left in them. */
    ghost predicate Stored(src: Source, was: Coefs, n: nat)
      reads `whole, src`n, src`left
    {
      && Fits(src, was) && src.n == n <= |LayoutOf(f, cs)| && Inside(LayoutOf(f, cs)[..n], was.Keys) && Fill(LayoutOf(f, cs)[..n], src.decoded[..n])
      && var base := Scatter(was, LayoutOf(f, cs)[..n], src.decoded[..n]);
         if n == |LayoutOf(f, cs)| then whole == base
         else |src.left| == |LayoutOf(f, cs)[n]| && Within(LayoutOf(f, cs)[n], was.Keys) && whole == Scatter1(base, LayoutOf(f, cs)[n], src.left)
    }

    lemma StoredIs(src: Source, was: Coefs, n: nat)
      requires Stored(src, was, n)
      ensures Fits(src, was) && FrameOk(f) && CompsIn(f, cs) && src.n == n <= |LayoutOf(f, cs)| == |src.decoded| == |src.given|
      ensures Fill(LayoutOf(f, cs), src.decoded) && Inside(LayoutOf(f, cs), was.Keys)
      ensures whole.Keys == was.Keys
      ensures n < |LayoutOf(f, cs)| ==>
        && |src.left| == |LayoutOf(f, cs)[n]| == |src.decoded[n]| && Within(LayoutOf(f, cs)[n], was.Keys)
        && Inside(LayoutOf(f, cs)[..n], was.Keys) && Fill(LayoutOf(f, cs)[..n], src.decoded[..n])
        && whole == Scatter1(Scatter(was, LayoutOf(f, cs)[..n], src.decoded[..n]), LayoutOf(f, cs)[n], src.left)
    {
      hide LayoutOf;
      hide Scatter;
      hide Scatter1;
    }

    lemma MakeStored(src: Source, was: Coefs, n: nat)
      requires Fits(src, was) && FrameOk(f) && CompsIn(f, cs) && src.n == n <= |LayoutOf(f, cs)|
      requires Inside(LayoutOf(f, cs)[..n], was.Keys) && Fill(LayoutOf(f, cs)[..n], src.decoded[..n])
      requires var base := Scatter(was, LayoutOf(f, cs)[..n], src.decoded[..n]);
         if n == |LayoutOf(f, cs)| then whole == base
         else |src.left| == |LayoutOf(f, cs)[n]| && Within(LayoutOf(f, cs)[n], was.Keys) && whole == Scatter1(base, LayoutOf(f, cs)[n], src.left)
      ensures Stored(src, was, n)
    {
      hide LayoutOf;
      hide Scatter;
      hide Scatter1;
    }

    /** Nothing is stored yet. */
    lemma StoredStart(src: Source)
      requires Fits(src, whole) && src.n == 0 && (src.given != [] ==> src.left == src.given[0])
      ensures Stored(src, whole, 0)
    {
      hide *;
      FitsIs(src, whole);
      var lay := LayoutOf(f, cs);
      LayoutDistinct(f, cs);
      NoneStored(whole, lay, src.decoded);
      if lay != [] {
        DistinctParts(lay, 0);
        GatherAt(whole, lay, 0);
        StoreSame(whole, lay[0]);
      }
      MakeStored(src, whole, 0);
    }

    lemma FitsIs(src: Source, was: Coefs)
      requires Fits(src, was)
      ensures FrameOk(f) && CompsIn(f, cs) && Inside(LayoutOf(f, cs), was.Keys) && Fill(LayoutOf(f, cs), src.decoded)
      ensures src.given == Gather(was, LayoutOf(f, cs)) && |src.given| == |LayoutOf(f, cs)|
    {
      hide LayoutOf;
    }

    /** The next MCU complete. */
    lemma StoredNext(src: Source, was: Coefs, n: nat, before: Coefs, left: Mcu)
      requires Fits(src, was) && FrameOk(f) && CompsIn(f, cs) && n < |LayoutOf(f, cs)| == |src.decoded| && src.n == n + 1
      requires Inside(LayoutOf(f, cs), was.Keys) && Fill(LayoutOf(f, cs), src.decoded)
      requires Inside(LayoutOf(f, cs)[..n], was.Keys) && Fill(LayoutOf(f, cs)[..n], src.decoded[..n])
      requires |left| == |LayoutOf(f, cs)[n]| == |src.decoded[n]| && Within(LayoutOf(f, cs)[n], was.Keys)
      requires before == Scatter1(Scatter(was, LayoutOf(f, cs)[..n], src.decoded[..n]), LayoutOf(f, cs)[n], left)
      requires whole == Scatter1(before, LayoutOf(f, cs)[n], src.decoded[n])
      requires n + 1 < |LayoutOf(f, cs)| ==> src.left == Gather(was, LayoutOf(f, cs))[n + 1]
      ensures Stored(src, was, n + 1)
    {
      hide *;
      var lay := LayoutOf(f, cs);
      var base := Scatter(was, lay[..n], src.decoded[..n]);
      LayoutDistinct(f, cs);
      DistinctParts(lay, n);
      StoreAgain(base, lay[n], left, src.decoded[n]);
      assert lay[..n + 1] == lay[..n] + [lay[n]] && src.decoded[..n + 1] == src.decoded[..n] + [src.decoded[n]];
      ScatterSnoc(was, lay[..n], src.decoded[..n], lay[n], src.decoded[n]);
      if n + 1 < |lay| {
        DistinctParts(lay, n + 1);
        FindGiven(was, lay, src.decoded, n + 1);
        GatherAt(was, lay, n + 1);
        StoreSame(whole, lay[n + 1]);
      }
      MakeStored(src, was, n + 1);
    }

    /** Read an MCU's blocks through its pointers. */
    method Fetch(ids: seq<BlockId>) returns (m: Mcu)
      requires Within(ids, whole.Keys)
      ensures m == Gather1(whole, ids)
    {
      m := [];
      while |m| < |ids|
        invariant |m| <= |ids| && forall j :: 0 <= j < |m| ==> m[j] == whole[ids[j]]
      {
        m := m + [whole[ids[|m|]]];
      }
    }

    /** The decoder writes through the pointers. */
    method Store(ids: seq<BlockId>, m: Mcu)
      requires Within(ids, whole.Keys) && |m| == |ids|
      modifies `whole
      ensures whole == Scatter1(old(whole), ids, m)
    {
      ghost var goal := Scatter1(whole, ids, m);
      var j := 0;
      assert ids[0..] == ids && m[0..] == m;
      while j < |ids|
        invariant 0 <= j <= |ids| && Within(ids[j..], whole.Keys) && Within(ids, whole.Keys) && Scatter1(whole, ids[j..], m[j..]) == goal
      {
        assert ids[j..][1..] == ids[j + 1..] && m[j..][1..] == m[j + 1..];
        whole := whole[ids[j] := m[j]];
        j := j + 1;
      }
    }

    /** One MCU: point out its blocks and let the decoder fill them. */
    method ConsumeMcu(src: Source, ghost was: Coefs, yoffset: nat, col: nat) returns (ok: bool)
      requires FrameOk(f) && CompsIn(f, cs)
      requires input_iMCU_row < ImcuRows(f) && yoffset < RowsIn(f, cs, input_iMCU_row) && col < McusPerRow(f, cs)
      requires Stored(src, was, Position(f, cs, input_iMCU_row, yoffset, col))
      modifies `whole, src
      ensures !ok ==> |src.answers| < |old(src.answers)| && Stored(src, was, Position(f, cs, input_iMCU_row, yoffset, col))
      ensures ok ==> |src.answers| <= |old(src.answers)| && Stored(src, was, Position(f, cs, input_iMCU_row, yoffset, col + 1))
    {
      hide *;
      ghost var n := Position(f, cs, input_iMCU_row, yoffset, col);
      PositionIs(f, cs, input_iMCU_row, yoffset, col);
      StoredIs(src, was, n);
      ghost var lay, left, before := LayoutOf(f, cs), src.left, whole;
      LayoutDistinct(f, cs);
      DistinctParts(lay, n);
      var ids := PointerList(f, cs, input_iMCU_row, yoffset, col);
      FindStored(Scatter(was, lay[..n], src.decoded[..n]), lay[n], left);
      var blocks := Fetch(ids);
      var m;
      ok, m := src.DecodeMcu(blocks);
      Store(ids, m);
      if ok {
        GivenIs(src, was);
        StoredNext(src, was, n, before, left);
      } else {
        StoreAgain(Scatter(was, lay[..n], src.decoded[..n]), lay[n], left, m);
        MakeStored(src, was, n);
      }
    }

    lemma GivenIs(src: Source, was: Coefs)
      requires Fits(src, was)
      ensures FrameOk(f) && CompsIn(f, cs) && Inside(LayoutOf(f, cs), was.Keys) && src.given == Gather(was, LayoutOf(f, cs))
    {
    }

    /** consume_data: as much of the current iMCU row as the decoder delivers. */
    method ConsumeRow(src: Source, ghost was: Coefs) returns (ok: bool)
      requires Valid() && input_iMCU_row < ImcuRows(f) && Stored(src, was, Here())
      modifies src, this
      ensures Valid() && Stored(src, was, Here())
      ensures ok ==> input_iMCU_row == old(input_iMCU_row) + 1 && |src.answers| <= |old(src.answers)|
      ensures !ok ==> input_iMCU_row == old(input_iMCU_row) && |src.answers| < |old(src.answers)|
    {
      hide *;
      UseValid();
      var i := input_iMCU_row;
      var yoffset := MCU_vert_offset;
      while yoffset < MCU_rows_per_iMCU_row
        invariant 0 <= yoffset <= MCU_rows_per_iMCU_row == RowsIn(f, cs, i) && input_iMCU_row == i
        invariant MCU_ctr < McusPerRow(f, cs) && (yoffset == MCU_rows_per_iMCU_row ==> MCU_ctr == 0)
        invariant Stored(src, was, Position(f, cs, i, yoffset, MCU_ctr)) && |src.answers| <= |old(src.answers)|
        decreases RowsIn(f, cs, i) - yoffset
      {
        var MCU_col_num := MCU_ctr;
        while MCU_col_num < McusPerRow(f, cs)
          invariant 0 <= MCU_col_num <= McusPerRow(f, cs) && input_iMCU_row == i
          invariant Stored(src, was, Position(f, cs, i, yoffset, MCU_col_num)) && |src.answers| <= |old(src.answers)|
          invariant MCU_ctr < McusPerRow(f, cs) && MCU_rows_per_iMCU_row == RowsIn(f, cs, i)
        {
          ok := ConsumeMcu(src, was, yoffset, MCU_col_num);
          if !ok {
            MCU_vert_offset := yoffset;
            MCU_ctr := MCU_col_num;
            MakeValid();
            return;
          }
          MCU_col_num := MCU_col_num + 1;
        }
        RowEnds(f, cs, i, yoffset);
        MCU_ctr := 0;
        yoffset := yoffset + 1;
      }
      RowEnds(f, cs, i, 0);
      input_iMCU_row := input_iMCU_row + 1;
      StartRow();
      HereIs();
      ok := true;
    }

    lemma UseValid()
      requires Valid()
      ensures FrameOk(f) && CompsIn(f, cs) && input_iMCU_row <= ImcuRows(f) && McusPerRow(f, cs) > 0
      ensures input_iMCU_row < ImcuRows(f) ==>
        MCU_rows_per_iMCU_row == RowsIn(f, cs, input_iMCU_row) && MCU_vert_offset < MCU_rows_per_iMCU_row && MCU_ctr < McusPerRow(f, cs)
      ensures Here() == Position(f, cs, input_iMCU_row, MCU_vert_offset, MCU_ctr)
    {
      RowsPositive(f, cs);
    }

    lemma HereIs()
      requires FrameOk(f) && CompsIn(f, cs)
      ensures Here() == Position(f, cs, input_iMCU_row, MCU_vert_offset, MCU_ctr)
    {
    }

    lemma MakeValid()
      requires FrameOk(f) && CompsIn(f, cs) && input_iMCU_row < ImcuRows(f)
      requires MCU_rows_per_iMCU_row == RowsIn(f, cs, input_iMCU_row) && MCU_vert_offset < MCU_rows_per_iMCU_row && MCU_ctr < McusPerRow(f, cs)
      ensures Valid() && Here() == Position(f, cs, input_iMCU_row, MCU_vert_offset, MCU_ctr)
    {
    }

    /** A whole scan, whatever the suspensions: every decoded MCU is stored where the layout has
        its blocks, and nothing else changes. */
    method ConsumeScan(src: Source)
      requires Valid() && input_iMCU_row == 0 && Here() == 0 && Fits(src, whole) && src.n == 0
      requires src.given != [] ==> src.left == src.given[0]
      modifies src, this
      ensures Fill(LayoutOf(f, cs), src.decoded) && Inside(LayoutOf(f, cs), old(whole).Keys)
      ensures whole == Scatter(old(whole), LayoutOf(f, cs), src.decoded)
    {
      hide *;
      ghost var was := whole;
      UseValid();
      StoredStart(src);
      while input_iMCU_row < ImcuRows(f)
        invariant Valid() && input_iMCU_row <= ImcuRows(f) && Stored(src, was, Here())
        decreases ImcuRows(f) - input_iMCU_row, |src.answers|
      {
        var ok := ConsumeRow(src, was);
        UseValid();
      }
      ConsumeEnd(src, was);
    }

    lemma ConsumeEnd(src: Source, was: Coefs)
      requires Valid() && input_iMCU_row == ImcuRows(f) && Stored(src, was, Here())
      ensures Fill(LayoutOf(f, cs), src.decoded) && Inside(LayoutOf(f, cs), was.Keys)
      ensures whole == Scatter(was, LayoutOf(f, cs), src.decoded)
    {
      BlockRows(f, cs[0]);
      RowEnds(f, cs, 0, 0);
      hide LayoutOf;
      hide Scatter;
      assert LayoutOf(f, cs)[..|LayoutOf(f, cs)|] == LayoutOf(f, cs);
      assert src.decoded[..|src.decoded|] == src.decoded;
    }
  }

  lemma GatherAt(img: Coefs, lay: Layout, n: nat)
    requires Inside(lay, img.Keys) && n < |lay|
    ensures Within(lay[n], img.Keys) && Gather(img, lay)[n] == Gather1(img, lay[n])
  {
    assert Within(lay[n], img.Keys);
    forall j | 0 <= j < |lay[n]| ensures Gather(img, lay)[n][j] == Gather1(img, lay[n])[j] {
      assert Gather(img, lay)[n][j] == img[lay[n][j]];
    }
  }
}
