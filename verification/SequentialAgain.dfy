/** decode_mcu of jdhuff.c block by block, and decoding an MCU again after a suspension: what
    the first attempt stored is stored again. */
module SequentialAgain {
  import opened Bits
  import opened BitStream
  import opened HuffTable
  import opened Tokens
  import opened Blocks
  import opened AcFirst
  import opened Scans
  import opened DecodeAgain
  import DcScan
  import Sequential

  // ---- One block ----

  lemma AcMore(t: Table, d: Block, k: nat, s: Src, sym: byte, s1: Src)
    requires k <= 63 && DecodeSym(t, s) == (sym, s1)
    ensures var r, z := sym / 16, sym % 16;
            && (z != 0 ==>
                  var v := Jcoef(Extend(s1.Peek(z), z));
                  && Sequential.DecAc(t, d, k, s) == Sequential.DecAc(t, d[Clamp(k + r) := v], k + r + 1, s1.Drop(z))
                  && Writes(t, k, Sequential.ALL_AC, s) == {Clamp(k + r)} + Writes(t, k + r + 1, Sequential.ALL_AC, s1.Drop(z)))
            && (z == 0 && r == 15 ==>
                  && Sequential.DecAc(t, d, k, s) == Sequential.DecAc(t, d, k + 16, s1)
                  && Writes(t, k, Sequential.ALL_AC, s) == Writes(t, k + 16, Sequential.ALL_AC, s1))
            && (z == 0 && r != 15 ==> Sequential.DecAc(t, d, k, s) == (d, s1) && Writes(t, k, Sequential.ALL_AC, s) == {})
  {
    hide DecodeSym;
    hide Extend;
    hide Jcoef;
    hide Clamp;
  }

  lemma AcEnd(t: Table, d: Block, k: nat, s: Src)
    requires k > 63
    ensures Sequential.DecAc(t, d, k, s) == (d, s) && Writes(t, k, Sequential.ALL_AC, s) == {}
  {
  }

  lemma {:induction false} AcAgain(t: Table, d: Block, e: Block, k: nat, a: Src, b: Src, dw: int)
    requires Same(a, b, dw) && Off(d, e, Writes(t, k, Sequential.ALL_AC, a))
    ensures var x, y := Sequential.DecAc(t, d, k, a), Sequential.DecAc(t, e, k, b); x.0 == y.0 && Same(x.1, y.1, dw)
    decreases 64 - k
  {
    hide *;
    if k > 63 {
      AcEnd(t, d, k, a);
      AcEnd(t, e, k, b);
      OffNone(d, e);
    } else {
      SymSame(t, a, b, dw);
      var (sym, a1) := DecodeSym(t, a);
      var b1 := DecodeSym(t, b).1;
      AcMore(t, d, k, a, sym, a1);
      AcMore(t, e, k, b, sym, b1);
      var r, z := sym / 16, sym % 16;
      if z != 0 {
        SameTake(a1, b1, z, dw);
        var v := Jcoef(Extend(a1.Peek(z), z));
        OffStore(d, e, Clamp(k + r), Writes(t, k + r + 1, Sequential.ALL_AC, a1.Drop(z)), v);
        AcAgain(t, d[Clamp(k + r) := v], e[Clamp(k + r) := v], k + r + 1, a1.Drop(z), b1.Drop(z), dw);
      } else if r == 15 {
        AcAgain(t, d, e, k + 16, a1, b1, dw);
      } else {
        OffNone(d, e);
      }
    }
  }

  /** Decoding stores nowhere else. */
  lemma {:induction false} AcStores(t: Table, d: Block, k: nat, s: Src)
    ensures Off(d, Sequential.DecAc(t, d, k, s).0, Writes(t, k, Sequential.ALL_AC, s))
    decreases 64 - k
  {
    hide *;
    if k > 63 {
      AcEnd(t, d, k, s);
      OffRefl(d, {});
    } else {
      var (sym, s1) := DecodeSym(t, s);
      AcMore(t, d, k, s, sym, s1);
      var r, z := sym / 16, sym % 16;
      if z != 0 {
        var v := Jcoef(Extend(s1.Peek(z), z));
        AcStores(t, d[Clamp(k + r) := v], k + r + 1, s1.Drop(z));
        OffPast(d, Clamp(k + r), v, Sequential.DecAc(t, d, k, s).0, Writes(t, k + r + 1, Sequential.ALL_AC, s1.Drop(z)));
      } else if r == 15 {
        AcStores(t, d, k + 16, s1);
      } else {
        OffRefl(d, {});
      }
    }
  }

  lemma OffRefl(d: Block, at: set<nat>)
    ensures Off(d, d, at)
  {
  }

  lemma OffPast(d: Block, i: nat, v: Coef, e: Block, at: set<nat>)
    requires i < 64 && Off(d[i := v], e, at)
    ensures Off(d, e, {i} + at)
  {
  }

  /** The stream after the DC difference of a block. */
  function AfterDc(dct: Table, s: Src): Src
  {
    var (z, s1) := DecodeSym(dct, s);
    s1.Drop(z)
  }

  /** The DC difference itself. */
  function DiffOf(dct: Table, s: Src): int
  {
    var (z, s1) := DecodeSym(dct, s);
    DcScan.DiffValue(z, s1)
  }

  /** The positions DecBlock stores to. */
  function BlockWrites(dct: Table, act: Table, s: Src): set<nat> { {0} + Writes(act, 1, Sequential.ALL_AC, AfterDc(dct, s)) }

  lemma BlockIs(dct: Table, act: Table, d: Block, pred: int, s: Src)
    ensures var v := DiffOf(dct, s) + pred;
            var x := Sequential.DecAc(act, d[0 := Jcoef(v)], 1, AfterDc(dct, s));
            Sequential.DecBlock(dct, act, d, pred, s) == (x.0, v, x.1)
    ensures BlockWrites(dct, act, s) == {0} + Writes(act, 1, Sequential.ALL_AC, AfterDc(dct, s))
  {
    hide DecodeSym;
    hide Sequential.DecAc;
    hide Writes;
    hide DcScan.DiffValue;
  }

  lemma AfterSame(dct: Table, a: Src, b: Src, dw: int)
    requires Same(a, b, dw)
    ensures Same(AfterDc(dct, a), AfterDc(dct, b), dw) && DiffOf(dct, a) == DiffOf(dct, b)
  {
    hide DecodeSym;
    hide Extend;
    SymSame(dct, a, b, dw);
    SameTake(DecodeSym(dct, a).1, DecodeSym(dct, b).1, DecodeSym(dct, a).0, dw);
  }

  lemma BlockAgain(dct: Table, act: Table, d: Block, e: Block, pred: int, a: Src, b: Src, dw: int)
    requires Same(a, b, dw) && Off(d, e, BlockWrites(dct, act, a))
    ensures var x, y := Sequential.DecBlock(dct, act, d, pred, a), Sequential.DecBlock(dct, act, e, pred, b);
            x.0 == y.0 && x.1 == y.1 && Same(x.2, y.2, dw)
  {
    hide *;
    BlockIs(dct, act, d, pred, a);
    BlockIs(dct, act, e, pred, b);
    AfterSame(dct, a, b, dw);
    var v := Jcoef(DiffOf(dct, a) + pred);
    OffStore(d, e, 0, Writes(act, 1, Sequential.ALL_AC, AfterDc(dct, a)), v);
    AcAgain(act, d[0 := v], e[0 := v], 1, AfterDc(dct, a), AfterDc(dct, b), dw);
  }

  lemma BlockStores(dct: Table, act: Table, d: Block, pred: int, s: Src)
    ensures Off(d, Sequential.DecBlock(dct, act, d, pred, s).0, BlockWrites(dct, act, s))
  {
    hide *;
    BlockIs(dct, act, d, pred, s);
    var v := Jcoef(DiffOf(dct, s) + pred);
    AcStores(act, d[0 := v], 1, AfterDc(dct, s));
    OffPast(d, 0, v, Sequential.DecBlock(dct, act, d, pred, s).0, Writes(act, 1, Sequential.ALL_AC, AfterDc(dct, s)));
  }

  // ---- The blocks of an MCU in turn ----

  ghost predicate WholeShape(sc: Scan, tbls: Tables, m: Mcu, preds: seq<int>)
  {
    && DcShape(sc, tbls, m, preds) && |sc.acTbls| == |sc.dcTbl|
    && forall i :: 0 <= i < |sc.acTbls| ==> sc.acTbls[i] < |tbls|
  }

  /** The predictions and the stream before block n. */
  ghost function Upto(sc: Scan, tbls: Tables, m: Mcu, preds: seq<int>, s: Src, n: nat): (r: (seq<int>, Src))
    requires WholeShape(sc, tbls, m, preds) && n <= |m|
    ensures |r.0| == |preds|
    decreases n, 0
  {
    if n == 0 then (preds, s)
    else
      var x := BlockAt(sc, tbls, m, preds, s, n - 1);
      (Upto(sc, tbls, m, preds, s, n - 1).0[sc.members[n - 1] := x.1], x.2)
  }

  /** Block n as decoded, its DC value, and the stream after it. */
  ghost function BlockAt(sc: Scan, tbls: Tables, m: Mcu, preds: seq<int>, s: Src, n: nat): (Block, int, Src)
    requires WholeShape(sc, tbls, m, preds) && n < |m|
    decreases n, 1
  {
    var c := sc.members[n];
    var u := Upto(sc, tbls, m, preds, s, n);
    Sequential.DecBlock(tbls[sc.dcTbl[c]], tbls[sc.acTbls[c]], m[n], u.0[c], u.1)
  }

  ghost function WritesAt(sc: Scan, tbls: Tables, m: Mcu, preds: seq<int>, s: Src, n: nat): set<nat>
    requires WholeShape(sc, tbls, m, preds) && n < |m|
  {
    BlockWrites(tbls[sc.dcTbl[sc.members[n]]], tbls[sc.acTbls[sc.members[n]]], Upto(sc, tbls, m, preds, s, n).1)
  }

  /** The blocks of the MCU as decoded. */
  ghost function Results(sc: Scan, tbls: Tables, m: Mcu, preds: seq<int>, s: Src): (r: Mcu)
    requires WholeShape(sc, tbls, m, preds)
    ensures |r| == |m| && forall i :: 0 <= i < |m| ==> r[i] == BlockAt(sc, tbls, m, preds, s, i).0
  {
    seq(|m|, i requires 0 <= i < |m| => BlockAt(sc, tbls, m, preds, s, i).0)
  }

  lemma UptoNext(sc: Scan, tbls: Tables, m: Mcu, preds: seq<int>, s: Src, n: nat)
    requires WholeShape(sc, tbls, m, preds) && n < |m|
    ensures |m| == |sc.members| && sc.members[n] < |preds| == |sc.dcTbl| == |sc.acTbls|
    ensures sc.dcTbl[sc.members[n]] < |tbls| && sc.acTbls[sc.members[n]] < |tbls|
    ensures var c, u, x := sc.members[n], Upto(sc, tbls, m, preds, s, n), BlockAt(sc, tbls, m, preds, s, n);
            && Upto(sc, tbls, m, preds, s, n + 1) == (u.0[c := x.1], x.2)
            && x == Sequential.DecBlock(tbls[sc.dcTbl[c]], tbls[sc.acTbls[c]], m[n], u.0[c], u.1)
            && WritesAt(sc, tbls, m, preds, s, n) == BlockWrites(tbls[sc.dcTbl[c]], tbls[sc.acTbls[c]], u.1)
  {
    hide Sequential.DecBlock;
    hide BlockWrites;
  }

  lemma UptoStart(sc: Scan, tbls: Tables, m: Mcu, preds: seq<int>, s: Src)
    requires WholeShape(sc, tbls, m, preds)
    ensures Upto(sc, tbls, m, preds, s, 0) == (preds, s)
  {
  }

  /** decode_mcu is its blocks in turn. */
  lemma {:induction false} McuFrom(sc: Scan, tbls: Tables, m: Mcu, preds: seq<int>, s: Src, i: nat)
    requires WholeShape(sc, tbls, m, preds) && i <= |m|
    ensures var u := Upto(sc, tbls, m, preds, s, i);
            Sequential.DecMcu(tbls, sc.dcTbl, sc.acTbls, sc.members[i..], m[i..], u.0, u.1)
            == (Results(sc, tbls, m, preds, s)[i..], Upto(sc, tbls, m, preds, s, |m|).0, Upto(sc, tbls, m, preds, s, |m|).1)
    decreases |m| - i
  {
    hide Sequential.DecBlock;
    hide Upto;
    hide BlockAt;
    hide Results;
    var u := Upto(sc, tbls, m, preds, s, i);
    var rs := Results(sc, tbls, m, preds, s);
    if i == |m| {
      assert rs[i..] == [] && m[i..] == [];
    } else {
      assert rs[i..] == [rs[i]] + rs[i + 1..];
      UptoNext(sc, tbls, m, preds, s, i);
      McuFrom(sc, tbls, m, preds, s, i + 1);
      assert sc.members[i..][1..] == sc.members[i + 1..] && m[i..][1..] == m[i + 1..];
      Sequential.DecMcuCons(tbls, sc.dcTbl, sc.acTbls, sc.members[i..], m[i..], u.0, u.1);
    }
  }

  /** One MCU of a sequential scan; past the end of the data it is left alone. */
  ghost function WholeRun(sc: Scan, tbls: Tables, m: Mcu, preds: seq<int>, s: Src): (Mcu, seq<int>, Src)
    requires WholeShape(sc, tbls, m, preds)
  {
    if s.starved then (m, preds, s) else Sequential.DecMcu(tbls, sc.dcTbl, sc.acTbls, sc.members, m, preds, s)
  }

  lemma WholeRunIs(sc: Scan, tbls: Tables, m: Mcu, preds: seq<int>, s: Src)
    requires WholeShape(sc, tbls, m, preds)
    ensures WholeRun(sc, tbls, m, preds, s)
            == if s.starved then (m, preds, s)
               else (Results(sc, tbls, m, preds, s), Upto(sc, tbls, m, preds, s, |m|).0, Upto(sc, tbls, m, preds, s, |m|).1)
  {
    hide Sequential.DecMcu;
    hide Results;
    McuFrom(sc, tbls, m, preds, s, 0);
    UptoStart(sc, tbls, m, preds, s);
    assert sc.members[0..] == sc.members && m[0..] == m;
    assert Results(sc, tbls, m, preds, s)[0..] == Results(sc, tbls, m, preds, s);
  }

  /** e is what an interrupted attempt may have left of m. */
  ghost predicate Partly(sc: Scan, tbls: Tables, m: Mcu, e: Mcu, preds: seq<int>, s: Src)
    requires WholeShape(sc, tbls, m, preds)
  {
    |e| == |m| && forall i :: 0 <= i < |m| ==> Off(m[i], e[i], WritesAt(sc, tbls, m, preds, s, i))
  }

  lemma PartlyAt(sc: Scan, tbls: Tables, m: Mcu, e: Mcu, preds: seq<int>, s: Src, n: nat)
    requires WholeShape(sc, tbls, m, preds) && Partly(sc, tbls, m, e, preds, s) && n < |m|
    ensures |e| == |m| && Off(m[n], e[n], WritesAt(sc, tbls, m, preds, s, n))
  {
  }

  /** A second attempt goes through the same predictions and bits. */
  lemma {:induction false} UptoAgain(sc: Scan, tbls: Tables, m: Mcu, e: Mcu, preds: seq<int>, a: Src, b: Src, n: nat, dw: int)
    requires WholeShape(sc, tbls, m, preds) && WholeShape(sc, tbls, e, preds) && Same(a, b, dw) && n <= |m| == |e|
    requires Partly(sc, tbls, m, e, preds, a)
    ensures var u, v := Upto(sc, tbls, m, preds, a, n), Upto(sc, tbls, e, preds, b, n); u.0 == v.0 && Same(u.1, v.1, dw)
    ensures n > 0 ==> BlockAt(sc, tbls, m, preds, a, n - 1).0 == BlockAt(sc, tbls, e, preds, b, n - 1).0
    decreases n
  {
    hide *;
    if n == 0 {
      UptoStart(sc, tbls, m, preds, a);
      UptoStart(sc, tbls, e, preds, b);
    } else {
      UptoAgain(sc, tbls, m, e, preds, a, b, n - 1, dw);
      UptoNext(sc, tbls, m, preds, a, n - 1);
      UptoNext(sc, tbls, e, preds, b, n - 1);
      PartlyAt(sc, tbls, m, e, preds, a, n - 1);
      var c := sc.members[n - 1];
      var u, v := Upto(sc, tbls, m, preds, a, n - 1), Upto(sc, tbls, e, preds, b, n - 1);
      BlockAgain(tbls[sc.dcTbl[c]], tbls[sc.acTbls[c]], m[n - 1], e[n - 1], u.0[c], u.1, v.1, dw);
    }
  }

  /** Decoding a sequential MCU again, after an attempt that had to suspend. */
  lemma WholeAgain(sc: Scan, tbls: Tables, m: Mcu, e: Mcu, preds: seq<int>, a: Src, b: Src, dw: int)
    requires WholeShape(sc, tbls, m, preds) && WholeShape(sc, tbls, e, preds) && Same(a, b, dw) && !a.starved && |m| == |e|
    requires Partly(sc, tbls, m, e, preds, a)
    ensures var x, y := WholeRun(sc, tbls, m, preds, a), WholeRun(sc, tbls, e, preds, b);
            x.0 == y.0 && x.1 == y.1 && Same(x.2, y.2, dw)
  {
    hide Upto;
    hide BlockAt;
    hide WholeRun;
    hide Partly;
    hide WholeShape;
    WholeRunIs(sc, tbls, m, preds, a);
    WholeRunIs(sc, tbls, e, preds, b);
    UptoAgain(sc, tbls, m, e, preds, a, b, |m|, dw);
    forall i | 0 <= i < |m| ensures Results(sc, tbls, m, preds, a)[i] == Results(sc, tbls, e, preds, b)[i] {
      UptoAgain(sc, tbls, m, e, preds, a, b, i + 1, dw);
    }
    assert Results(sc, tbls, m, preds, a) == Results(sc, tbls, e, preds, b);
  }

  /** The blocks before n complete, block n perhaps begun, the others untouched. */
  lemma PartlyMade(sc: Scan, tbls: Tables, m: Mcu, e: Mcu, preds: seq<int>, s: Src, n: nat)
    requires WholeShape(sc, tbls, m, preds) && |e| == |m| && n < |m|
    requires forall i :: 0 <= i < |m| && i != n ==> e[i] == if i < n then Results(sc, tbls, m, preds, s)[i] else m[i]
    requires Off(m[n], e[n], WritesAt(sc, tbls, m, preds, s, n))
    ensures Partly(sc, tbls, m, e, preds, s)
  {
    hide Off;
    hide WritesAt;
    hide BlockAt;
    hide Upto;
    hide WholeShape;
    forall i | 0 <= i < |m| ensures Off(m[i], e[i], WritesAt(sc, tbls, m, preds, s, i)) {
      if i < n {
        UptoNext(sc, tbls, m, preds, s, i);
        var c, u := sc.members[i], Upto(sc, tbls, m, preds, s, i);
        BlockStores(tbls[sc.dcTbl[c]], tbls[sc.acTbls[c]], m[i], u.0[c], u.1);
      } else if i > n {
        OffRefl(m[i], WritesAt(sc, tbls, m, preds, s, i));
      }
    }
  }
}
