/** The Huffman encoders of jcphuff.c and jchuff.c. Their methods are proved against the
    functions of EobRun, AcFirst, AcRefine, DcScan and Restart, which are what the round
    trips are about. */
module EntropyEncoder {
  import opened Bits
  import opened Bytes
  import opened HuffTable
  import opened Tokens
  import opened EobRun
  import opened Blocks
  import opened AcFirst
  import opened AcRefine
  import opened AcScan
  import opened Scans
  import opened Restart
  import opened Emitter
  import opened EncodeSteps
  import opened SegmentCode
  import DcScan

  class Encoder {
    const sc: Scan
    const e: Emitter
    const bitBuffer: array<bool>    // bit_buffer: correction bits
    const lastDc: array<int>        // last_dc_val
    var EOBRUN: nat
    var BE: nat
    var restartsToGo: nat
    var nextRestartNum: nat
    ghost var prior: seq<seq<Mcu>>  // the MCUs of the segments already closed
    ghost var coded: seq<Mcu>       // the MCUs of the open segment

    constructor (sc: Scan, gather: bool, codes: seq<CodeTable>, ghost tbls: Tables, ntbls: nat)
      ensures this.sc == sc && fresh(e) && fresh(e.w) && fresh(e.counts) && fresh(bitBuffer) && fresh(lastDc)
      ensures e.gather == gather && e.codes == codes && e.tbls == tbls && e.counts.Length0 == ntbls
      ensures e.Valid() && e.earlier == e.emitted == [] && e.w.done == e.w.out == []
      ensures bitBuffer.Length == MAX_CORR_BITS && lastDc.Length == |sc.dcTbl| && forall i :: 0 <= i < lastDc.Length ==> lastDc[i] == 0
      ensures EOBRUN == BE == nextRestartNum == 0 && restartsToGo == sc.interval && prior == [] && coded == []
    {
      this.sc := sc;
      e := new Emitter(gather, codes, tbls, ntbls);
      bitBuffer := new bool[MAX_CORR_BITS];
      lastDc := new int[|sc.dcTbl|](i => 0);
      EOBRUN, BE, restartsToGo, nextRestartNum := 0, 0, sc.interval, 0;
      prior, coded := [], [];
    }

    /** The component and table numbers of the scan are in range, and every table the scan
        needs was accepted; never changed after start_pass. */
    ghost predicate TablesOk()
    {
      && ScanOk(sc, e.tbls) && |e.tbls| == e.counts.Length0
      && bitBuffer.Length == MAX_CORR_BITS && lastDc.Length == |sc.dcTbl|
      && (!e.gather && sc.p.Ss != 0 ==> Derived(e.codes, e.tbls, sc.acTbl))
      && (!e.gather && sc.p.Ss == 0 && sc.p.Ah == 0 ==> forall i :: 0 <= i < |sc.dcTbl| ==> Derived(e.codes, e.tbls, sc.dcTbl[i]))
      && (!e.gather && sc.p == SEQUENTIAL ==> forall i :: 0 <= i < |sc.acTbls| ==> Derived(e.codes, e.tbls, sc.acTbls[i]))
    }

    /** The table can be used for symbols, or just for counting them. */
    ghost predicate HasTable(tbl: nat)
    {
      tbl < e.counts.Length0 && (e.gather || Derived(e.codes, e.tbls, tbl))
    }

    /** The encoder and its emitter are usable. */
    ghost predicate Linked()
      reads `EOBRUN, `BE, e, e.w, e.counts
      ensures Linked() ==> BE <= bitBuffer.Length
    {
      TablesOk() && e.Valid() && BE <= bitBuffer.Length && EOBRUN <= 0x7FFF
    }

    /** The state of the open end-of-band run. */
    ghost function Cur(): RunState
      requires BE <= bitBuffer.Length
      reads `EOBRUN, `BE, e, bitBuffer
    {
      RunState(e.emitted, EOBRUN, bitBuffer[..BE])
    }

    /** emit_buffered_bits: n bits of the buffer from `start` on. */
    method EmitBufferedBits(start: nat, n: nat)
      requires e.Valid() && start + n <= bitBuffer.Length
      modifies e`emitted, e.w
      ensures e.Valid() && e.emitted == old(e.emitted) + Raws(bitBuffer[start..start + n])
      ensures e.w.done == old(e.w.done) && (e.gather ==> e.w.out == old(e.w.out))
    {
      ghost var bits, before := bitBuffer[start..start + n], e.emitted;
      assert before + Raws([]) == before;
      var i := 0;
      while i < n
        invariant 0 <= i <= n && e.Valid() && e.emitted == before + Raws(bits[..i])
        invariant bitBuffer[start..start + n] == bits
        invariant e.w.done == old(e.w.done) && (e.gather ==> e.w.out == old(e.w.out))
      {
        RawsSnoc(before, bits, i);
        assert bits[i] == bitBuffer[start + i];
        e.EmitBits(if bitBuffer[start + i] then 1 else 0, 1);
        i := i + 1;
      }
      assert bits[..n] == bits;
    }

    lemma UseLinked()
      requires Linked()
      ensures TablesOk() && e.Valid() && e.counts.Length1 == 257 && bitBuffer.Length == MAX_CORR_BITS && lastDc.Length == |sc.dcTbl| && BE <= bitBuffer.Length && EOBRUN <= 0x7FFF
      ensures sc.acTbl < e.counts.Length0 && (e.gather || sc.p.Ss == 0 || Derived(e.codes, e.tbls, sc.acTbl))
      ensures sc.p.Ss != 0 ==> HasTable(sc.acTbl)
      ensures e.gather || AllWritable(e.tbls, e.emitted)
      ensures Cur() == RunState(e.emitted, EOBRUN, bitBuffer[..BE])
    {
    }

    lemma MakeLinked()
      requires TablesOk() && e.Valid() && BE <= bitBuffer.Length && EOBRUN <= 0x7FFF
      ensures Linked() && Cur() == RunState(e.emitted, EOBRUN, bitBuffer[..BE])
      ensures e.gather || AllWritable(e.tbls, e.emitted)
    {
    }

    /** The end-of-band symbol of the open run and the low bits of its length. */
    method EmitRunSymbol() returns (ok: bool)
      requires Linked() && EOBRUN > 0 && sc.p.Ss != 0
      modifies e`emitted, e.w, e.counts
      ensures ok <==> e.gather || Writable(e.tbls, EobTokens(sc.acTbl, EOBRUN)[0])
      ensures ok ==> Linked() && e.emitted == old(e.emitted) + EobTokens(sc.acTbl, EOBRUN)
      ensures e.w.done == old(e.w.done) && (e.gather ==> e.w.out == old(e.w.out))
    {
      hide *;
      UseLinked();
      RunFits(EOBRUN);
      RunTokens(sc.acTbl, EOBRUN, e.emitted);
      var nbits := Log2(EOBRUN);
      ok := e.EmitSymbol(sc.acTbl, 16 * nbits);
      if !ok { return; }
      if nbits > 0 { e.EmitBits(EOBRUN, nbits); }
      MakeLinked();
    }

    /** emit_eobrun: the symbol of the open run, then the buffered correction bits. */
    method EmitEobrun() returns (ok: bool)
      requires Linked() && (EOBRUN > 0 ==> sc.p.Ss != 0)
      modifies this`EOBRUN, this`BE, e`emitted, e.w, e.counts
      ensures ok <==> e.gather || AllWritable(e.tbls, Flush(sc.acTbl, old(Cur())).out)
      ensures ok ==> Linked() && Cur() == Flush(sc.acTbl, old(Cur()))
      ensures e.w.done == old(e.w.done) && (e.gather ==> e.w.out == old(e.w.out))
    {
      hide *;
      UseLinked();
      ghost var st := Cur();
      FlushParts(e.gather, e.tbls, sc.acTbl, st);
      if EOBRUN == 0 { return true; }
      ok := EmitRunSymbol();
      if !ok { return; }
      UseLinked();
      EOBRUN := 0;
      assert bitBuffer[0..0 + BE] == st.be;
      EmitBufferedBits(0, BE);
      BE := 0;
      assert bitBuffer[..BE] == [];
      MakeLinked();
    }

    lemma UseTable(tbl: nat)
      requires HasTable(tbl)
      ensures tbl < e.counts.Length0 && (e.gather || Derived(e.codes, e.tbls, tbl))
    {
    }

    /** The ZRL symbols for the zeroes in excess of 15. */
    method EmitZrls(tbl: nat, r0: nat) returns (ok: bool, r: nat)
      requires Linked() && HasTable(tbl)
      modifies e`emitted, e.w, e.counts
      ensures ok <==> e.gather || AllWritable(e.tbls, old(e.emitted) + Zrls(tbl, r0))
      ensures ok ==> Linked() && e.emitted == old(e.emitted) + Zrls(tbl, r0) && r == r0 % 16
      ensures e.w.done == old(e.w.done) && (e.gather ==> e.w.out == old(e.w.out))
    {
      hide *;
      UseTable(tbl);
      ghost var whole := e.emitted + Zrls(tbl, r0);
      r := r0;
      ZrlsNext(tbl, r, e.emitted);
      while r > 15
        invariant Linked() && r % 16 == r0 % 16 && e.emitted + Zrls(tbl, r) == whole
        invariant if r > 15 then e.emitted + [Sym(tbl, 0xF0)] + Zrls(tbl, r - 16) == whole else e.emitted == whole
        invariant e.w.done == old(e.w.done) && (e.gather ==> e.w.out == old(e.w.out))
      {
        UseLinked();
        ok := e.EmitSymbol(tbl, 0xF0);
        if !ok { Refused(e.tbls, old(e.emitted), whole, Sym(tbl, 0xF0)); return; }
        MakeLinked();
        r := r - 16;
        ZrlsNext(tbl, r, e.emitted);
      }
      UseLinked();
      ok := true;
    }

    /** The zero runs, the symbol and the value of one coefficient of a first AC scan
        or of a sequential block;
        temp is the magnitude and temp2 the bits to send. */
    method EmitCoef(tbl: nat, r0: nat, temp: nat, temp2: int, ghost t: int) returns (ok: bool)
      requires Linked() && HasTable(tbl) && t != 0 && temp == Abs(t) && temp2 == Field(t)
      modifies e`emitted, e.w, e.counts
      ensures ok <==> NBits(temp) <= MAX_COEF_BITS && (e.gather || AllWritable(e.tbls, old(e.emitted) + FirstFront(tbl, r0, t)))
      ensures ok ==> Linked() && e.emitted == old(e.emitted) + FirstFront(tbl, r0, t)
      ensures e.w.done == old(e.w.done) && (e.gather ==> e.w.out == old(e.w.out))
    {
      hide *;
      UseTable(tbl);
      AbsNonzero(t);
      FrontParts(e.gather, e.tbls, e.emitted, tbl, r0, t);
      var r: nat;
      ok, r := EmitZrls(tbl, r0);
      if !ok { return; }
      UseLinked();
      var n := Log2(temp);
      var nbits := n + 1;
      if nbits > MAX_COEF_BITS { return false; }
      ok := e.EmitSymbol(tbl, 16 * r + nbits);
      if !ok { return; }
      e.EmitBits(temp2, nbits);
      MakeLinked();
    }

    /** The end of a block: count an end-of-band, forcing the run out when its counter or
        the correction bit buffer would overflow. */
    method CountEob(trailing: bool, br: nat) returns (ok: bool)
      requires Linked() && sc.p.Ss != 0 && EOBRUN < 0x7FFF && BE + br <= MAX_CORR_BITS
      modifies this`EOBRUN, this`BE, e`emitted, e.w, e.counts
      ensures var st := Trail(sc.acTbl, old(Cur()), BlockCode([], trailing, old(bitBuffer[BE..BE + br])));
              (ok <==> e.gather || AllWritable(e.tbls, st.out)) && (ok ==> Linked() && Cur() == st)
      ensures e.w.done == old(e.w.done) && (e.gather ==> e.w.out == old(e.w.out))
    {
      hide *;
      UseLinked();
      TrailIs(sc.acTbl, Cur(), trailing, bitBuffer[BE..BE + br]);
      if !trailing { return true; }
      ghost var be := bitBuffer[..BE] + bitBuffer[BE..BE + br];
      EOBRUN := EOBRUN + 1;
      BE := BE + br;
      assert bitBuffer[..BE] == be;
      MakeLinked();
      if EOBRUN == 0x7FFF || BE > MAX_CORR_BITS - DCTSIZE2 + 1 {
        ok := EmitEobrun();
      } else {
        ok := true;
      }
    }

    /** A nonzero coefficient: first the open run, then its own zeroes, symbol and value. */
    method CloseRunAndEmit(r: nat, temp: nat, temp2: int, ghost t: int) returns (ok: bool)
      requires Linked() && sc.p.Ss != 0 && t != 0 && temp == Abs(t) && temp2 == Field(t) && Pending(Cur())
      modifies this`EOBRUN, this`BE, e`emitted, e.w, e.counts
      ensures var out := Flush(sc.acTbl, old(Cur())).out + FirstFront(sc.acTbl, r, t);
              && (ok <==> NBits(temp) <= MAX_COEF_BITS && (e.gather || AllWritable(e.tbls, out)))
              && (ok ==> Linked() && Cur() == RunState(out, 0, []))
      ensures e.w.done == old(e.w.done) && (e.gather ==> e.w.out == old(e.w.out))
    {
      hide *;
      ghost var st := Cur();
      UseLinked();
      FlushEmpties(sc.acTbl, st);
      ok := true;
      if EOBRUN > 0 { ok := EmitEobrun(); }
      ghost var front := FirstFront(sc.acTbl, r, t);
      FrontWritable(e.tbls, Flush(sc.acTbl, st).out, front);
      if !ok { return; }
      UseLinked();
      ok := EmitCoef(sc.acTbl, r, temp, temp2, t);
      if ok { UseLinked(); }
    }

    /** encode_mcu_AC_first on the block of the MCU. */
    method EncodeAcFirst(b: Block) returns (ok: bool)
      requires Linked() && AcParams(sc.p) && sc.p.Ah == 0 && Pending(Cur())
      modifies this`EOBRUN, this`BE, e`emitted, e.w, e.counts
      ensures var st := Step(sc.acTbl, old(Cur()), AcCode(sc.acTbl, b, sc.p));
              && (ok <==> AcInRange(b, sc.p) && (e.gather || AllWritable(e.tbls, st.out)))
              && (ok ==> Linked() && Cur() == st)
      ensures e.w.done == old(e.w.done) && (e.gather ==> e.w.out == old(e.w.out))
    {
      hide *;
      FirstBand(sc.acTbl, b, sc.p);
      ghost var fin := Step(sc.acTbl, Cur(), FirstCode(sc.acTbl, b, sc.p.Ss, 0, sc.p));
      var r: nat, k: nat := 0, sc.p.Ss;
      while k <= sc.p.Se
        invariant sc.p.Ss <= k <= sc.p.Se + 1
        invariant Linked() && Pending(Cur())
        invariant Step(sc.acTbl, Cur(), FirstCode(sc.acTbl, b, k, r, sc.p)) == fin
        invariant FirstInRange(b, sc.p.Ss, sc.p) <==> FirstInRange(b, k, sc.p)
        invariant e.w.done == old(e.w.done) && (e.gather ==> e.w.out == old(e.w.out))
      {
        var temp: int := b[k];
        Transform(temp, sc.p.Al);
        if temp == 0 {
          FirstZero(sc.acTbl, b, k, r, sc.p);
          r := r + 1;
        } else {
          var temp2: int;
          if temp < 0 {
            temp := 0 - temp;
            temp := Shr(temp, sc.p.Al);
            temp2 := 0 - temp - 1;      // bitwise complement
          } else {
            temp := Shr(temp, sc.p.Al);
            temp2 := temp;
          }
          if temp == 0 {
            FirstZero(sc.acTbl, b, k, r, sc.p);
            r := r + 1;
          } else {
            FlushEmpties(sc.acTbl, Cur());
            FirstCoef(sc.acTbl, Cur(), b, k, r, sc.p);
            PrefixWritable(e.tbls, Flush(sc.acTbl, Cur()).out + FirstFront(sc.acTbl, r, PtAc(b[k], sc.p.Al)), fin.out);
            ok := CloseRunAndEmit(r, temp, temp2, PtAc(b[k], sc.p.Al));
            if !ok { return; }
            r := 0;
            EmptyPending(Cur().out);
          }
        }
        k := k + 1;
      }
      FirstEnd(sc.acTbl, b, k, r, sc.p);
      NoHead(sc.acTbl, Cur(), r > 0, []);
      UseLinked();
      FlushEmpties(sc.acTbl, Cur());
      assert bitBuffer[BE..BE + 0] == [];
      ok := CountEob(r > 0, 0);
    }

    /** The pre-pass of encode_mcu_AC_refine: the transformed magnitudes, and the position of
        the last coefficient that becomes nonzero in this scan. */
    method AbsValues(b: Block) returns (absvalues: array<nat>, EOB: nat)
      requires AcParams(sc.p)
      ensures fresh(absvalues) && absvalues.Length == 64 && EOB == EobPos(b, sc.p.Ss, 0, sc.p)
      ensures if NoNew(b, sc.p.Ss, sc.p.Se + 1, sc.p) then EOB == 0
              else sc.p.Ss <= EOB <= sc.p.Se && Mag(b[EOB], sc.p.Al) == 1 && NoNew(b, EOB + 1, sc.p.Se + 1, sc.p)
      ensures forall j :: sc.p.Ss <= j <= sc.p.Se ==> absvalues[j] == Mag(b[j], sc.p.Al)
    {
      hide *;
      BandIs(sc.p);
      EobPosIs(b, sc.p.Ss, 0, sc.p);
      absvalues := new nat[64];
      EOB := 0;
      var k := sc.p.Ss;
      while k <= sc.p.Se
        invariant sc.p.Ss <= k <= sc.p.Se + 1
        invariant EobPos(b, k, EOB, sc.p) == EobPos(b, sc.p.Ss, 0, sc.p)
        invariant forall j :: sc.p.Ss <= j < k ==> absvalues[j] == Mag(b[j], sc.p.Al)
      {
        EobPosStep(b, k, EOB, sc.p);
        var temp: int := b[k];
        if temp < 0 { temp := 0 - temp; }
        temp := Shr(temp, sc.p.Al);
        absvalues[k] := temp;
        if temp == 1 { EOB := k; }
        k := k + 1;
      }
      EobPosStep(b, k, EOB, sc.p);
    }

    /** A symbol that closes the open run. */
    method CloseRunAndSymbol(s: nat) returns (ok: bool)
      requires Linked() && sc.p.Ss != 0 && s < 256 && Pending(Cur())
      modifies this`EOBRUN, this`BE, e`emitted, e.w, e.counts
      ensures var out := Flush(sc.acTbl, old(Cur())).out + [Sym(sc.acTbl, s)];
              && (ok <==> e.gather || AllWritable(e.tbls, out))
              && (ok ==> Linked() && e.emitted == out && EOBRUN == BE == 0)
      ensures e.w.done == old(e.w.done) && (e.gather ==> e.w.out == old(e.w.out))
    {
      hide *;
      ghost var st := Cur();
      FlushEmpties(sc.acTbl, st);
      FrontWritable(e.tbls, Flush(sc.acTbl, st).out, [Sym(sc.acTbl, s)]);
      ok := EmitEobrun();
      if !ok { return; }
      UseLinked();
      SnocWritable(e.tbls, e.emitted, Sym(sc.acTbl, s));
      ok := e.EmitSymbol(sc.acTbl, s);
      if ok { MakeLinked(); }
    }

    /** A ZRL symbol and the correction bits that go with it. */
    method EmitZrl(start: nat, br: nat) returns (ok: bool)
      requires Linked() && sc.p.Ss != 0 && start + br <= bitBuffer.Length && Pending(Cur())
      modifies this`EOBRUN, this`BE, e`emitted, e.w, e.counts
      ensures var out := Flush(sc.acTbl, old(Cur())).out + ZrlFront(sc.acTbl, bitBuffer[start..start + br]);
              && (ok <==> e.gather || AllWritable(e.tbls, out))
              && (ok ==> Linked() && Cur() == RunState(out, 0, []))
      ensures e.w.done == old(e.w.done) && (e.gather ==> e.w.out == old(e.w.out))
    {
      hide *;
      ZrlParts(e.tbls, Flush(sc.acTbl, Cur()).out, sc.acTbl, bitBuffer[start..start + br]);
      ok := CloseRunAndSymbol(0xF0);
      if !ok { return; }
      UseLinked();
      EmitBufferedBits(start, br);
      assert bitBuffer[..BE] == [];
      MakeLinked();
    }

    /** The symbol of a newly nonzero coefficient, its sign, and the correction bits. */
    method EmitNew(r: nat, v: Coef, start: nat, br: nat) returns (ok: bool)
      requires Linked() && sc.p.Ss != 0 && r <= 15 && start + br <= bitBuffer.Length && Pending(Cur())
      modifies this`EOBRUN, this`BE, e`emitted, e.w, e.counts
      ensures var out := Flush(sc.acTbl, old(Cur())).out + NewFront(sc.acTbl, r, v, bitBuffer[start..start + br]);
              && (ok <==> e.gather || AllWritable(e.tbls, out))
              && (ok ==> Linked() && Cur() == RunState(out, 0, []))
      ensures e.w.done == old(e.w.done) && (e.gather ==> e.w.out == old(e.w.out))
    {
      hide *;
      NewParts(e.tbls, Flush(sc.acTbl, Cur()).out, sc.acTbl, r, v, bitBuffer[start..start + br]);
      ok := CloseRunAndSymbol(16 * r + 1);
      if !ok { return; }
      UseLinked();
      var temp := if v < 0 then 0 else 1;
      e.EmitBits(temp, 1);
      EmitBufferedBits(start, br);
      assert bitBuffer[..BE] == [];
      MakeLinked();
    }

    /** One more correction bit is pending. */
    method BufferBit(BR: nat, bit: bool)
      requires Linked() && BE + BR < bitBuffer.Length
      modifies bitBuffer
      ensures Linked() && Cur() == old(Cur()) && bitBuffer[BE..BE + BR + 1] == old(bitBuffer[BE..BE + BR]) + [bit]
    {
      ghost var be := bitBuffer[..BE];
      bitBuffer[BE + BR] := bit;
      assert bitBuffer[..BE] == be;
    }

    lemma RunClosed()
      requires Linked() && Cur() == RunState(Cur().out, 0, [])
      ensures BE == 0 && Pending(Cur()) && bitBuffer[BE..BE + 0] == []
    {
    }

    /** The ZRLs due before coefficient k; past the last new coefficient none are. */
    method EmitRequiredZrls(b: Block, k: nat, r0: nat, BR0: nat, EOB: nat, ghost fin: RunState) returns (ok: bool, r: nat, BR: nat)
      requires Linked() && AcParams(sc.p) && sc.p.Ss <= k <= sc.p.Se && Mag(b[k], sc.p.Al) > 0 && Pending(Cur())
      requires BE + 63 <= bitBuffer.Length == MAX_CORR_BITS && BR0 <= 63
      requires Step(sc.acTbl, Cur(), RefineCode(sc.acTbl, b, k, r0, bitBuffer[BE..BE + BR0], EOB, sc.p)) == fin
      modifies this`EOBRUN, this`BE, e`emitted, e.w, e.counts
      ensures !ok ==> !e.gather && !AllWritable(e.tbls, fin.out)
      ensures ok ==> Linked() && Pending(Cur()) && BE + 63 <= bitBuffer.Length && BR <= BR0 && r <= r0 && !(r > 15 && k <= EOB)
      ensures ok ==> Step(sc.acTbl, Cur(), RefineCode(sc.acTbl, b, k, r, bitBuffer[BE..BE + BR], EOB, sc.p)) == fin
      ensures e.w.done == old(e.w.done) && (e.gather ==> e.w.out == old(e.w.out))
    {
      hide *;
      AcBand(sc.p);
      r, BR := r0, BR0;
      while r > 15 && k <= EOB
        invariant Linked() && Pending(Cur()) && BE + 63 <= bitBuffer.Length && BR <= BR0 && r <= r0
        invariant Step(sc.acTbl, Cur(), RefineCode(sc.acTbl, b, k, r, bitBuffer[BE..BE + BR], EOB, sc.p)) == fin
        invariant e.w.done == old(e.w.done) && (e.gather ==> e.w.out == old(e.w.out))
      {
        ghost var br := bitBuffer[BE..BE + BR];
        RefineZrl(sc.acTbl, Cur(), b, k, r, br, EOB, sc.p);
        PrefixWritable(e.tbls, Flush(sc.acTbl, Cur()).out + ZrlFront(sc.acTbl, br), fin.out);
        ok := EmitZrl(BE, BR);
        if !ok { return; }
        r := r - 16;
        BR := 0;
        RunClosed();
      }
      ok := true;
    }

    /** A nonzero coefficient: the ZRLs due before it, then a correction bit for later, or the
        symbol of a newly nonzero one. */
    method RefineCoef(b: Block, temp: nat, k: nat, r0: nat, BR0: nat, EOB: nat, ghost fin: RunState) returns (ok: bool, r: nat, BR: nat)
      requires Linked() && AcParams(sc.p) && sc.p.Ss <= k <= sc.p.Se && temp == Mag(b[k], sc.p.Al) > 0 && Pending(Cur())
      requires BE + 63 <= bitBuffer.Length == MAX_CORR_BITS && BR0 < 63 && (temp == 1 ==> k <= EOB)
      requires Step(sc.acTbl, Cur(), RefineCode(sc.acTbl, b, k, r0, bitBuffer[BE..BE + BR0], EOB, sc.p)) == fin
      modifies this`EOBRUN, this`BE, bitBuffer, e`emitted, e.w, e.counts
      ensures !ok ==> !e.gather && !AllWritable(e.tbls, fin.out)
      ensures ok ==> Linked() && Pending(Cur()) && BE + 63 <= bitBuffer.Length && BR <= BR0 + 1
      ensures ok ==> Step(sc.acTbl, Cur(), RefineCode(sc.acTbl, b, k + 1, r, bitBuffer[BE..BE + BR], EOB, sc.p)) == fin
      ensures e.w.done == old(e.w.done) && (e.gather ==> e.w.out == old(e.w.out))
    {
      hide *;
      AcBand(sc.p);
      ok, r, BR := EmitRequiredZrls(b, k, r0, BR0, EOB, fin);
      if !ok { return; }
      ghost var br := bitBuffer[BE..BE + BR];
      if temp > 1 {
        RefineCorr(sc.acTbl, b, k, r, br, EOB, sc.p);
        BufferBit(BR, temp % 2 == 1);
        BR := BR + 1;
      } else {
        RefineNew(sc.acTbl, Cur(), b, k, r, br, EOB, sc.p);
        PrefixWritable(e.tbls, Flush(sc.acTbl, Cur()).out + NewFront(sc.acTbl, r, b[k], br), fin.out);
        ok := EmitNew(r, b[k], BE, BR);
        if !ok { return; }
        BR, r := 0, 0;
        RunClosed();
      }
    }

    /** encode_mcu_AC_refine on the block of the MCU; BR correction bits are in the buffer
        after the BE bits of the open run. */
    method EncodeAcRefine(b: Block) returns (ok: bool)
      requires Linked() && AcParams(sc.p) && sc.p.Ah != 0 && Pending(Cur())
      modifies this`EOBRUN, this`BE, bitBuffer, e`emitted, e.w, e.counts
      ensures var st := Step(sc.acTbl, old(Cur()), AcCode(sc.acTbl, b, sc.p));
              && (ok <==> AcInRange(b, sc.p) && (e.gather || AllWritable(e.tbls, st.out)))
              && (ok ==> Linked() && Cur() == st)
      ensures e.w.done == old(e.w.done) && (e.gather ==> e.w.out == old(e.w.out))
    {
      hide *;
      RefineBand(sc.acTbl, b, sc.p);
      var absvalues, EOB := AbsValues(b);
      ghost var fin := Step(sc.acTbl, Cur(), RefineCode(sc.acTbl, b, sc.p.Ss, 0, [], EOB, sc.p));
      var r: nat, BR: nat, k: nat := 0, 0, sc.p.Ss;
      UseLinked();
      assert bitBuffer[BE..BE + 0] == [];
      FlushEmpties(sc.acTbl, Cur());
      while k <= sc.p.Se
        invariant sc.p.Ss <= k <= sc.p.Se + 1 && BR <= k - sc.p.Ss && BE + 63 <= bitBuffer.Length == MAX_CORR_BITS
        invariant Linked() && Pending(Cur())
        invariant Step(sc.acTbl, Cur(), RefineCode(sc.acTbl, b, k, r, bitBuffer[BE..BE + BR], EOB, sc.p)) == fin
        invariant forall j :: sc.p.Ss <= j <= sc.p.Se ==> absvalues[j] == Mag(b[j], sc.p.Al)
        invariant e.w.done == old(e.w.done) && (e.gather ==> e.w.out == old(e.w.out))
      {
        var temp := absvalues[k];
        if temp == 0 {
          RefineZero(sc.acTbl, b, k, r, bitBuffer[BE..BE + BR], EOB, sc.p);
          r := r + 1;
        } else {
          ok, r, BR := RefineCoef(b, temp, k, r, BR, EOB, fin);
          if !ok { return; }
        }
        k := k + 1;
      }
      RefineEnd(sc.acTbl, b, k, r, bitBuffer[BE..BE + BR], EOB, sc.p);
      NoHead(sc.acTbl, Cur(), r > 0 || BR > 0, bitBuffer[BE..BE + BR]);
      UseLinked();
      FlushEmpties(sc.acTbl, Cur());
      ok := CountEob(r > 0 || BR > 0, BR);
    }

    lemma UseTables()
      requires TablesOk()
      ensures ScanOk(sc, e.tbls) && lastDc.Length == |sc.dcTbl|
    {
    }

    /** The state start_pass leaves is the state of a scan with no MCUs coded. */
    lemma Started()
      requires TablesOk() && e.Valid() && e.earlier == e.emitted == [] && e.w.done == []
      requires EOBRUN == BE == nextRestartNum == 0 && restartsToGo == sc.interval && prior == [] && coded == []
      requires forall i :: 0 <= i < lastDc.Length ==> lastDc[i] == 0
      ensures Valid()
    {
      hide *;
      UseTables();
      MakeLinked();
      EmptyPending([]);
      NothingCoded(sc, e.tbls, e.gather);
      assert lastDc[..] == StartState(sc).preds;
      assert bitBuffer[..BE] == [];
      MakeCore();
      MakeValid();
    }

    // ---- DC scans ----

    lemma DcTables(i: nat)
      requires TablesOk() && i < |sc.members|
      ensures sc.members[i] < |sc.dcTbl| == lastDc.Length && sc.dcTbl[sc.members[i]] < e.counts.Length0
      ensures !e.gather && sc.p.Ss == 0 && sc.p.Ah == 0 ==> Derived(e.codes, e.tbls, sc.dcTbl[sc.members[i]])
    {
    }

    /** The difference symbol and value bits of one DC coefficient. */
    method EmitDiff(t: nat, d: int) returns (ok: bool)
      requires e.Valid() && t < e.counts.Length0 && (e.gather || Derived(e.codes, e.tbls, t))
      modifies e`emitted, e.w, e.counts
      ensures ok <==>
        NBits(Abs(d)) <= MAX_COEF_BITS + 1 && (e.gather || AllWritable(e.tbls, old(e.emitted) + DcScan.DiffTokens(t, d)))
      ensures ok ==> e.Valid() && e.emitted == old(e.emitted) + DcScan.DiffTokens(t, d)
      ensures e.w.done == old(e.w.done) && (e.gather ==> e.w.out == old(e.w.out))
    {
      hide *;
      ValidWritable();
      DiffParts(e.tbls, e.emitted, t, d);
      var temp, temp2 := d, d;
      if temp < 0 {
        temp := 0 - temp;
        temp2 := temp2 - 1;      // bitwise complement of the magnitude
      }
      var nbits := CountBits(temp);
      if nbits > MAX_COEF_BITS + 1 { return false; }
      ok := e.EmitSymbol(t, nbits);
      if !ok { return; }
      if nbits > 0 { e.EmitBits(temp2, nbits); }
    }

    lemma ValidWritable()
      requires e.Valid()
      ensures e.gather || AllWritable(e.tbls, e.emitted)
    {
    }

    /** encode_mcu_DC_first on the blocks of the MCU. */
    method EncodeDcFirst(m: Mcu) returns (ok: bool)
      requires Linked() && McuOk(sc, e.tbls, m) && sc.p.Ss == sc.p.Se == 0 && sc.p.Ah == 0
      modifies lastDc, e`emitted, e.w, e.counts
      ensures ok <==>
        && McuRange(sc, e.tbls, m, old(lastDc[..]))
        && (e.gather || AllWritable(e.tbls, old(e.emitted) + McuTokens(sc, e.tbls, m, old(lastDc[..]))))
      ensures ok ==> Linked() && e.emitted == old(e.emitted) + McuTokens(sc, e.tbls, m, old(lastDc[..]))
      ensures ok ==> lastDc[..] == McuPreds(sc, e.tbls, m, old(lastDc[..]))
      ensures e.w.done == old(e.w.done) && (e.gather ==> e.w.out == old(e.w.out))
    {
      hide *;
      UseLinked();
      ghost var preds := lastDc[..];
      ghost var whole := e.emitted + RestTokens(sc, e.tbls, m, 0, preds);
      McuFits(sc, e.tbls, m);
      RestEnds(sc, e.tbls, m, preds, preds);
      var blkn := 0;
      while blkn < |m|
        invariant 0 <= blkn <= |m| && e.Valid() && (e.gather || AllWritable(e.tbls, e.emitted))
        invariant e.emitted + RestTokens(sc, e.tbls, m, blkn, lastDc[..]) == whole
        invariant RestPreds(sc, e.tbls, m, blkn, lastDc[..]) == RestPreds(sc, e.tbls, m, 0, preds)
        invariant RestRange(sc, e.tbls, m, 0, preds) <==> RestRange(sc, e.tbls, m, blkn, lastDc[..])
        invariant e.w.done == old(e.w.done) && (e.gather ==> e.w.out == old(e.w.out))
      {
        DcTables(blkn);
        RestNext(sc, e.tbls, m, blkn, lastDc[..], e.emitted);
        var ci := sc.members[blkn];
        var temp2 := Shr(m[blkn][0], sc.p.Al);
        var temp := temp2 - lastDc[ci];
        ghost var before := lastDc[..];
        lastDc[ci] := temp2;
        assert lastDc[..] == before[ci := temp2];
        FrontWritable(e.tbls, e.emitted + DcScan.DiffTokens(sc.dcTbl[ci], temp), RestTokens(sc, e.tbls, m, blkn + 1, lastDc[..]));
        ok := EmitDiff(sc.dcTbl[ci], temp);
        if !ok { return; }
        blkn := blkn + 1;
      }
      RestEnds(sc, e.tbls, m, preds, lastDc[..]);
      assert e.emitted + [] == e.emitted == whole;
      ok := true;
      MakeLinked();
    }

    lemma AcTables(i: nat)
      requires TablesOk() && i < |sc.members| && sc.p.Ss == 0 && sc.p.Se != 0
      ensures sc.members[i] < |sc.dcTbl| == |sc.acTbls| == lastDc.Length && HasTable(sc.acTbls[sc.members[i]]) && HasTable(sc.dcTbl[sc.members[i]])
      ensures sc.p.Ah == 0
    {
    }

    /** encode_one_block: the AC coefficients of a block of a sequential scan. */
    method EncodeAcCoefs(b: Block, tbl: nat) returns (ok: bool)
      requires Linked() && HasTable(tbl)
      modifies e`emitted, e.w, e.counts
      ensures ok <==> FirstInRange(b, 1, Sequential.ALL_AC) && (e.gather || AllWritable(e.tbls, old(e.emitted) + Sequential.AcRest(tbl, b, 1, 0)))
      ensures ok ==> Linked() && e.emitted == old(e.emitted) + Sequential.AcRest(tbl, b, 1, 0)
      ensures e.w.done == old(e.w.done) && (e.gather ==> e.w.out == old(e.w.out))
    {
      hide *;
      UseTable(tbl);
      UseLinked();
      WholeBand();
      ghost var whole := e.emitted + Sequential.AcRest(tbl, b, 1, 0);
      var r: nat, k: nat := 0, 1;
      while k < 64
        invariant 1 <= k <= 64 && Linked() && e.emitted + Sequential.AcRest(tbl, b, k, r) == whole
        invariant FirstInRange(b, 1, Sequential.ALL_AC) <==> FirstInRange(b, k, Sequential.ALL_AC)
        invariant e.w.done == old(e.w.done) && (e.gather ==> e.w.out == old(e.w.out))
      {
        var temp: int := b[k];
        if temp == 0 {
          WholeZero(tbl, b, k, r);
          r := r + 1;
        } else {
          var temp2 := temp;
          if temp < 0 {
            temp := 0 - temp;
            temp2 := temp2 - 1;
          }
          WholeCoef(tbl, b, k, r, e.emitted);
          Magnitude(b[k]);
          FrontWritable(e.tbls, e.emitted + FirstFront(tbl, r, b[k]), Sequential.AcRest(tbl, b, k + 1, 0));
          ok := EmitCoef(tbl, r, temp, temp2, b[k]);
          if !ok { return; }
          r := 0;
        }
        k := k + 1;
      }
      WholeEnd(tbl, b, r);
      UseLinked();
      ok := true;
      if r > 0 {
        SnocWritable(e.tbls, e.emitted, Sym(tbl, 0));
        ok := e.EmitSymbol(tbl, 0);
        if ok { MakeLinked(); }
      } else {
        assert e.emitted + [] == e.emitted;
      }
    }

    /** The DC part of a block. */
    method EncodeDiff(t: nat, diff: int) returns (ok: bool)
      requires Linked() && HasTable(t)
      modifies e`emitted, e.w, e.counts
      ensures ok <==>
        NBits(Abs(diff)) <= MAX_COEF_BITS + 1 && (e.gather || AllWritable(e.tbls, old(e.emitted) + DcScan.DiffTokens(t, diff)))
      ensures ok ==> Linked() && e.emitted == old(e.emitted) + DcScan.DiffTokens(t, diff)
      ensures e.w.done == old(e.w.done) && (e.gather ==> e.w.out == old(e.w.out))
    {
      hide *;
      UseTable(t);
      UseLinked();
      ok := EmitDiff(t, diff);
      if ok { MakeLinked(); }
    }

    /** encode_one_block. */
    method EncodeOneBlock(b: Block, lastDcVal: int, dctbl: nat, actbl: nat) returns (ok: bool)
      requires Linked() && HasTable(dctbl) && HasTable(actbl)
      modifies e`emitted, e.w, e.counts
      ensures ok <==> NBits(Abs(b[0] - lastDcVal)) <= MAX_COEF_BITS + 1 && Sequential.AcInRange(b)
                      && (e.gather || AllWritable(e.tbls, old(e.emitted) + Sequential.BlockTokens(dctbl, actbl, b, lastDcVal)))
      ensures ok ==> Linked() && e.emitted == old(e.emitted) + Sequential.BlockTokens(dctbl, actbl, b, lastDcVal)
      ensures e.w.done == old(e.w.done) && (e.gather ==> e.w.out == old(e.w.out))
    {
      hide *;
      var diff := b[0] - lastDcVal;
      ghost var front, rest := e.emitted + DcScan.DiffTokens(dctbl, diff), Sequential.AcRest(actbl, b, 1, 0);
      WholeStart(dctbl, actbl, b, lastDcVal, e.emitted);
      FrontWritable(e.tbls, front, rest);
      ok := EncodeDiff(dctbl, diff);
      if !ok { return; }
      assert e.emitted == front;
      ok := EncodeAcCoefs(b, actbl);
    }

    /** encode_mcu_huff, or encode_mcu_gather, on the blocks of the MCU. */
    method EncodeSequential(m: Mcu) returns (ok: bool)
      requires Linked() && McuOk(sc, e.tbls, m) && sc.p.Ss == 0 && sc.p.Se != 0
      modifies lastDc, e`emitted, e.w, e.counts
      ensures ok <==>
        && McuRange(sc, e.tbls, m, old(lastDc[..]))
        && (e.gather || AllWritable(e.tbls, old(e.emitted) + McuTokens(sc, e.tbls, m, old(lastDc[..]))))
      ensures ok ==> Linked() && e.emitted == old(e.emitted) + McuTokens(sc, e.tbls, m, old(lastDc[..]))
      ensures ok ==> lastDc[..] == McuPreds(sc, e.tbls, m, old(lastDc[..]))
      ensures e.w.done == old(e.w.done) && (e.gather ==> e.w.out == old(e.w.out))
    {
      hide *;
      UseLinked();
      ghost var preds := lastDc[..];
      ghost var whole := e.emitted + RestTokens(sc, e.tbls, m, 0, preds);
      McuFits(sc, e.tbls, m);
      NotRefining(sc, e.tbls);
      RestEnds(sc, e.tbls, m, preds, preds);
      var blkn := 0;
      while blkn < |m|
        invariant 0 <= blkn <= |m| && Linked()
        invariant e.emitted + RestTokens(sc, e.tbls, m, blkn, lastDc[..]) == whole
        invariant RestPreds(sc, e.tbls, m, blkn, lastDc[..]) == RestPreds(sc, e.tbls, m, 0, preds)
        invariant RestRange(sc, e.tbls, m, 0, preds) <==> RestRange(sc, e.tbls, m, blkn, lastDc[..])
        invariant e.w.done == old(e.w.done) && (e.gather ==> e.w.out == old(e.w.out))
      {
        UseLinked();
        AcTables(blkn);
        RestNextWhole(sc, e.tbls, m, blkn, lastDc[..], e.emitted);
        var ci := sc.members[blkn];
        ghost var before := lastDc[..];
        ghost var next := before[ci := m[blkn][0] as int];
        FrontWritable(e.tbls, e.emitted + Sequential.BlockTokens(sc.dcTbl[ci], sc.acTbls[ci], m[blkn], lastDc[ci]),
                      RestTokens(sc, e.tbls, m, blkn + 1, next));
        ok := EncodeOneBlock(m[blkn], lastDc[ci], sc.dcTbl[ci], sc.acTbls[ci]);
        if !ok { return; }
        lastDc[ci] := m[blkn][0];
        assert lastDc[..] == next;
        blkn := blkn + 1;
      }
      UseLinked();
      RestEnds(sc, e.tbls, m, preds, lastDc[..]);
      assert e.emitted + [] == e.emitted == whole;
      ok := true;
    }

    /** encode_mcu_DC_refine on the blocks of the MCU. */
    method EncodeDcRefine(m: Mcu)
      requires Linked() && McuOk(sc, e.tbls, m) && sc.p.Ss == 0 && sc.p.Ah != 0
      modifies e`emitted, e.w
      ensures Linked() && e.emitted == old(e.emitted) + McuTokens(sc, e.tbls, m, old(lastDc[..]))
      ensures e.w.done == old(e.w.done) && (e.gather ==> e.w.out == old(e.w.out))
    {
      hide *;
      UseLinked();
      McuFits(sc, e.tbls, m);
      ghost var before := e.emitted;
      RefineTokensEnds(sc, e.tbls, m, lastDc[..], before);
      var blkn := 0;
      while blkn < |m|
        invariant 0 <= blkn <= |m| && e.Valid() && e.emitted == before + DcScan.RefineTokens(m[..blkn], sc.p.Al)
        invariant e.w.done == old(e.w.done) && (e.gather ==> e.w.out == old(e.w.out))
      {
        RefineTokensNext(m, blkn, sc.p.Al, before);
        e.EmitBits(Shr(m[blkn][0], sc.p.Al), 1);
        blkn := blkn + 1;
      }
      MakeLinked();
    }

    // ---- MCUs and restarts ----

    /** Everything emitted so far is what the MCUs coded so far call for. */
    ghost predicate Core()
      reads `EOBRUN, `BE, `prior, `coded, e, e.w, e.counts, bitBuffer, lastDc
    {
      && Linked() && AllShaped(sc, prior) && Shaped(sc, coded)
      && Cur() == OpenState(sc, e.tbls, coded) && lastDc[..] == OpenPreds(sc, e.tbls, coded) && Pending(Cur())
      && OpenOk(sc, e.tbls, e.gather, coded) && SegsOk(sc, e.tbls, e.gather, prior)
      && e.earlier == AllTokens(sc, e.tbls, prior)
      && (!e.gather ==> SegsWritable(sc, e.tbls, prior) && e.w.done == ClosedBytes(sc, e.tbls, prior, 0))
    }

    lemma UseCore()
      requires Core()
      ensures Linked() && TablesOk() && ScanOk(sc, e.tbls) && AllShaped(sc, prior) && Shaped(sc, coded)
      ensures Cur() == OpenState(sc, e.tbls, coded) && lastDc[..] == OpenPreds(sc, e.tbls, coded) && Pending(Cur())
      ensures OpenOk(sc, e.tbls, e.gather, coded) && SegsOk(sc, e.tbls, e.gather, prior)
      ensures e.earlier == AllTokens(sc, e.tbls, prior)
      ensures !e.gather ==> SegsWritable(sc, e.tbls, prior) && e.w.done == ClosedBytes(sc, e.tbls, prior, 0)
      ensures |OpenPreds(sc, e.tbls, coded)| == |sc.dcTbl|
    {
    }

    lemma MakeCore()
      requires Linked() && ScanOk(sc, e.tbls) && AllShaped(sc, prior) && Shaped(sc, coded)
      requires Cur() == OpenState(sc, e.tbls, coded) && lastDc[..] == OpenPreds(sc, e.tbls, coded) && Pending(Cur())
      requires OpenOk(sc, e.tbls, e.gather, coded) && SegsOk(sc, e.tbls, e.gather, prior)
      requires e.earlier == AllTokens(sc, e.tbls, prior)
      requires !e.gather ==> SegsWritable(sc, e.tbls, prior) && e.w.done == ClosedBytes(sc, e.tbls, prior, 0)
      ensures Core()
    {
    }

    /** The encode_mcu routine that start_pass selected, on an MCU of an AC scan. */
    method CodeAcMcu(m: Mcu) returns (ok: bool)
      requires Core() && McuOk(sc, e.tbls, m) && sc.p.Ss != 0
      modifies this, bitBuffer, e, e.w, e.counts
      ensures restartsToGo == old(restartsToGo) && nextRestartNum == old(nextRestartNum) && prior == old(prior)
      ensures Shaped(sc, old(coded) + [m]) && (ok <==> OpenOk(sc, e.tbls, e.gather, old(coded) + [m]))
      ensures ok ==> Core() && coded == old(coded) + [m]
    {
      hide *;
      McuFits(sc, e.tbls, m);
      UseCore();
      ShapedSnoc(sc, coded, m);
      OpenAc(sc, e.tbls, e.gather, coded, m);
      OkDefs(sc, e.tbls, e.gather, coded);
      OkDefs(sc, e.tbls, e.gather, coded + [m]);
      StepPending(sc.acTbl, Cur(), AcCode(sc.acTbl, m[0], sc.p));
      if sc.p.Ah == 0 { ok := EncodeAcFirst(m[0]); } else { ok := EncodeAcRefine(m[0]); }
      if !ok { return; }
      coded := coded + [m];
      UseLinked();
      MakeLinked();
      MakeCore();
    }

    method EncodeDc(m: Mcu) returns (ok: bool)
      requires Linked() && McuOk(sc, e.tbls, m) && sc.p.Ss == 0
      modifies lastDc, e`emitted, e.w, e.counts
      ensures ok <==>
        && McuRange(sc, e.tbls, m, old(lastDc[..]))
        && (e.gather || AllWritable(e.tbls, old(e.emitted) + McuTokens(sc, e.tbls, m, old(lastDc[..]))))
      ensures ok ==> Linked() && e.emitted == old(e.emitted) + McuTokens(sc, e.tbls, m, old(lastDc[..]))
      ensures ok ==> lastDc[..] == McuPreds(sc, e.tbls, m, old(lastDc[..]))
      ensures e.w.done == old(e.w.done) && (e.gather ==> e.w.out == old(e.w.out))
    {
      hide *;
      if sc.p.Se != 0 {
        ok := EncodeSequential(m);
      } else if sc.p.Ah == 0 {
        ok := EncodeDcFirst(m);
      } else {
        UseLinked();
        DcMcuDefs(sc, e.tbls, m, lastDc[..]);
        EncodeDcRefine(m);
        UseLinked();
        ok := true;
      }
    }

    /** The same on an MCU of a DC or sequential scan. */
    method CodeDcMcu(m: Mcu) returns (ok: bool)
      requires Core() && McuOk(sc, e.tbls, m) && sc.p.Ss == 0
      modifies this`coded, lastDc, e`emitted, e.w, e.counts
      ensures Shaped(sc, old(coded) + [m]) && (ok <==> OpenOk(sc, e.tbls, e.gather, old(coded) + [m]))
      ensures ok ==> Core() && coded == old(coded) + [m]
    {
      hide *;
      McuFits(sc, e.tbls, m);
      UseCore();
      UseLinked();
      ShapedSnoc(sc, coded, m);
      OpenDc(sc, e.tbls, coded, m);
      OkDefs(sc, e.tbls, e.gather, coded);
      OkDefs(sc, e.tbls, e.gather, coded + [m]);
      ok := EncodeDc(m);
      if !ok { return; }
      coded := coded + [m];
      UseLinked();
      MakeLinked();
      EmptyPending(e.emitted);
      MakeCore();
    }

    /** emit_restart: close the open segment and start a new one. */
    method EmitRestart(num: nat) returns (ok: bool)
      requires Core() && num == |prior| % 8
      modifies this, bitBuffer, lastDc, e, e.w, e.counts
      ensures restartsToGo == old(restartsToGo) && nextRestartNum == old(nextRestartNum)
      ensures Shaped(sc, old(coded)) && (ok <==> SegOk(sc, e.tbls, e.gather, old(coded)))
      ensures ok ==> Core() && coded == [] && prior == old(prior) + [old(coded)]
    {
      hide *;
      UseCore();
      UseLinked();
      OkDefs(sc, e.tbls, e.gather, coded);
      FlushEmpties(sc.acTbl, Cur());
      ok := CloseRun();
      if !ok { return; }
      UseLinked();
      CloseSegment(sc, e.tbls, e.gather, prior, coded, num);
      RstByte(num);
      e.EndSegment(M_RST0 + num);
      OpenStart(sc, e.tbls, e.gather);
      if sc.p.Ss == 0 {
        ClearPredictions();
      } else {
        AcPreds(sc, e.tbls, coded);
        EOBRUN, BE := 0, 0;
      }
      prior, coded := prior + [coded], [];
      assert lastDc[..] == StartState(sc).preds;
      EmptyPending([]);
      assert bitBuffer[..BE] == [];
      MakeLinked();
      MakeCore();
    }

    /** The end-of-band run of an AC scan; a DC scan has none. */
    method CloseRun() returns (ok: bool)
      requires Core()
      modifies this`EOBRUN, this`BE, e`emitted, e.w, e.counts
      ensures ok <==> e.gather || AllWritable(e.tbls, Flush(sc.acTbl, old(Cur())).out)
      ensures ok ==> Linked() && Cur() == Flush(sc.acTbl, old(Cur()))
      ensures e.w.done == old(e.w.done) && (e.gather ==> e.w.out == old(e.w.out))
    {
      UseCore();
      ok := EmitEobrun();
    }

    method ClearPredictions()
      modifies lastDc
      ensures forall i :: 0 <= i < lastDc.Length ==> lastDc[i] == 0
    {
      var ci := 0;
      while ci < lastDc.Length
        invariant 0 <= ci <= lastDc.Length && forall i :: 0 <= i < ci ==> lastDc[i] == 0
      {
        lastDc[ci] := 0;
        ci := ci + 1;
      }
    }

    /** The invariant between MCUs: what Core says, and the restart counters. */
    ghost predicate Valid()
      reads this, e, e.w, e.counts, bitBuffer, lastDc
    {
      && Core() && nextRestartNum == |prior| % 8
      && (if sc.interval == 0 then prior == [] else restartsToGo + |coded| == sc.interval)
    }

    lemma UseValid()
      requires Valid()
      ensures Core() && nextRestartNum == |prior| % 8 && ScanOk(sc, e.tbls) && Shaped(sc, coded)
      ensures if sc.interval == 0 then prior == [] else restartsToGo + |coded| == sc.interval
      ensures IsDue(coded, sc.interval) <==> sc.interval > 0 && restartsToGo == 0
      ensures Reopen(coded, sc.interval) == (if IsDue(coded, sc.interval) then [] else coded)
      ensures Close(prior, coded, sc.interval) == if IsDue(coded, sc.interval) then prior + [coded] else prior
    {
      UseCore();
    }

    /** The restart at the start of the encode_mcu routines. */
    method RestartIfDue() returns (ok: bool)
      requires Valid()
      modifies this, bitBuffer, lastDc, e, e.w, e.counts
      ensures restartsToGo == old(restartsToGo) && nextRestartNum == old(nextRestartNum)
      ensures Shaped(sc, old(coded)) && (ok <==> (IsDue(old(coded), sc.interval) ==> SegOk(sc, e.tbls, e.gather, old(coded))))
      ensures ok ==> Core() && Shaped(sc, coded) && coded == Reopen(old(coded), sc.interval)
      ensures ok ==> prior == Close(old(prior), old(coded), sc.interval)
    {
      hide *;
      UseValid();
      ok := true;
      if sc.interval > 0 {
        if restartsToGo == 0 {
          ok := EmitRestart(nextRestartNum);
          if ok { UseCore(); }
        }
      }
    }

    /** The routine that start_pass selected. */
    method CodeMcu(m: Mcu) returns (ok: bool)
      requires Core() && McuOk(sc, e.tbls, m)
      modifies this, bitBuffer, lastDc, e, e.w, e.counts
      ensures restartsToGo == old(restartsToGo) && nextRestartNum == old(nextRestartNum) && prior == old(prior)
      ensures Shaped(sc, old(coded) + [m]) && (ok <==> OpenOk(sc, e.tbls, e.gather, old(coded) + [m]))
      ensures ok ==> Core() && coded == old(coded) + [m]
    {
      hide *;
      if sc.p.Ss == 0 { ok := CodeDcMcu(m); } else { ok := CodeAcMcu(m); }
    }

    /** The update of the restart counters at the end of encode_mcu. */
    method CountMcu()
      modifies this`restartsToGo, this`nextRestartNum
      ensures sc.interval == 0 ==> restartsToGo == old(restartsToGo) && nextRestartNum == old(nextRestartNum)
      ensures sc.interval > 0 ==> restartsToGo == (if old(restartsToGo) == 0 then sc.interval else old(restartsToGo)) - 1
      ensures sc.interval > 0 ==> nextRestartNum == if old(restartsToGo) == 0 then (old(nextRestartNum) + 1) % 8 else old(nextRestartNum)
    {
      if sc.interval > 0 {
        if restartsToGo == 0 {
          restartsToGo := sc.interval;
          nextRestartNum := (nextRestartNum + 1) % 8;
        }
        restartsToGo := restartsToGo - 1;
      }
    }

    /** encode_mcu: a restart if one is due, the MCU, and the restart counters. */
    method EncodeMcu(m: Mcu) returns (ok: bool)
      requires Valid() && McuOk(sc, e.tbls, m)
      modifies this, bitBuffer, lastDc, e, e.w, e.counts
      ensures var open := Reopen(old(coded), sc.interval);
              && Shaped(sc, old(coded)) && Shaped(sc, open + [m])
              && (ok <==>
                    && (IsDue(old(coded), sc.interval) ==> SegOk(sc, e.tbls, e.gather, old(coded)))
                    && OpenOk(sc, e.tbls, e.gather, open + [m]))
              && (ok ==> Valid() && coded == open + [m] && prior == Close(old(prior), old(coded), sc.interval))
    {
      hide *;
      UseValid();
      McuFits(sc, e.tbls, m);
      ghost var due, closed := IsDue(coded, sc.interval), prior;
      StartShaped(m);
      ok := RestartIfDue();
      if !ok { return; }
      ok := CodeMcu(m);
      if !ok { return; }
      CountMcu();
      if due { NextRst(|closed|); }
      MakeValid();
    }

    lemma StartShaped(m: Mcu)
      requires |m| == |sc.members| && Shaped(sc, coded)
      ensures Shaped(sc, [] + [m]) && Shaped(sc, coded + [m])
    {
    }

    lemma MakeValid()
      requires Core() && nextRestartNum == |prior| % 8
      requires if sc.interval == 0 then prior == [] else restartsToGo + |coded| == sc.interval
      ensures Valid()
    {
    }

    /** finish_pass_phuff, or the part of finish_pass_gather_phuff that completes the counts. */
    method FinishPass() returns (ok: bool)
      requires Valid()
      modifies this, bitBuffer, lastDc, e, e.w, e.counts
      ensures Shaped(sc, old(coded)) && (ok <==> SegOk(sc, e.tbls, e.gather, old(coded)))
      ensures ok ==> AllShaped(sc, old(prior) + [old(coded)]) && e.Valid()
      ensures ok && !e.gather ==> SegsWritable(sc, e.tbls, old(prior) + [old(coded)])
      ensures ok && !e.gather ==> e.w.out == SegsBytes(sc, e.tbls, old(prior) + [old(coded)], 0)
      ensures ok ==> e.earlier == AllTokens(sc, e.tbls, old(prior) + [old(coded)]) && e.emitted == []
    {
      hide *;
      UseValid();
      UseCore();
      UseLinked();
      OkDefs(sc, e.tbls, e.gather, coded);
      FlushEmpties(sc.acTbl, Cur());
      ok := CloseRun();
      if !ok { return; }
      UseLinked();
      CloseSegment(sc, e.tbls, e.gather, prior, coded, |prior| % 8);
      e.EndSegment(0);
    }

    /** The statistics count the symbols among the tokens. */
    ghost predicate CountsAre(ts: seq<Token>)
      requires e.counts.Length1 == 257
      reads e.counts
    {
      forall t, s {:trigger e.counts[t, s]} :: 0 <= t < e.counts.Length0 && 0 <= s < 257 ==> e.counts[t, s] == Tally(ts, t, s)
    }

    /** A whole pass: every MCU of the scan in turn, then finish_pass. It succeeds exactly when
        nothing in the scan is out of range or without a code; then an output pass has written
        the bytes of the scan, and a statistics pass has counted the symbols of those bytes. */
    method EncodePass(ms: seq<Mcu>) returns (ok: bool)
      requires Valid() && prior == [] && coded == [] && Shaped(sc, ms)
      modifies this, bitBuffer, lastDc, e, e.w, e.counts
      ensures ScanOk(sc, e.tbls) && AllShaped(sc, Segments(ms, sc.interval)) && e.counts.Length1 == 257
      ensures ok <==> SegsOk(sc, e.tbls, e.gather, Segments(ms, sc.interval))
      ensures ok && !e.gather ==> SegsWritable(sc, e.tbls, Segments(ms, sc.interval)) && e.w.out == ScanBytes(sc, e.tbls, ms)
      ensures ok && e.gather ==> CountsAre(AllTokens(sc, e.tbls, Segments(ms, sc.interval)))
      ensures ok ==> Plain(AllTokens(sc, e.tbls, Segments(ms, sc.interval)), e.counts.Length0)
    {
      hide *;
      UseValid();
      UseCore();
      UseLinked();
      SegmentsShaped(sc, ms);
      ghost var all := Segments(ms, sc.interval);
      assert ms[0..] == ms;
      assert [] + ms == ms && [] + all == all;
      var i := 0;
      while i < |ms|
        invariant 0 <= i <= |ms| && Valid()
        invariant all == prior + Segments(coded + ms[i..], sc.interval)
      {
        UseValid();
        McuShaped(ms, i);
        NextMcu(sc, e.tbls, e.gather, all, prior, coded, ms[i..]);
        ok := EncodeMcu(ms[i]);
        if !ok { return; }
        i := i + 1;
      }
      UseValid();
      UseCore();
      LastMcu(sc, e.tbls, e.gather, all, prior, coded, ms[i..]);
      ok := FinishPass();
      if ok { PassDone(ms); }
    }

    lemma McuShaped(ms: seq<Mcu>, i: nat)
      requires Shaped(sc, ms) && i < |ms| && ScanOk(sc, e.tbls)
      ensures McuOk(sc, e.tbls, ms[i]) && ms[i..][0] == ms[i] && ms[i..][1..] == ms[i + 1..]
    {
    }

    /** What the finished pass leaves behind. */
    lemma PassDone(ms: seq<Mcu>)
      requires e.Valid() && ScanOk(sc, e.tbls) && AllShaped(sc, Segments(ms, sc.interval)) && e.emitted == []
      requires e.earlier == AllTokens(sc, e.tbls, Segments(ms, sc.interval))
      ensures e.counts.Length1 == 257
      ensures e.gather ==> CountsAre(AllTokens(sc, e.tbls, Segments(ms, sc.interval)))
      ensures Plain(AllTokens(sc, e.tbls, Segments(ms, sc.interval)), e.counts.Length0)
      ensures !e.gather && SegsWritable(sc, e.tbls, Segments(ms, sc.interval)) ==>
        ScanBytes(sc, e.tbls, ms) == SegsBytes(sc, e.tbls, Segments(ms, sc.interval), 0)
    {
      hide AllTokens;
      assert e.earlier + e.emitted == e.earlier;
    }
  }

  lemma NextRst(n: nat)
    ensures (n % 8 + 1) % 8 == (n + 1) % 8
  {
  }

  /** The loop that shifts a positive number down to 1 and counts. */
  method Log2(v: nat) returns (n: nat)
    requires v > 0
    ensures n + 1 == NBits(v)
  {
    n := 0;
    var t: nat := v / 2;
    while t > 0
      invariant n + 1 + NBits(t) == NBits(v)
    {
      n := n + 1;
      t := t / 2;
    }
  }

  /** The loop that shifts a number down to 0 and counts. */
  method CountBits(v: nat) returns (n: nat)
    ensures n == NBits(v)
  {
    n := 0;
    var t: nat := v;
    while t > 0
      invariant n + NBits(t) == NBits(v)
    {
      n := n + 1;
      t := t / 2;
    }
  }

  // ---- start_pass_phuff ----

  /** What start_pass_phuff asks of a table number; statistics need only its range. */
  ghost predicate Usable(ptrs: seq<Option<Table>>, isDC: bool, gather: bool, n: int)
  {
    0 <= n < |ptrs| && (gather || (ptrs[n].Some? && LegalC(ptrs[n].value, isDC)))
  }

  /** The parameters jcmaster has validated. */
  predicate ScanParams(p: Params, members: seq<nat>, ncomps: nat)
  {
    && (if p.Ss == 0 then p.Se == 0 && p.Al <= 13 && (p.Ah == 0 || p.Ah == p.Al + 1) else AcParams(p) && |members| == 1 && ncomps == 1)
    && forall i :: 0 <= i < |members| ==> members[i] < ncomps
  }

  /** Table numbers that the pass does not use are kept as zero. */
  predicate Normal(sc: Scan)
  {
    && (sc.p.Ss == 0 ==> sc.acTbl == 0) && sc.acTbls == []
    && (sc.p.Ss != 0 || sc.p.Ah != 0 ==> forall i :: 0 <= i < |sc.dcTbl| ==> sc.dcTbl[i] == 0)
  }

  /** A table must be numbered 0 to 3, and defined and legal unless only statistics are wanted. */
  lemma UsableIs(ptrs: seq<Option<Table>>, isDC: bool, n: int)
    requires |ptrs| == NUM_HUFF_TBLS
    ensures Usable(ptrs, isDC, true, n) <==> 0 <= n < 4
    ensures Usable(ptrs, isDC, false, n) <==> 0 <= n < 4 && ptrs[n].Some? && LegalC(ptrs[n].value, isDC)
  {
    hide LegalC;
  }

  /** Derive the tables of a first DC scan, one component after the other. */
  method DeriveDc(ptrs: seq<Option<Table>>, gather: bool, nos: seq<int>) returns (ok: bool, codes: seq<CodeTable>)
    requires |ptrs| == NUM_HUFF_TBLS
    ensures ok <==> forall i :: 0 <= i < |nos| ==> Usable(ptrs, true, gather, nos[i])
    ensures ok && !gather ==> forall i :: 0 <= i < |nos| ==> nos[i] >= 0 && Derived(codes, PassTables(ptrs), nos[i])
  {
    hide Encodes;
    hide LegalTree;
    codes := seq(NUM_HUFF_TBLS, i => CodeTable([], []));
    var ci := 0;
    while ci < |nos|
      invariant 0 <= ci <= |nos| && |codes| == |ptrs|
      invariant forall i :: 0 <= i < ci ==> Usable(ptrs, true, gather, nos[i])
      invariant !gather ==> forall i :: 0 <= i < ci ==> Derived(codes, PassTables(ptrs), nos[i])
    {
      if gather {
        if nos[ci] < 0 || nos[ci] >= NUM_HUFF_TBLS { return false, codes; }
      } else {
        var derived, co, si := MakeCDerivedTbl(ptrs, true, nos[ci]);
        if !derived { return false, codes; }
        codes := codes[nos[ci] := CodeTable(co[..], si[..])];
      }
      ci := ci + 1;
    }
    ok := true;
  }

  /** Derive the table of an AC scan's only component. */
  method DeriveAc(ptrs: seq<Option<Table>>, gather: bool, no: int) returns (ok: bool, codes: seq<CodeTable>)
    requires |ptrs| == NUM_HUFF_TBLS
    ensures ok <==> Usable(ptrs, false, gather, no)
    ensures ok && !gather ==> Derived(codes, PassTables(ptrs), no)
  {
    hide Encodes;
    hide LegalTree;
    codes := seq(NUM_HUFF_TBLS, i => CodeTable([], []));
    if gather { return 0 <= no < NUM_HUFF_TBLS, codes; }
    var derived, co, si := MakeCDerivedTbl(ptrs, false, no);
    if derived { codes := codes[no := CodeTable(co[..], si[..])]; }
    ok := derived;
  }

  /** start_pass_phuff: each routine needs its own tables only. */
  method StartPass(p: Params, members: seq<nat>, dcNos: seq<int>, acNo: int, interval: nat, ptrs: seq<Option<Table>>, gather: bool)
    returns (ok: bool, enc: Option<Encoder>)
    requires |ptrs| == NUM_HUFF_TBLS && ScanParams(p, members, |dcNos|)
    ensures ok == enc.Some?
    ensures ok <==> if p.Ss != 0 then Usable(ptrs, false, gather, acNo)
                    else p.Ah == 0 ==> forall i :: 0 <= i < |dcNos| ==> Usable(ptrs, true, gather, dcNos[i])
    ensures ok ==>
      var c := enc.value;
      && fresh(c) && fresh(c.e) && fresh(c.e.w) && fresh(c.e.counts) && fresh(c.bitBuffer) && fresh(c.lastDc)
      && c.Valid() && c.prior == [] && c.coded == [] && c.e.gather == gather && c.e.tbls == PassTables(ptrs)
      && c.sc.p == p && c.sc.members == members && c.sc.interval == interval && |c.sc.dcTbl| == |dcNos|
      && (p.Ss != 0 ==> c.sc.acTbl == acNo) && (p.Ss == 0 && p.Ah == 0 ==> c.sc.dcTbl == dcNos) && Normal(c.sc)
  {
    enc := None;
    var codes := [];
    var dcTbl: seq<nat>, acTbl: nat := seq(|dcNos|, i => 0), 0;
    if p.Ss != 0 {
      ok, codes := DeriveAc(ptrs, gather, acNo);
      if ok { acTbl := acNo; }
    } else if p.Ah == 0 {
      ok, codes := DeriveDc(ptrs, gather, dcNos);
      if ok { dcTbl := dcNos; }
    } else {
      ok := true;
    }
    if ok {
      var c := new Encoder(Scan(p, members, dcTbl, acTbl, interval, []), gather, codes, PassTables(ptrs), NUM_HUFF_TBLS);
      c.Started();
      enc := Some(c);
    }
  }

  // ---- start_pass_huff ----

  /** Table n + 4 of the pass is AC table n. */
  lemma BothTables(dc: seq<Option<Table>>, ac: seq<Option<Table>>)
    requires |dc| == |ac| == NUM_HUFF_TBLS
    ensures |PassTables(dc + ac)| == 2 * NUM_HUFF_TBLS == 8
    ensures forall n :: 0 <= n < NUM_HUFF_TBLS ==>
      PassTables(dc + ac)[n] == PassTables(dc)[n] && PassTables(dc + ac)[NUM_HUFF_TBLS + n] == PassTables(ac)[n]
  {
  }

  /** Both tables of a component are usable. */
  ghost predicate BothUsable(dc: seq<Option<Table>>, ac: seq<Option<Table>>, gather: bool, dcNo: int, acNo: int)
  {
    Usable(dc, true, gather, dcNo) && Usable(ac, false, gather, acNo)
  }

  /** Derive the tables of a sequential scan, or only check their numbers. */
  method DeriveBoth(dc: seq<Option<Table>>, ac: seq<Option<Table>>, gather: bool, dcNos: seq<int>, acNos: seq<int>)
    returns (ok: bool, codes: seq<CodeTable>)
    requires |dc| == |ac| == NUM_HUFF_TBLS && |dcNos| == |acNos|
    ensures ok <==> forall i :: 0 <= i < |dcNos| ==> BothUsable(dc, ac, gather, dcNos[i], acNos[i])
    ensures ok && !gather ==> forall i :: 0 <= i < |dcNos| ==>
      && dcNos[i] >= 0 && acNos[i] >= 0 && Derived(codes, PassTables(dc + ac), dcNos[i])
      && Derived(codes, PassTables(dc + ac), NUM_HUFF_TBLS + acNos[i])
  {
    hide Encodes;
    hide LegalTree;
    BothTables(dc, ac);
    codes := seq(2 * NUM_HUFF_TBLS, i => CodeTable([], []));
    var ci := 0;
    while ci < |dcNos|
      invariant 0 <= ci <= |dcNos| && |codes| == 2 * NUM_HUFF_TBLS
      invariant forall i :: 0 <= i < ci ==> BothUsable(dc, ac, gather, dcNos[i], acNos[i])
      invariant !gather ==> forall i :: 0 <= i < ci ==>
        && Derived(codes, PassTables(dc + ac), dcNos[i]) && Derived(codes, PassTables(dc + ac), NUM_HUFF_TBLS + acNos[i])
    {
      var dctbl, actbl := dcNos[ci], acNos[ci];
      if gather {
        if dctbl < 0 || dctbl >= NUM_HUFF_TBLS || actbl < 0 || actbl >= NUM_HUFF_TBLS {
          assert !BothUsable(dc, ac, gather, dcNos[ci], acNos[ci]);
          return false, codes;
        }
      } else {
        var derived, co, si := MakeCDerivedTbl(dc, true, dctbl);
        if !derived { assert !BothUsable(dc, ac, gather, dcNos[ci], acNos[ci]); return false, codes; }
        codes := codes[dctbl := CodeTable(co[..], si[..])];
        derived, co, si := MakeCDerivedTbl(ac, false, actbl);
        if !derived { assert !BothUsable(dc, ac, gather, dcNos[ci], acNos[ci]); return false, codes; }
        codes := codes[NUM_HUFF_TBLS + actbl := CodeTable(co[..], si[..])];
      }
      ci := ci + 1;
    }
    ok := true;
  }

  /** start_pass_huff. */
  method StartPassHuff(members: seq<nat>, dcNos: seq<int>, acNos: seq<int>, interval: nat,
                       dc: seq<Option<Table>>, ac: seq<Option<Table>>, gather: bool)
    returns (ok: bool, enc: Option<Encoder>)
    requires |dc| == |ac| == NUM_HUFF_TBLS && |dcNos| == |acNos| && forall i :: 0 <= i < |members| ==> members[i] < |dcNos|
    ensures ok == enc.Some?
    ensures ok <==> forall i :: 0 <= i < |dcNos| ==> BothUsable(dc, ac, gather, dcNos[i], acNos[i])
    ensures ok ==>
      var c := enc.value;
      && fresh(c) && fresh(c.e) && fresh(c.e.w) && fresh(c.e.counts) && fresh(c.bitBuffer) && fresh(c.lastDc)
      && c.Valid() && c.prior == [] && c.coded == [] && c.e.gather == gather && c.e.tbls == PassTables(dc + ac)
      && c.sc.p == SEQUENTIAL && c.sc.members == members && c.sc.interval == interval && c.sc.dcTbl == dcNos
      && |c.sc.acTbls| == |acNos| && (forall i :: 0 <= i < |acNos| ==> c.sc.acTbls[i] == NUM_HUFF_TBLS + acNos[i])
      && c.sc.acTbl == 0
  {
    hide Encodes;
    hide LegalTree;
    hide LegalC;
    BothTables(dc, ac);
    var codes;
    ok, codes := DeriveBoth(dc, ac, gather, dcNos, acNos);
    enc := None;
    if ok {
      assert forall i :: 0 <= i < |dcNos| ==> BothUsable(dc, ac, gather, dcNos[i], acNos[i]);
      var acTbls: seq<nat> := seq(|acNos|, i requires 0 <= i < |acNos| => NUM_HUFF_TBLS + acNos[i]);
      var c := new Encoder(Scan(SEQUENTIAL, members, dcNos, 0, interval, acTbls), gather, codes, PassTables(dc + ac), 2 * NUM_HUFF_TBLS);
      c.Started();
      enc := Some(c);
    }
  }
}
