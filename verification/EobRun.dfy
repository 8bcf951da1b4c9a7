/** End-of-band runs (sections G.1.2.2 and G.1.2.3 of T.81). The encoder counts blocks
    whose rest is all zero (or only correction bits) and writes one EOBn symbol for the
    whole run, followed by the correction bits of all its blocks. The decoder needs the
    symbol at the first block of the run. Here the deferred output is shown to be what
    a decoder that goes block by block wants to read. */
module EobRun {
  import opened Bits
  import opened BitStream
  import opened HuffTable
  import opened Tokens

  const MAX_CORR_BITS: nat := 1000
  const DCTSIZE2: nat := 64

  /** What one block contributes: tokens up to its last new coefficient, whether it ends
      in an end-of-band, and the correction bits after that point. */
  datatype BlockCode = BlockCode(head: seq<Token>, trailing: bool, corr: Bits)

  /** Tokens written so far, EOBRUN, and the BE buffered correction bits. */
  datatype RunState = RunState(out: seq<Token>, eobrun: nat, be: Bits)

  const EMPTY_RUN := RunState([], 0, [])

  /** The EOBn symbol and the low bits of the run length; emit_eobrun without the
      correction bits. */
  function EobTokens(tbl: nat, e: nat): seq<Token>
    requires e > 0
  {
    var nbits := NBits(e) - 1;
    [Sym(tbl, 16 * nbits)] + if nbits > 0 then [Raw(e, nbits)] else []
  }

  /** emit_eobrun. */
  function Flush(tbl: nat, st: RunState): RunState
  {
    if st.eobrun == 0 then st
    else RunState(st.out + EobTokens(tbl, st.eobrun) + Raws(st.be), 0, [])
  }

  /** The run must be written out now: its counter or its buffer is about to overflow. */
  predicate Forced(e: nat, b: nat) { e == 0x7FFF || b > MAX_CORR_BITS - DCTSIZE2 + 1 }

  /** The first new coefficient of a block closes the open run. */
  function Head(tbl: nat, st: RunState, c: BlockCode): RunState
  {
    if c.head == [] then st else
      var f := Flush(tbl, st);
      f.(out := f.out + c.head)
  }

  /** An end-of-band is counted and its correction bits are buffered. */
  function Trail(tbl: nat, st: RunState, c: BlockCode): RunState
  {
    if !c.trailing then st
    else
      var next := st.(eobrun := st.eobrun + 1, be := st.be + c.corr);
      if Forced(next.eobrun, |next.be|) then Flush(tbl, next) else next
  }

  /** The effect of encoding one block. */
  function Step(tbl: nat, st: RunState, c: BlockCode): RunState
  {
    Trail(tbl, Head(tbl, st, c), c)
  }

  function Run(tbl: nat, st: RunState, cs: seq<BlockCode>): RunState
    decreases cs
  {
    if cs == [] then st else Run(tbl, Step(tbl, st, cs[0]), cs[1..])
  }

  /** The invariant of the encoder between blocks. */
  ghost predicate Pending(st: RunState)
  {
    && st.eobrun < 0x7FFF
    && |st.be| <= MAX_CORR_BITS - DCTSIZE2 + 1
    && (st.eobrun == 0 ==> st.be == [])
  }

  lemma StepPending(tbl: nat, st: RunState, c: BlockCode)
    requires Pending(st)
    ensures Pending(Step(tbl, st, c))
  {
  }

  /** All the tokens of one restart segment. */
  function Encoded(tbl: nat, cs: seq<BlockCode>): seq<Token>
  {
    Flush(tbl, Run(tbl, EMPTY_RUN, cs)).out
  }

  /** How many of the following blocks join a run of e blocks with b buffered bits. */
  function Joins(cs: seq<BlockCode>, e: nat, b: nat): (m: nat)
    requires e <= 0x7FFF
    ensures m <= |cs| && e + m <= 0x7FFF
    ensures forall i :: 0 <= i < m ==> cs[i].head == [] && cs[i].trailing
  {
    if e == 0 || Forced(e, b) || cs == [] || cs[0].head != [] || !cs[0].trailing then 0
    else 1 + Joins(cs[1..], e + 1, b + |cs[0].corr|)
  }

  /** The same tokens in the order a block-by-block decoder reads them; m blocks at the
      front belong to a run whose symbol has been read. */
  function Linear(tbl: nat, cs: seq<BlockCode>, m: nat): seq<Token>
  {
    if cs == [] then []
    else if m > 0 then Raws(cs[0].corr) + Linear(tbl, cs[1..], m - 1)
    else if !cs[0].trailing then cs[0].head + Linear(tbl, cs[1..], 0)
    else
      var n := Joins(cs[1..], 1, |cs[0].corr|);
      cs[0].head + EobTokens(tbl, 1 + n) + Raws(cs[0].corr) + Linear(tbl, cs[1..], n)
  }

  /** The tokens still owed for the open run, which the next m blocks join. */
  function Owed(tbl: nat, st: RunState, m: nat): seq<Token>
  {
    if st.eobrun == 0 then [] else EobTokens(tbl, st.eobrun + m) + Raws(st.be)
  }

  lemma RawsConcat(a: Bits, b: Bits)
    ensures Raws(a + b) == Raws(a) + Raws(b)
  {
  }

  lemma Assoc(a: seq<Token>, b: seq<Token>, c: seq<Token>)
    ensures a + b + c == a + (b + c)
  {
  }

  lemma Shift(o: seq<Token>, e: seq<Token>, r: seq<Token>, q: seq<Token>, l: seq<Token>)
    ensures o + (e + (r + q)) + l == o + (e + r) + (q + l)
    ensures o + e + r + q + l == o + e + (r + (q + l))
    ensures e + r + q + l == e + ((r + q) + l)
    ensures o + [] == o
  {
  }

  lemma FlushOwed(tbl: nat, st: RunState)
    ensures Flush(tbl, st).out == st.out + Owed(tbl, st, 0)
  {
    if st.eobrun > 0 { Assoc(st.out, EobTokens(tbl, st.eobrun), Raws(st.be)); }
  }

  /** A block that only joins the open run. */
  lemma JoinStep(tbl: nat, st: RunState, cs: seq<BlockCode>)
    requires Pending(st) && st.eobrun > 0 && cs != [] && cs[0].head == [] && cs[0].trailing
    ensures var next, m := Step(tbl, st, cs[0]), Joins(cs, st.eobrun, |st.be|);
            && m > 0 && Joins(cs[1..], next.eobrun, |next.be|) == m - 1
            && next.out + Owed(tbl, next, m - 1) == st.out + (EobTokens(tbl, st.eobrun + m) + Raws(st.be + cs[0].corr))
  {
    hide *;
    var open := st.(eobrun := st.eobrun + 1, be := st.be + cs[0].corr);
    JoinsNext(cs, st);
    StepJoins(tbl, st, cs[0]);
    if Forced(open.eobrun, |open.be|) {
      JoinsForced(cs[1..], open.eobrun, |open.be|);
      FlushOwed(tbl, open);
      OwedIs(tbl, open, 0);
      OwedIs(tbl, Flush(tbl, open), 0);
      Shift(Flush(tbl, open).out, [], [], [], []);
    } else {
      OwedIs(tbl, open, Joins(cs[1..], open.eobrun, |open.be|));
    }
  }

  lemma JoinsNext(cs: seq<BlockCode>, st: RunState)
    requires Pending(st) && st.eobrun > 0 && cs != [] && cs[0].head == [] && cs[0].trailing
    ensures st.eobrun + 1 <= 0x7FFF
    ensures Joins(cs, st.eobrun, |st.be|) == 1 + Joins(cs[1..], st.eobrun + 1, |st.be + cs[0].corr|)
  {
  }

  lemma JoinsForced(cs: seq<BlockCode>, e: nat, b: nat)
    requires e <= 0x7FFF && Forced(e, b)
    ensures Joins(cs, e, b) == 0
  {
  }

  /** A block without a head counts, and may force the run out. */
  lemma StepJoins(tbl: nat, st: RunState, c: BlockCode)
    requires c.head == [] && c.trailing
    ensures var open := st.(eobrun := st.eobrun + 1, be := st.be + c.corr);
            && Step(tbl, st, c) == (if Forced(open.eobrun, |open.be|) then Flush(tbl, open) else open)
            && Flush(tbl, open) == RunState(Flush(tbl, open).out, 0, [])
    ensures forall cs :: Joins(cs, 0, 0) == 0
  {
  }

  lemma OwedIs(tbl: nat, st: RunState, m: nat)
    ensures Owed(tbl, st, m) == if st.eobrun == 0 then [] else EobTokens(tbl, st.eobrun + m) + Raws(st.be)
  {
  }

  lemma HeadStart(tbl: nat, st: RunState, c: BlockCode)
    requires Pending(st) && (c.head == [] ==> st.eobrun == 0)
    ensures Head(tbl, st, c) == RunState(st.out + Owed(tbl, st, 0) + c.head, 0, [])
  {
    FlushOwed(tbl, st);
    if c.head == [] { assert st.out + [] + [] == st.out; }
  }

  /** The tokens of a block's own end-of-band, for a run of 1 + n blocks. */
  function Tail(tbl: nat, c: BlockCode, n: nat): seq<Token>
  {
    if c.trailing then EobTokens(tbl, 1 + n) + Raws(c.corr) else []
  }

  lemma TrailStart(tbl: nat, out: seq<Token>, c: BlockCode, rest: seq<BlockCode>)
    ensures var next := Trail(tbl, RunState(out, 0, []), c);
            var n := if c.trailing then Joins(rest, 1, |c.corr|) else 0;
            Joins(rest, next.eobrun, |next.be|) == n && next.out + Owed(tbl, next, n) == out + Tail(tbl, c, n)
  {
    assert [] + c.corr == c.corr;
    var open := RunState(out, 1, c.corr);
    if c.trailing && Forced(1, |c.corr|) {
      FlushOwed(tbl, open);
      Shift(Flush(tbl, open).out, [], [], [], []);
    }
  }

  lemma LinearStart(tbl: nat, cs: seq<BlockCode>)
    requires cs != []
    ensures var n := if cs[0].trailing then Joins(cs[1..], 1, |cs[0].corr|) else 0;
            Linear(tbl, cs, 0) == cs[0].head + (Tail(tbl, cs[0], n) + Linear(tbl, cs[1..], n))
  {
    hide Joins;
    hide EobTokens;
    hide Raws;
    if cs[0].trailing {
      var n := Joins(cs[1..], 1, |cs[0].corr|);
      var e, r, l := EobTokens(tbl, 1 + n), Raws(cs[0].corr), Linear(tbl, cs[1..], n);
      Shift([], cs[0].head, e, r, l);
    }
  }

  /** Deferring the runs changes nothing for the decoder. */
  lemma {:induction false} RunLinear(tbl: nat, st: RunState, cs: seq<BlockCode>)
    requires Pending(st)
    requires forall i :: 0 <= i < |cs| ==> cs[i].head == [] ==> cs[i].trailing
    ensures var m := Joins(cs, st.eobrun, |st.be|);
            Flush(tbl, Run(tbl, st, cs)).out == st.out + Owed(tbl, st, m) + Linear(tbl, cs, m)
    decreases cs
  {
    if cs == [] {
      FlushOwed(tbl, st);
      assert st.out + Owed(tbl, st, 0) + [] == st.out + Owed(tbl, st, 0);
    } else {
      var next := Step(tbl, st, cs[0]);
      StepPending(tbl, st, cs[0]);
      RunLinear(tbl, next, cs[1..]);
      if cs[0].head == [] && st.eobrun > 0 {
        Joined(tbl, st, cs);
      } else {
        Started(tbl, st, cs);
      }
    }
  }

  lemma Joined(tbl: nat, st: RunState, cs: seq<BlockCode>)
    requires Pending(st) && st.eobrun > 0 && cs != [] && cs[0].head == [] && cs[0].trailing
    ensures var next, m := Step(tbl, st, cs[0]), Joins(cs, st.eobrun, |st.be|);
            var n := Joins(cs[1..], next.eobrun, |next.be|);
            next.out + Owed(tbl, next, n) + Linear(tbl, cs[1..], n) == st.out + Owed(tbl, st, m) + Linear(tbl, cs, m)
  {
    hide *;
    JoinStep(tbl, st, cs);
    RawsConcat(st.be, cs[0].corr);
    var m := Joins(cs, st.eobrun, |st.be|);
    OwedIs(tbl, st, m);
    LinearJoined(tbl, cs, m);
    var e, r, q, l := EobTokens(tbl, st.eobrun + m), Raws(st.be), Raws(cs[0].corr), Linear(tbl, cs[1..], m - 1);
    Shift(st.out, e, r, q, l);
  }

  lemma LinearJoined(tbl: nat, cs: seq<BlockCode>, m: nat)
    requires cs != [] && m > 0
    ensures Linear(tbl, cs, m) == Raws(cs[0].corr) + Linear(tbl, cs[1..], m - 1)
  {
  }

  lemma Started(tbl: nat, st: RunState, cs: seq<BlockCode>)
    requires Pending(st) && cs != [] && (cs[0].head == [] ==> cs[0].trailing && st.eobrun == 0)
    ensures var next, m := Step(tbl, st, cs[0]), Joins(cs, st.eobrun, |st.be|);
            var n := Joins(cs[1..], next.eobrun, |next.be|);
            m == 0 && next.out + Owed(tbl, next, n) + Linear(tbl, cs[1..], n) == st.out + Owed(tbl, st, m) + Linear(tbl, cs, m)
  {
    HeadStart(tbl, st, cs[0]);
    TrailStart(tbl, st.out + Owed(tbl, st, 0) + cs[0].head, cs[0], cs[1..]);
    LinearStart(tbl, cs);
    var n := if cs[0].trailing then Joins(cs[1..], 1, |cs[0].corr|) else 0;
    Shift(st.out, Owed(tbl, st, 0), cs[0].head, Tail(tbl, cs[0], n), Linear(tbl, cs[1..], n));
  }

  /** End-of-band runs are as long as they can be: a block without symbols of its own joins the
      open run and writes nothing, unless the run then has 32767 blocks or the buffer more than
      937 correction bits; only then is the run written. */
  lemma RunsAreLong(tbl: nat, st: RunState, c: BlockCode)
    requires Pending(st) && c.head == [] && c.trailing
    ensures var full := st.eobrun + 1 == 32767 || |st.be| + |c.corr| > 937;
            && (!full ==> Step(tbl, st, c) == RunState(st.out, st.eobrun + 1, st.be + c.corr))
            && (full ==> Step(tbl, st, c) == RunState(st.out + EobTokens(tbl, st.eobrun + 1) + Raws(st.be + c.corr), 0, []))
  {
    hide EobTokens;
    hide Raws;
  }

  lemma {:induction false} LowTop(e: nat, n: nat)
    requires Pow2(n) <= e < 2 * Pow2(n)
    ensures Low(e, n) == e - Pow2(n)
    decreases n
  {
    if n > 0 { LowTop(e / 2, n - 1); }
  }

  /** A run of e blocks: r such that e is 2^r plus an r-bit number, and that number. */
  lemma RunAsNumber(tbl: nat, e: nat) returns (r: nat, b: Bits)
    requires e > 0
    ensures |b| == r && Pow2(r) <= e < Pow2(r + 1) && e == Pow2(r) + FromBits(b)
    ensures EobTokens(tbl, e)[0] == Sym(tbl, 16 * r) && |EobTokens(tbl, e)| == if r == 0 then 1 else 2
    ensures r > 0 ==> var t := EobTokens(tbl, e)[1]; t.Raw? && ToBits(t.v, t.n) == b
  {
    r := NBits(e) - 1;
    b := ToBits(e, r);
    FromTo(e, r);
    LowTop(e, r);
  }
}
