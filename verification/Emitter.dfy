/** emit_symbol and emit_bits of jcphuff.c (and the like of jchuff.c): tokens go either to
    the bit writer or, while statistics are gathered, to the symbol counts. */
module Emitter {
  import opened Bits
  import opened Bytes
  import opened HuffTable
  import opened Tokens
  import opened BitWriter

  /** c_derived_tbl. */
  datatype CodeTable = CodeTable(ehufco: seq<nat>, ehufsi: seq<nat>)

  /** Table n was accepted and derived by jpeg_make_c_derived_tbl. */
  ghost predicate Derived(codes: seq<CodeTable>, tbls: Tables, n: nat)
  {
    n < |codes| == |tbls| && LegalTree(tbls[n]) && Encodes(tbls[n], codes[n].ehufco, codes[n].ehufsi)
  }

  /** How often symbol s of table t occurs among the tokens. */
  ghost function Tally(ts: seq<Token>, t: nat, s: nat): nat { multiset(ts)[Sym(t, s)] }

  /** Symbols of existing tables, and fields that emit_bits can take. */
  ghost predicate Plain(ts: seq<Token>, ntbls: nat)
  {
    forall i :: 0 <= i < |ts| ==> match ts[i] case Sym(t, s) => t < ntbls && s < 256 case Raw(_, n) => 1 <= n <= 16
  }

  lemma PlainSnoc(a: seq<Token>, b: seq<Token>, x: Token, ntbls: nat)
    requires Plain(a + b, ntbls) && match x case Sym(t, s) => t < ntbls && s < 256 case Raw(_, n) => 1 <= n <= 16
    ensures Plain(a + (b + [x]), ntbls)
  {
    assert a + (b + [x]) == a + b + [x];
  }

  class Emitter {
    const gather: bool               // gather_statistics
    const codes: seq<CodeTable>      // derived_tbls
    ghost const tbls: Tables
    const w: Writer
    const counts: array2<nat>        // count_ptrs, 257 counters for each table
    ghost var earlier: seq<Token>    // tokens of the segments already closed
    ghost var emitted: seq<Token>    // tokens of the current segment

    ghost predicate Valid()
      reads this, w, counts
    {
      && counts.Length1 == 257 && Plain(earlier + emitted, counts.Length0)
      && if gather then Counted() else w.Valid() && AllWritable(tbls, emitted) && w.Contents() == BitsOf(tbls, emitted)
    }

    ghost predicate Counted()
      requires counts.Length1 == 257
      reads this, counts
    {
      forall t, s {:trigger counts[t, s]} :: 0 <= t < counts.Length0 && 0 <= s < 257 ==> counts[t, s] == Tally(earlier + emitted, t, s)
    }

    constructor (gather: bool, codes: seq<CodeTable>, ghost tbls: Tables, ntbls: nat)
      ensures Valid() && fresh(w) && fresh(counts)
      ensures this.gather == gather && this.codes == codes && this.tbls == tbls && counts.Length0 == ntbls
      ensures earlier == emitted == [] && w.done == [] && w.out == []
    {
      this.gather, this.codes, this.tbls := gather, codes, tbls;
      w := new Writer();
      counts := new nat[ntbls, 257]((i, j) => 0);
      earlier, emitted := [], [];
    }

    /** The token could be emitted: in gather mode nothing is refused. */
    ghost predicate Accepts(ts: seq<Token>)
    {
      gather || AllWritable(tbls, ts)
    }

    /** A symbol is either written or, in a statistics pass, counted; a symbol without a code is refused. */
    method EmitSymbol(t: nat, s: nat) returns (ok: bool)
      requires Valid() && t < counts.Length0 && s < 256 && (gather || Derived(codes, tbls, t))
      modifies this`emitted, w, counts
      ensures ok <==> gather || Writable(tbls, Sym(t, s))
      ensures ok ==> Valid() && emitted == old(emitted) + [Sym(t, s)]
      ensures w.done == old(w.done) && (gather ==> w.out == old(w.out))
    {
      PlainSnoc(earlier, emitted, Sym(t, s), counts.Length0);
      hide Plain;
      if gather {
        counts[t, s] := counts[t, s] + 1;
        emitted := emitted + [Sym(t, s)];
        Counting(earlier, old(emitted), Sym(t, s));
        return true;
      }
      SymbolSize(codes, tbls, t, s);
      hide Encodes;
      hide BitsOf;
      hide LegalTree;
      ok := w.EmitBits(codes[t].ehufco[s], codes[t].ehufsi[s]);
      if ok {
        BitsOfSnoc(tbls, emitted, Sym(t, s));
        emitted := emitted + [Sym(t, s)];
      }
    }

    /** Emit n bits of v, unless statistics are gathered. */
    method EmitBits(v: int, n: nat)
      requires Valid() && 1 <= n <= 16
      modifies this`emitted, w
      ensures Valid() && emitted == old(emitted) + [Raw(v, n)]
      ensures w.done == old(w.done) && (gather ==> w.out == old(w.out))
    {
      PlainSnoc(earlier, emitted, Raw(v, n), counts.Length0);
      hide BitsOf;
      hide Plain;
      if gather {
        CountingRaw(earlier, emitted, v, n);
      } else {
        BitsOfSnoc(tbls, emitted, Raw(v, n));
        var _ := w.EmitBits(v, n);
      }
      emitted := emitted + [Raw(v, n)];
    }

    /** The end of a segment, and the marker that follows it unless m is 0. */
    method EndSegment(m: byte)
      requires Valid()
      modifies this`emitted, this`earlier, w
      ensures Valid() && emitted == [] && earlier == old(earlier) + old(emitted)
      ensures gather ==> w.out == old(w.out)
      ensures !gather ==> AllWritable(tbls, old(emitted))
      ensures !gather && m == 0 ==> w.out == w.done == old(w.done) + SegBytes(BitsOf(tbls, old(emitted)))
      ensures !gather && m != 0 ==> w.out == w.done == old(w.done) + SegBytes(BitsOf(tbls, old(emitted))) + [0xFF, m]
    {
      hide BitsOf;
      NothingEmitted(tbls, earlier + emitted);
      if !gather {
        w.FlushBits();
        if m != 0 { w.EmitMarker(m); }
      }
      earlier, emitted := earlier + emitted, [];
    }
  }

  lemma Counting(a: seq<Token>, b: seq<Token>, x: Token)
    ensures forall t, s :: Tally(a + (b + [x]), t, s) == Tally(a + b, t, s) + if x == Sym(t, s) then 1 else 0
  {
    assert a + (b + [x]) == a + b + [x];
  }

  lemma CountingRaw(a: seq<Token>, b: seq<Token>, v: int, n: nat)
    ensures forall t, s :: Tally(a + (b + [Raw(v, n)]), t, s) == Tally(a + b, t, s)
  {
    Counting(a, b, Raw(v, n));
  }

  lemma NothingEmitted(tbls: Tables, ts: seq<Token>)
    ensures ts + [] == ts && BitsOf(tbls, []) == []
  {
  }

  lemma BitsOfSnoc(tbls: Tables, ts: seq<Token>, x: Token)
    requires AllWritable(tbls, ts)
    ensures AllWritable(tbls, ts + [x]) <==> Writable(tbls, x)
    ensures Writable(tbls, x) ==> BitsOf(tbls, ts + [x]) == BitsOf(tbls, ts) + TokenBits(tbls, x)
  {
    if Writable(tbls, x) {
      BitsOfConcat(tbls, ts, [x]);
      assert BitsOf(tbls, [x]) == TokenBits(tbls, x) + BitsOf(tbls, []);
    } else {
      assert (ts + [x])[|ts|] == x;
    }
  }

  /** What the derived table holds for a symbol. */
  lemma SymbolSize(codes: seq<CodeTable>, tbls: Tables, t: nat, s: nat)
    requires Derived(codes, tbls, t) && s < 256
    ensures |codes[t].ehufco| == |codes[t].ehufsi| == 256 && codes[t].ehufsi[s] <= 16
    ensures codes[t].ehufsi[s] != 0 <==> Writable(tbls, Sym(t, s))
    ensures Writable(tbls, Sym(t, s)) ==> ToBits(codes[t].ehufco[s], codes[t].ehufsi[s]) == TokenBits(tbls, Sym(t, s))
  {
  }
}
