/** What the Huffman encoders emit, symbol by symbol: a Huffman symbol of one of the
    four tables, or a field of raw bits. */
module Tokens {
  import opened Bits
  import opened BitStream
  import opened HuffTable

  datatype Token = Sym(tbl: nat, s: nat) | Raw(v: int, n: nat)

  /** The tables in force during a scan, by table number. */
  type Tables = seq<Table>

  /** The tables of a pass from the ones that are defined, with an empty one where none is. */
  ghost function PassTables(ptrs: seq<Option<Table>>): Tables
  {
    seq(|ptrs|, i requires 0 <= i < |ptrs| => match ptrs[i] case Some(t) => t case None => HuffTbl(seq(17, j => 0), seq(256, j => 0)))
  }

  /** The token can be written: emit_bits would not raise JERR_HUFF_MISSING_CODE. */
  ghost predicate Writable(tbls: Tables, t: Token)
  {
    match t
    case Sym(n, s) => n < |tbls| && LegalTree(tbls[n]) && HasCode(tbls[n], s)
    case Raw(_, n) => 1 <= n <= 16
  }

  ghost predicate AllWritable(tbls: Tables, ts: seq<Token>)
  {
    forall i :: 0 <= i < |ts| ==> Writable(tbls, ts[i])
  }

  ghost function TokenBits(tbls: Tables, t: Token): Bits
    requires Writable(tbls, t)
  {
    match t
    case Sym(n, s) => SymBits(tbls[n], s)
    case Raw(v, n) => ToBits(v, n)
  }

  /** The bits of a token sequence. */
  ghost function BitsOf(tbls: Tables, ts: seq<Token>): Bits
    requires AllWritable(tbls, ts)
  {
    if ts == [] then [] else TokenBits(tbls, ts[0]) + BitsOf(tbls, ts[1..])
  }

  /** One single-bit field per correction bit. */
  function Raws(b: Bits): (ts: seq<Token>)
    ensures |ts| == |b|
  {
    seq(|b|, i requires 0 <= i < |b| => Raw(if b[i] then 1 else 0, 1))
  }

  lemma {:induction false} BitsOfConcat(tbls: Tables, a: seq<Token>, b: seq<Token>)
    requires AllWritable(tbls, a) && AllWritable(tbls, b)
    ensures AllWritable(tbls, a + b)
    ensures BitsOf(tbls, a + b) == BitsOf(tbls, a) + BitsOf(tbls, b)
  {
    hide Writable;
    hide TokenBits;
    if a == [] {
      assert a + b == b;
    } else {
      BitsOfConcat(tbls, a[1..], b);
      assert (a + b)[1..] == a[1..] + b;
    }
  }

  lemma WritableParts(tbls: Tables, a: seq<Token>, b: seq<Token>)
    requires AllWritable(tbls, a + b)
    ensures AllWritable(tbls, a) && AllWritable(tbls, b)
    ensures BitsOf(tbls, a + b) == BitsOf(tbls, a) + BitsOf(tbls, b)
  {
    forall i | 0 <= i < |a| ensures Writable(tbls, a[i]) { assert (a + b)[i] == a[i]; }
    forall i | 0 <= i < |b| ensures Writable(tbls, b[i]) { assert (a + b)[|a| + i] == b[i]; }
    BitsOfConcat(tbls, a, b);
  }

  /** A stream that starts with the bits of ts. */
  ghost function Feed(tbls: Tables, ts: seq<Token>, rest: Bits, w: nat): Src
    requires AllWritable(tbls, ts)
  {
    Src(BitsOf(tbls, ts) + rest, false, w)
  }

  /** Decoding the first token of a stream leaves the stream of the others. */
  lemma FeedSym(tbls: Tables, tbl: nat, s: nat, ts: seq<Token>, rest: Bits, w: nat)
    requires AllWritable(tbls, [Sym(tbl, s)] + ts)
    ensures AllWritable(tbls, ts) && tbl < |tbls| && s < 256
    ensures DecodeSym(tbls[tbl], Feed(tbls, [Sym(tbl, s)] + ts, rest, w)) == (s, Feed(tbls, ts, rest, w))
  {
    hide DecodeSym;
    hide SymBits;
    hide LegalTree;
    hide HasCode;
    var all := [Sym(tbl, s)] + ts;
    assert Writable(tbls, all[0]);
    WritableParts(tbls, [Sym(tbl, s)], ts);
    assert all[1..] == ts;
    DecodeSymBits(tbls[tbl], s, BitsOf(tbls, ts) + rest, false, w);
    assert BitsOf(tbls, all) + rest == SymBits(tbls[tbl], s) + (BitsOf(tbls, ts) + rest);
  }

  lemma FeedRaw(tbls: Tables, v: int, n: nat, ts: seq<Token>, rest: Bits, w: nat)
    requires AllWritable(tbls, [Raw(v, n)] + ts)
    ensures AllWritable(tbls, ts)
    ensures Feed(tbls, [Raw(v, n)] + ts, rest, w).Peek(n) == Low(v, n)
    ensures Feed(tbls, [Raw(v, n)] + ts, rest, w).Drop(n) == Feed(tbls, ts, rest, w)
  {
    var all := [Raw(v, n)] + ts;
    assert Writable(tbls, all[0]);
    WritableParts(tbls, [Raw(v, n)], ts);
    assert all[1..] == ts;
    TakeWritten(v, n, BitsOf(tbls, ts) + rest, false, w);
    assert BitsOf(tbls, all) + rest == ToBits(v, n) + (BitsOf(tbls, ts) + rest);
  }

  // ---- The Huffman symbols among the tokens ----

  function Symbols(ts: seq<Token>): seq<nat>
  {
    if ts == [] then [] else (if ts[0].Sym? then [ts[0].s] else []) + Symbols(ts[1..])
  }

  lemma {:induction false} SymbolsConcat(a: seq<Token>, b: seq<Token>)
    ensures Symbols(a + b) == Symbols(a) + Symbols(b)
  {
    if a == [] {
      assert a + b == b;
    } else {
      SymbolsConcat(a[1..], b);
      assert (a + b)[1..] == a[1..] + b;
    }
  }

  lemma {:induction false} NoSymbols(ts: seq<Token>)
    requires forall i :: 0 <= i < |ts| ==> ts[i].Raw?
    ensures Symbols(ts) == []
  {
    if ts != [] { NoSymbols(ts[1..]); }
  }

  /** n times the symbol s. */
  function Times(s: nat, n: nat): (r: seq<nat>)
    ensures |r| == n && forall i :: 0 <= i < n ==> r[i] == s
  {
    seq(n, i => s)
  }
}
