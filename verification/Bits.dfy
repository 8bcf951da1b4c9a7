/** Bit strings, most significant bit first, and the integer shifts and masks
    the coders write them with. Shifts are defined by repeated doubling and
    halving, so no proof here multiplies two variables. */
module Bits {
  type Bits = seq<bool>
  type byte = b: nat | b < 256

  function Pow2(n: nat): (r: nat)
    ensures 1 <= r
  {
    if n == 0 then 1 else 2 * Pow2(n - 1)
  }

  /** v << n. */
  function Shl(v: int, n: nat): int
    decreases n, v
  {
    if n == 0 then v else 2 * Shl(v, n - 1)
  }

  /** v >> n, rounding towards minus infinity. */
  function Shr(v: int, n: nat): (r: int)
    ensures v >= 0 ==> 0 <= r <= v
    decreases n, v
  {
    if n == 0 then v else Shr(v, n - 1) / 2
  }

  /** v & ((1 << n) - 1). */
  function Low(v: int, n: nat): (r: nat)
    ensures r < Pow2(n)
    decreases n, v
  {
    if n == 0 then 0 else 2 * Low(v / 2, n - 1) + v % 2
  }

  /** The low n bits of v in two's complement. */
  function ToBits(v: int, n: nat): (b: Bits)
    ensures |b| == n
    decreases n, v
  {
    if n == 0 then [] else ToBits(v / 2, n - 1) + [v % 2 == 1]
  }

  function FromBits(b: Bits): (v: nat)
    ensures v < Pow2(|b|)
  {
    if b == [] then 0 else 2 * FromBits(b[..|b| - 1]) + if b[|b| - 1] then 1 else 0
  }

  function Repeat(x: bool, n: nat): (b: Bits)
    ensures |b| == n && forall i :: 0 <= i < n ==> b[i] == x
  {
    seq(n, i => x)
  }

  /** The number of bits in the magnitude m: the counting loops of the coders. */
  function NBits(m: nat): (n: nat)
    ensures m < Pow2(n)
    ensures n > 0 ==> Pow2(n - 1) <= m
  {
    if m == 0 then 0 else 1 + NBits(m / 2)
  }

  function Abs(x: int): nat { if x < 0 then -x else x }

  /** HUFF_EXTEND: the signed value of an s-bit magnitude field. */
  function Extend(x: int, s: nat): int
  {
    if s == 0 then x else if x < Pow2(s - 1) then x - Pow2(s) + 1 else x
  }

  /** The field the encoder writes for a value: itself, or one less when negative. */
  function Field(v: int): int { if v < 0 then v - 1 else v }

  lemma Pow2Mono(m: nat, n: nat)
    requires m <= n
    ensures Pow2(m) <= Pow2(n)
  {
    if m < n { Pow2Mono(m, n - 1); }
  }

  lemma {:induction false} FromTo(v: int, n: nat)
    ensures FromBits(ToBits(v, n)) == Low(v, n)
    decreases n
  {
    if n > 0 {
      FromTo(v / 2, n - 1);
      assert ToBits(v, n)[..n - 1] == ToBits(v / 2, n - 1);
    }
  }

  /** Masking leaves a value that fits alone, and adds 1 << n to a negative one. */
  lemma {:induction false} LowFits(v: int, n: nat)
    requires 0 - Pow2(n) <= v < Pow2(n)
    ensures Low(v, n) == if v < 0 then v + Pow2(n) else v
    decreases n
  {
    if n > 0 { LowFits(v / 2, n - 1); }
  }

  lemma {:induction false} ToFrom(b: Bits)
    ensures ToBits(FromBits(b), |b|) == b
  {
    if b != [] {
      ToFrom(b[..|b| - 1]);
      assert b == b[..|b| - 1] + [b[|b| - 1]];
    }
  }

  /** Shifting a left by n and or-ing in an n-bit quantity concatenates the bits. */
  lemma {:induction false} ToBitsConcat(a: int, m: nat, c: nat, n: nat)
    requires c < Pow2(n)
    ensures ToBits(Shl(a, n) + c, m + n) == ToBits(a, m) + ToBits(c, n)
    decreases n
  {
    if n == 0 {
      assert ToBits(a, m) + [] == ToBits(a, m);
    } else {
      ToBitsConcat(a, m, c / 2, n - 1);
      assert ToBits(a, m) + ToBits(c, n) == (ToBits(a, m) + ToBits(c / 2, n - 1)) + [c % 2 == 1];
    }
  }

  /** Only the low n bits matter. */
  lemma {:induction false} ToBitsLow(v: int, n: nat, k: nat)
    requires n <= k
    ensures ToBits(Low(v, k), n) == ToBits(v, n)
    decreases n
  {
    if n > 0 { ToBitsLow(v / 2, n - 1, k - 1); }
  }

  /** The leading m of m + n bits are the bits of v >> n; the rest are those of v. */
  lemma {:induction false} ToBitsSplit(v: int, m: nat, n: nat)
    ensures ToBits(v, m + n) == ToBits(Shr(v, n), m) + ToBits(v, n)
    decreases n
  {
    if n == 0 {
      assert ToBits(v, m) + [] == ToBits(v, m);
    } else {
      ToBitsSplit(v / 2, m, n - 1);
      ShrHalf(v, n);
      assert ToBits(Shr(v, n), m) + ToBits(v, n) == (ToBits(Shr(v, n), m) + ToBits(v / 2, n - 1)) + [v % 2 == 1];
    }
  }

  lemma {:induction false} ShrHalf(v: int, n: nat)
    requires n > 0
    ensures Shr(v, n) == Shr(v / 2, n - 1)
    decreases n
  {
    if n > 1 { ShrHalf(v, n - 1); }
  }

  lemma {:induction false} ShrMono(a: int, b: int, n: nat)
    requires a <= b
    ensures Shr(a, n) <= Shr(b, n)
    decreases n
  {
    if n > 0 { ShrMono(a, b, n - 1); }
  }

  lemma {:induction false} ShrShl(v: int, n: nat)
    ensures Shr(Shl(v, n), n) == v
    decreases n
  {
    if n > 0 { ShrHalf(Shl(v, n), n); ShrShl(v, n - 1); }
  }

  /** Shifting right drops exactly the n bits or-ed in below. */
  lemma {:induction false} ShrShlAdd(v: int, n: nat, x: int)
    requires Shl(v, n) <= x < Shl(v + 1, n)
    ensures Shr(x, n) == v
    decreases n
  {
    if n > 0 { ShrHalf(x, n); ShrShlAdd(v, n - 1, x / 2); }
  }

  lemma {:induction false} ShrGe(v: int, n: nat, x: int)
    requires Shl(v, n) <= x
    ensures v <= Shr(x, n)
    decreases n
  {
    if n > 0 { ShrHalf(x, n); ShrGe(v, n - 1, x / 2); }
  }

  lemma {:induction false} ShlSucc(v: int, n: nat)
    ensures Shl(v + 1, n) == Shl(v, n) + Pow2(n)
    decreases n
  {
    if n > 0 { ShlSucc(v, n - 1); }
  }

  lemma {:induction false} ShlDouble(v: int, n: nat)
    ensures Shl(2 * v, n) == Shl(v, n + 1)
    decreases n
  {
    if n > 0 { ShlDouble(v, n - 1); }
  }

  lemma {:induction false} ShlMono(a: int, b: int, n: nat)
    requires a <= b
    ensures Shl(a, n) <= Shl(b, n)
    decreases n
  {
    if n > 0 { ShlMono(a, b, n - 1); }
  }

  lemma {:induction false} ShlNeg(v: int, n: nat)
    ensures Shl(-v, n) == -Shl(v, n)
    decreases n
  {
    if n > 0 { ShlNeg(v, n - 1); }
  }

  lemma ShlZero(n: nat)
    ensures Shl(0, n) == 0
  {
  }

  lemma {:induction false} ZeroBits(n: nat)
    ensures ToBits(0, n) == Repeat(false, n)
  {
    if n > 0 { ZeroBits(n - 1); }
  }

  lemma {:induction false} ShlPow2(m: nat, n: nat)
    ensures Shl(Pow2(m), n) == Pow2(m + n)
    decreases n
  {
    if n > 0 { ShlPow2(m, n - 1); }
  }

  lemma {:induction false} ShrFits(v: nat, m: nat, n: nat)
    requires v < Pow2(m + n)
    ensures Shr(v, n) < Pow2(m)
    decreases n
  {
    if n > 0 { ShrFits(v / 2, m, n - 1); ShrHalf(v, n); }
  }

  lemma {:induction false} FromBitsConcat(a: Bits, b: Bits)
    ensures FromBits(a + b) == Shl(FromBits(a), |b|) + FromBits(b)
  {
    if b == [] {
      assert a + b == a;
    } else {
      FromBitsConcat(a, b[..|b| - 1]);
      assert (a + b)[..|a + b| - 1] == a + b[..|b| - 1];
    }
  }

  lemma {:induction false} FromRepeat(n: nat)
    ensures FromBits(Repeat(false, n)) == 0
    ensures FromBits(Repeat(true, n)) == Pow2(n) - 1
  {
    if n > 0 {
      FromRepeat(n - 1);
      assert Repeat(false, n)[..n - 1] == Repeat(false, n - 1);
      assert Repeat(true, n)[..n - 1] == Repeat(true, n - 1);
    }
  }

  /** HUFF_EXTEND undoes the encoder's field for every nonzero value. */
  lemma ExtendField(v: int)
    requires v != 0
    ensures NBits(Abs(v)) > 0
    ensures Extend(Low(Field(v), NBits(Abs(v))), NBits(Abs(v))) == v
  {
    LowFits(Field(v), NBits(Abs(v)));
  }

  // ---- The bit strings themselves ----

  lemma {:induction false} Complement(v: int, n: nat)
    ensures forall i :: 0 <= i < n ==> ToBits(-1 - v, n)[i] != ToBits(v, n)[i]
    decreases n
  {
    if n > 0 {
      assert (-1 - v) / 2 == -1 - v / 2 && (-1 - v) % 2 == 1 - v % 2;
      Complement(v / 2, n - 1);
    }
  }

  /** The value bits of table F.1 of T.81: a positive value in binary without leading zeroes,
      and its negative as the complement of those bits. */
  lemma ValueBits(v: int)
    requires v > 0
    ensures var n := NBits(Abs(v));
            && NBits(Abs(-v)) == n && FromBits(ToBits(Field(v), n)) == v && ToBits(Field(v), n)[0]
            && forall i :: 0 <= i < n ==> ToBits(Field(-v), n)[i] != ToBits(Field(v), n)[i]
  {
    var n := NBits(v);
    FromTo(v, n);
    LowFits(v, n);
    Complement(v, n);
    var b := ToBits(v, n);
    HighBit(b);
  }

  /** The first bit of a string counts most. */
  lemma HighBit(b: Bits)
    requires b != []
    ensures FromBits(b) == (if b[0] then Pow2(|b| - 1) else 0) + FromBits(b[1..])
  {
    assert b == [b[0]] + b[1..] && [b[0]][..0] == [];
    FromBitsConcat([b[0]], b[1..]);
    ShlPow2(0, |b| - 1);
    ShlZero(|b| - 1);
  }
}
