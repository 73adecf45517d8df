/** The shift-and-add multiplication of machine/mipssim.cc, on 32-bit operands.

    Every 32-bit operation of the source is written out on integers: an `int` is its signed
    value, an `unsigned int` its value below 2^32, and sums, shifts and negations wrap. */
module Multiply {
  import opened Words

  const TWO64 := 0x1_0000_0000_0000_0000

  /** Two's-complement negation of an `int`: the most negative value is its own negation. */
  function Negate(a: Int32): Int32 {
    if a == -TWO31 then a else -a
  }

  /** The low 32 bits of a number. */
  function Wrap(n: int): UInt32 { n % TWO32 }

  /** The 64-bit number held in two words. */
  function Double(hi: UInt32, lo: UInt32): (d: nat)
    ensures d < TWO64
  {
    hi * TWO32 + lo
  }

  /** The size of a signed operand, which is also the unsigned reading of its negation. */
  function Magnitude(a: Int32): (m: nat)
    ensures m <= TWO31
  {
    var n: int := a;
    if n < 0 then -n else n
  }

  lemma NegateIsMagnitude(a: Int32)
    requires a < 0
    ensures Unsigned(Negate(a)) == Magnitude(a)
  {}

  lemma WrapSum(x: UInt32, y: UInt32)
    ensures Wrap(x + y) == if x + y < TWO32 then x + y else x + y - TWO32
    ensures Wrap(x + y) < y <==> x + y >= TWO32
  {}

  /** Adding two double words, with the carry found by comparing. */
  method AddDouble(hi: UInt32, lo: UInt32, bHi: UInt32, bLo: UInt32) returns (hi': UInt32, lo': UInt32)
    requires Double(hi, lo) + Double(bHi, bLo) < TWO64
    ensures Double(hi', lo') == Double(hi, lo) + Double(bHi, bLo)
  {
    lo' := Wrap(lo + bLo);
    hi' := hi;
    WrapSum(lo, bLo);
    if lo' < bLo {
      hi' := Wrap(hi' + 1);
    }
    hi' := Wrap(hi' + bHi);
  }

  /** Shifting a double word left by one, one word at a time. */
  method ShiftDouble(bHi: UInt32, bLo: UInt32) returns (hi: UInt32, lo: UInt32)
    ensures 2 * Double(bHi, bLo) < TWO64 ==> Double(hi, lo) == 2 * Double(bHi, bLo)
  {
    hi := Wrap(2 * bHi);
    if bLo >= TWO31 {
      hi := hi + 1;
    }
    lo := Wrap(2 * bLo);
  }

  /** The two's complement of a non-zero double word. */
  method NegateDouble(hi: UInt32, lo: UInt32) returns (hi': UInt32, lo': UInt32)
    requires Double(hi, lo) > 0
    ensures Double(hi', lo') == TWO64 - Double(hi, lo)
  {
    hi', lo' := TWO32 - 1 - hi, TWO32 - 1 - lo;
    lo' := Wrap(lo' + 1);
    if lo' == 0 {
      hi' := Wrap(hi' + 1);
    }
  }

  /** How the shifted operand `a` stands to the bits `r` of the multiplier not yet used: a negative
      operand shifted arithmetically keeps ones above them. */
  ghost predicate Tracks(a: Int32, r: nat, negative: bool, i: nat) {
    && i <= 32 && r < Pow2(32 - i)
    && (if negative then a < 0 && r == a + Pow2(32 - i) else a == r)
  }

  lemma TracksStart(a: Int32)
    ensures Tracks(a, Unsigned(a), a < 0, 0)
  {
    Pow2At32();
  }

  /** While bits remain, the lowest bit of `a` is the next bit of the multiplier, and one
      arithmetic shift moves on to the bit after it. */
  lemma TracksShift(a: Int32, r: nat, negative: bool, i: nat)
    requires Tracks(a, r, negative, i) && i < 32
    ensures a % 2 == r % 2
    ensures Tracks(a / 2, r / 2, negative, i + 1)
  {
    assert Pow2(32 - i) == 2 * Pow2(31 - i);
  }

  /** A product, kept from the solver where its value does not matter. */
  function Times(x: nat, y: nat): nat { x * y }

  /** Taking one bit off the multiplier and doubling the other factor keeps the total. */
  lemma PeasantStep(acc: nat, r: nat, sh: nat)
    ensures acc + Times(r, sh) == (acc + (if r % 2 == 1 then sh else 0)) + Times(r / 2, 2 * sh)
    ensures r > 0 ==> sh <= Times(r, sh)
    ensures r / 2 == 0 ==> Times(r / 2, 2 * sh) == 0
  {
    assert r == r % 2 + 2 * (r / 2);
    assert r * sh == (r % 2 + 2 * (r / 2)) * sh == (r % 2) * sh + (r / 2) * (2 * sh);
    if r > 0 { assert r * sh == sh + (r - 1) * sh; }
  }

  lemma ProductMonotone(x: nat, y: nat, m: nat, n: nat)
    requires x <= m && y <= n
    ensures x * y <= m * n
  {
    assert m * n == x * y + x * (n - y) + (m - x) * n;
  }

  lemma ProductFits(u: UInt32, b: UInt32)
    ensures Times(u, b) < TWO64
  {
    ProductMonotone(u, b, TWO32 - 1, TWO32 - 1);
  }

  /** What the loop keeps: the double word and what is still to add make the product; while bits remain,
      the shifted operand is held exactly. */
  ghost predicate Accumulates(d: nat, bd: nat, r: nat, sh: nat, product: nat) {
    d + Times(r, sh) == product < TWO64 && (r > 0 ==> bd == sh)
  }

  /** The unsigned loop: the bits of `a0` one at a time, adding in shifted copies of `b`. */
  method MultiplyBits(a0: Int32, b: UInt32) returns (hi: UInt32, lo: UInt32)
    ensures Double(hi, lo) == Unsigned(a0) * b
  {
    hide Times, Double, Wrap;
    var a := a0;
    var bLo: UInt32, bHi: UInt32 := b, 0;
    hi, lo := 0, 0;
    ghost var r: nat, sh: nat := Unsigned(a0), b;
    TracksStart(a0);
    ProductFits(Unsigned(a0), b);
    DoubleOfSmall(0);
    DoubleOfSmall(b);
    var i := 0;
    while i < 32
      invariant 0 <= i <= 32
      invariant Tracks(a, r, a0 < 0, i)
      invariant Accumulates(Double(hi, lo), Double(bHi, bLo), r, sh, Times(Unsigned(a0), b))
    {
      TracksShift(a, r, a0 < 0, i);
      PeasantStep(Double(hi, lo), r, sh);
      if a % 2 == 1 {
        hi, lo := AddDouble(hi, lo, bHi, bLo);
        if Unsigned(a) - Unsigned(a) % 2 == 0 {
          LastBit(a, r, a0 < 0, i);
          r := 0;
          break;
        }
      }
      PeasantStep(0, r / 2, 2 * sh);
      bHi, bLo := ShiftDouble(bHi, bLo);
      a := a / 2;
      r, sh := r / 2, 2 * sh;
      i := i + 1;
    }
    TimesMeans(0, sh);
    TimesMeans(Unsigned(a0), b);
  }

  /** The early exit is taken when the last bit has been used. */
  lemma LastBit(a: Int32, r: nat, negative: bool, i: nat)
    requires Tracks(a, r, negative, i) && a % 2 == 1 && Unsigned(a) - Unsigned(a) % 2 == 0
    ensures r == 1
  {
  }

  lemma TimesMeans(x: nat, y: nat)
    ensures Times(x, y) == x * y
  {
  }

  lemma DoubleOfSmall(lo: UInt32)
    ensures Double(0, lo) == lo
  {
  }

  /** MULT and MULTU: the two result words hold the exact 64-bit product. */
  method Mult(a: Int32, b: Int32, signedArith: bool) returns (hi: Int32, lo: Int32)
    ensures signedArith ==> hi * TWO32 + Unsigned(lo) == a * b
    ensures !signedArith ==> Unsigned(hi) * TWO32 + Unsigned(lo) == Unsigned(a) * Unsigned(b)
  {
    if a == 0 || b == 0 {
      return 0, 0;
    }
    var negative := false;
    var a', b' := a, b;
    if signedArith {
      if a < 0 {
        negative := !negative;
        a' := Negate(a);
        NegateIsMagnitude(a);
      }
      if b < 0 {
        negative := !negative;
        b' := Negate(b);
        NegateIsMagnitude(b);
      }
    }
    var h, l := MultiplyBits(a', Unsigned(b'));
    ProductPositive(Unsigned(a'), Unsigned(b'));
    if negative {
      h, l := NegateDouble(h, l);
    }
    if signedArith {
      SignedProduct(a, b, h, l, negative);
    }
    hi, lo := Signed(h), Signed(l);
  }

  lemma ProductOfMagnitudes(a: Int32, b: Int32)
    requires a != 0 && b != 0
    ensures a * b == if (a < 0) != (b < 0) then -(Magnitude(a) * Magnitude(b)) else Magnitude(a) * Magnitude(b)
    ensures 0 < Magnitude(a) * Magnitude(b) <= TWO31 * TWO31
  {
    ProductMonotone(Magnitude(a), Magnitude(b), TWO31, TWO31);
    ProductPositive(Magnitude(a), Magnitude(b));
  }

  lemma SignedDouble(h: UInt32, l: UInt32, p: int)
    requires -TWO31 * TWO31 <= p <= TWO31 * TWO31
    requires Double(h, l) == if p < 0 then TWO64 + p else p
    ensures Signed(h) * TWO32 + l == p
  {
  }

  lemma ProductPositive(u: nat, v: nat)
    requires u > 0 && v > 0
    ensures u * v > 0
  {}

  /** The double word built from the magnitudes is the signed product. */
  lemma SignedProduct(a: Int32, b: Int32, h: UInt32, l: UInt32, negative: bool)
    requires a != 0 && b != 0
    requires negative == ((a < 0) != (b < 0))
    requires if negative then Double(h, l) == TWO64 - Magnitude(a) * Magnitude(b)
             else Double(h, l) == Magnitude(a) * Magnitude(b)
    ensures Signed(h) * TWO32 + l == a * b
  {
    ProductOfMagnitudes(a, b);
    SignedDouble(h, l, a * b);
  }
}
