/** 32-bit machine words, their bits, and their little-endian byte images.

    Bit tests and bit updates are written with `Mask(k)`, which is `1 << k` spelled as k
    doublings; conversions between words and bytes go bit by bit.  */
module Words {

  type Byte = b: int | 0 <= b < 256
  type UInt32 = u: nat | u < 0x1_0000_0000
  type Int32 = n: int | -0x8000_0000 <= n < 0x8000_0000

  /** `1 << k` on an unsigned 32-bit word. */
  function Mask(k: nat): bv32
    requires k < 32
  {
    if k == 0 then 1 else Mask(k - 1) << 1
  }

  function And(w: bv32, m: bv32): bv32 { w & m }

  function SetBits(w: bv32, m: bv32): bv32 { w | m }

  function ResetBits(w: bv32, m: bv32): bv32 { w & !m }

  predicate Hit(w: bv32, m: bv32) { And(w, m) != 0 }

  /** Is bit `k` of `w` set? */
  predicate Bit(w: bv32, k: nat)
    requires k < 32
  {
    Hit(w, Mask(k))
  }

  lemma {:induction false} MasksDisjoint(j: nat, k: nat)
    requires j < k < 32
    ensures Mask(j) & Mask(k) == 0 && Mask(k) & Mask(j) == 0
  {
    if j > 0 { MasksDisjoint(j - 1, k - 1); }
  }

  lemma {:induction false} MaskNonZero(k: nat)
    requires k < 32
    ensures Mask(k) != 0
    decreases 31 - k
  {
    if k == 31 {
      assert Mask(8) == 0x100;
      assert Mask(16) == 0x1_0000;
      assert Mask(24) == 0x100_0000;
      assert Mask(31) == 0x8000_0000;
    } else {
      MaskNonZero(k + 1);
    }
  }

  lemma SetMissesOther(w: bv32, a: bv32, b: bv32)
    requires a & b == 0
    ensures And(SetBits(w, a), b) == And(w, b)
  {}

  lemma ResetMissesOther(w: bv32, a: bv32, b: bv32)
    requires a & b == 0
    ensures And(ResetBits(w, a), b) == And(w, b)
  {}

  lemma SetHitsSame(w: bv32, a: bv32)
    requires a != 0
    ensures Hit(SetBits(w, a), a)
  {}

  lemma ResetMissesSame(w: bv32, a: bv32)
    ensures !Hit(ResetBits(w, a), a)
  {}

  lemma HitOfAnd(v: bv32, w: bv32, m: bv32)
    requires And(v, m) == And(w, m)
    ensures Hit(v, m) == Hit(w, m)
  {}

  lemma SetOther(w: bv32, k: nat, j: nat)
    requires k < 32 && j < 32 && j != k
    ensures Hit(SetBits(w, Mask(k)), Mask(j)) == Hit(w, Mask(j))
  {
    hide Mask, Hit, And, SetBits;
    if j < k { MasksDisjoint(j, k); } else { MasksDisjoint(k, j); }
    SetMissesOther(w, Mask(k), Mask(j));
    HitOfAnd(SetBits(w, Mask(k)), w, Mask(j));
  }

  /** Setting bit `k` changes that bit and no other. */
  lemma {:induction false} SetBit(w: bv32, k: nat, j: nat)
    requires k < 32 && j < 32
    ensures Bit(SetBits(w, Mask(k)), j) == (j == k || Bit(w, j))
  {
    hide Mask, Hit, SetBits;
    if j == k {
      MaskNonZero(k);
      SetHitsSame(w, Mask(k));
    } else {
      SetOther(w, k, j);
    }
  }

  lemma ResetOther(w: bv32, k: nat, j: nat)
    requires k < 32 && j < 32 && j != k
    ensures Hit(ResetBits(w, Mask(k)), Mask(j)) == Hit(w, Mask(j))
  {
    hide Mask, Hit, And, ResetBits;
    if j < k { MasksDisjoint(j, k); } else { MasksDisjoint(k, j); }
    ResetMissesOther(w, Mask(k), Mask(j));
    HitOfAnd(ResetBits(w, Mask(k)), w, Mask(j));
  }

  /** Resetting bit `k` changes that bit and no other. */
  lemma {:induction false} ResetBit(w: bv32, k: nat, j: nat)
    requires k < 32 && j < 32
    ensures Bit(ResetBits(w, Mask(k)), j) == (j != k && Bit(w, j))
  {
    hide Mask, Hit, ResetBits;
    if j == k {
      ResetMissesSame(w, Mask(k));
    } else {
      ResetOther(w, k, j);
    }
  }

  // ---------------------------------------------------------------------------
  // Numbers and bit vectors

  const TWO32 := 0x1_0000_0000
  const TWO31 := 0x8000_0000

  function Pow2(n: nat): (p: nat)
    ensures p > 0
  {
    if n == 0 then 1 else 2 * Pow2(n - 1)
  }

  lemma Pow2At32()
    ensures Pow2(32) == TWO32
  {
    assert Pow2(8) == 0x100;
    assert Pow2(16) == 0x1_0000;
    assert Pow2(24) == 0x100_0000;
  }

  function Cons(b: bool, rest: nat): nat { (if b then 1 else 0) + 2 * rest }

  predicate Odd(n: nat) { n % 2 == 1 }

  function Half(n: nat): nat { n / 2 }

  lemma Uncons(b: bool, rest: nat)
    ensures Odd(Cons(b, rest)) == b && Half(Cons(b, rest)) == rest
  {}

  predicate LowBit(w: bv32) { w & 1 != 0 }

  function Shifted(w: bv32): bv32 { w >> 1 }

  function Stack(b: bool, w: bv32): bv32 { (if b then 1 else 0) | (w << 1) }

  /** The number written by the lowest `n` bits of `w`. */
  function NatOf(w: bv32, n: nat): (u: nat)
    ensures u < Pow2(n)
  {
    if n == 0 then 0 else Cons(LowBit(w), NatOf(Shifted(w), n - 1))
  }

  /** The word whose lowest `n` bits write `u`. */
  function BvOf(u: nat, n: nat): bv32
  {
    if n == 0 then 0 else Stack(Odd(u), BvOf(Half(u), n - 1))
  }

  function Ones(n: nat): bv32
  {
    if n == 0 then 0 else (Ones(n - 1) << 1) | 1
  }

  lemma OnesAt32()
    ensures Ones(32) == 0xffff_ffff
  {
    assert Ones(8) == 0xff;
    assert Ones(16) == 0xffff;
    assert Ones(24) == 0xff_ffff;
  }

  lemma Restack(w: bv32, ones: bv32)
    ensures Stack(LowBit(w), And(Shifted(w), ones)) == And(w, (ones << 1) | 1)
  {}

  lemma {:induction false} BvOfNatOf(w: bv32, n: nat)
    ensures BvOf(NatOf(w, n), n) == And(w, Ones(n))
    decreases n
  {
    hide Cons, Odd, Half, Stack, LowBit, Shifted;
    if n == 0 {
      assert And(w, 0) == 0;
    } else {
      hide And;
      Uncons(LowBit(w), NatOf(Shifted(w), n - 1));
      BvOfNatOf(Shifted(w), n - 1);
      Restack(w, Ones(n - 1));
    }
  }

  /** A number with its lowest `k` binary digits dropped. */
  function Halves(u: nat, k: nat): nat { if k == 0 then u else Halves(Half(u), k - 1) }

  lemma HitShift(w: bv32, m: bv32)
    requires m & 0x8000_0000 == 0
    ensures Hit(w, Twice(m)) == Hit(Shifted(w), m)
  {}

  function Twice(m: bv32): bv32 { m << 1 }

  lemma MaskStep(k: nat)
    requires 0 < k < 32
    ensures Mask(k) == Twice(Mask(k - 1))
  {}

  lemma MaskLow(k: nat)
    requires k < 31
    ensures Mask(k) & 0x8000_0000 == 0
  {
    MasksDisjoint(k, 31);
    MaskTop();
  }

  lemma MaskTop()
    ensures Mask(31) == 0x8000_0000
  {
    assert Mask(8) == 0x100;
    assert Mask(16) == 0x1_0000;
    assert Mask(24) == 0x100_0000;
  }

  lemma BitZero(w: bv32)
    ensures Bit(w, 0) == LowBit(w)
  {}

  lemma BitShift(w: bv32, k: nat)
    requires 0 < k < 32
    ensures Bit(w, k) == Bit(Shifted(w), k - 1)
  {
    hide Hit, Mask, Shifted, Twice;
    MaskStep(k);
    MaskLow(k - 1);
    HitShift(w, Mask(k - 1));
  }

  /** Bit `k` of a word is digit `k` of its value written in binary. */
  lemma {:induction false} BitIsDigit(w: bv32, n: nat, k: nat)
    requires k < n <= 32
    ensures Bit(w, k) == Odd(Halves(NatOf(w, n), k))
    decreases k
  {
    hide Bit, LowBit, Shifted, Cons, Odd, Half;
    Uncons(LowBit(w), NatOf(Shifted(w), n - 1));
    if k == 0 {
      BitZero(w);
    } else {
      BitShift(w, k);
      BitIsDigit(Shifted(w), n - 1, k - 1);
    }
  }

  /** The unsigned value of a word. */
  function Value(w: bv32): (u: UInt32)
  {
    Pow2At32();
    NatOf(w, 32)
  }

  function Word(u: UInt32): bv32
  {
    BvOf(u, 32)
  }

  lemma WordOfValue(w: bv32)
    ensures Word(Value(w)) == w
  {
    BvOfNatOf(w, 32);
    OnesAt32();
  }

  // ---------------------------------------------------------------------------
  // Bytes of a 32-bit word

  /** Byte `k` of the little-endian image of the 32-bit pattern `u`. */
  function Digit(u: UInt32, k: nat): Byte
    requires k < 4
  {
    if k == 0 then u % 0x100
    else if k == 1 then u / 0x100 % 0x100
    else if k == 2 then u / 0x1_0000 % 0x100
    else u / 0x100_0000
  }

  /** The 32-bit pattern with the given little-endian image. */
  function Pattern(b0: Byte, b1: Byte, b2: Byte, b3: Byte): (u: UInt32)
  {
    b0 + 0x100 * b1 + 0x1_0000 * b2 + 0x100_0000 * b3
  }

  lemma PatternOfDigits(u: UInt32)
    ensures Pattern(Digit(u, 0), Digit(u, 1), Digit(u, 2), Digit(u, 3)) == u
  {
    var u1 := u / 256;
    var u2 := u1 / 256;
    assert u2 == u / 0x1_0000;
    assert u2 / 256 == u / 0x100_0000;
    assert u == u % 256 + 256 * u1 && u1 == u1 % 256 + 256 * u2 && u2 == u2 % 256 + 256 * (u2 / 256);
  }

  /** The memory image of an array of 32-bit patterns. */
  function ToBytes(us: seq<UInt32>): (bs: seq<Byte>)
    ensures |bs| == 4 * |us|
  {
    seq(4 * |us|, i requires 0 <= i < 4 * |us| => Digit(us[i / 4], i % 4))
  }

  function FromBytes(bs: seq<Byte>): (us: seq<UInt32>)
    requires |bs| % 4 == 0
    ensures |us| == |bs| / 4
  {
    seq(|bs| / 4, i requires 0 <= i < |bs| / 4 =>
      Pattern(bs[4 * i], bs[4 * i + 1], bs[4 * i + 2], bs[4 * i + 3]))
  }

  lemma ByteAt(us: seq<UInt32>, i: nat, k: nat)
    requires i < |us| && k < 4
    ensures 4 * i + k < 4 * |us|
    ensures ToBytes(us)[4 * i + k] == Digit(us[i], k)
  {
    assert (4 * i + k) / 4 == i && (4 * i + k) % 4 == k;
  }

  lemma PatternAt(us: seq<UInt32>, i: nat)
    requires i < |us|
    ensures FromBytes(ToBytes(us))[i] == us[i]
  {
    ByteAt(us, i, 0); ByteAt(us, i, 1); ByteAt(us, i, 2); ByteAt(us, i, 3);
    PatternOfDigits(us[i]);
  }

  /** The four bytes of a pattern, little end first. */
  function Image4(u: UInt32): (bs: seq<Byte>)
    ensures |bs| == 4
  {
    [u % 256, u / 256 % 256, u / 65536 % 256, u / 16777216]
  }

  lemma WordImage(us: seq<UInt32>, i: nat)
    requires i < |us|
    ensures ToBytes(us)[4 * i..4 * i + 4] == Image4(us[i])
  {
    ByteAt(us, i, 0); ByteAt(us, i, 1); ByteAt(us, i, 2); ByteAt(us, i, 3);
    var bs := ToBytes(us)[4 * i..4 * i + 4];
    assert bs[0] == Digit(us[i], 0) && bs[1] == Digit(us[i], 1) && bs[2] == Digit(us[i], 2) && bs[3] == Digit(us[i], 3);
  }

  /** Reading back the memory image of an array of patterns gives the same patterns. */
  lemma BytesRoundTrip(us: seq<UInt32>)
    ensures FromBytes(ToBytes(us)) == us
  {
    forall i | 0 <= i < |us|
      ensures FromBytes(ToBytes(us))[i] == us[i]
    {
      PatternAt(us, i);
    }
  }

  function Values(ws: seq<bv32>): (us: seq<UInt32>)
    ensures |us| == |ws|
  {
    seq(|ws|, i requires 0 <= i < |ws| => Value(ws[i]))
  }

  function BitVectors(us: seq<UInt32>): (ws: seq<bv32>)
    ensures |ws| == |us|
  {
    seq(|us|, i requires 0 <= i < |us| => Word(us[i]))
  }

  /** The memory image of an array of words. */
  function WordsToBytes(ws: seq<bv32>): (bs: seq<Byte>)
    ensures |bs| == 4 * |ws|
  {
    ToBytes(Values(ws))
  }

  function BytesToWords(bs: seq<Byte>): (ws: seq<bv32>)
    requires |bs| % 4 == 0
    ensures |ws| == |bs| / 4
  {
    BitVectors(FromBytes(bs))
  }

  lemma WordsRoundTrip(ws: seq<bv32>)
    ensures BytesToWords(WordsToBytes(ws)) == ws
  {
    BytesRoundTrip(Values(ws));
    forall i | 0 <= i < |ws|
      ensures BitVectors(Values(ws))[i] == ws[i]
    {
      WordOfValue(ws[i]);
    }
  }

  // ---------------------------------------------------------------------------
  // Signed 32-bit integers

  /** The bit pattern of a signed integer, read as unsigned. */
  function Unsigned(n: Int32): (u: UInt32)
  {
    if n < 0 then n + TWO32 else n
  }

  /** The signed reading of a 32-bit pattern. */
  function Signed(u: UInt32): (n: Int32)
    ensures Unsigned(n) == u
  {
    if u < TWO31 then u else u - TWO32
  }

  lemma SignedUnsigned(n: Int32)
    ensures Signed(Unsigned(n)) == n
  {}
}
