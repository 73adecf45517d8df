/** The bitmap of userprog/bitmap.cc: an array of 32-bit words updated in place with masks.
    Its abstract value is the sequence of its `numBits` bits. */
module BitMaps {
  import opened Words

  const BITS_IN_WORD := 32

  /** `divRoundUp(n, s)` of threads/utility.h on non-negative operands. */
  function DivRoundUp(n: nat, s: nat): (r: nat)
    requires s > 0
    ensures (r - 1) * s < n <= r * s
  {
    QuotientBounds(n, s);
    n / s + (if n % s > 0 then 1 else 0)
  }

  lemma QuotientBounds(n: nat, s: nat)
    requires s > 0
    ensures var q := n / s; n == q * s + n % s && (q + 1) * s == q * s + s && (q - 1) * s == q * s - s
  {
  }

  /** The first `n` bits stored in the words `ws`. */
  function BitsOf(ws: seq<bv32>, n: nat): (bits: seq<bool>)
    requires n <= 32 * |ws|
    ensures |bits| == n
  {
    seq(n, i requires 0 <= i < n => Bit(ws[i / 32], i % 32))
  }

  /** How many of the bits are clear. */
  function CountClear(bits: seq<bool>): (c: nat)
    ensures c <= |bits|
  {
    if bits == [] then 0
    else CountClear(bits[..|bits| - 1]) + (if bits[|bits| - 1] then 0 else 1)
  }

  /** The lowest clear bit at or after `from`, or -1. */
  function FirstClear(bits: seq<bool>, from: nat := 0): (r: int)
    requires from <= |bits|
    decreases |bits| - from
  {
    if from == |bits| then -1
    else if !bits[from] then from
    else FirstClear(bits, from + 1)
  }

  /** What it means to be the lowest clear bit. */
  lemma {:induction false} FirstClearIsLowest(bits: seq<bool>, from: nat)
    requires from <= |bits|
    ensures var r := FirstClear(bits, from);
            if r == -1 then forall i | from <= i < |bits| :: bits[i]
            else from <= r < |bits| && !bits[r] && forall i | from <= i < r :: bits[i]
    decreases |bits| - from
  {
    if from < |bits| && bits[from] {
      FirstClearIsLowest(bits, from + 1);
    }
  }

  /** Marking a clear bit lowers the clear count by one. */
  lemma {:induction false} CountAfterMark(bits: seq<bool>, i: nat)
    requires i < |bits| && !bits[i]
    ensures CountClear(bits[i := true]) == CountClear(bits) - 1
  {
    var n := |bits| - 1;
    if i == n {
      assert bits[i := true][..n] == bits[..n];
    } else {
      assert bits[i := true][..n] == bits[..n][i := true];
      CountAfterMark(bits[..n], i);
    }
  }

  lemma {:induction false} CountPositive(bits: seq<bool>, i: nat)
    requires i < |bits| && !bits[i]
    ensures CountClear(bits) > 0
  {
    if i < |bits| - 1 { CountPositive(bits[..|bits| - 1], i); }
  }

  /** The clear count is positive exactly when `FirstClear` finds a bit. */
  lemma CountMeetsFind(bits: seq<bool>)
    ensures CountClear(bits) == 0 <==> FirstClear(bits) == -1
  {
    FirstClearIsLowest(bits, 0);
    if FirstClear(bits) != -1 {
      CountPositive(bits, FirstClear(bits));
    } else {
      CountOfMarked(bits);
    }
  }

  lemma {:induction false} CountOfClear(bits: seq<bool>)
    requires forall i | 0 <= i < |bits| :: !bits[i]
    ensures CountClear(bits) == |bits|
  {
    if bits != [] { CountOfClear(bits[..|bits| - 1]); }
  }

  lemma {:induction false} CountOfMarked(bits: seq<bool>)
    requires forall i | 0 <= i < |bits| :: bits[i]
    ensures CountClear(bits) == 0
  {
    if bits != [] { CountOfMarked(bits[..|bits| - 1]); }
  }

  /** Setting bit `which` of the words sets that bit of the bit sequence and no other. */
  lemma BitsAfterMark(ws: seq<bv32>, n: nat, which: nat)
    requires n <= 32 * |ws| && which < n
    ensures var ws' := ws[which / 32 := SetBits(ws[which / 32], Mask(which % 32))];
            BitsOf(ws', n) == BitsOf(ws, n)[which := true]
  {
    var ws' := ws[which / 32 := SetBits(ws[which / 32], Mask(which % 32))];
    forall i | 0 <= i < n
      ensures Bit(ws'[i / 32], i % 32) == (i == which || Bit(ws[i / 32], i % 32))
    {
      if i / 32 == which / 32 { SetBit(ws[i / 32], which % 32, i % 32); }
    }
  }

  lemma BitsAfterClear(ws: seq<bv32>, n: nat, which: nat)
    requires n <= 32 * |ws| && which < n
    ensures var ws' := ws[which / 32 := ResetBits(ws[which / 32], Mask(which % 32))];
            BitsOf(ws', n) == BitsOf(ws, n)[which := false]
  {
    var ws' := ws[which / 32 := ResetBits(ws[which / 32], Mask(which % 32))];
    forall i | 0 <= i < n
      ensures Bit(ws'[i / 32], i % 32) == (i != which && Bit(ws[i / 32], i % 32))
    {
      if i / 32 == which / 32 { ResetBit(ws[i / 32], which % 32, i % 32); }
    }
  }

  class BitMap {
    const numBits: nat
    const words: array<bv32>

    ghost predicate Valid() {
      words.Length == DivRoundUp(numBits, BITS_IN_WORD)
    }

    ghost function Bits(): (bits: seq<bool>)
      requires Valid()
      reads words
      ensures |bits| == numBits
    {
      BitsOf(words[..], numBits)
    }

    /** Fresh storage holds arbitrary words; every bit is then cleared one at a time. */
    constructor (nitems: nat)
      ensures Valid() && fresh(words) && numBits == nitems
      ensures forall i | 0 <= i < nitems :: !Bits()[i]
    {
      numBits := nitems;
      words := new bv32[DivRoundUp(nitems, BITS_IN_WORD)];
      new;
      var i := 0;
      while i < numBits
        invariant 0 <= i <= numBits
        invariant forall j | 0 <= j < i :: !Bits()[j]
      {
        Clear(i);
        i := i + 1;
      }
    }

    method Mark(which: nat)
      requires Valid() && which < numBits
      modifies words
      ensures Bits() == old(Bits())[which := true]
    {
      BitsAfterMark(words[..], numBits, which);
      ghost var ws := words[..];
      words[which / BITS_IN_WORD] := SetBits(words[which / BITS_IN_WORD], Mask(which % BITS_IN_WORD));
      assert words[..] == ws[which / 32 := SetBits(ws[which / 32], Mask(which % 32))];
    }

    method Clear(which: nat)
      requires Valid() && which < numBits
      modifies words
      ensures Bits() == old(Bits())[which := false]
    {
      BitsAfterClear(words[..], numBits, which);
      ghost var ws := words[..];
      words[which / BITS_IN_WORD] := ResetBits(words[which / BITS_IN_WORD], Mask(which % BITS_IN_WORD));
      assert words[..] == ws[which / 32 := ResetBits(ws[which / 32], Mask(which % 32))];
    }

    method Test(which: nat) returns (r: bool)
      requires Valid() && which < numBits
      ensures r == Bits()[which]
    {
      r := Hit(words[which / BITS_IN_WORD], Mask(which % BITS_IN_WORD));
    }

    /** Returns the lowest clear bit and marks it, or -1 when every bit is set. */
    method Find() returns (r: int)
      requires Valid()
      modifies words
      ensures r == FirstClear(old(Bits()))
      ensures r == -1 ==> Bits() == old(Bits()) && CountClear(old(Bits())) == 0
      ensures r != -1 ==> 0 <= r < numBits && !old(Bits())[r] && Bits() == old(Bits())[r := true]
      ensures r != -1 ==> CountClear(Bits()) == CountClear(old(Bits())) - 1
    {
      ghost var bits := Bits();
      CountMeetsFind(bits);
      var i := 0;
      while i < numBits
        invariant 0 <= i <= numBits
        invariant FirstClear(bits) == FirstClear(bits, i)
        invariant Bits() == bits
      {
        var marked := Test(i);
        if !marked {
          CountAfterMark(bits, i);
          Mark(i);
          return i;
        }
        i := i + 1;
      }
      return -1;
    }

    method NumClear() returns (count: nat)
      requires Valid()
      ensures count == CountClear(Bits())
    {
      count := 0;
      var i := 0;
      while i < numBits
        invariant 0 <= i <= numBits
        invariant count == CountClear(Bits()[..i])
      {
        var marked := Test(i);
        if !marked { count := count + 1; }
        assert Bits()[..i + 1][..i] == Bits()[..i];
        i := i + 1;
      }
      assert Bits()[..numBits] == Bits();
    }
  }
}
