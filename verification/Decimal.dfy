/** The decimal printer and reader of userprog/exception.cc: the digit loops of the PrintInt and
    ReadInt system calls, over their eleven-character buffers. */
module Decimal {
  import opened Common
  import opened Words

  const MAX_LEN := 11
  const INT_MIN: Int32 := -0x8000_0000
  const SPACE := 32
  const PLUS := 43
  const MINUS := 45
  const ZERO := 48

  /** A character, by its code. */
  type Char = int

  predicate IsDigit(c: Char) { ZERO <= c <= ZERO + 9 }

  // ---------------------------------------------------------------------------
  // C arithmetic

  /** Division and remainder that truncate toward zero. */
  function Quotient(n: int): (q: int)
    ensures n >= 0 ==> q == n / 10 >= 0
    ensures n < 0 ==> q <= 0
  {
    if n >= 0 then n / 10 else -((-n) / 10)
  }

  function Remainder(n: int): int { n - 10 * Quotient(n) }

  function Negate(n: Int32): Int32 { if n == INT_MIN then n else -n }

  function Size(n: int): nat { if n < 0 then -n else n }

  function Pow10(k: nat): (p: nat)
    ensures p > 0
  {
    if k == 0 then 1 else 10 * Pow10(k - 1)
  }

  // ---------------------------------------------------------------------------
  // What is printed

  /** The digits of `n`, most significant first; a negative `n` yields codes below '0'. */
  function DigitCodes(n: int): (s: seq<Char>)
    decreases Size(n)
  {
    if Quotient(n) == 0 then [ZERO + Remainder(n)] else DigitCodes(Quotient(n)) + [ZERO + Remainder(n)]
  }

  function Printed(n: Int32): seq<Char> {
    if n < 0 then [MINUS] + DigitCodes(Negate(n)) else DigitCodes(n)
  }

  /** The text printed for any number, kept within the eleven-character buffer. */
  method PrintInt(n0: Int32) returns (text: seq<Char>)
    ensures text == Printed(n0)
    ensures |text| <= MAX_LEN
  {
    hide Printed;
    var numString := new Char[MAX_LEN];
    var tmp := new int[MAX_LEN];
    var i := PrintInto(n0, numString, tmp);
    return numString[..i];
  }

  method PrintInto(n0: Int32, numString: array<Char>, tmp: array<int>) returns (i: nat)
    requires numString.Length == tmp.Length == MAX_LEN && tmp != numString
    modifies numString, tmp
    ensures i <= MAX_LEN && numString[..i] == Printed(n0)
  {
    hide DigitCodes, Backwards;
    var n: int := n0;
    i := 0;
    if n < 0 {
      n := Negate(n0);
      numString[i] := MINUS;
      i := 1;
    }
    var j := SplitDigits(n, tmp);
    ghost var sign := numString[..i];
    assert sign == if n0 < 0 then [MINUS] else [];
    i := CopyDigits(tmp, j, numString, i);
  }

  /** Peels the digits off, least significant first; ten places suffice. */
  method SplitDigits(n0: int, tmp: array<int>) returns (j: nat)
    requires Size(n0) < 10_000_000_000 && tmp.Length == MAX_LEN
    modifies tmp
    ensures 0 < j <= 10 && DigitCodes(n0) == Backwards(tmp[..j])
  {
    hide Pow10, DigitCodes, Peeled, Quotient, Remainder;
    TenDigits();
    tmp[0] := Remainder(n0);
    j := 1;
    var n := Quotient(n0);
    FewerDigits(n0, 10);
    assert tmp[..1] == [Remainder(n0)];
    PeelsFirst(n0);
    while n != 0
      invariant 0 < j <= 10 && Size(n) < Pow10(10 - j)
      invariant Peeled(n0, n, tmp[..j])
      decreases Size(n)
    {
      ghost var was := tmp[..j];
      FewerDigits(n, 10 - j);
      PeelsMore(n0, n, was);
      tmp[j] := Remainder(n);
      assert tmp[..j + 1] == was + [Remainder(n)];
      j := j + 1;
      n := Quotient(n);
    }
    AllPeeled(n0, tmp[..j]);
  }

  /** The digits of `n0` are those still in `n` and then those peeled off. */
  ghost predicate Peeled(n0: int, n: int, ds: seq<int>) {
    DigitCodes(n0) == (if n == 0 then [] else DigitCodes(n)) + Backwards(ds)
  }

  lemma AllPeeled(n0: int, ds: seq<int>)
    requires Peeled(n0, 0, ds)
    ensures DigitCodes(n0) == Backwards(ds)
  {
    hide Backwards, DigitCodes;
  }

  lemma PeelsFirst(n0: int)
    ensures Peeled(n0, Quotient(n0), [Remainder(n0)])
  {
    assert Backwards([Remainder(n0)]) == [ZERO + Remainder(n0)];
  }

  lemma PeelsMore(n0: int, n: int, ds: seq<int>)
    requires n != 0 && Peeled(n0, n, ds)
    ensures Peeled(n0, Quotient(n), ds + [Remainder(n)])
  {
    BackwardsSnoc(ds, Remainder(n));
  }

  lemma FewerDigits(n: int, k: nat)
    requires Size(n) < Pow10(k)
    ensures n != 0 ==> k > 0 && Size(Quotient(n)) < Size(n)
    ensures k > 0 ==> Size(Quotient(n)) < Pow10(k - 1)
  {
    if k > 0 { assert Pow10(k) == 10 * Pow10(k - 1); }
  }

  /** Copies the digits out as characters, most significant first. */
  method CopyDigits(tmp: array<int>, j0: nat, numString: array<Char>, i0: nat) returns (i: nat)
    requires tmp != numString && j0 <= tmp.Length && i0 + j0 <= numString.Length
    modifies numString
    ensures i == i0 + j0 && numString[..i] == old(numString[..i0]) + Backwards(tmp[..j0])
  {
    ghost var codes := Backwards(tmp[..j0]);
    i := i0;
    var j := j0;
    while j > 0
      invariant 0 <= j <= j0 && i == i0 + j0 - j
      invariant numString[..i] == old(numString[..i0]) + codes[..j0 - j]
    {
      j := j - 1;
      BackwardsAt(tmp[..j0], j0 - 1 - j);
      ghost var was := numString[..i];
      numString[i] := ZERO + tmp[j];
      assert numString[..i + 1] == was + [codes[j0 - 1 - j]];
      i := i + 1;
    }
  }

  /** The characters of the digits `ds`, last one first. */
  function Backwards(ds: seq<int>): (s: seq<Char>)
    ensures |s| == |ds|
  {
    seq(|ds|, i requires 0 <= i < |ds| => ZERO + ds[|ds| - 1 - i])
  }

  lemma BackwardsSnoc(ds: seq<int>, d: int)
    ensures Backwards(ds + [d]) == [ZERO + d] + Backwards(ds)
  {
  }

  lemma BackwardsAt(ds: seq<int>, i: nat)
    requires i < |ds|
    ensures Backwards(ds)[i] == ZERO + ds[|ds| - 1 - i]
  {
  }

  lemma TenDigits()
    ensures Pow10(10) == 10_000_000_000
  {
    assert Pow10(4) == 10_000;
    assert Pow10(7) == 10_000_000;
  }

  // ---------------------------------------------------------------------------
  // What is read

  /** The number that a string of digits writes. */
  function ValueOf(s: seq<Char>): int {
    if s == [] then 0 else 10 * ValueOf(s[..|s| - 1]) + (s[|s| - 1] - ZERO)
  }

  function SkipSpaces(input: seq<Char>, k: nat := 0): (r: nat)
    requires k <= |input|
    ensures k <= r <= |input|
    ensures r < |input| ==> input[r] != SPACE
    ensures forall i | k <= i < r :: input[i] == SPACE
    decreases |input| - k
  {
    if k < |input| && input[k] == SPACE then SkipSpaces(input, k + 1) else k
  }

  /** How many digits, at most `limit`, stand at position `k`. */
  function DigitRun(input: seq<Char>, k: nat, limit: nat): (r: nat)
    requires k <= |input|
    ensures r <= limit && k + r <= |input|
    ensures forall i | k <= i < k + r :: IsDigit(input[i])
    ensures r < limit && k + r < |input| ==> !IsDigit(input[k + r])
    decreases |input| - k
  {
    if limit > 0 && k < |input| && IsDigit(input[k]) then 1 + DigitRun(input, k + 1, limit - 1) else 0
  }

  function Clamp(v: int): int { if v > 0x7fff_ffff then 0 else v }

  /** The number that a first character and the digits after it stand for. */
  function Reading(c: Char, digits: seq<Char>): int {
    var v := Clamp(ValueOf((if IsDigit(c) then [c] else []) + digits));
    if c == MINUS then -v else v
  }

  /** What ReadInt returns and how many characters it consumes; None while it waits for more.
      The first non-space character is a sign, a digit, or dropped; up to eleven digits count;
      a value beyond the largest int reads as zero. */
  function Parsed(input: seq<Char>): Option<(int, nat)> {
    var k := SkipSpaces(input);
    if k == |input| then None else ParsedFrom(input, k)
  }

  /** The same, for a number that starts at position `k`. */
  function ParsedFrom(input: seq<Char>, k: nat): Option<(int, nat)>
    requires k < |input|
  {
    var at := DigitsEnd(input, k);
    if at == |input| then None else Some((Reading(input[k], input[k + 1..at]), at + 1))
  }

  /** Where the digits after the first character end. */
  function DigitsEnd(input: seq<Char>, k: nat): (at: nat)
    requires k < |input|
    ensures k + 1 <= at <= |input|
  {
    k + 1 + DigitRun(input, k + 1, MAX_LEN - (if IsDigit(input[k]) then 1 else 0))
  }

  method ReadInt(input: seq<Char>) returns (r: Option<(int, nat)>)
    ensures r == Parsed(input)
  {
    hide SkipSpaces, ParsedFrom;
    var k := ReadPastSpaces(input);
    if k == |input| {
      return None;
    }
    var numString := new Char[MAX_LEN];
    r := ReadNumber(input, k, numString);
  }

  /** The number that starts at position `k`, once the whole of it has come. */
  method ReadNumber(input: seq<Char>, k: nat, numString: array<Char>) returns (r: Option<(int, nat)>)
    requires numString.Length == MAX_LEN && k < |input| && k == SkipSpaces(input)
    modifies numString
    ensures r == ParsedFrom(input, k)
  {
    hide Reading, DigitRun, SkipSpaces;
    var c := input[k];
    var sign, length := ReadFirst(c, numString);
    var at;
    length, at := ReadDigits(input, k + 1, numString, length);
    if at == |input| {
      return None;
    }
    var ret := Finish(numString, length, sign, c, input[k + 1..at]);
    return Some((ret, at + 1));
  }

  /** A sign is noted, a digit is stored, any other first character is dropped. */
  method ReadFirst(c: Char, numString: array<Char>) returns (sign: bool, length: nat)
    requires numString.Length == MAX_LEN
    modifies numString
    ensures sign == (c == MINUS) && length == (if IsDigit(c) then 1 else 0)
    ensures numString[..length] == if IsDigit(c) then [c] else []
  {
    length := 0;
    sign := false;
    if c == MINUS {
      sign := true;
    } else if c == PLUS {
      sign := false;
    } else if IsDigit(c) {
      numString[length] := c;
      length := 1;
    }
  }

  /** The value of the buffer, with the range check and the sign. */
  method Finish(numString: array<Char>, length: nat, sign: bool, ghost c: Char, ghost digits: seq<Char>)
    returns (ret: int)
    requires length <= numString.Length && sign == (c == MINUS)
    requires numString[..length] == (if IsDigit(c) then [c] else []) + digits
    ensures ret == Reading(c, digits)
  {
    ret := Evaluate(numString, length);
    if ret > 0x7fff_ffff {
      ret := 0;
    }
    ret := if sign then -ret else ret;
  }

  /** Reads until a character other than a space comes; its position, or the end of the input. */
  method ReadPastSpaces(input: seq<Char>) returns (k: nat)
    ensures k == SkipSpaces(input)
  {
    k := 0;
    while k < |input| && input[k] == SPACE
      invariant k <= |input| && SkipSpaces(input) == SkipSpaces(input, k)
    {
      k := k + 1;
    }
  }

  /** Stores digits while they come and there is room; the character that ends them, at `at`, is
      read too. */
  method ReadDigits(input: seq<Char>, k: nat, numString: array<Char>, length0: nat) returns (length: nat, at: nat)
    requires numString.Length == MAX_LEN && length0 <= MAX_LEN && k <= |input|
    modifies numString
    ensures length0 <= length <= MAX_LEN && at == k + length - length0 <= |input|
    ensures length - length0 == DigitRun(input, k, MAX_LEN - length0)
    ensures numString[..length] == old(numString[..length0]) + input[k..at]
  {
    length, at := length0, k;
    while at < |input| && IsDigit(input[at]) && length < MAX_LEN
      invariant length0 <= length <= MAX_LEN && at == k + length - length0 <= |input|
      invariant DigitRun(input, k, MAX_LEN - length0) == length - length0 + DigitRun(input, at, MAX_LEN - length)
      invariant numString[..length] == old(numString[..length0]) + input[k..at]
    {
      ghost var was := numString[..length];
      numString[length] := input[at];
      assert numString[..length + 1] == was + [input[at]];
      assert input[k..at + 1] == input[k..at] + [input[at]];
      length := length + 1;
      at := at + 1;
    }
  }

  method Evaluate(numString: array<Char>, length: nat) returns (ret: int)
    requires length <= numString.Length
    ensures ret == ValueOf(numString[..length])
  {
    ret := 0;
    for i := 0 to length
      invariant ret == ValueOf(numString[..i])
    {
      assert numString[..i + 1][..i] == numString[..i];
      ret := ret * 10 + (numString[i] - ZERO);
    }
  }

  // ---------------------------------------------------------------------------
  // Printing and reading back

  /** The printed digits of a non-negative number write that number, with no leading zero. */
  lemma {:induction false} DigitsWrite(n: nat)
    ensures DigitCodes(n) != [] && ValueOf(DigitCodes(n)) == n
    ensures forall i | 0 <= i < |DigitCodes(n)| :: IsDigit(DigitCodes(n)[i])
    ensures |DigitCodes(n)| > 1 ==> DigitCodes(n)[0] != ZERO
    ensures n > 0 ==> DigitCodes(n)[0] != ZERO
    decreases n
  {
    var s := DigitCodes(n);
    if n >= 10 {
      DigitsWrite(n / 10);
      assert s[..|s| - 1] == DigitCodes(n / 10);
    } else {
      assert s[..0] == [];
    }
  }

  /** The first digit of a string counts ten times as much for every digit behind it. */
  lemma {:induction false} ValueIsPositional(c: Char, s: seq<Char>)
    ensures ValueOf([c] + s) == (c - ZERO) * Pow10(|s|) + ValueOf(s)
  {
    if s == [] {
      assert [c] + s == [c] && [c][..0] == [];
    } else {
      var n := |s| - 1;
      ValueIsPositional(c, s[..n]);
      assert ([c] + s)[..n + 1] == [c] + s[..n];
      TenTimes(c - ZERO, Pow10(n));
    }
  }

  lemma TenTimes(d: int, p: nat)
    ensures 10 * (d * p) == d * (10 * p)
  {
  }

  lemma {:induction false} DigitsFit(n: nat, k: nat)
    requires n < Pow10(k) && k > 0
    ensures |DigitCodes(n)| <= k
    decreases k
  {
    if n >= 10 { DigitsFit(n / 10, k - 1); }
  }

  lemma {:induction false} WholeRun(input: seq<Char>, k: nat, e: nat, limit: nat)
    requires k <= e < |input| && e - k <= limit
    requires forall i | k <= i < e :: IsDigit(input[i])
    requires !IsDigit(input[e])
    ensures DigitRun(input, k, limit) == e - k
    decreases e - k
  {
    if k < e { WholeRun(input, k + 1, e, limit - 1); }
  }

  /** A first character, at most ten digits and a non-digit are read as they should be. */
  lemma ParsedRun(input: seq<Char>, e: nat)
    requires 1 <= e < |input| && e <= MAX_LEN
    requires input[0] != SPACE && !IsDigit(input[e])
    requires forall i | 1 <= i < e :: IsDigit(input[i])
    ensures Parsed(input) == Some((Reading(input[0], input[1..e]), e + 1))
  {
    hide Reading;
    WholeRun(input, 1, e, MAX_LEN - (if IsDigit(input[0]) then 1 else 0));
  }

  /** What a first character and the digits behind it stand for: a digit counts, a minus makes the number
      negative, anything else is dropped, and more than the largest int is read as zero. */
  lemma ReadingMeans(c: Char, digits: seq<Char>)
    ensures var v := ValueOf(if IsDigit(c) then [c] + digits else digits);
            Reading(c, digits) == if v > 2147483647 then 0 else if c == MINUS then 0 - v else v
  {
    assert [] + digits == digits;
  }

  lemma ReadingOfDigits(n: nat)
    requires n <= 0x7fff_ffff
    ensures |DigitCodes(n)| > 0 && Reading(DigitCodes(n)[0], DigitCodes(n)[1..]) == n
    ensures Reading(MINUS, DigitCodes(n)) == 0 - n
  {
    var ds := DigitCodes(n);
    DigitsWrite(n);
    assert [ds[0]] + ds[1..] == ds;
    assert [] + ds == ds;
  }

  lemma ReadBackPositive(n: nat, stop: Char, rest: seq<Char>, input: seq<Char>)
    requires n <= 0x7fff_ffff && !IsDigit(stop)
    requires input == DigitCodes(n) + [stop] + rest
    ensures Parsed(input) == Some((n, |DigitCodes(n)| + 1))
  {
    hide DigitCodes, Reading, Parsed, Pow10;
    var ds := DigitCodes(n);
    DigitsWrite(n);
    TenDigits();
    DigitsFit(n, 10);
    ReadingOfDigits(n);
    assert input[1..|ds|] == ds[1..];
    assert input[0] == ds[0] && IsDigit(ds[0]) && input[|ds|] == stop;
    forall i | 1 <= i < |ds| ensures IsDigit(input[i]) { assert input[i] == ds[i]; }
    ParsedRun(input, |ds|);
  }

  lemma ReadBackNegative(n: nat, ds: seq<Char>, input: seq<Char>)
    requires n <= 0x7fff_ffff && ds == DigitCodes(n)
    requires |input| >= |ds| + 2 && input[0] == MINUS && input[1..|ds| + 1] == ds && !IsDigit(input[|ds| + 1])
    ensures Parsed(input) == Some((0 - n, |ds| + 2))
  {
    hide DigitCodes, Reading, Parsed, Pow10;
    DigitsWrite(n);
    TenDigits();
    DigitsFit(n, 10);
    ReadingOfDigits(n);
    forall i | 1 <= i < |ds| + 1 ensures IsDigit(input[i]) { assert input[i] == ds[i - 1]; }
    ParsedRun(input, |ds| + 1);
  }

  lemma AfterSign(ds: seq<Char>, stop: Char, rest: seq<Char>)
    ensures var input := [MINUS] + ds + [stop] + rest;
            |input| >= |ds| + 2 && input[0] == MINUS && input[1..|ds| + 1] == ds && input[|ds| + 1] == stop
  {
  }

  /** Reading the text printed for `n`, followed by any non-digit, gives back `n`. */
  lemma RoundTrip(n: Int32, stop: Char, rest: seq<Char>)
    requires n != INT_MIN && !IsDigit(stop)
    ensures Parsed(Printed(n) + [stop] + rest) == Some((n, |Printed(n)| + 1))
  {
    if n < 0 {
      var ds := DigitCodes(0 - n);
      assert Printed(n) == [MINUS] + ds;
      AfterSign(ds, stop, rest);
      ReadBackNegative(0 - n, ds, [MINUS] + ds + [stop] + rest);
    } else {
      ReadBackPositive(n, stop, rest, Printed(n) + [stop] + rest);
    }
  }

  /** The most negative number is the one exception: what is printed for it reads as zero. */
  lemma MostNegativeReadsZero(stop: Char, rest: seq<Char>)
    ensures Parsed(Printed(INT_MIN) + [stop] + rest) == Some((0, 2))
  {
    var ds := DigitCodes(INT_MIN);
    FirstCode(INT_MIN);
    var input := Printed(INT_MIN) + [stop] + rest;
    assert input[0] == MINUS && input[1] == ds[0];
    assert DigitRun(input, 1, MAX_LEN) == 0;
    assert [] + input[1..1] == [];
    assert Reading(MINUS, []) == 0;
  }

  lemma {:induction false} FirstCode(n: int)
    requires n < 0
    ensures DigitCodes(n) != [] && DigitCodes(n)[0] < ZERO
    decreases Size(n)
  {
    if Quotient(n) != 0 { FirstCode(Quotient(n)); }
  }

  /** Printing and reading back is the identity exactly off the most negative number. */
  lemma RoundTripExactly(n: Int32, stop: Char, rest: seq<Char>)
    requires !IsDigit(stop)
    ensures Parsed(Printed(n) + [stop] + rest) == Some((n, |Printed(n)| + 1)) <==> n != INT_MIN
  {
    if n == INT_MIN {
      MostNegativeReadsZero(stop, rest);
    } else {
      RoundTrip(n, stop, rest);
    }
  }
}
