/** The number printers of Kernel/mstdio.h: digit extraction and reversal in an 80-byte buffer. */
module NumberText {
  import opened Machine

  const BUFFER_SIZE := 80
  const ZERO: uint8 := 48
  const LETTER_A: uint8 := 65
  const LETTER_X: uint8 := 120

  function Digit(d: nat): uint8
    requires d < 16
  {
    if d < 10 then ZERO + d else LETTER_A + (d - 10)
  }

  /** The two bases in use. */
  type Base = b: int | b == 10 || b == 16 witness 10

  function Quotient(n: nat, base: Base): nat { if base == 10 then n / 10 else n / 16 }

  function Remainder(n: nat, base: Base): nat { if base == 10 then n % 10 else n % 16 }

  function Scaled(n: nat, base: Base): nat { if base == 10 then 10 * n else 16 * n }

  /** Digits of `n`, most significant first, none for zero. */
  function Numeral(n: nat, base: Base): seq<uint8> {
    if n == 0 then [] else Numeral(Quotient(n, base), base) + [Digit(Remainder(n, base))]
  }

  // ---------------------------------------------------------------- reading back

  function DigitValue(c: uint8): nat {
    if ZERO <= c < ZERO + 10 then c - ZERO else if LETTER_A <= c < LETTER_A + 6 then c - LETTER_A + 10 else 16
  }

  predicate IsNumber(text: seq<uint8>, base: Base) {
    forall k | 0 <= k < |text| :: DigitValue(text[k]) < base
  }

  function Value(text: seq<uint8>, base: Base): nat {
    if |text| == 0 then 0 else Scaled(Value(text[..|text| - 1], base), base) + DigitValue(text[|text| - 1])
  }

  /** The digits parse back to the number, and the first is not zero. */
  lemma {:induction false} NumeralReadsBack(n: nat, base: Base)
    ensures IsNumber(Numeral(n, base), base)
    ensures Value(Numeral(n, base), base) == n
    ensures n > 0 ==> |Numeral(n, base)| > 0 && Numeral(n, base)[0] != ZERO
  {
    if n > 0 {
      NumeralReadsBack(Quotient(n, base), base);
      var s, last := Numeral(Quotient(n, base), base), Digit(Remainder(n, base));
      assert (s + [last])[..|s|] == s;
    }
  }

  /** The characters of the digits. */
  lemma DigitCharacters(d: nat)
    requires d < 16
    ensures d < 10 ==> Digit(d) == '0' as int + d
    ensures d >= 10 ==> Digit(d) == 'A' as int + d - 10
    ensures LETTER_X == 'x' as int && ZERO == '0' as int
  {}

  /** Most significant digit first: what one more digit does to a numeral, and one written out. */
  lemma NumeralOrder(n: nat, base: Base)
    ensures Numeral(0, base) == []
    ensures n > 0 ==> Numeral(n, 10) == Numeral(n / 10, 10) + [Digit(n % 10)]
    ensures n > 0 ==> Numeral(n, 16) == Numeral(n / 16, 16) + [Digit(n % 16)]
  {}

  lemma SplitDigit(q: nat, d: nat, base: Base)
    requires d < base
    ensures Quotient(Scaled(q, base) + d, base) == q && Remainder(Scaled(q, base) + d, base) == d
    ensures q > 0 || d > 0 ==> Scaled(q, base) + d > 0
  {}

  /** The digits are a string without terminator, empty for zero only. */
  lemma NumeralIsText(n: nat, base: Base)
    ensures 0 !in Numeral(n, base)
    ensures |Numeral(n, base)| == 0 <==> n == 0
  {
    NumeralReadsBack(n, base);
  }

  /** Conversely, a digit string without leading zero is the numeral of its value. */
  lemma {:induction false} CanonicalTextIsNumeral(text: seq<uint8>, base: Base)
    requires IsNumber(text, base)
    requires |text| > 0 ==> text[0] != ZERO
    ensures Numeral(Value(text, base), base) == text
    ensures |text| > 0 ==> Value(text, base) > 0
  {
    if |text| > 0 {
      var init, last := text[..|text| - 1], text[|text| - 1];
      CanonicalTextIsNumeral(init, base);
      SplitDigit(Value(init, base), DigitValue(last), base);
      hide Quotient, Remainder, Scaled;
      assert Digit(DigitValue(last)) == last && text == init + [last];
    }
  }

  function Pow(base: Base, k: nat): nat {
    if k == 0 then 1 else Scaled(Pow(base, k - 1), base)
  }

  /** A number below base^k has at most k digits. */
  lemma {:induction false} NumeralLength(n: nat, base: Base, k: nat)
    requires n < Pow(base, k)
    ensures |Numeral(n, base)| <= k
  {
    if n > 0 { NumeralLength(Quotient(n, base), base, k - 1); }
  }

  // ---------------------------------------------------------------- the code

  function Reversed(s: seq<uint8>): (r: seq<uint8>)
    ensures |r| == |s|
  {
    seq(|s|, k requires 0 <= k < |s| => s[|s| - 1 - k])
  }

  lemma PrefixReversed(digits: seq<uint8>)
    ensures Reversed([ZERO, LETTER_X] + digits) == Reversed(digits) + [LETTER_X, ZERO]
  {}

  /** The swap loop that both printers end with. */
  method ReverseInPlace(buffer: array<uint8>, last: nat, ghost text: seq<uint8>)
    requires last < buffer.Length
    requires buffer[..last + 1] == Reversed(text)
    modifies buffer
    ensures buffer[..last + 1] == text
    ensures buffer[last + 1..] == old(buffer[last + 1..])
  {
    assert forall k | 0 <= k <= last :: buffer[k] == buffer[..last + 1][k] == text[last - k];
    var i, j := last, 0;
    while j < i
      invariant i == last - j && j <= i + 1
      invariant forall k | 0 <= k < j || i < k <= last :: buffer[k] == text[k]
      invariant forall k | j <= k <= i :: buffer[k] == text[last - k]
      invariant buffer[last + 1..] == old(buffer[last + 1..])
    {
      var temp := buffer[j];
      buffer[j] := buffer[i];
      buffer[i] := temp;
      i, j := i - 1, j + 1;
    }
  }

  /** The digit loop: least significant digit first. */
  method StoreDigits(number: uint32, base: Base, buffer: array<uint8>) returns (i: nat)
    requires buffer.Length == BUFFER_SIZE
    modifies buffer
    ensures i == |Numeral(number, base)| <= 10
    ensures buffer[..i] == Reversed(Numeral(number, base))
  {
    var n: nat := number;
    i := 0;
    DigitBound(number, base);
    while n > 0
      invariant i + |Numeral(n, base)| == |Numeral(number, base)|
      invariant Numeral(number, base) == Numeral(n, base) + Reversed(buffer[..i])
    {
      ghost var before := buffer[..i];
      buffer[i] := Digit(Remainder(n, base));
      n := Quotient(n, base);
      i := i + 1;
      assert Reversed(buffer[..i]) == [buffer[i - 1]] + Reversed(before);
    }
    assert buffer[..i] == Reversed(Reversed(buffer[..i]));
  }

  lemma DigitBound(n: uint32, base: Base)
    ensures |Numeral(n, base)| <= 10
  {
    assert Pow(10, 10) == 10000000000;
    assert Pow(16, 10) == 0x100_0000_0000;
    NumeralLength(n, base, 10);
  }

  /** The string that PrintHex passes on: 0x and the digits, a single 0 for zero, with a terminator in the buffer. */
  method HexText(number: uint32) returns (text: seq<uint8>)
    ensures text == [ZERO, LETTER_X] + (if number == 0 then [ZERO] else Numeral(number, 16)) + [0]
    ensures 0 !in text[..|text| - 1]
    ensures |text| <= 80
  {
    if number <= 0 {
      return [ZERO, LETTER_X, ZERO, 0];
    }
    var hex := new uint8[BUFFER_SIZE];
    var i := StoreDigits(number, 16, hex);
    NumeralIsText(number, 16);
    hide Numeral, Digit;
    hex[i] := LETTER_X;
    i := i + 1;
    hex[i] := ZERO;
    i := i + 1;
    hex[i] := 0;
    var end := i;
    i := i - 1;
    ghost var digits := [ZERO, LETTER_X] + Numeral(number, 16);
    PrefixReversed(Numeral(number, 16));
    assert hex[..end] == Reversed(Numeral(number, 16)) + [LETTER_X, ZERO];
    ReverseInPlace(hex, i, digits);
    assert hex[end] == hex[i + 1..][0] == 0;
    text := hex[..end + 1];
  }

  /** Index of the last digit as the code computes it, in 8 bits. */
  function LastIndex(number: uint32): uint8 {
    Wrap8(|Numeral(number, 10)| - 1)
  }

  /** The swap loop of PrintNum stays in its buffer exactly when the number is positive. */
  lemma LastIndexInBufferIff(number: uint32)
    ensures LastIndex(number) < BUFFER_SIZE == 80 <==> number > 0
  {
    DigitBound(number, 10);
    NumeralIsText(number, 10);
  }

  /** The string that PrintNum passes on. */
  method DecimalText(number: uint32) returns (text: seq<uint8>)
    requires LastIndex(number) < BUFFER_SIZE
    ensures text == Numeral(number, 10) + [0]
    ensures 0 !in text[..|text| - 1]
    ensures |text| <= 80
  {
    LastIndexInBufferIff(number);
    NumeralIsText(number, 10);
    hide Numeral, Digit;
    var dec := new uint8[BUFFER_SIZE];
    var i := StoreDigits(number, 10, dec);
    dec[i] := 0;
    var end := i;
    ghost var digits := Numeral(number, 10);
    assert dec[..end] == Reversed(digits);
    i := Wrap8(i - 1);
    assert i + 1 == end;
    ReverseInPlace(dec, i, digits);
    assert dec[end] == dec[i + 1..][0] == 0;
    text := dec[..end + 1];
  }
}
