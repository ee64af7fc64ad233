/**
 * `itoa` and `itoal` from the kernel's C library: conversion of a 32-bit
 * integer into the characters of its base-`base` representation, written
 * least significant digit first into the caller's buffer, NUL-terminated
 * and then reversed in place.
 *
 * C `int` and `uint32_t` become `int` with explicit range predicates.  The
 * caller's buffer is the returned sequence, terminator included.
 */
module Itoa {

  /** The digit table shared by both conversions: upper-case hexadecimal. */
  const DIGITS: seq<char> := "0123456789ABCDEF"

  const INT_MIN: int := -0x8000_0000
  const INT_MAX: int := 0x7FFF_FFFF
  const UINT_MAX: int := 0xFFFF_FFFF

  /** Width to which `itoal` pads base-16 numbers. */
  const HEX_WIDTH: nat := 8

  predicate IsInt32(v: int)
  {
    INT_MIN <= v <= INT_MAX
  }

  predicate IsUint32(v: int)
  {
    0 <= v <= UINT_MAX
  }

  /** Bases the digit table can serve; base 0 divides by zero, base 1 never terminates. */
  predicate ValidBase(base: int)
  {
    2 <= base <= |DIGITS|
  }

  predicate IsDigitOf(c: char, base: int)
    requires ValidBase(base)
  {
    c in DIGITS[..base]
  }

  /** The value of one digit character, the inverse of indexing `DIGITS`. */
  function DigitValue(c: char): (d: nat)
    ensures c in DIGITS ==> d < |DIGITS| && DIGITS[d] == c
  {
    if '0' <= c <= '9' then c as int - '0' as int
    else if 'A' <= c <= 'F' then c as int - 'A' as int + 10
    else 0
  }

  function Pow(b: nat, k: nat): nat
  {
    if k == 0 then 1 else b * Pow(b, k - 1)
  }

  function Reverse<T>(s: seq<T>): (r: seq<T>)
    ensures |r| == |s|
  {
    seq(|s|, i requires 0 <= i < |s| => s[|s| - 1 - i])
  }

  lemma ReverseAppend<T>(s: seq<T>, t: seq<T>)
    ensures Reverse(s + t) == Reverse(t) + Reverse(s)
  {
  }

  /**
   * The base-`base` digits of `n`, most significant first, without leading
   * zeros; zero is the single digit "0".
   */
  function Digits(n: nat, base: int): (s: seq<char>)
    requires ValidBase(base)
    ensures |s| >= 1
    ensures forall i :: 0 <= i < |s| ==> IsDigitOf(s[i], base)
    ensures s[0] == '0' <==> n == 0
    decreases n
  {
    DigitTableDistinct();
    if n < base then [DIGITS[n]]
    else
      QuotientPositive(n, base);
      Digits(n / base, base) + [DIGITS[n % base]]
  }

  /** Each digit character names exactly one position of the table. */
  lemma DigitTableDistinct()
    ensures forall d :: 0 <= d < |DIGITS| ==> DigitValue(DIGITS[d]) == d
  {
  }

  lemma DivMod(n: nat, base: int)
    requires base > 0
    ensures n == (n / base) * base + n % base
  {
  }

  lemma MulMono(a: int, b: int, c: int)
    requires a >= b && c >= 0
    ensures a * c >= b * c
  {
  }

  lemma QuotientPositive(n: nat, base: int)
    requires 1 < base <= n
    ensures 0 < n / base < n
  {
    var q := n / base;
    var r := n % base;
    assert n == base * q + r && 0 <= r < base;
    MulMono(base, 2, q);
  }

  /** One turn of the digit loop peels the least significant digit off `Digits`. */
  lemma DigitsStep(v: nat, base: int)
    requires ValidBase(base)
    ensures Digits(v, base) == (if v / base > 0 then Digits(v / base, base) else []) + [DIGITS[v % base]]
    ensures v > 0 ==> v / base < v
  {
    if v < base {
      assert v / base == 0 && v % base == v;
    } else {
      QuotientPositive(v, base);
    }
  }

  /** Reads a digit string back, most significant digit first. */
  function Value(s: seq<char>, base: int): nat
    requires ValidBase(base)
  {
    if s == [] then 0 else Value(s[..|s| - 1], base) * base + DigitValue(s[|s| - 1])
  }

  /** What `itoa` writes before the terminator: a '-' only for negative base-10 values. */
  function SignedText(value: int, base: int): seq<char>
    requires ValidBase(base)
  {
    if value < 0 then ['-'] + Digits(-value, base) else Digits(value, base)
  }

  function Zeros(k: nat): seq<char>
  {
    seq(k, _ => '0')
  }

  /** How many zeros `itoal` puts in front of `count` hexadecimal digits. */
  function PadCount(count: nat): nat
  {
    if count < HEX_WIDTH then HEX_WIDTH - count else 0
  }

  /** What `itoal` writes before the terminator: base 16 is "0x" and at least eight digits. */
  function UnsignedText(value: nat, base: int): seq<char>
    requires ValidBase(base)
  {
    var ds := Digits(value, base);
    if base == 16 then
      "0x" + Zeros(PadCount(|ds|)) + ds
    else ds
  }

  // ---------------------------------------------------------------------
  // Properties of the reference texts.

  /** The last digit is the remainder, the ones before it are the quotient's digits. */
  lemma DigitsLast(n: nat, base: int)
    requires ValidBase(base)
    ensures var ds := Digits(n, base);
      && DigitValue(ds[|ds| - 1]) == n % base
      && ds[..|ds| - 1] == (if n / base > 0 then Digits(n / base, base) else [])
  {
    DigitTableDistinct();
    DigitsStep(n, base);
  }

  /** Reading the digits back in the same base yields the number. */
  lemma {:induction false} ValueOfDigits(n: nat, base: int)
    requires ValidBase(base)
    ensures Value(Digits(n, base), base) == n
    decreases n
  {
    var ds := Digits(n, base);
    var q, r := n / base, n % base;
    DigitsLast(n, base);
    var vf := Value(ds[..|ds| - 1], base);
    assert Value(ds, base) == vf * base + r;
    if q > 0 {
      QuotientPositive(n, base);
      ValueOfDigits(q, base);
    }
    assert vf == q;
    DivMod(n, base);
    assert Value(ds, base) == q * base + r;
  }

  /** Leading zeros do not change the value read back. */
  lemma {:induction false} LeadingZeros(k: nat, s: seq<char>, base: int)
    requires ValidBase(base)
    ensures Value(Zeros(k) + s, base) == Value(s, base)
    decreases k, |s|
  {
    if k == 0 {
      assert Zeros(k) + s == s;
    } else if s == [] {
      assert Zeros(k) + s == Zeros(k - 1) + ['0'];
      assert (Zeros(k) + s)[..k - 1] == Zeros(k - 1) + [];
      LeadingZeros(k - 1, [], base);
    } else {
      var t := Zeros(k) + s;
      assert t[..|t| - 1] == Zeros(k) + s[..|s| - 1];
      LeadingZeros(k, s[..|s| - 1], base);
    }
  }

  /** Dividing a number below `base^k` by `base` leaves one below `base^(k-1)`. */
  lemma QuotientBelowPow(n: nat, base: int, k: nat)
    requires ValidBase(base) && k >= 1 && n < Pow(base, k)
    ensures n / base < Pow(base, k - 1)
  {
    var q, p := n / base, Pow(base, k - 1);
    assert Pow(base, k) == base * p;
    DivMod(n, base);
    if q >= p {
      MulMono(q, p, base);
      assert false;
    }
  }

  /** A number below `base^k` has at most `k` digits. */
  lemma {:induction false} DigitsLength(n: nat, base: int, k: nat)
    requires ValidBase(base) && k >= 1 && n < Pow(base, k)
    ensures |Digits(n, base)| <= k
    decreases n
  {
    DigitsStep(n, base);
    if n / base > 0 {
      QuotientBelowPow(n, base, k);
      assert k >= 2;
      DigitsLength(n / base, base, k - 1);
    }
  }

  lemma SixteenToTheEight()
    ensures Pow(16, 8) == 0x1_0000_0000
  {
  }

  /**
   * `itoal(v, 16)` writes exactly "0x" and eight upper-case hexadecimal
   * digits, which read back as `v`.
   */
  lemma HexIsTenCharacters(v: int)
    requires IsUint32(v)
    ensures |UnsignedText(v, 16)| == 10
    ensures UnsignedText(v, 16)[..2] == "0x"
    ensures forall i :: 2 <= i < 10 ==> IsDigitOf(UnsignedText(v, 16)[i], 16)
    ensures Value(UnsignedText(v, 16)[2..], 16) == v
  {
    HexShape(v);
    HexReadsBack(v);
  }

  /** At most eight hexadecimal digits, padded with zeros to eight. */
  lemma HexShape(v: int)
    requires IsUint32(v)
    ensures |Digits(v, 16)| <= HEX_WIDTH
    ensures UnsignedText(v, 16)[2..] == Zeros(HEX_WIDTH - |Digits(v, 16)|) + Digits(v, 16)
    ensures |UnsignedText(v, 16)| == 10 && UnsignedText(v, 16)[..2] == "0x"
    ensures forall i :: 2 <= i < 10 ==> IsDigitOf(UnsignedText(v, 16)[i], 16)
  {
    SixteenToTheEight();
    DigitsLength(v, 16, 8);
    assert IsDigitOf('0', 16) by {
      assert DIGITS[..16][0] == '0';
    }
  }

  /** The eight digits after "0x" read back as `v`. */
  lemma HexReadsBack(v: int)
    requires IsUint32(v)
    ensures Value(UnsignedText(v, 16)[2..], 16) == v
  {
    HexShape(v);
    var ds := Digits(v, 16);
    LeadingZeros(HEX_WIDTH - |ds|, ds, 16);
    ValueOfDigits(v, 16);
  }

  /**
   * A decimal `itoa` of any 32-bit value other than INT_MIN writes at most
   * eleven characters, so with its terminator it fits the 32-byte buffer
   * `printf` hands it.
   */
  lemma DecimalFitsBuffer(v: int)
    requires IsInt32(v) && v != INT_MIN
    ensures |SignedText(v, 10)| <= 11
    ensures |SignedText(v, 10)| + 1 <= 32
  {
    assert Pow(10, 10) == 10_000_000_000;
    if v < 0 {
      DigitsLength(-v, 10, 10);
    } else {
      DigitsLength(v, 10, 10);
    }
  }

  // ---------------------------------------------------------------------
  // The two conversions, loop for loop.

  /**
   * The `do ... while (value > 0)` loop: digits least significant first,
   * so the buffer is the reverse of `Digits(n, base)`.
   */
  method DigitLoop(n: nat, base: int) returns (buf: seq<char>)
    requires ValidBase(base)
    ensures Reverse(buf) == Digits(n, base)
  {
    var v := n;
    DigitsStep(v, base);
    buf := [DIGITS[v % base]];
    v := v / base;
    while v > 0
      invariant Digits(n, base) == (if v > 0 then Digits(v, base) else []) + Reverse(buf)
    {
      DigitLoopStep(n, v, base, buf);
      buf := buf + [DIGITS[v % base]];
      v := v / base;
    }
  }

  /** One turn of the digit loop moves the least significant digit of `v` into the buffer. */
  lemma DigitLoopStep(n: nat, v: nat, base: int, buf: seq<char>)
    requires ValidBase(base) && v > 0 && Digits(n, base) == Digits(v, base) + Reverse(buf)
    ensures v / base < v
    ensures Digits(n, base) ==
      (if v / base > 0 then Digits(v / base, base) else []) + Reverse(buf + [DIGITS[v % base]])
  {
    var d := DIGITS[v % base];
    var front := if v / base > 0 then Digits(v / base, base) else [];
    DigitsStep(v, base);
    ReverseAppend(buf, [d]);
    assert Reverse([d]) == [d];
    assert Reverse(buf + [d]) == [d] + Reverse(buf);
    assert (front + [d]) + Reverse(buf) == front + ([d] + Reverse(buf));
  }

  /**
   * Terminates the buffer with NUL and runs the in-place swap loop
   * `for (j = 0; j < i / 2; j++)` over the first `i = |buf|` characters.
   */
  method TerminateAndReverse(buf: seq<char>) returns (str: seq<char>)
    ensures str == Reverse(buf) + ['\0']
  {
    var i := |buf|;
    str := buf + ['\0'];
    var j := 0;
    while j < i / 2
      invariant 0 <= j <= i / 2
      invariant |str| == i + 1 && str[i] == '\0'
      invariant forall k :: 0 <= k < j ==> str[k] == buf[i - 1 - k] && str[i - 1 - k] == buf[k]
      invariant forall k :: j <= k < i - j ==> str[k] == buf[k]
    {
      var tmp := str[j];
      str := str[j := str[i - j - 1]];
      str := str[i - j - 1 := tmp];
      j := j + 1;
    }
  }

  /**
   * `itoa(value, str, base)`.  Only base 10 negates a negative value; in
   * any other base `value % base` would index below the digit table, and
   * negating `INT_MIN` overflows, so both are excluded.
   */
  method Itoa(value: int, base: int) returns (str: seq<char>)
    requires IsInt32(value) && ValidBase(base)
    requires value < 0 ==> base == 10 && value != INT_MIN
    ensures str == SignedText(value, base) + ['\0']
  {
    var v := value;
    var negative := false;
    if value < 0 && base == 10 {
      negative := true;
      v := -value;
    }
    var buf := DigitLoop(v, base);
    if negative {
      ReverseAppend(buf, ['-']);
      buf := buf + ['-'];
    }
    str := TerminateAndReverse(buf);
  }

  /**
   * The padding of `itoal` in base 16: zeros up to eight digits, then 'x'
   * and '0', all still in reversed order.
   */
  method PadHex(buf: seq<char>) returns (padded: seq<char>)
    ensures Reverse(padded) == "0x" + Zeros(PadCount(|buf|)) + Reverse(buf)
  {
    padded := buf;
    while |padded| < HEX_WIDTH
      invariant |buf| <= |padded| <= |buf| + PadCount(|buf|)
      invariant Reverse(padded) == Zeros(|padded| - |buf|) + Reverse(buf)
    {
      PadStep(padded, buf);
      padded := padded + ['0'];
    }
    PrefixStep(padded);
    AppendAssociative("0x", Zeros(PadCount(|buf|)), Reverse(buf));
    padded := padded + ['x', '0'];
  }

  /** Appending '0' to the reversed buffer puts one more zero in front of the text. */
  lemma PadStep(padded: seq<char>, buf: seq<char>)
    requires |buf| <= |padded| && Reverse(padded) == Zeros(|padded| - |buf|) + Reverse(buf)
    ensures Reverse(padded + ['0']) == Zeros(|padded| + 1 - |buf|) + Reverse(buf)
  {
    var n := |padded| - |buf|;
    ReverseAppend(padded, ['0']);
    assert Reverse(['0']) == ['0'];
    assert ['0'] + Zeros(n) == Zeros(n + 1);
    AppendAssociative(['0'], Zeros(n), Reverse(buf));
  }

  /** Appending 'x' and '0' to the reversed buffer puts "0x" in front of the text. */
  lemma PrefixStep(padded: seq<char>)
    ensures Reverse(padded + ['x', '0']) == "0x" + Reverse(padded)
  {
    ReverseAppend(padded, ['x', '0']);
    assert Reverse(['x', '0']) == "0x";
  }

  lemma AppendAssociative<T>(a: seq<T>, b: seq<T>, c: seq<T>)
    ensures a + (b + c) == (a + b) + c
  {
  }


  /** `itoal(value, str, base)`: unsigned, and base 16 is zero-padded and prefixed "0x". */
  method Itoal(value: int, base: int) returns (str: seq<char>)
    requires IsUint32(value) && ValidBase(base)
    ensures str == UnsignedText(value, base) + ['\0']
  {
    var buf := DigitLoop(value, base);
    if base == 16 {
      buf := PadHex(buf);
    }
    str := TerminateAndReverse(buf);
  }
}
