/**
 * The parts of `java.lang.String` and `java.lang.Integer` that the account
 * code relies on: 32-bit `int` arithmetic, UTF-16 code units, `String.length`,
 * `String.hashCode`, `Integer.toString`, `Integer.toHexString`, and the case
 * fold used by the repository's case-insensitive lookup.
 */
module JavaText {

  const TwoTo31: int := 0x8000_0000
  const TwoTo32: int := 0x1_0000_0000

  /** Java's `int`. */
  newtype int32 = x: int | -0x8000_0000 <= x < 0x8000_0000

  /** Two's-complement wrap-around of an exact integer into an `int`. */
  function Wrap(x: int): (r: int32)
    ensures (r as int - x) % TwoTo32 == 0
  {
    (((x + TwoTo31) % TwoTo32) - TwoTo31) as int32
  }

  /** A value already in `int` range is not changed by wrapping. */
  lemma WrapInRange(x: int)
    requires -TwoTo31 <= x < TwoTo31
    ensures Wrap(x) as int == x
  {
    assert (x + TwoTo31) % TwoTo32 == x + TwoTo31;
  }

  /** Wrapping depends only on the residue modulo 2^32. */
  lemma WrapCongruent(x: int, y: int)
    requires (x - y) % TwoTo32 == 0
    ensures Wrap(x) == Wrap(y)
  {
    var k := (x - y) / TwoTo32;
    assert x + TwoTo31 == (y + TwoTo31) + k * TwoTo32;
    ModAddMultiple(y + TwoTo31, k);
  }

  /** One step of a `31 * h + c` hash loop may wrap its accumulator first or not at all. */
  lemma WrapStep(x: int, c: int)
    ensures Wrap(31 * Wrap(x) as int + c) == Wrap(31 * x + c)
  {
    var w := Wrap(x) as int;
    var k := (w - x) / TwoTo32;
    assert w == x + k * TwoTo32;
    assert (31 * w + c) - (31 * x + c) == (31 * k) * TwoTo32;
    ModAddMultiple(0, 31 * k);
    WrapCongruent(31 * w + c, 31 * x + c);
  }

  lemma ModAddMultiple(a: int, k: int)
    ensures (a + k * TwoTo32) % TwoTo32 == a % TwoTo32
  {
  }

  // ---------------------------------------------------------------------
  // UTF-16

  const SupplementaryBase: int := 0x1_0000

  /** The UTF-16 code units of one character: one unit in the basic
      multilingual plane, a surrogate pair above it. */
  function CodeUnits(c: char): (units: seq<int>)
    ensures |units| == (if c as int < SupplementaryBase then 1 else 2)
    ensures forall k :: 0 <= k < |units| ==> 0 <= units[k] < SupplementaryBase
    ensures |units| == 2 ==> 0xD800 <= units[0] < 0xDC00 && 0xDC00 <= units[1] < 0xE000
  {
    var v := c as int;
    if v < SupplementaryBase then [v]
    else [0xD800 + (v - SupplementaryBase) / 0x400, 0xDC00 + (v - SupplementaryBase) % 0x400]
  }

  /** A surrogate pair decodes back to the character it encodes. */
  lemma SurrogatePairDecodes(c: char)
    requires SupplementaryBase <= c as int
    ensures SupplementaryBase + (CodeUnits(c)[0] - 0xD800) * 0x400 + (CodeUnits(c)[1] - 0xDC00) == c as int
  {
    var v := c as int - SupplementaryBase;
    assert (v / 0x400) * 0x400 + v % 0x400 == v;
  }

  /** The UTF-16 code units of a string, the sequence Java's `String` stores. */
  function Utf16(s: string): (units: seq<int>)
    ensures |s| <= |units| <= 2 * |s|
    ensures forall k :: 0 <= k < |units| ==> 0 <= units[k] < SupplementaryBase
  {
    if s == [] then [] else Utf16(s[..|s| - 1]) + CodeUnits(s[|s| - 1])
  }

  /** `String.length()`: the number of UTF-16 code units. */
  function JavaLength(s: string): nat
  {
    |Utf16(s)|
  }

  /** A string of basic-multilingual-plane characters has one unit per character. */
  lemma {:induction false} JavaLengthOfBmp(s: string)
    requires forall i :: 0 <= i < |s| ==> s[i] as int < SupplementaryBase
    ensures JavaLength(s) == |s|
  {
    if s != [] {
      JavaLengthOfBmp(s[..|s| - 1]);
    }
  }

  /** Every character above the basic multilingual plane adds one unit. */
  lemma {:induction false} JavaLengthOfSupplementary(s: string)
    requires forall i :: 0 <= i < |s| ==> SupplementaryBase <= s[i] as int
    ensures JavaLength(s) == 2 * |s|
  {
    if s != [] {
      JavaLengthOfSupplementary(s[..|s| - 1]);
    }
  }

  // ---------------------------------------------------------------------
  // String.hashCode

  /** The exact, unbounded value `s[0]*31^(n-1) + ... + s[n-1]`, in Horner form. */
  function Polynomial(units: seq<int>): int
  {
    if units == [] then 0 else 31 * Polynomial(units[..|units| - 1]) + units[|units| - 1]
  }

  /** The hash loop `h = 31 * h + c` in 32-bit arithmetic. */
  function HashUnits(units: seq<int>): int32
  {
    if units == [] then 0 else Wrap(31 * HashUnits(units[..|units| - 1]) as int + units[|units| - 1])
  }

  /** Wrapping at every step gives the exact polynomial reduced modulo 2^32. */
  lemma {:induction false} HashUnitsIsWrappedPolynomial(units: seq<int>)
    ensures HashUnits(units) == Wrap(Polynomial(units))
  {
    if units != [] {
      var init, last := units[..|units| - 1], units[|units| - 1];
      HashUnitsIsWrappedPolynomial(init);
      WrapStep(Polynomial(init), last);
    }
  }

  /** `String.hashCode()`. */
  function StringHashCode(s: string): int32
  {
    HashUnits(Utf16(s))
  }

  // ---------------------------------------------------------------------
  // Integer.toString and Integer.toHexString

  /** The digit character for a value below 16, lower-case as Java writes it. */
  function DigitChar(d: nat): (c: char)
    requires d < 16
    ensures DigitValue(c) == d
    ensures d < 10 <==> '0' <= c <= '9'
    ensures 10 <= d ==> 'a' <= c <= 'f'
  {
    if d < 10 then (48 + d) as char else (97 + d - 10) as char
  }

  function DigitValue(c: char): nat
  {
    if '0' <= c <= '9' then c as int - 48
    else if 'a' <= c <= 'f' then c as int - 97 + 10
    else 0
  }

  /** The digits of `n` in `base`, most significant first, without leading zeros. */
  function Digits(n: nat, base: nat): (s: string)
    requires base == 10 || base == 16
    ensures 1 <= |s|
    ensures forall i :: 0 <= i < |s| ==> '0' <= s[i] <= '9' || 'a' <= s[i] <= 'f'
    ensures base == 10 ==> forall i :: 0 <= i < |s| ==> '0' <= s[i] <= '9'
    ensures |s| > 1 ==> s[0] != '0'
    decreases n
  {
    if n < base then [DigitChar(n)] else Digits(n / base, base) + [DigitChar(n % base)]
  }

  /** Reads back a string of digits in `base`. */
  function DigitsValue(s: string, base: nat): nat
  {
    if s == [] then 0 else DigitsValue(s[..|s| - 1], base) * base + DigitValue(s[|s| - 1])
  }

  lemma {:induction false} DigitsRoundTrip(n: nat, base: nat)
    requires base == 10 || base == 16
    ensures DigitsValue(Digits(n, base), base) == n
  {
    if n >= base {
      var q, r := n / base, n % base;
      var init := Digits(q, base);
      assert Digits(n, base) == init + [DigitChar(r)];
      DigitsRoundTrip(q, base);
      assert DigitsValue(Digits(n, base), base) == q * base + r by {
        DigitsValueSnoc(init, DigitChar(r), base);
      }
      DivMod(n, base);
    }
  }

  lemma DigitsValueSnoc(s: string, c: char, base: nat)
    ensures DigitsValue(s + [c], base) == DigitsValue(s, base) * base + DigitValue(c)
  {
    assert (s + [c])[..|s|] == s;
  }

  lemma DivMod(n: nat, base: nat)
    requires 0 < base
    ensures (n / base) * base + n % base == n
  {
  }

  /** `Integer.toString(int)`: decimal digits, with a leading '-' for a negative value. */
  function DecimalString(n: int): (s: string)
    ensures 1 <= |s|
    ensures s[0] == '-' <==> n < 0
    ensures s[0] == '-' || '0' <= s[0] <= '9'
  {
    if n < 0 then "-" + Digits(-n, 10) else Digits(n, 10)
  }

  /** Reads back `Integer.toString`. */
  function DecimalValue(s: string): int
  {
    if 0 < |s| && s[0] == '-' then 0 - DigitsValue(s[1..], 10) else DigitsValue(s, 10)
  }

  lemma DecimalRoundTrip(n: int)
    ensures DecimalValue(DecimalString(n)) == n
  {
    var s := DecimalString(n);
    if n < 0 {
      var d := Digits(-n, 10);
      assert s == "-" + d;
      assert s[1..] == d;
      DigitsRoundTrip(-n, 10);
      assert DecimalValue(s) == 0 - DigitsValue(d, 10);
    } else {
      var d := Digits(n, 10);
      assert s == d && d[0] != '-';
      DigitsRoundTrip(n, 10);
    }
  }

  /** Distinct ints have distinct decimal strings. */
  lemma DecimalStringInjective(a: int, b: int)
    requires DecimalString(a) == DecimalString(b)
    ensures a == b
  {
    DecimalRoundTrip(a);
    DecimalRoundTrip(b);
  }

  /** `Integer.toHexString(int)`: the unsigned 32-bit value in lower-case hex. */
  function HexString(n: int32): (s: string)
    ensures 1 <= |s| <= 8
  {
    var unsigned := if n < 0 then n as int + TwoTo32 else n as int;
    HexDigitsBound(unsigned);
    Digits(unsigned, 16)
  }

  lemma HexDigitsBound(n: nat)
    requires n < TwoTo32
    ensures |Digits(n, 16)| <= 8
  {
    HexDigitsLength(n, 8);
  }

  lemma {:induction false} HexDigitsLength(n: nat, k: nat)
    requires 1 <= k && n < Power16(k)
    ensures |Digits(n, 16)| <= k
  {
    if n >= 16 {
      assert n / 16 < Power16(k - 1);
      HexDigitsLength(n / 16, k - 1);
    }
  }

  function Power16(k: nat): nat
  {
    if k == 0 then 1 else 16 * Power16(k - 1)
  }

  // ---------------------------------------------------------------------
  // Case-insensitive comparison

  /** `Character.toLowerCase` restricted to ASCII. */
  function ToLowerAscii(c: char): (r: char)
    ensures !('A' <= r <= 'Z')
    ensures r == c <==> !('A' <= c <= 'Z')
    ensures 'A' <= c <= 'Z' ==> 'a' <= r <= 'z' && r as int - 'a' as int == c as int - 'A' as int
  {
    if 'A' <= c <= 'Z' then (c as int + 32) as char else c
  }

  /** The case fold applied to both sides of an `IgnoreCase` comparison. */
  function FoldCase(s: string): (r: string)
    ensures |r| == |s|
  {
    seq(|s|, i requires 0 <= i < |s| => ToLowerAscii(s[i]))
  }

  predicate EqualsIgnoreCase(a: string, b: string)
  {
    FoldCase(a) == FoldCase(b)
  }

  /** The fold lower-cases each character in place. */
  lemma {:induction false} FoldCaseCharwise(s: string)
    ensures forall i :: 0 <= i < |s| ==> FoldCase(s)[i] == ToLowerAscii(s[i])
  {
    if s != [] {
      FoldCaseCharwise(s[1..]);
      assert forall i :: 1 <= i < |s| ==> FoldCase(s)[i] == FoldCase(s[1..])[i - 1];
    }
  }

  /** Folding twice is folding once. */
  lemma FoldCaseIdempotent(s: string)
    ensures FoldCase(FoldCase(s)) == FoldCase(s)
  {
    FoldCaseCharwise(s);
    FoldCaseCharwise(FoldCase(s));
  }

  /** Two strings are equal ignoring case exactly when they have the same
      length and agree character by character after lower-casing. */
  lemma EqualsIgnoreCaseCharwise(a: string, b: string)
    ensures EqualsIgnoreCase(a, b) <==>
      |a| == |b| && forall i :: 0 <= i < |a| ==> ToLowerAscii(a[i]) == ToLowerAscii(b[i])
  {
    FoldCaseCharwise(a);
    FoldCaseCharwise(b);
    if |a| == |b| && forall i :: 0 <= i < |a| ==> ToLowerAscii(a[i]) == ToLowerAscii(b[i]) {
      assert forall i :: 0 <= i < |a| ==> FoldCase(a)[i] == FoldCase(b)[i];
    }
  }
}
