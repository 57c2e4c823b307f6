/** The pieces of the Java platform that the loader's logic rests on: 64-bit `long`
    arithmetic, decimal parsing by `new BigInteger(String)` and `Long.parseLong`,
    `StringBuilder.indexOf`, the exceptions these throw, and the library calls the
    model keeps abstract (date parsing and floating point). */
module JavaLang {

  datatype Option<T> = None | Some(value: T)

  /** The exceptions a row can raise. Only `ParseException` is caught by the row loop;
      every other one ends the run. */
  datatype Exc =
    | ParseException      // SimpleDateFormat.parse could not read the date
    | IndexOutOfBounds    // CSVRecord.get past the last field, or substring(start, end) with start > end
    | NumberFormat        // Double.parseDouble, new BigInteger(String) or Long.parseLong refused its text
    | IOException         // the HTTP client failed while posting (caught by the older loader's processCsv)

  datatype Result<T> = Ok(value: T) | Fail(exc: Exc)

  const TwoTo64: int := 0x1_0000_0000_0000_0000
  const MinLong: int := -0x8000_0000_0000_0000
  const MaxLong: int := 0x7fff_ffff_ffff_ffff

  /** Java's `long`. */
  type Long = x: int | MinLong <= x <= MaxLong

  /** Narrowing of an exact integer to `long`: keep the low 64 bits and read them as
      two's complement. This is `BigInteger.longValue()`, and also what `long` addition
      and multiplication do when they overflow. */
  function ToLong(v: int): (r: Long)
    ensures (v - r) % TwoTo64 == 0
    ensures MinLong <= v <= MaxLong ==> r == v
  {
    var m := v % TwoTo64;
    if m <= MaxLong then m else m - TwoTo64
  }

  /** A `long` congruent to `v` modulo 2^64 is the narrowing of `v`: there is only one. */
  lemma ToLongUnique(v: int, x: Long)
    requires (v - x) % TwoTo64 == 0
    ensures x == ToLong(v)
  {
    var r := ToLong(v);
    var a, b := (v - x) / TwoTo64, (v - r) / TwoTo64;
    assert v - x == a * TwoTo64;
    assert v - r == b * TwoTo64;
    assert x - r == (b - a) * TwoTo64;
    assert b - a == 0 by {
      assert -TwoTo64 < (b - a) * TwoTo64 < TwoTo64;
    }
  }

  /** Narrowing an intermediate result does not change the narrowed sum: Java may wrap
      `a` first and then add `b`, or add exactly and wrap once. */
  lemma ToLongOfSum(a: int, b: int)
    ensures ToLong(ToLong(a) + b) == ToLong(a + b)
  {
    var r := ToLong(ToLong(a) + b);
    var k1, k2 := (a - ToLong(a)) / TwoTo64, (ToLong(a) + b - r) / TwoTo64;
    assert a - ToLong(a) == k1 * TwoTo64;
    assert ToLong(a) + b - r == k2 * TwoTo64;
    assert a + b - r == (k1 + k2) * TwoTo64;
    ToLongUnique(a + b, r);
  }

  // ---------------------------------------------------------------------------
  // Decimal text

  predicate IsDigit(c: char) { '0' <= c <= '9' }

  /** One or more decimal digits and nothing else. */
  predicate IsDigits(s: string) { |s| > 0 && forall i :: 0 <= i < |s| ==> IsDigit(s[i]) }

  function DigitValue(c: char): nat
    requires IsDigit(c)
  {
    c as int - '0' as int
  }

  /** The number a string of decimal digits denotes (most significant digit first). */
  function DigitsValue(s: string): nat
    requires forall i :: 0 <= i < |s| ==> IsDigit(s[i])
  {
    if s == [] then 0 else DigitsValue(s[..|s| - 1]) * 10 + DigitValue(s[|s| - 1])
  }

  /** The text after an optional leading sign. */
  function Unsigned(s: string): string
  {
    if |s| > 0 && (s[0] == '-' || s[0] == '+') then s[1..] else s
  }

  /** The integer `new BigInteger(s)` and `Long.parseLong(s)` read: an optional `-` or
      `+` followed by one or more decimal digits; any other text is refused. */
  function ParseDecimal(s: string): (r: Option<int>)
    ensures r.Some? <==> IsDigits(Unsigned(s))
    ensures r.Some? ==> (r.value < 0 ==> s[0] == '-')
  {
    var digits := Unsigned(s);
    if !IsDigits(digits) then None
    else if s[0] == '-' then Some(-(DigitsValue(digits) as int))
    else Some(DigitsValue(digits))
  }

  /** `new BigInteger(s).longValue()`: any decimal is accepted and wrapped to 64 bits. */
  function BigIntegerLongValue(s: string): (r: Result<Long>)
    ensures r.Ok? <==> ParseDecimal(s).Some?
    ensures r.Fail? ==> r.exc == NumberFormat
    ensures r.Ok? ==> (ParseDecimal(s).value - r.value) % TwoTo64 == 0
    ensures r.Ok? && MinLong <= ParseDecimal(s).value <= MaxLong ==> r.value == ParseDecimal(s).value
  {
    match ParseDecimal(s)
    case None => Fail(NumberFormat)
    case Some(v) => Ok(ToLong(v))
  }

  /** `Long.parseLong(s)`: a decimal outside the `long` range is refused, not wrapped. */
  function ParseLong(s: string): (r: Result<Long>)
    ensures r.Ok? <==> ParseDecimal(s).Some? && MinLong <= ParseDecimal(s).value <= MaxLong
    ensures r.Fail? ==> r.exc == NumberFormat
  {
    match ParseDecimal(s)
    case None => Fail(NumberFormat)
    case Some(v) => if MinLong <= v <= MaxLong then Ok(v) else Fail(NumberFormat)
  }

  /** Where `Long.parseLong` accepts an id, `BigInteger.longValue` gives the same value;
      they differ exactly on well-formed decimals outside the `long` range. */
  lemma ParseLongAgreesInRange(s: string)
    ensures ParseLong(s).Ok? ==> BigIntegerLongValue(s) == ParseLong(s)
    ensures BigIntegerLongValue(s) != ParseLong(s) <==>
              ParseDecimal(s).Some? && !(MinLong <= ParseDecimal(s).value <= MaxLong)
  {
  }

  // ---------------------------------------------------------------------------
  // A reference printer, used to state the parsers' meaning for every integer

  function DigitChar(d: nat): (c: char)
    requires d < 10
    ensures IsDigit(c) && DigitValue(c) == d
  {
    ('0' as int + d) as char
  }

  /** The decimal digits of `n`, without leading zeros. */
  function Digits(n: nat): (s: string)
    ensures IsDigits(s)
  {
    if n < 10 then [DigitChar(n)] else Digits(n / 10) + [DigitChar(n % 10)]
  }

  /** `n` written in decimal, with a `-` when negative. */
  function DecimalString(n: int): string
  {
    if n < 0 then "-" + Digits(-n) else Digits(n)
  }

  lemma {:induction false} DigitsValueOfDigits(n: nat)
    ensures DigitsValue(Digits(n)) == n
  {
    if n >= 10 {
      var s := Digits(n);
      assert s[..|s| - 1] == Digits(n / 10);
      DigitsValueOfDigits(n / 10);
    }
  }

  /** Decimal parsing inverts printing: every integer written in decimal reads back as itself. */
  lemma ParseDecimalRoundTrip(n: int)
    ensures ParseDecimal(DecimalString(n)) == Some(n)
  {
    if n < 0 {
      assert Unsigned(DecimalString(n)) == Digits(-n);
      DigitsValueOfDigits(-n);
    } else {
      var s := Digits(n);
      assert s[0] != '-' && s[0] != '+' by { assert IsDigit(s[0]); }
      DigitsValueOfDigits(n);
    }
  }

  /** The vehicle id of the current loader: every integer `v`, given in decimal, becomes
      the `long` congruent to `v` modulo 2^64, which is `v` itself when `v` is in range. */
  lemma BigIntegerLongValueOfAnyInteger(v: int)
    ensures BigIntegerLongValue(DecimalString(v)) == Ok(ToLong(v))
    ensures MinLong <= v <= MaxLong ==> BigIntegerLongValue(DecimalString(v)) == Ok(v)
  {
    ParseDecimalRoundTrip(v);
  }

  /** The vehicle id of the older loader: every integer `v`, given in decimal, is accepted
      exactly when it is in the `long` range, and then read as itself. */
  lemma ParseLongOfAnyInteger(v: int)
    ensures MinLong <= v <= MaxLong ==> ParseLong(DecimalString(v)) == Ok(v)
    ensures !(MinLong <= v <= MaxLong) ==> ParseLong(DecimalString(v)) == Fail(NumberFormat)
  {
    ParseDecimalRoundTrip(v);
  }

  function Pow10(n: nat): (p: nat)
    ensures p >= 1
  {
    if n == 0 then 1 else 10 * Pow10(n - 1)
  }

  /** A string of `n` digits denotes less than 10^n. */
  lemma {:induction false} DigitsValueBound(s: string)
    requires forall i :: 0 <= i < |s| ==> IsDigit(s[i])
    ensures DigitsValue(s) < Pow10(|s|)
  {
    if s != [] {
      DigitsValueBound(s[..|s| - 1]);
    }
  }

  /** An id of at most 18 digits (with an optional sign) always fits a `long`, so both
      loaders read it exactly and agree on it. */
  lemma ShortIdsAreExact(s: string)
    requires IsDigits(Unsigned(s)) && |Unsigned(s)| <= 18
    ensures ParseLong(s).Ok? && BigIntegerLongValue(s) == ParseLong(s)
    ensures ParseLong(s).value == ParseDecimal(s).value
  {
    var d := Unsigned(s);
    DigitsValueBound(d);
    Pow10Monotone(|d|, 18);
    assert Pow10(6) == 1_000_000;
    assert Pow10(12) == 1_000_000_000_000;
    assert Pow10(18) == 1_000_000_000_000_000_000;
  }

  lemma {:induction false} Pow10Monotone(m: nat, n: nat)
    requires m <= n
    ensures Pow10(m) <= Pow10(n)
  {
    if m < n {
      Pow10Monotone(m, n - 1);
    }
  }

  // ---------------------------------------------------------------------------
  // Strings

  /** `StringBuilder.indexOf` for a one-character needle: the first position of `c`, or -1. */
  function IndexOf(s: string, c: char): (r: int)
    ensures -1 <= r < |s|
    ensures r == -1 <==> c !in s
    ensures 0 <= r ==> s[r] == c && c !in s[..r]
  {
    if s == [] then -1
    else if s[0] == c then 0
    else
      var k := IndexOf(s[1..], c);
      if k == -1 then -1 else k + 1
  }

  // ---------------------------------------------------------------------------
  // Libraries the model keeps abstract

  /** A `double`, kept as its IEEE 754 bit pattern; the model never computes with it. */
  type Float64 = bv64

  /** The library calls whose behaviour the model does not define, given as total functions:
      - parseDate: `new SimpleDateFormat("yyyy-MM-dd HH:mm:ssX").parse(s).getTime()`;
        `None` is a ParseException;
      - parseDouble: `Double.parseDouble(s)`; `None` is a NumberFormatException;
      - scaleToLong: `(long) (d * k)`, the floating-point product cast to `long`. */
  datatype Libraries = Libraries(
    parseDate: string -> Option<Long>,
    parseDouble: string -> Option<Float64>,
    scaleToLong: (Float64, nat) -> Long)

  /** What Java guarantees of these calls for the default fraction "0.0": it parses to
      positive zero (all bits clear), and zero times 1000 or 1000000 casts to 0. */
  predicate ZeroIsExact(lib: Libraries)
  {
    lib.parseDouble("0.0") == Some(0) && lib.scaleToLong(0, 1000) == 0 && lib.scaleToLong(0, 1000000) == 0
  }
}
