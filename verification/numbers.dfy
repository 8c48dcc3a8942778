/** Numeric conversions behind the configuration parser and the variant
    comparisons: glibc's strtol and strtod as the code uses them, atol, atoi
    and atof, the "%ld" image of a long, and long_value / double_value of
    kryten/utilities.c.

    A C long is 64 bits and an int 32 bits. A double is modelled by its exact
    value: rounding to binary64, overflow and underflow are not modelled. */
module Numbers {
  import opened CStrings

  const LONG_MIN: int := -0x8000_0000_0000_0000
  const LONG_MAX: int := 0x7FFF_FFFF_FFFF_FFFF

  predicate IsLong(x: int)
  {
    LONG_MIN <= x <= LONG_MAX
  }

  predicate IsInt(x: int)
  {
    -0x8000_0000 <= x < 0x8000_0000
  }

  /** Conversion of a long to a 32-bit int: the low 32 bits, read as two's
      complement, which is what gcc does for `(int) x`. */
  function ToInt(x: int): (r: int)
    ensures IsInt(r)
    ensures (r - x) % 0x1_0000_0000 == 0
    ensures IsInt(x) ==> r == x
  {
    var m := x % 0x1_0000_0000;
    if m < 0x8000_0000 then m else m - 0x1_0000_0000
  }

  /** Value of a character as a digit in bases up to 36; 36 for a
      character that is no digit at all. */
  function DigitValue(c: char): (d: nat)
    ensures d <= 36
    ensures d < 10 <==> IsDigit(c)
  {
    if '0' <= c <= '9' then c as int - '0' as int
    else if 'a' <= c <= 'z' then c as int - 'a' as int + 10
    else if 'A' <= c <= 'Z' then c as int - 'A' as int + 10
    else 36
  }

  predicate IsDigitIn(c: char, base: nat)
  {
    DigitValue(c) < base
  }

  /** The character for a decimal digit. */
  function Digit(d: nat): (c: char)
    requires d < 10
    ensures IsDigit(c) && DigitValue(c) == d
  {
    ('0' as int + d) as char
  }

  /** End of the run of base-`base` digits that starts at `from`. */
  function DigitRun(s: string, from: nat, base: nat): (e: nat)
    requires from <= |s|
    ensures from <= e <= |s|
    ensures forall k :: from <= k < e ==> IsDigitIn(s[k], base)
    ensures e < |s| ==> !IsDigitIn(s[e], base)
    decreases |s| - from
  {
    if from < |s| && IsDigitIn(s[from], base) then DigitRun(s, from + 1, base) else from
  }

  /** Value of a digit string, most significant digit first. */
  function DigitsValue(d: string, base: nat): nat
    decreases |d|
  {
    if |d| == 0 then 0
    else DigitsValue(d[..|d| - 1], base) * base + DigitValue(d[|d| - 1])
  }

  /** What strtol and strtod report: the value, how many characters they
      consumed (0 when there was nothing to convert) and whether errno was
      set to ERANGE. */
  datatype Conversion = Conversion(value: int, end: nat, rangeError: bool)

  /** `0x` or `0X` at j, followed by a hexadecimal digit. */
  predicate HexPrefixAt(s: string, j: nat)
  {
    j + 2 < |s| && s[j] == '0' && (s[j + 1] == 'x' || s[j + 1] == 'X') && IsDigitIn(s[j + 2], 16)
  }

  /** Position after the optional sign that follows leading white space. */
  function SignEnd(s: string): (j: nat)
    ensures j <= |s|
  {
    var i := SkipSpace(s, 0);
    if i < |s| && (s[i] == '+' || s[i] == '-') then i + 1 else i
  }

  /** The leading white space is followed by a minus sign. */
  predicate Negative(s: string)
  {
    var i := SkipSpace(s, 0);
    i < |s| && s[i] == '-'
  }

  /** strtol (s, &end, base) for bases 10 and 16 as glibc implements it:
      leading white space, an optional sign, for base 16 an optional 0x
      prefix, then the longest run of digits. Without digits nothing is
      consumed; a magnitude beyond the range of a long clamps the result and
      sets ERANGE. */
  function StrToL(s: string, base: nat): (c: Conversion)
    requires base == 10 || base == 16
    ensures c.end <= |s|
    ensures IsLong(c.value)
    ensures c.end == 0 ==> c.value == 0 && !c.rangeError
    ensures c.rangeError ==> c.value == LONG_MIN || c.value == LONG_MAX
  {
    var j := SignEnd(s);
    var start := if base == 16 && HexPrefixAt(s, j) then j + 2 else j;
    var e := DigitRun(s, start, base);
    if e == start then Conversion(0, 0, false)
    else
      var magnitude: int := DigitsValue(s[start..e], base);
      var v: int := if Negative(s) then -magnitude else magnitude;
      if v > LONG_MAX then Conversion(LONG_MAX, e, true)
      else if v < LONG_MIN then Conversion(LONG_MIN, e, true)
      else Conversion(v, e, false)
  }

  /** atol (s): strtol in base 10, with no error reporting. */
  function Atol(s: string): (r: int)
    ensures IsLong(r)
  {
    StrToL(s, 10).value
  }

  /** atoi (s): glibc's `(int) strtol (s, NULL, 10)`. */
  function Atoi(s: string): (r: int)
    ensures IsInt(r)
  {
    ToInt(Atol(s))
  }

  /** A value and the success flag the C functions return through `status`. */
  datatype Scanned<T> = Scanned(value: T, ok: bool)

  /** The conversion consumed everything up to the trailing white space of
      `image` without a range error. */
  predicate ReadsWhole(c: Conversion, image: string)
  {
    !c.rangeError && c.end == TrimEnd(image)
  }

  /** long_value (image, &status): succeeds iff a base-10 strtol, or failing
      that a base-16 one, consumes everything up to the trailing white space
      without a range error; the value is 0 on failure.
      (kryten/utilities.c:178-228; contract in krytenApp/utilities.h:109-115) */
  function LongValue(image: string): (r: Scanned<int>)
    ensures r.ok <==> TrimEnd(image) > 0 && (ReadsWhole(StrToL(image, 10), image) || ReadsWhole(StrToL(image, 16), image))
    ensures r.ok && ReadsWhole(StrToL(image, 10), image) ==> r.value == StrToL(image, 10).value
    ensures r.ok && !ReadsWhole(StrToL(image, 10), image) ==> r.value == StrToL(image, 16).value
    ensures r.ok ==> IsLong(r.value)
    ensures !r.ok ==> r.value == 0
  {
    var e := TrimEnd(image);
    if e == 0 then Scanned(0, false)
    else
      var d := StrToL(image, 10);
      if !d.rangeError && d.end == e then Scanned(d.value, true)
      else
        var h := StrToL(image, 16);
        if !h.rangeError && h.end == e then Scanned(h.value, true)
        else Scanned(0, false)
  }

  /** Decimal digits of a natural number, most significant first. */
  function NatImage(n: nat): (s: string)
    ensures |s| > 0
    ensures forall k :: 0 <= k < |s| ==> IsDigit(s[k])
    ensures DigitsValue(s, 10) == n
  {
    if n < 10 then [Digit(n)]
    else
      var s := NatImage(n / 10) + [Digit(n % 10)];
      assert s[..|s| - 1] == NatImage(n / 10);
      s
  }

  /** The "%ld" / "%d" image of an integer. */
  function DecimalImage(i: int): (s: string)
    ensures |s| > 0
    ensures i < 0 <==> s[0] == '-'
  {
    if i < 0 then "-" + NatImage(-i) else NatImage(i)
  }

  /** The image of a long has at most 20 characters. */
  lemma DecimalImageLength(i: int)
    requires IsLong(i)
    ensures |DecimalImage(i)| <= 20
  {
    PowAdd(10, 8, 11);
    PowAdd(10, 4, 4);
    PowAdd(10, 4, 7);
    assert Pow(10, 19) == 10_000_000_000_000_000_000;
    NatImageLength(if i < 0 then -i else i, 19);
  }

  /** The image of an int has at most 11 characters, and that of a
      non-negative int below 10^9 at most 9. */
  lemma IntImageLength(i: int)
    requires IsInt(i)
    ensures |DecimalImage(i)| <= 11
    ensures 0 <= i < 1_000_000_000 ==> |DecimalImage(i)| <= 9
  {
    PowAdd(10, 4, 4);
    PowAdd(10, 8, 1);
    PowAdd(10, 8, 2);
    assert Pow(10, 9) == 1_000_000_000;
    assert Pow(10, 10) == 10_000_000_000;
    NatImageLength(if i < 0 then -i else i, 10);
    if 0 <= i < 1_000_000_000 {
      NatImageLength(i, 9);
    }
  }

  lemma {:induction false} PowAdd(b: nat, x: nat, y: nat)
    ensures Pow(b, x + y) == Pow(b, x) * Pow(b, y)
    decreases x
  {
    if x > 0 {
      PowAdd(b, x - 1, y);
      assert Pow(b, x + y) == b * Pow(b, x - 1 + y);
    }
  }

  lemma {:induction false} NatImageLength(n: nat, k: nat)
    requires k >= 1 && n < Pow(10, k)
    ensures |NatImage(n)| <= k
  {
    if n >= 10 {
      assert Pow(10, k) == 10 * Pow(10, k - 1);
      NatImageLength(n / 10, k - 1);
    }
  }

  /** A run of digits that reaches the end of the string stops there. */
  lemma DigitRunToEnd(s: string, from: nat, base: nat)
    requires from <= |s|
    requires forall k :: from <= k < |s| ==> IsDigitIn(s[k], base)
    ensures DigitRun(s, from, base) == |s|
  {
  }

  /** strtol reads the "%ld" image of a long back to the same long,
      consuming all of it. */
  lemma StrToLReadsDecimalImage(i: int)
    requires IsLong(i)
    ensures StrToL(DecimalImage(i), 10) == Conversion(i, |DecimalImage(i)|, false)
  {
    var s := DecimalImage(i);
    var j := if i < 0 then 1 else 0;
    assert SkipSpace(s, 0) == 0;
    assert SignEnd(s) == j;
    assert Negative(s) <==> i < 0;
    DigitRunToEnd(s, j, 10);
    assert s[j..|s|] == NatImage(if i < 0 then -i else i);
  }

  /** strtol reads a run of decimal digits up to the first character that
      is no digit: their value, or LONG_MAX and a range error when that is
      beyond a long. */
  lemma StrToLReadsDigitsPrefix(n: nat, rest: string)
    requires |rest| > 0 ==> !IsDigit(rest[0])
    ensures var w := NatImage(n);
            StrToL(w + rest, 10) == if n > LONG_MAX then Conversion(LONG_MAX, |w|, true) else Conversion(n, |w|, false)
  {
    var w := NatImage(n);
    var s := w + rest;
    assert s[0] == w[0];
    assert SkipSpace(s, 0) == 0;
    forall k | 0 <= k < |w|
      ensures IsDigitIn(s[k], 10)
    {
      assert s[k] == w[k];
    }
    if |rest| > 0 {
      assert s[|w|] == rest[0];
      DigitRunStops(s, 0, |w|, 10);
    } else {
      DigitRunToEnd(s, 0, 10);
    }
    assert s[0..|w|] == w;
  }

  /** Parsing the decimal image of a long gives the long back: the integer
      half of the "format then parse" round trip. */
  lemma LongValueReadsDecimalImage(i: int)
    requires IsLong(i)
    ensures LongValue(DecimalImage(i)) == Scanned(i, true)
    ensures Atol(DecimalImage(i)) == i
  {
    var s := DecimalImage(i);
    StrToLReadsDecimalImage(i);
    assert !IsSpace(s[|s| - 1]);
    assert TrimEnd(s) == |s|;
  }

  /** A bare run of hexadecimal digits whose value fits a long but which is no
      decimal number is read in base 16: "ff" is 255 and "1e5" is 0x1e5.
      (kryten/utilities.c:208-216) */
  lemma LongValueReadsHexDigits(h: string)
    requires |h| > 0
    requires forall k :: 0 <= k < |h| ==> IsDigitIn(h[k], 16)
    requires exists k :: 0 <= k < |h| && !IsDigit(h[k])
    requires DigitsValue(h, 16) <= LONG_MAX
    ensures LongValue(h) == Scanned(DigitsValue(h, 16), true)
  {
    assert !IsSpace(h[|h| - 1]);
    assert TrimEnd(h) == |h|;
    DecimalStopsEarly(h);
    StrToLReadsHexDigits(h);
  }

  lemma DecimalStopsEarly(h: string)
    requires |h| > 0 && !IsSpace(h[0]) && h[0] != '+' && h[0] != '-'
    requires exists k :: 0 <= k < |h| && !IsDigit(h[k])
    ensures StrToL(h, 10).end < |h|
  {
    assert SkipSpace(h, 0) == 0;
    assert SignEnd(h) == 0;
    var k :| 0 <= k < |h| && !IsDigit(h[k]);
    assert DigitRun(h, 0, 10) <= k;
  }

  lemma StrToLReadsHexDigits(h: string)
    requires |h| > 0
    requires forall k :: 0 <= k < |h| ==> IsDigitIn(h[k], 16)
    requires DigitsValue(h, 16) <= LONG_MAX
    ensures StrToL(h, 16) == Conversion(DigitsValue(h, 16), |h|, false)
  {
    assert SkipSpace(h, 0) == 0;
    assert SignEnd(h) == 0;
    assert !Negative(h);
    assert |h| > 1 ==> IsDigitIn(h[1], 16);
    assert !HexPrefixAt(h, 0);
    DigitRunToEnd(h, 0, 16);
    assert h[0..|h|] == h;
  }

  /** A string that is empty once trailing white space is dropped is never a
      long. */
  lemma LongValueRejectsBlank(s: string)
    requires forall k :: 0 <= k < |s| ==> IsSpace(s[k])
    ensures LongValue(s) == Scanned(0, false)
  {
  }

  /** An IEEE double, by its exact value. */
  datatype Double = Finite(r: real) | Infinity(negative: bool) | NaN

  /** `a <= b` on doubles: false whenever a NaN takes part. */
  predicate DoubleLe(a: Double, b: Double)
  {
    match (a, b)
    case (NaN, _) => false
    case (_, NaN) => false
    case (Infinity(na), Infinity(nb)) => na || !nb
    case (Infinity(na), Finite(_)) => na
    case (Finite(_), Infinity(nb)) => !nb
    case (Finite(x), Finite(y)) => x <= y
  }

  /** `a == b` on doubles: NaN equals nothing, itself included. */
  predicate DoubleEq(a: Double, b: Double)
  {
    a != NaN && a == b
  }

  /** `(double) i`; the rounding of magnitudes above 2^53 is not modelled. */
  function FromLong(i: int): Double
  {
    Finite(i as real)
  }

  function Pow(b: nat, e: nat): (r: nat)
    ensures b > 0 ==> r > 0
  {
    if e == 0 then 1 else b * Pow(b, e - 1)
  }

  /** m * base^e as an exact real. */
  function Scale(m: nat, base: nat, e: int): real
    requires base > 0
  {
    if e >= 0 then (m * Pow(base, e)) as real else m as real / Pow(base, -e) as real
  }

  function LowerCase(c: char): char
  {
    if 'A' <= c <= 'Z' then (c as int - 'A' as int + 'a' as int) as char else c
  }

  /** The lower-case `word` occurs at j, ignoring the case of `s`. */
  predicate MatchesNoCase(s: string, j: nat, word: string)
  {
    j + |word| <= |s| && forall k :: 0 <= k < |word| ==> LowerCase(s[j + k]) == word[k]
  }

  /** The digits of a mantissa, its decimal (or hexadecimal) point dropped. */
  datatype Mantissa = Mantissa(end: nat, digits: string, fractionDigits: nat)

  /** Digits, optionally a '.', and more digits, starting at j. */
  function ScanMantissa(s: string, j: nat, base: nat): (m: Mantissa)
    requires j <= |s|
    ensures j <= m.end <= |s|
  {
    var intEnd := DigitRun(s, j, base);
    if intEnd < |s| && s[intEnd] == '.' then
      var fracEnd := DigitRun(s, intEnd + 1, base);
      Mantissa(fracEnd, s[j..intEnd] + s[intEnd + 1..fracEnd], fracEnd - intEnd - 1)
    else Mantissa(intEnd, s[j..intEnd], 0)
  }

  /** An exponent introduced by `marker` ('e' or 'p', either case) at m, with
      an optional sign and at least one decimal digit; without digits the
      exponent is not consumed. Returns its end and value. */
  function ScanExponent(s: string, m: nat, marker: char): (r: (nat, int))
    requires m <= |s|
    ensures m <= r.0 <= |s|
  {
    if m < |s| && LowerCase(s[m]) == marker then
      var k := m + 1;
      var signed := k < |s| && (s[k] == '+' || s[k] == '-');
      var start := if signed then k + 1 else k;
      var e := DigitRun(s, start, 10);
      if e == start then (m, 0)
      else
        var v: int := DigitsValue(s[start..e], 10);
        (e, if signed && s[k] == '-' then -v else v)
    else (m, 0)
  }

  /** End of "nan" optionally followed by "(" letters, digits or '_' ")". */
  function NanEnd(s: string, j: nat): (e: nat)
    requires j <= |s|
    ensures j <= e <= |s|
  {
    if j < |s| && s[j] == '(' then
      var k := NanCharsEnd(s, j + 1);
      if k < |s| && s[k] == ')' then k + 1 else j
    else j
  }

  function NanCharsEnd(s: string, from: nat): (e: nat)
    requires from <= |s|
    ensures from <= e <= |s|
    decreases |s| - from
  {
    if from < |s| && (IsAlnum(s[from]) || s[from] == '_') then NanCharsEnd(s, from + 1) else from
  }

  datatype DoubleConversion = DoubleConversion(value: Double, end: nat)

  function Signed(negative: bool, r: real): Double
  {
    Finite(if negative then -r else r)
  }

  /** strtod (s, &end) as glibc implements it in the C locale: leading white
      space, an optional sign, then "infinity" or "inf", "nan" with an optional
      "(...)", a hexadecimal float "0x..." with an optional binary exponent, or
      a decimal float with an optional exponent. Without a number nothing is
      consumed and the value is 0. ERANGE is not modelled. */
  function StrToD(s: string): (c: DoubleConversion)
    ensures c.end <= |s|
    ensures c.end == 0 ==> c.value == Finite(0.0)
  {
    var neg := Negative(s);
    var j := SignEnd(s);
    if MatchesNoCase(s, j, "infinity") then DoubleConversion(Infinity(neg), j + 8)
    else if MatchesNoCase(s, j, "inf") then DoubleConversion(Infinity(neg), j + 3)
    else if MatchesNoCase(s, j, "nan") then DoubleConversion(NaN, NanEnd(s, j + 3))
    else
      var hex := if j + 1 < |s| && s[j] == '0' && (s[j + 1] == 'x' || s[j + 1] == 'X')
                 then ScanMantissa(s, j + 2, 16) else Mantissa(j, "", 0);
      if |hex.digits| > 0 then
        var x := ScanExponent(s, hex.end, 'p');
        DoubleConversion(Signed(neg, Scale(DigitsValue(hex.digits, 16), 2, x.1 - 4 * hex.fractionDigits)), x.0)
      else DecimalConversion(s, j, neg)
  }

  /** The decimal branch of strtod from j, after the sign: the mantissa
      digits scaled by the exponent less the digits after the point; no
      digit at all means nothing is converted. */
  function DecimalConversion(s: string, j: nat, neg: bool): (c: DoubleConversion)
    requires j <= |s|
    ensures c.end <= |s|
    ensures c.end == 0 ==> c.value == Finite(0.0)
  {
    var dec := ScanMantissa(s, j, 10);
    if |dec.digits| == 0 then DoubleConversion(Finite(0.0), 0)
    else
      var x := ScanExponent(s, dec.end, 'e');
      DoubleConversion(Signed(neg, Scale(DigitsValue(dec.digits, 10), 10, x.1 - dec.fractionDigits)), x.0)
  }

  /** atof (s): strtod with no error reporting. */
  function Atof(s: string): Double
  {
    StrToD(s).value
  }

  /** double_value (image, &status): fails on anything long_value accepts
      ("5" is no double, "5.0" is), otherwise succeeds iff strtod consumes
      everything up to the trailing white space; 0.0 on failure.
      (kryten/utilities.c:232-281; contract in krytenApp/utilities.h:117-119) */
  function DoubleValue(image: string): (r: Scanned<Double>)
    ensures r.ok <==> !LongValue(image).ok && TrimEnd(image) > 0 && StrToD(image).end == TrimEnd(image)
    ensures r.ok ==> r.value == StrToD(image).value
    ensures !r.ok ==> r.value == Finite(0.0)
  {
    if LongValue(image).ok then Scanned(Finite(0.0), false)
    else
      var e := TrimEnd(image);
      if e == 0 then Scanned(Finite(0.0), false)
      else
        var d := StrToD(image);
        if d.end == e then Scanned(d.value, true) else Scanned(Finite(0.0), false)
  }

  /** Digits, a point and at least one more digit make a double, not a long,
      and read back as their exact value: the floating half of the "format
      then parse" round trip. */
  lemma DoubleValueReadsDecimalFraction(n: nat, f: string)
    requires |f| > 0 && forall k :: 0 <= k < |f| ==> IsDigit(f[k])
    ensures DoubleValue(NatImage(n) + "." + f)
         == Scanned(Finite((n * Pow(10, |f|) + DigitsValue(f, 10)) as real / Pow(10, |f|) as real), true)
  {
    var s := NatImage(n) + "." + f;
    assert s[|s| - 1] == f[|f| - 1];
    assert TrimEnd(s) == |s|;
    FractionIsNoLong(n, f);
    StrToDReadsFraction(n, f);
  }

  /** A run of digits stops at the first character that is not one. */
  lemma {:induction false} DigitRunStops(s: string, from: nat, stop: nat, base: nat)
    requires from <= stop < |s|
    requires forall k :: from <= k < stop ==> IsDigitIn(s[k], base)
    requires !IsDigitIn(s[stop], base)
    ensures DigitRun(s, from, base) == stop
    decreases stop - from
  {
    if from < stop {
      DigitRunStops(s, from + 1, stop, base);
    }
  }

  lemma FractionIsNoLong(n: nat, f: string)
    requires |f| > 0 && forall k :: 0 <= k < |f| ==> IsDigit(f[k])
    ensures !LongValue(NatImage(n) + "." + f).ok
  {
    var w := NatImage(n);
    var s := w + "." + f;
    assert s[|s| - 1] == f[|f| - 1];
    assert TrimEnd(s) == |s|;
    assert s[0] == w[0];
    assert SkipSpace(s, 0) == 0;
    assert SignEnd(s) == 0;
    forall k | 0 <= k < |w|
      ensures IsDigit(s[k])
    {
      assert s[k] == w[k];
    }
    assert s[|w|] == '.';
    assert !HexPrefixAt(s, 0) by {
      if |w| > 1 {
        assert s[1] == w[1];
      }
    }
    DigitRunStops(s, 0, |w|, 10);
    DigitRunStops(s, 0, |w|, 16);
  }

  lemma StrToDReadsFraction(n: nat, f: string)
    requires |f| > 0 && forall k :: 0 <= k < |f| ==> IsDigit(f[k])
    ensures StrToD(NatImage(n) + "." + f)
         == DoubleConversion(Finite((n * Pow(10, |f|) + DigitsValue(f, 10)) as real / Pow(10, |f|) as real),
                             |NatImage(n)| + 1 + |f|)
  {
    var w := NatImage(n);
    var s := w + "." + f;
    assert s[0] == w[0];
    assert !(s[1] == 'x' || s[1] == 'X') by {
      if |w| > 1 {
        assert s[1] == w[1];
      }
    }
    StrToDOfDecimal(s);
    FractionMantissa(n, f);
    assert ScanExponent(s, |s|, 'e') == (|s|, 0);
    var m := DigitsValue(w + f, 10);
    DigitsValueAppend(w, f, 10);
    assert m == n * Pow(10, |f|) + DigitsValue(f, 10);
    assert Scale(m, 10, 0 - |f|) == m as real / Pow(10, |f|) as real;
    assert DecimalConversion(s, 0, false) == DoubleConversion(Finite(Scale(m, 10, 0 - |f|)), |s|);
  }

  /** strtod on text that opens with a decimal digit and no "0x": the
      decimal branch, without sign. */
  lemma StrToDOfDecimal(s: string)
    requires |s| >= 2 && IsDigit(s[0]) && s[1] != 'x' && s[1] != 'X'
    ensures StrToD(s) == DecimalConversion(s, 0, false)
  {
    assert SkipSpace(s, 0) == 0;
    assert SignEnd(s) == 0;
    assert !Negative(s);
    assert !MatchesNoCase(s, 0, "infinity") by { assert LowerCase(s[0]) != "infinity"[0]; }
    assert !MatchesNoCase(s, 0, "inf") by { assert LowerCase(s[0]) != "inf"[0]; }
    assert !MatchesNoCase(s, 0, "nan") by { assert LowerCase(s[0]) != "nan"[0]; }
    assert StrToD(s) == DecimalConversion(s, SignEnd(s), Negative(s));
  }

  lemma FractionMantissa(n: nat, f: string)
    requires |f| > 0 && forall k :: 0 <= k < |f| ==> IsDigit(f[k])
    ensures var s := NatImage(n) + "." + f;
            ScanMantissa(s, 0, 10) == Mantissa(|s|, NatImage(n) + f, |f|)
  {
    var w := NatImage(n);
    var s := w + "." + f;
    forall k | 0 <= k < |w|
      ensures IsDigit(s[k])
    {
      assert s[k] == w[k];
    }
    DigitRunStops(s, 0, |w|, 10);
    forall k | |w| + 1 <= k < |s|
      ensures IsDigit(s[k])
    {
      assert s[k] == f[k - |w| - 1];
    }
    DigitRunToEnd(s, |w| + 1, 10);
    assert s[0..|w|] == w;
    assert s[|w| + 1..|s|] == f;
  }

  /** The value of digits written after others. */
  lemma {:induction false} DigitsValueAppend(a: string, b: string, base: nat)
    ensures DigitsValue(a + b, base) == DigitsValue(a, base) * Pow(base, |b|) + DigitsValue(b, base)
    decreases |b|
  {
    if |b| == 0 {
      assert a + b == a;
    } else {
      var b' := b[..|b| - 1];
      assert (a + b)[..|a + b| - 1] == a + b';
      assert (a + b)[|a + b| - 1] == b[|b| - 1];
      DigitsValueAppend(a, b', base);
      Distribute(DigitsValue(a, base), Pow(base, |b'|), DigitsValue(b', base), base);
    }
  }

  lemma Distribute(x: int, p: int, y: int, b: int)
    ensures (x * p + y) * b == x * (b * p) + y * b
  {
  }

  /** long_value and double_value never both accept an image: every accepted
      token is an Integer or a Floating, never both. A corollary of the
      first ensures of DoubleValue, kept as the statement the classifiers
      rely on. */
  lemma IntegerAndDoubleExclusive(image: string)
    ensures !(LongValue(image).ok && DoubleValue(image).ok)
  {
  }

  /** "5.0" is a double and "5" is not. (krytenApp/utilities.h:117-119) */
  lemma DoubleValueNeedsATrueDouble()
    ensures DoubleValue("5.0") == Scanned(Finite(5.0), true)
    ensures !DoubleValue("5").ok
    ensures LongValue("5") == Scanned(5, true)
  {
    FivePointZeroIsADouble();
    LongValueReadsDecimalImage(5);
    assert DecimalImage(5) == "5";
    IntegerAndDoubleExclusive("5");
  }

  lemma FivePointZeroIsADouble()
    ensures DoubleValue("5.0") == Scanned(Finite(5.0), true)
  {
    assert TrimEnd("5.0") == 3;
    FivePointZeroIsNoLong();
    FivePointZeroReadsFive();
  }

  lemma FivePointZeroIsNoLong()
    ensures !LongValue("5.0").ok
  {
    var s := "5.0";
    assert SkipSpace(s, 0) == 0;
    assert SignEnd(s) == 0;
    assert TrimEnd(s) == 3;
    assert !HexPrefixAt(s, 0);
    assert DigitRun(s, 0, 10) == 1;
  }

  lemma FivePointZeroReadsFive()
    ensures StrToD("5.0") == DoubleConversion(Finite(5.0), 3)
  {
    var s := "5.0";
    FivePointZeroMantissa();
    assert SkipSpace(s, 0) == 0;
    assert SignEnd(s) == 0;
    assert !Negative(s);
    assert !MatchesNoCase(s, 0, "infinity") by { assert LowerCase(s[0]) != "infinity"[0]; }
    assert !MatchesNoCase(s, 0, "inf") by { assert LowerCase(s[0]) != "inf"[0]; }
    assert !MatchesNoCase(s, 0, "nan") by { assert LowerCase(s[0]) != "nan"[0]; }
    assert s[1] != 'x' && s[1] != 'X';
  }

  lemma FivePointZeroMantissa()
    ensures ScanMantissa("5.0", 0, 10) == Mantissa(3, "50", 1)
    ensures ScanExponent("5.0", 3, 'e') == (3, 0)
    ensures Scale(DigitsValue("50", 10), 10, -1) == 5.0
  {
    var s := "5.0";
    assert DigitRun(s, 0, 10) == 1;
    assert DigitRun(s, 2, 10) == 3;
    assert DigitsValue("50", 10) == 50 by {
      assert "50"[..1] == "5";
      assert DigitsValue("5", 10) == 5 by { assert "5"[..0] == ""; }
    }
    assert Pow(10, 1) == 10;
  }
}
