/**
 * Python's conversions between text and numbers as the resolver uses them:
 * `str(n)` for an `int`, `int(s)` for a port key and `float(s)` for a
 * round-trip time. Only ASCII decimal digits are modelled; `float` yields
 * an exact real rather than the nearest binary double.
 */
module Numbers {
  import opened Wrappers
  import opened Text

  predicate IsDigit(c: char)
  {
    '0' <= c <= '9'
  }

  function DigitValue(c: char): int
  {
    c as int - '0' as int
  }

  function DigitChar(d: nat): char
    requires d < 10
  {
    ('0' as int + d) as char
  }

  function Pow10(n: nat): (r: nat)
    ensures r >= 1
  {
    if n == 0 then 1 else 10 * Pow10(n - 1)
  }

  /**
   * Python's `digitpart`: a digit, then any number of digits each optionally
   * preceded by a single underscore.
   */
  predicate IsDigitPart(s: string)
  {
    && |s| > 0 && IsDigit(s[|s| - 1])
    && (|s| == 1 || IsDigitPart(s[..|s| - 1])
        || (|s| >= 3 && s[|s| - 2] == '_' && IsDigitPart(s[..|s| - 2])))
  }

  /** The value of the digits of `s`, most significant first, underscores ignored. */
  function DigitPartValue(s: string): int
  {
    if s == [] then 0
    else if s[|s| - 1] == '_' then DigitPartValue(s[..|s| - 1])
    else 10 * DigitPartValue(s[..|s| - 1]) + DigitValue(s[|s| - 1])
  }

  /** The number of digits of `s`, underscores not counted. */
  function DigitCount(s: string): nat
  {
    if s == [] then 0
    else DigitCount(s[..|s| - 1]) + (if s[|s| - 1] == '_' then 0 else 1)
  }

  /** An optional leading `+` or `-`: whether it was `-`, and the rest. */
  function SplitSign(s: string): (bool, string)
  {
    if |s| > 0 && (s[0] == '+' || s[0] == '-') then (s[0] == '-', s[1..]) else (false, s)
  }

  /** An optional sign and a digit part, as `int()` reads them once white space is stripped. */
  function SignedDigits(t: string): Option<int>
  {
    var (negative, digits) := SplitSign(t);
    if IsDigitPart(digits) then
      var v := DigitPartValue(digits);
      Some(if negative then -v else v)
    else None
  }

  /**
   * Python's `int(s)` in base 10: surrounding white space is ignored, then
   * an optional sign and a digit part. `None` stands for the `ValueError`.
   */
  function ParseInt(s: string): Option<int>
  {
    SignedDigits(Strip(s))
  }

  /** Python's `str(n)` for a natural number. */
  function NatToString(n: nat): (s: string)
    ensures |s| > 0
  {
    if n < 10 then [DigitChar(n)] else NatToString(n / 10) + [DigitChar(n % 10)]
  }

  /** Python's `str(n)` for an integer. */
  function IntToString(n: int): (s: string)
    ensures |s| > 0
  {
    if n < 0 then "-" + NatToString(-n) else NatToString(n)
  }

  /** The index of the first `e` or `E` in `s`, which starts an exponent. */
  function FindExponent(s: string): (r: Option<nat>)
    ensures r.Some? ==> r.value < |s|
  {
    if s == [] then None
    else if s[0] == 'e' || s[0] == 'E' then Some(0)
    else match FindExponent(s[1..])
      case None => None
      case Some(i) => Some(i + 1)
  }

  /**
   * The unsigned mantissa of a float: `digitpart`, `digitpart "."`,
   * `"." digitpart` or `digitpart "." digitpart`.
   */
  function ParseMantissa(s: string): Option<real>
  {
    match Find(s, ".")
    case None => if IsDigitPart(s) then Some(DigitPartValue(s) as real) else None
    case Some(d) =>
      var whole, frac := s[..d], s[d + 1..];
      if (whole == [] && frac == [])
         || (whole != [] && !IsDigitPart(whole))
         || (frac != [] && !IsDigitPart(frac))
      then None
      else
        var w := if whole == [] then 0 else DigitPartValue(whole);
        var f := if frac == [] then 0.0 else DigitPartValue(frac) as real / Pow10(DigitCount(frac)) as real;
        Some(w as real + f)
  }

  /** `10` raised to an integer power, as an exact real. */
  function Scale(e: int): (r: real)
    ensures r > 0.0
  {
    if e >= 0 then Pow10(e) as real else 1.0 / Pow10(-e) as real
  }

  /** The mantissa `m` times ten to the power `x`. */
  function Scaled(m: real, x: int): real
  {
    m * Scale(x)
  }

  /** An unsigned float: a mantissa, optionally followed by `e`/`E` and an optionally signed digit part. */
  function UnsignedFloat(body: string): Option<real>
  {
    match FindExponent(body)
    case None => ParseMantissa(body)
    case Some(e) =>
      match (ParseMantissa(body[..e]), SignedDigits(body[e + 1..]))
      case (Some(m), Some(x)) => Some(Scaled(m, x))
      case _ => None
  }

  /**
   * Python's `float(s)` on finite decimal text: surrounding white space is
   * ignored, then an optional sign and an unsigned float. `None` stands for
   * the `ValueError`.
   */
  function ParseFloat(s: string): Option<real>
  {
    var (negative, body) := SplitSign(Strip(s));
    match UnsignedFloat(body)
    case None => None
    case Some(v) => Some(if negative then -v else v)
  }

  /** A digit part consists of digits and underscores only. */
  lemma {:induction false} DigitPartChars(s: string)
    requires IsDigitPart(s)
    ensures forall k :: 0 <= k < |s| ==> IsDigit(s[k]) || s[k] == '_'
  {
    var n := |s|;
    if n > 1 {
      if IsDigitPart(s[..n - 1]) {
        DigitPartChars(s[..n - 1]);
        assert forall k :: 0 <= k < n - 1 ==> s[k] == s[..n - 1][k];
      } else {
        DigitPartChars(s[..n - 2]);
        assert forall k :: 0 <= k < n - 2 ==> s[k] == s[..n - 2][k];
      }
    }
  }

  /** The decimal rendering of `n` is a digit part whose value is `n`. */
  lemma {:induction false} NatToStringValue(n: nat)
    ensures IsDigitPart(NatToString(n)) && DigitPartValue(NatToString(n)) == n
  {
    var s := NatToString(n);
    if n >= 10 {
      NatToStringValue(n / 10);
      assert s[..|s| - 1] == NatToString(n / 10);
    }
  }

  /** The decimal rendering of a natural number consists of digits only. */
  lemma {:induction false} NatToStringDigits(n: nat)
    ensures forall k :: 0 <= k < |NatToString(n)| ==> IsDigit(NatToString(n)[k])
  {
    if n >= 10 {
      NatToStringDigits(n / 10);
    }
  }

  /** The decimal rendering of an integer reads back as that integer, before any stripping. */
  lemma SignedDigitsRoundTrip(n: int)
    ensures SignedDigits(IntToString(n)) == Some(n)
  {
    var m: nat := if n < 0 then -n else n;
    var digits := NatToString(m);
    NatToStringDigits(m);
    assert SplitSign(IntToString(n)) == (n < 0, digits);
    NatToStringValue(m);
  }

  /** `int(str(n)) == n`: the decimal rendering of an integer reads back as that integer. */
  lemma IntToStringRoundTrip(n: int)
    ensures ParseInt(IntToString(n)) == Some(n)
  {
    var m: nat := if n < 0 then -n else n;
    var s := IntToString(n);
    NatToStringDigits(m);
    assert Strip(s) == s by {
      assert s[0] == '-' || IsDigit(s[0]);
      assert IsDigit(s[|s| - 1]);
      NoSpaceStrip(s);
    }
    SignedDigitsRoundTrip(n);
  }

  lemma {:induction false} NoExponentMark(s: string)
    requires forall k :: 0 <= k < |s| ==> s[k] != 'e' && s[k] != 'E'
    ensures FindExponent(s).None?
  {
    if s != [] {
      NoExponentMark(s[1..]);
    }
  }

  /** Whatever `int(s)` accepts, `float(s)` accepts too, with the same value. */
  lemma ParseFloatExtendsParseInt(s: string)
    requires ParseInt(s).Some?
    ensures ParseFloat(s) == Some(ParseInt(s).value as real)
  {
    var (negative, body) := SplitSign(Strip(s));
    assert IsDigitPart(body);
    DigitPartChars(body);
    NoExponentMark(body);
    assert Find(body, ".").None? by {
      FindFirst(body, ".");
    }
    assert UnsignedFloat(body) == Some(DigitPartValue(body) as real);
  }

  /** A digit part starts and ends with a digit. */
  lemma {:induction false} DigitPartEnds(s: string)
    requires IsDigitPart(s)
    ensures IsDigit(s[0]) && IsDigit(s[|s| - 1])
  {
    var n := |s|;
    if n > 1 {
      if IsDigitPart(s[..n - 1]) {
        DigitPartEnds(s[..n - 1]);
      } else {
        DigitPartEnds(s[..n - 2]);
      }
    }
  }

  /** Reading digits `w` then digits `f` shifts the value of `w` left by the digits of `f`. */
  lemma {:induction false} DigitPartConcat(w: string, f: string)
    ensures DigitPartValue(w + f) == DigitPartValue(w) * Pow10(DigitCount(f)) + DigitPartValue(f)
    decreases |f|
  {
    if f == [] {
      assert w + f == w;
    } else {
      var g, c := f[..|f| - 1], f[|f| - 1];
      assert w + f == (w + g) + [c] && f == g + [c];
      DigitPartConcat(w, g);
      AppendChar(w + g, c);
      AppendChar(g, c);
      if c != '_' {
        ShiftArithmetic(DigitPartValue(w), Pow10(DigitCount(g)), DigitPartValue(g), DigitValue(c));
      }
    }
  }

  /** Appending one character to a digit text: an underscore changes nothing, a digit shifts the value. */
  lemma AppendChar(s: string, c: char)
    ensures DigitPartValue(s + [c]) == if c == '_' then DigitPartValue(s) else 10 * DigitPartValue(s) + DigitValue(c)
    ensures DigitCount(s + [c]) == DigitCount(s) + if c == '_' then 0 else 1
  {
    assert (s + [c])[..|s|] == s;
  }

  lemma ShiftArithmetic(a: int, p: int, v: int, d: int)
    ensures 10 * (a * p + v) + d == a * (10 * p) + (10 * v + d)
  {
  }

  /** The first `.` of `w + "." + f` is the one after `w` when `w` has none. */
  lemma FindFirstDot(w: string, f: string)
    requires forall k :: 0 <= k < |w| ==> w[k] != '.'
    ensures Find(w + "." + f, ".") == Some(|w|)
  {
    var s := w + "." + f;
    assert s[|w|..|w| + 1] == ".";
    forall j: nat | j < |w| ensures !OccursAt(s, ".", j) {
      assert s[j..j + 1][0] == s[j] == w[j];
    }
    FindIs(s, ".", |w|);
  }

  /** A mantissa consists of digits, underscores and a dot, and starts and ends with a digit or the dot. */
  lemma MantissaChars(m: string)
    requires ParseMantissa(m).Some?
    ensures |m| > 0
    ensures forall k :: 0 <= k < |m| ==> IsDigit(m[k]) || m[k] == '_' || m[k] == '.'
    ensures IsDigit(m[0]) || m[0] == '.'
    ensures IsDigit(m[|m| - 1]) || m[|m| - 1] == '.'
  {
    FindFirst(m, ".");
    match Find(m, ".")
    case None =>
      DigitPartChars(m);
      DigitPartEnds(m);
    case Some(d) =>
      var whole, frac := m[..d], m[d + 1..];
      assert m[d] == m[d..d + 1][0] == '.';
      if whole != [] {
        DigitPartChars(whole);
        DigitPartEnds(whole);
        assert m[0] == whole[0];
      }
      if frac != [] {
        DigitPartChars(frac);
        DigitPartEnds(frac);
        assert m[|m| - 1] == frac[|frac| - 1];
      }
      forall k | 0 <= k < |m| ensures IsDigit(m[k]) || m[k] == '_' || m[k] == '.' {
        if k < d {
          assert m[k] == whole[k];
        } else if k > d {
          assert m[k] == frac[k - d - 1];
        }
      }
  }

  /** Text that neither starts nor ends with white space and has no sign reads as an unsigned float. */
  lemma FloatOfUnsigned(s: string)
    requires s != [] && !IsSpace(s[0]) && !IsSpace(s[|s| - 1]) && s[0] != '+' && s[0] != '-'
    ensures ParseFloat(s) == UnsignedFloat(s)
  {
    NoSpaceStrip(s);
    assert SplitSign(s) == (false, s);
  }

  /** Text holding a mantissa and nothing else reads as that mantissa under `float()`. */
  lemma FloatOfMantissa(m: string)
    requires ParseMantissa(m).Some?
    ensures ParseFloat(m) == ParseMantissa(m)
  {
    MantissaChars(m);
    FloatOfUnsigned(m);
    NoExponentMark(m);
  }

  /**
   * `float(w + "." + f)` is the number whose digits are those of `w` then
   * those of `f`, divided by ten once for each digit of `f`: `"0.045"` reads
   * as `45 / 1000`.
   */
  lemma ParseFloatDecimal(w: string, f: string)
    requires (w == [] || IsDigitPart(w)) && IsDigitPart(f)
    ensures ParseFloat(w + "." + f) == Some(DigitPartValue(w + f) as real / Pow10(DigitCount(f)) as real)
  {
    MantissaDecimal(w, f);
    FloatOfMantissa(w + "." + f);
  }

  /** The mantissa `w + "." + f` is the digits of `w` then `f` over ten to the number of digits of `f`. */
  lemma MantissaDecimal(w: string, f: string)
    requires (w == [] || IsDigitPart(w)) && IsDigitPart(f)
    ensures ParseMantissa(w + "." + f) == Some(DigitPartValue(w + f) as real / Pow10(DigitCount(f)) as real)
  {
    MantissaParts(w, f);
    DecimalValue(w, f);
  }

  /** The value of `w` plus that of `f` over ten to the digits of `f` is the value of `w + f` over the same power. */
  lemma DecimalValue(w: string, f: string)
    requires (w == [] || IsDigitPart(w)) && IsDigitPart(f)
    ensures DigitPartValue(w) as real + DigitPartValue(f) as real / Pow10(DigitCount(f)) as real
            == DigitPartValue(w + f) as real / Pow10(DigitCount(f)) as real
  {
    DigitPartConcat(w, f);
    DecimalFraction(DigitPartValue(w), DigitPartValue(f), Pow10(DigitCount(f)), DigitPartValue(w + f));
  }

  /** The mantissa `w + "." + f` is the value of `w` plus the value of `f` over ten to the number of digits of `f`. */
  lemma MantissaParts(w: string, f: string)
    requires (w == [] || IsDigitPart(w)) && IsDigitPart(f)
    ensures ParseMantissa(w + "." + f)
            == Some(DigitPartValue(w) as real + DigitPartValue(f) as real / Pow10(DigitCount(f)) as real)
  {
    var s := w + "." + f;
    if w != [] {
      DigitPartChars(w);
    }
    FindFirstDot(w, f);
    assert s[..|w|] == w && s[|w| + 1..] == f;
  }

  /** `x + y / q` is `n / q` when `n == x * q + y`. */
  lemma DecimalFraction(x: int, y: int, q: int, n: int)
    requires q > 0 && n == x * q + y
    ensures x as real + y as real / q as real == n as real / q as real
  {
    CastProduct(x, q);
    ShiftedQuotient(x as real, y as real, q as real);
  }

  /** Casting a product of integers to a real multiplies the casts. */
  lemma CastProduct(x: int, y: int)
    ensures (x * y) as real == x as real * y as real
  {
  }

  /** `a + b / p == (a * p + b) / p` for a positive `p`. */
  lemma ShiftedQuotient(a: real, b: real, p: real)
    requires p > 0.0
    ensures a + b / p == (a * p + b) / p
  {
  }

  /** `FindExponent` finds an `e` or `E` behind text that has neither. */
  lemma {:induction false} FindExponentAfter(m: string, rest: string)
    requires forall k :: 0 <= k < |m| ==> m[k] != 'e' && m[k] != 'E'
    requires |rest| > 0 && (rest[0] == 'e' || rest[0] == 'E')
    ensures FindExponent(m + rest) == Some(|m|)
  {
    if m != [] {
      assert (m + rest)[1..] == m[1..] + rest;
      FindExponentAfter(m[1..], rest);
    } else {
      assert m + rest == rest;
    }
  }

  /**
   * `float(m + "e" + str(x))` is the mantissa `m` scaled by ten to the power
   * `x`, for a positive or negative exponent alike.
   */
  lemma ParseFloatExponent(m: string, x: int)
    requires ParseMantissa(m).Some?
    ensures ParseFloat(m + "e" + IntToString(x)) == Some(ParseMantissa(m).value * Scale(x))
  {
    ExponentTextEdges(m, x);
    FloatOfUnsigned(m + "e" + IntToString(x));
    UnsignedExponent(m, x);
  }

  /** A mantissa, `e` and a rendered exponent neither start nor end with white space, and have no sign in front. */
  lemma ExponentTextEdges(m: string, x: int)
    requires ParseMantissa(m).Some?
    ensures var s := m + "e" + IntToString(x);
            && s != [] && !IsSpace(s[0]) && !IsSpace(s[|s| - 1]) && s[0] != '+' && s[0] != '-'
  {
    var t := IntToString(x);
    var s := m + "e" + t;
    NatToStringDigits(if x < 0 then -x else x);
    assert IsDigit(t[|t| - 1]);
    MantissaChars(m);
    assert s[0] == m[0] && s[|s| - 1] == t[|t| - 1];
  }

  /** Without sign or surrounding white space, `m + "e" + str(x)` reads as the mantissa scaled by `Scale(x)`. */
  lemma UnsignedExponent(m: string, x: int)
    requires ParseMantissa(m).Some?
    ensures UnsignedFloat(m + "e" + IntToString(x)) == Some(ParseMantissa(m).value * Scale(x))
  {
    var t := IntToString(x);
    var s := m + "e" + t;
    MantissaChars(m);
    assert s == m + ("e" + t);
    FindExponentAfter(m, "e" + t);
    assert s[..|m|] == m && s[|m| + 1..] == t;
    SignedDigitsRoundTrip(x);
    ExponentParts(s, |m|, ParseMantissa(m).value, x);
  }

  /** An unsigned float whose mantissa and exponent parse is the mantissa times `Scale` of the exponent. */
  lemma ExponentParts(body: string, e: nat, v: real, x: int)
    requires FindExponent(body) == Some(e)
    requires ParseMantissa(body[..e]) == Some(v) && SignedDigits(body[e + 1..]) == Some(x)
    ensures UnsignedFloat(body) == Some(Scaled(v, x))
  {
  }

  /** `Scale` is the power of ten: `Scale(0)` is 1 and each step up multiplies by ten. */
  lemma ScaleStep(e: int)
    ensures Scale(0) == 1.0
    ensures Scale(e + 1) == 10.0 * Scale(e)
  {
    if e >= 0 {
      CastProduct(10, Pow10(e));
    } else {
      var p := Pow10(-e - 1);
      CastProduct(10, p);
      TenthOfTenfold(p as real);
    }
  }

  /** `1 / p == 10 * (1 / (10 * p))` for a positive `p`. */
  lemma TenthOfTenfold(p: real)
    requires p > 0.0
    ensures 1.0 / p == 10.0 * (1.0 / (10.0 * p))
  {
  }

  /** `int("8080")` is the port 8080. */
  lemma DecimalKeyExample()
    ensures ParseInt("8080") == Some(8080)
  {
    IntToStringRoundTrip(8080);
    assert IntToString(8080) == "8080";
  }

  /** `int("http")` raises `ValueError`. */
  lemma NameKeyExample()
    ensures ParseInt("http") == None
  {
    NoSpaceStrip("http");
  }
}
