/** Exact rationals, and the decimal text weights are written in and read from. */
module Rationals {
  import opened Wrappers

  // ---- integers as decimal text ----

  predicate IsDigit(c: char) { '0' <= c <= '9' }

  function DigitValue(c: char): nat
    requires IsDigit(c)
  {
    c as int - '0' as int
  }

  function DigitChar(d: nat): (c: char)
    requires d < 10
    ensures IsDigit(c) && DigitValue(c) == d
  {
    ('0' as int + d) as char
  }

  function NatText(n: nat): (s: string)
    ensures s != [] && AllDigits(s)
  {
    if n < 10 then [DigitChar(n)] else NatText(n / 10) + [DigitChar(n % 10)]
  }

  function IntText(i: int): string {
    if i < 0 then ['-'] + NatText(-i) else NatText(i)
  }

  predicate AllDigits(s: string) {
    forall i :: 0 <= i < |s| ==> IsDigit(s[i])
  }

  function DigitsValue(s: string): nat
    requires AllDigits(s)
  {
    if s == [] then 0 else DigitsValue(s[..|s| - 1]) * 10 + DigitValue(s[|s| - 1])
  }

  /** One or more decimal digits after an optional sign. */
  function ParseInt(s: string): Option<int> {
    var digits := if s != [] && (s[0] == '-' || s[0] == '+') then s[1..] else s;
    if digits == [] || !AllDigits(digits) then None
    else if s[0] == '-' then Some(0 - DigitsValue(digits))
    else Some(DigitsValue(digits))
  }

  lemma {:induction false} NatTextValue(n: nat)
    ensures DigitsValue(NatText(n)) == n
  {
    var s := NatText(n);
    if n < 10 {
      assert s[..0] == [];
    } else {
      NatTextValue(n / 10);
      assert s[..|s| - 1] == NatText(n / 10);
    }
  }

  /** Reading back what was printed. */
  lemma ParsePrintedInt(i: int)
    ensures ParseInt(IntText(i)) == Some(i)
  {
    NatTextValue(if i < 0 then -i else i);
    if i < 0 {
      assert IntText(i)[1..] == NatText(-i);
    } else {
      assert IsDigit(NatText(i)[0]);
    }
  }

  // ---- rationals ----

  /** A rational as the number type keeps it: lowest terms over a positive denominator. */
  datatype Rational = Rational(num: int, den: int)

  function Gcd(a: nat, b: nat): nat
    decreases b
  {
    if b == 0 then a else Gcd(b, a % b)
  }

  function Abs(i: int): nat { if i < 0 then -i else i }

  predicate Lowest(r: Rational) {
    r.den > 0 && Gcd(Abs(r.num), r.den) == 1
  }

  function FromInt(i: int): Rational { Rational(i, 1) }

  ghost predicate Divides(g: nat, a: nat) {
    exists k: nat :: IsMultiple(a, g, k)
  }

  ghost predicate IsMultiple(a: nat, g: nat, k: nat) {
    a == g * k
  }

  lemma {:induction false} GcdDivides(a: nat, b: nat)
    requires a > 0 || b > 0
    ensures Gcd(a, b) > 0 && Divides(Gcd(a, b), a) && Divides(Gcd(a, b), b)
    decreases b
  {
    if b > 0 {
      GcdDivides(b, a % b);
      var g := Gcd(b, a % b);
      var x: nat :| IsMultiple(b, g, x);
      var y: nat :| IsMultiple(a % b, g, y);
      Recombine(a, b, g, x, y);
    } else {
      assert IsMultiple(a, a, 1) && IsMultiple(0, a, 0);
    }
  }

  lemma Recombine(a: nat, b: nat, g: nat, x: nat, y: nat)
    requires b > 0 && b == g * x && a % b == g * y
    ensures Divides(g, a)
  {
    var q := a / b;
    assert a == q * b + a % b;
    assert q * (g * x) + g * y == g * (q * x + y);
    assert IsMultiple(a, g, q * x + y);
  }

  lemma Quotient(a: nat, g: nat)
    requires g > 0 && Divides(g, a)
    ensures a == g * (a / g)
  {
    var k: nat :| IsMultiple(a, g, k);
    var q := a / g;
    var r := a % g;
    assert a == g * q + r;
    assert g * k == g * q + g * (k - q);
    if k > q {
      AtLeast(g, k - q);
      assert false;
    }
    assert g * q == g * k + g * (q - k);
    if k < q {
      AtLeast(g, q - k);
      assert false;
    }
  }

  lemma AtLeast(g: nat, x: nat)
    requires x >= 1
    ensures g * x >= g
  {
  }

  /** Reduce a fraction with a nonzero denominator; the sign goes to the numerator. */
  function Reduced(num: int, den: int): (r: Rational)
    requires den != 0
  {
    var g := Gcd(Abs(num), Abs(den));
    GcdDivides(Abs(num), Abs(den));
    if den > 0 then Rational(ExactDiv(num, g), den / g) else Rational(ExactDiv(-num, g), (-den) / g)
  }

  function ExactDiv(a: int, g: nat): int
    requires g > 0
  {
    if a < 0 then -((-a) / g) else a / g
  }

  /** Reducing keeps the value and makes the denominator positive. */
  lemma ReducedValue(num: int, den: int)
    requires den != 0
    ensures Reduced(num, den).den > 0
    ensures Reduced(num, den).num * den == num * Reduced(num, den).den
  {
    var g := Gcd(Abs(num), Abs(den));
    GcdDivides(Abs(num), Abs(den));
    Quotient(Abs(num), g);
    Quotient(Abs(den), g);
    var n, d := Abs(num) / g, Abs(den) / g;
    CrossMultiply(g, n, d);
    var r := Reduced(num, den);
    assert r.den == d;
    assert r.num == n || r.num == -n;
    CrossSigns(num, den, r.num, n, d);
  }

  lemma CrossMultiply(g: nat, n: int, d: int)
    ensures n * (g * d) == (g * n) * d
  {
  }

  lemma CrossSigns(num: int, den: int, m: int, n: int, d: int)
    requires n * Abs(den) == Abs(num) * d
    requires den != 0 && (m == n || m == -n)
    requires m == n <== (num >= 0) == (den > 0)
    requires m == -n <== (num >= 0) != (den > 0)
    ensures m * den == num * d
  {
  }

  lemma ReducedOfLowest(r: Rational)
    requires Lowest(r)
    ensures Reduced(r.num, r.den) == r
  {
  }

  // ---- weight tokens ----

  predicate IsSpace(c: char) {
    c == ' ' || c == '\t' || c == '\n' || c == '\r'
  }

  function TrimStart(s: string): string {
    if s != [] && IsSpace(s[0]) then TrimStart(s[1..]) else s
  }

  function TrimEnd(s: string): string {
    if s != [] && IsSpace(s[|s| - 1]) then TrimEnd(s[..|s| - 1]) else s
  }

  function Trim(s: string): string { TrimEnd(TrimStart(s)) }

  /** The parts before and after the first character `at` accepts. */
  function SplitOnce(s: string, at: set<char>): (r: Option<(string, string)>)
    ensures r.None? <==> forall i :: 0 <= i < |s| ==> s[i] !in at
  {
    if s == [] then None
    else if s[0] in at then Some(("", s[1..]))
    else match SplitOnce(s[1..], at)
      case None => None
      case Some((a, b)) => Some(([s[0]] + a, b))
  }

  /** The mantissa without its leading signs. */
  function DropSigns(s: string): string {
    if s != [] && (s[0] == '+' || s[0] == '-') then DropSigns(s[1..]) else s
  }

  function Pow10(n: nat): (p: nat)
    ensures p > 0
  {
    if n == 0 then 1 else 10 * Pow10(n - 1)
  }

  function ParseI64(s: string): Option<int> {
    match ParseInt(s)
    case None => None
    case Some(i) => if -0x8000_0000_0000_0000 <= i <= 0x7FFF_FFFF_FFFF_FFFF then Some(i) else None
  }

  datatype WeightError = BadNumerator | BadDenominator | ZeroDenominator | BadExponent | BadValue

  /** A fraction `a/b`, a decimal with an optional exponent, or a plain integer, exactly. */
  function ParseWeight(token: string): Result<Rational, WeightError> {
    var s := Trim(token);
    match SplitOnce(s, {'/'})
    case Some((n, d)) => ParseFraction(n, d)
    case None => ParseDecimal(s)
  }

  function ParseFraction(n: string, d: string): Result<Rational, WeightError> {
    match ParseInt(Trim(n))
    case None => Err(BadNumerator)
    case Some(num) =>
      match ParseInt(Trim(d))
      case None => Err(BadDenominator)
      case Some(den) => if den == 0 then Err(ZeroDenominator) else Ok(Reduced(num, den))
  }

  function ParseDecimal(s: string): Result<Rational, WeightError> {
    match SplitOnce(s, {'e', 'E'})
    case None => ParseMantissa(s, 0)
    case Some((m, e)) =>
      match ParseI64(Trim(e))
      case None => Err(BadExponent)
      case Some(exp) => ParseMantissa(m, exp)
  }

  function ParseMantissa(mantissa: string, exp: int): Result<Rational, WeightError> {
    var mant := DropSigns(mantissa);
    var (whole, frac) := match SplitOnce(mant, {'.'})
      case Some((i, f)) => (i, f)
      case None => (mant, "");
    var digits := if whole + frac == "" then "0" else whole + frac;
    match ParseInt(digits)
    case None => Err(BadValue)
    case Some(value) =>
      var num := if mantissa != [] && mantissa[0] == '-' then -value else value;
      var scale := exp - |frac|;
      if scale >= 0 then Ok(FromInt(num * Pow10(scale))) else Ok(Reduced(num, Pow10(-scale)))
  }

  /** `numerator/denominator`, the spelling every written weight uses. */
  function RationalText(r: Rational): string {
    IntText(r.num) + "/" + IntText(r.den)
  }

  ghost predicate NoSpace(s: string) {
    forall i :: 0 <= i < |s| ==> !IsSpace(s[i])
  }

  lemma TrimNothing(s: string)
    requires NoSpace(s)
    ensures Trim(s) == s
  {
  }

  lemma {:induction false} SplitAt(a: string, c: char, b: string, at: set<char>)
    requires c in at && forall i :: 0 <= i < |a| ==> a[i] !in at
    ensures SplitOnce(a + [c] + b, at) == Some((a, b))
  {
    var s := a + [c] + b;
    if a == [] {
      assert s[1..] == b;
    } else {
      assert s[1..] == a[1..] + [c] + b;
      SplitAt(a[1..], c, b, at);
      assert [s[0]] + a[1..] == a;
    }
  }

  lemma IntTextPlain(i: int)
    ensures NoSpace(IntText(i)) && '/' !in IntText(i)
  {
  }

  /** Every written weight reads back as itself. */
  lemma ParsePrintedWeight(r: Rational)
    requires Lowest(r)
    ensures ParseWeight(RationalText(r)) == Ok(r)
  {
    var n, d := IntText(r.num), IntText(r.den);
    IntTextPlain(r.num);
    IntTextPlain(r.den);
    TrimNothing(RationalText(r));
    TrimNothing(n);
    TrimNothing(d);
    assert RationalText(r) == n + ['/'] + d;
    SplitAt(n, '/', d, {'/'});
    ParsePrintedInt(r.num);
    ParsePrintedInt(r.den);
    ReducedOfLowest(r);
  }

  // ---- decimals, with and without a sign, a point and an exponent ----

  /** A decimal as written: any signs, the digits before the point, those after it if there is a point, and the
      exponent's marker and text if there is one. */
  datatype Decimal = Decimal(signs: string, whole: string, point: Option<string>, exponent: Option<(char, string)>)

  predicate IsSign(c: char) { c == '+' || c == '-' }

  ghost predicate WellWritten(d: Decimal) {
    && (forall i :: 0 <= i < |d.signs| ==> IsSign(d.signs[i])) && AllDigits(d.whole)
    && (d.point.Some? ==> AllDigits(d.point.value))
    && (d.exponent.Some? ==> d.exponent.value.0 in {'e', 'E'} && ParseI64(d.exponent.value.1).Some?)
  }

  function FractionOf(d: Decimal): string { if d.point.Some? then d.point.value else "" }

  function BodyText(d: Decimal): string { if d.point.Some? then d.whole + ['.'] + d.point.value else d.whole }

  function MantissaText(d: Decimal): string { d.signs + BodyText(d) }

  function DecimalText(d: Decimal): string {
    if d.exponent.Some? then MantissaText(d) + [d.exponent.value.0] + d.exponent.value.1 else MantissaText(d)
  }

  function ExponentOf(d: Decimal): int
    requires d.exponent.Some? ==> ParseI64(d.exponent.value.1).Some?
  {
    if d.exponent.Some? then ParseI64(d.exponent.value.1).value else 0
  }

  /** All the digits as one integer, negative when the first sign is a minus. */
  function DigitsOf(d: Decimal): int
    requires AllDigits(d.whole + FractionOf(d))
  {
    var value := DigitsValue(d.whole + FractionOf(d));
    if d.signs != [] && d.signs[0] == '-' then 0 - value else value
  }

  /** `r` is `digits` times ten to the power `scale`. */
  predicate IsScaled(r: Rational, digits: int, scale: int) {
    r.den > 0 && if scale >= 0 then r.num == digits * Pow10(scale) * r.den else r.num * Pow10(-scale) == digits * r.den
  }

  /** Every character of a decimal is a digit, a point or a sign up to the exponent's marker. */
  lemma MantissaChars(d: Decimal)
    requires WellWritten(d)
    ensures forall c :: c in MantissaText(d) ==> IsDigit(c) || c == '.' || IsSign(c)
  {
    forall c | c in MantissaText(d) ensures IsDigit(c) || c == '.' || IsSign(c) {
      if c in d.signs {
        var i :| 0 <= i < |d.signs| && d.signs[i] == c;
      } else if c in d.whole {
        var i :| 0 <= i < |d.whole| && d.whole[i] == c;
      } else if d.point.Some? && c in d.point.value {
        var i :| 0 <= i < |d.point.value| && d.point.value[i] == c;
      }
    }
  }

  /** A text that reads as an integer holds digits and signs only. */
  lemma IntegerChars(s: string)
    requires ParseInt(s).Some?
    ensures forall c :: c in s ==> IsDigit(c) || IsSign(c)
  {
    forall i | 0 <= i < |s| ensures IsDigit(s[i]) || IsSign(s[i]) {
      if i > 0 || !IsSign(s[0]) {
        var digits := if IsSign(s[0]) then s[1..] else s;
        assert s[i] == digits[if IsSign(s[0]) then i - 1 else i];
      }
    }
  }

  lemma TokenChars(d: Decimal)
    requires WellWritten(d)
    ensures NoSpace(DecimalText(d)) && forall i :: 0 <= i < |DecimalText(d)| ==> DecimalText(d)[i] != '/'
  {
    MantissaChars(d);
    if d.exponent.Some? { IntegerChars(d.exponent.value.1); }
    forall i | 0 <= i < |DecimalText(d)| ensures !IsSpace(DecimalText(d)[i]) && DecimalText(d)[i] != '/' {
      assert DecimalText(d)[i] in DecimalText(d);
    }
  }

  lemma NoneSplit(s: string, at: set<char>)
    requires forall i :: 0 <= i < |s| ==> s[i] !in at
    ensures SplitOnce(s, at).None?
  {
  }

  /** Reading splits the exponent off and leaves the mantissa. */
  lemma DecimalSplits(d: Decimal)
    requires WellWritten(d)
    ensures ParseWeight(DecimalText(d)) == ParseMantissa(MantissaText(d), ExponentOf(d))
  {
    hide ParseMantissa, ParseFraction, ParseInt, SplitOnce, Trim, MantissaText;
    TokenChars(d);
    TrimNothing(DecimalText(d));
    NoneSplit(DecimalText(d), {'/'});
    MantissaChars(d);
    forall i | 0 <= i < |MantissaText(d)| ensures MantissaText(d)[i] !in {'e', 'E'} {
      assert MantissaText(d)[i] in MantissaText(d);
    }
    if d.exponent.Some? {
      SplitAt(MantissaText(d), d.exponent.value.0, d.exponent.value.1, {'e', 'E'});
      ExponentPlain(d.exponent.value.1);
    } else {
      NoneSplit(MantissaText(d), {'e', 'E'});
    }
  }

  lemma ExponentPlain(s: string)
    requires ParseI64(s).Some?
    ensures Trim(s) == s
  {
    IntegerChars(s);
    forall i | 0 <= i < |s| ensures !IsSpace(s[i]) { assert s[i] in s; }
    TrimNothing(s);
  }

  lemma {:induction false} SignsDropped(signs: string, body: string)
    requires (forall i :: 0 <= i < |signs| ==> IsSign(signs[i])) && (body != [] ==> !IsSign(body[0]))
    ensures DropSigns(signs + body) == body
  {
    if signs == [] {
      assert signs + body == body;
    } else {
      assert (signs + body)[1..] == signs[1..] + body && (signs + body)[0] == signs[0];
      SignsDropped(signs[1..], body);
    }
  }

  lemma BodySplits(d: Decimal)
    requires WellWritten(d)
    ensures DropSigns(MantissaText(d)) == BodyText(d)
    ensures SplitOnce(BodyText(d), {'.'}) == if d.point.Some? then Some((d.whole, d.point.value)) else None
    ensures MantissaText(d) != [] && MantissaText(d)[0] == '-' <==> d.signs != [] && d.signs[0] == '-'
  {
    if d.point.Some? { SplitAt(d.whole, '.', d.point.value, {'.'}); } else { NoneSplit(d.whole, {'.'}); }
    SignsDropped(d.signs, BodyText(d));
  }

  /** A decimal, with any sign, point and exponent, reads as exactly its digits at their power of ten. */
  lemma DecimalIsExact(d: Decimal)
    requires WellWritten(d)
    ensures AllDigits(d.whole + FractionOf(d))
    ensures ParseWeight(DecimalText(d)).Ok?
    ensures IsScaled(ParseWeight(DecimalText(d)).value, DigitsOf(d), ExponentOf(d) - |FractionOf(d)|)
  {
    hide ParseWeight, DecimalText, DropSigns, SplitOnce, MantissaText, BodyText, ParseI64;
    DecimalSplits(d);
    BodySplits(d);
    MantissaExact(d);
  }

  lemma MantissaExact(d: Decimal)
    requires WellWritten(d) && DropSigns(MantissaText(d)) == BodyText(d)
    requires SplitOnce(BodyText(d), {'.'}) == if d.point.Some? then Some((d.whole, d.point.value)) else None
    requires MantissaText(d) != [] && MantissaText(d)[0] == '-' <==> d.signs != [] && d.signs[0] == '-'
    ensures AllDigits(d.whole + FractionOf(d))
    ensures ParseMantissa(MantissaText(d), ExponentOf(d)).Ok?
    ensures IsScaled(ParseMantissa(MantissaText(d), ExponentOf(d)).value, DigitsOf(d), ExponentOf(d) - |FractionOf(d)|)
  {
    hide DropSigns, SplitOnce, MantissaText, ParseI64, ParseInt, Reduced, IsScaled;
    var digits, scale := d.whole + FractionOf(d), ExponentOf(d) - |FractionOf(d)|;
    assert BodyText(d) == d.whole || d.point.Some?;
    if digits == "" { ParseZero(); } else { ParseDigits(digits); }
    ScaledExactly(DigitsOf(d), scale);
  }

  lemma ParseZero()
    ensures ParseInt("0") == Some(0) && DigitsValue("") == 0
  {
    ParsePrintedInt(0);
    assert IntText(0) == "0";
  }

  lemma ScaledExactly(num: int, scale: int)
    ensures scale >= 0 ==> IsScaled(FromInt(num * Pow10(scale)), num, scale)
    ensures scale < 0 ==> IsScaled(Reduced(num, Pow10(-scale)), num, scale)
  {
    if scale < 0 { ReducedValue(num, Pow10(-scale)); }
  }

  lemma ParseDigits(s: string)
    requires s != [] && AllDigits(s)
    ensures ParseInt(s) == Some(DigitsValue(s))
  {
    assert IsDigit(s[0]);
  }
}
