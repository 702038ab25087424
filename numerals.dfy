/**
 * Signed 32-bit integers and .NET `decimal` values, with their invariant-culture text
 * (what `ToString()` prints) and the simple grammar accepted by `int.TryParse` and
 * `decimal.TryParse` in this model.
 */
module Numerals {
  import opened Wrappers

  const MinInt32: int := -0x8000_0000
  const MaxInt32: int := 0x7fff_ffff

  /** C#'s `int`. */
  type Int32 = x: int | MinInt32 <= x <= MaxInt32

  /** The result of C#'s unchecked 32-bit arithmetic: x reduced modulo 2^32 into the Int32 range. */
  function Wrap32(x: int): (r: Int32)
    ensures (x - r) % 0x1_0000_0000 == 0
    ensures MinInt32 <= x <= MaxInt32 ==> r == x
  {
    var q := (x - MinInt32) / 0x1_0000_0000;
    assert x - ((x - MinInt32) % 0x1_0000_0000 + MinInt32) == q * 0x1_0000_0000;
    (x - MinInt32) % 0x1_0000_0000 + MinInt32
  }

  function Pow10(n: nat): (r: nat)
    ensures r >= 1
  {
    if n == 0 then 1 else 10 * Pow10(n - 1)
  }

  // ----- decimal digits -----

  predicate IsDigit(c: char) {
    '0' <= c <= '9'
  }

  predicate AllDigits(s: string) {
    forall i :: 0 <= i < |s| ==> IsDigit(s[i])
  }

  function DigitChar(d: nat): (c: char)
    requires d < 10
    ensures IsDigit(c)
  {
    ('0' as int + d) as char
  }

  function DigitValue(c: char): (d: nat)
    requires IsDigit(c)
    ensures d < 10 && DigitChar(d) == c
  {
    (c as int) - ('0' as int)
  }

  /** The number that a string of decimal digits denotes (most significant digit first). */
  function DigitsValue(s: string): nat
    requires AllDigits(s)
  {
    if s == [] then 0 else DigitsValue(s[..|s| - 1]) * 10 + DigitValue(s[|s| - 1])
  }

  /** Appending one digit multiplies the value by ten and adds the digit. */
  lemma DigitsValueSnoc(s: string, c: char)
    requires AllDigits(s) && IsDigit(c)
    ensures AllDigits(s + [c]) && DigitsValue(s + [c]) == DigitsValue(s) * 10 + DigitValue(c)
  {
    assert (s + [c])[..|s + [c]| - 1] == s;
  }

  /** The shortest digit string of n: how C# prints a non-negative integer. */
  function NatToDigits(n: nat): (s: string)
    ensures 1 <= |s| && AllDigits(s) && DigitsValue(s) == n
    ensures |s| > 1 ==> s[0] != '0'
  {
    if n < 10 then
      [DigitChar(n)]
    else
      var t := NatToDigits(n / 10);
      DigitsValueSnoc(t, DigitChar(n % 10));
      t + [DigitChar(n % 10)]
  }

  /** The digits of n, padded with leading zeros to exactly `width` characters. */
  function PadDigits(n: nat, width: nat): (s: string)
    requires n < Pow10(width)
    ensures |s| == width && AllDigits(s) && DigitsValue(s) == n
  {
    if width == 0 then
      []
    else
      var t := PadDigits(n / 10, width - 1);
      DigitsValueSnoc(t, DigitChar(n % 10));
      t + [DigitChar(n % 10)]
  }

  /** A digit string is the padded text of its value, at its own width. */
  lemma {:induction false} PadDigitsOfValue(x: string)
    requires AllDigits(x)
    ensures DigitsValue(x) < Pow10(|x|)
    ensures PadDigits(DigitsValue(x), |x|) == x
  {
    if x != [] {
      var y, c := x[..|x| - 1], x[|x| - 1];
      assert x == y + [c];
      PadDigitsOfValue(y);
      var v, d := DigitsValue(y), DigitValue(c);
      assert DigitsValue(x) == v * 10 + d;
      assert Pow10(|x|) == Pow10(|y|) * 10;
      assert v * 10 + d < (v + 1) * 10 <= Pow10(|y|) * 10;
      assert (v * 10 + d) / 10 == v && (v * 10 + d) % 10 == d;
    }
  }

  // ----- int -----

  /**
   * `int.ToString()` in the invariant culture: a minus sign exactly for negatives, then
   * nothing but digits.
   */
  function IntToString(n: int): (s: string)
    ensures |s| >= 1
    ensures s[0] == '-' <==> n < 0
    ensures IsDigit(s[0]) || s[0] == '-'
    ensures forall i :: 0 < i < |s| ==> IsDigit(s[i])
  {
    if n < 0 then
      var t := NatToDigits(-n);
      assert forall i :: 0 < i < |"-" + t| ==> ("-" + t)[i] == t[i - 1];
      "-" + t
    else
      NatToDigits(n)
  }

  /** Splits an optional leading '-' or '+' off s: the sign as -1 or +1, and the rest. */
  function SplitSign(s: string): (r: (int, string))
    ensures r.0 == 1 || r.0 == -1
    ensures r.1 == s || (|s| > 0 && r.1 == s[1..] && (s[0] == '-' || s[0] == '+'))
  {
    if |s| > 0 && s[0] == '-' then (-1, s[1..])
    else if |s| > 0 && s[0] == '+' then (1, s[1..])
    else (1, s)
  }

  /**
   * `int.TryParse`: an optional sign and one or more decimal digits, whose value fits in
   * 32 bits. Whatever it accepts is a digit or a sign followed by nothing but digits.
   */
  function ParseInt(s: string): (r: Option<Int32>)
    ensures r.Some? ==> |s| >= 1 && (IsDigit(s[0]) || s[0] == '-' || s[0] == '+')
    ensures r.Some? ==> forall i :: 0 < i < |s| ==> IsDigit(s[i])
  {
    var (sign, digits) := SplitSign(s);
    if |digits| == 0 || !AllDigits(digits) then None
    else
      assert digits != s ==> forall i :: 0 < i < |s| ==> s[i] == digits[i - 1];
      var v := sign * DigitsValue(digits);
      if MinInt32 <= v <= MaxInt32 then Some(v) else None
  }

  /** Printing a 32-bit integer and parsing the text back gives the integer. */
  lemma ParseIntToString(n: Int32)
    ensures ParseInt(IntToString(n)) == Some(n)
  {
    var m: int := n;
    if m < 0 {
      var t := NatToDigits(-m);
      assert ("-" + t)[1..] == t;
      assert SplitSign("-" + t) == (-1, t);
    } else {
      var t := NatToDigits(n);
      assert IsDigit(t[0]);
      assert SplitSign(t) == (1, t);
    }
  }

  /** The first position of c in s, or |s| when c does not occur. */
  function IndexOfChar(s: string, c: char): (k: nat)
    ensures k <= |s|
    ensures forall i :: 0 <= i < k ==> s[i] != c
    ensures k < |s| ==> s[k] == c
  {
    if |s| == 0 then 0 else if s[0] == c then 0 else 1 + IndexOfChar(s[1..], c)
  }

  // ----- decimal -----

  /** A .NET `decimal`: the number units / 10^scale. Like .NET, the scale is kept, so 25 and 25.0 differ. */
  datatype Decimal = Decimal(units: int, scale: nat)

  /** `d >= 0` */
  predicate IsNonNegative(d: Decimal) {
    d.units >= 0
  }

  lemma DivMod(a: nat, p: nat)
    requires p >= 1
    ensures 0 <= a / p && 0 <= a % p < p && a == (a / p) * p + a % p
  {
  }

  /** A character of the text of an unsigned decimal. */
  predicate IsDecimalChar(c: char) {
    IsDigit(c) || c == '.'
  }

  /**
   * The text of the non-negative number a / 10^scale: integer part, then `scale` fraction
   * digits. It starts with a digit, holds only digits and points, and has a point exactly
   * when the scale is positive.
   */
  function UnsignedDecimalText(a: nat, scale: nat): (s: string)
    ensures |s| > 0 && IsDigit(s[0])
    ensures forall i :: 0 <= i < |s| ==> IsDecimalChar(s[i])
    ensures scale > 0 <==> '.' in s
  {
    var p := Pow10(scale);
    DivMod(a, p);
    var w := NatToDigits(a / p);
    assert forall i :: 0 <= i < |w| ==> w[i] != '.';
    if scale == 0 then
      w
    else
      var f := PadDigits(a % p, scale);
      var t := w + ("." + f);
      assert t[|w|] == '.';
      assert forall i :: |w| < i < |t| ==> t[i] == f[i - |w| - 1];
      t
  }

  /**
   * `decimal.ToString()` in the invariant culture: a minus sign exactly for negatives, then
   * the magnitude, which is digits and at most the one point.
   */
  function DecimalToString(d: Decimal): (s: string)
    ensures |s| > 0 && (s[0] == '-' <==> d.units < 0)
    ensures IsDigit(s[0]) || s[0] == '-'
    ensures forall i :: 0 < i < |s| ==> IsDecimalChar(s[i])
    ensures d.scale > 0 <==> '.' in s
  {
    if d.units < 0 then
      var u := UnsignedDecimalText(-d.units, d.scale);
      assert forall i :: 0 < i < |"-" + u| ==> ("-" + u)[i] == u[i - 1];
      assert '.' in u <==> '.' in "-" + u;
      "-" + u
    else
      UnsignedDecimalText(d.units, d.scale)
  }

  /**
   * Digits with at most one '.', and at least one digit: the magnitude in units of the
   * last digit, and the scale, which is the number of digits after the point. Whatever it
   * accepts is non-empty and made of digits and points.
   */
  function ParseUnsignedDecimal(body: string): (r: Option<(nat, nat)>)
    ensures r.Some? ==> |body| > 0 && forall i :: 0 <= i < |body| ==> IsDecimalChar(body[i])
  {
    var k := IndexOfChar(body, '.');
    var whole := body[..k];
    var frac := if k < |body| then body[k + 1..] else "";
    if AllDigits(whole) && AllDigits(frac) && |whole| + |frac| > 0 then
      assert forall i :: 0 <= i < k ==> body[i] == whole[i];
      assert k < |body| ==> forall i :: k < i < |body| ==> body[i] == frac[i - k - 1];
      Some((DigitsValue(whole) * Pow10(|frac|) + DigitsValue(frac), |frac|))
    else
      None
  }

  /**
   * `decimal.TryParse`: an optional sign, then an unsigned decimal. Whatever it accepts is
   * a digit, a point or a sign followed by nothing but digits and points.
   */
  function ParseDecimal(s: string): (r: Option<Decimal>)
    ensures r.Some? ==> |s| > 0 && (IsDecimalChar(s[0]) || s[0] == '-' || s[0] == '+')
    ensures r.Some? ==> forall i :: 0 < i < |s| ==> IsDecimalChar(s[i])
  {
    var (sign, body) := SplitSign(s);
    match ParseUnsignedDecimal(body)
    case None => None
    case Some((m, scale)) =>
      assert body != s ==> forall i :: 0 < i < |s| ==> s[i] == body[i - 1];
      Some(Decimal(sign * m, scale))
  }

  /** An integer prints as the decimal with the same units and scale 0. */
  lemma IntToStringIsDecimalText(n: int)
    ensures IntToString(n) == DecimalToString(Decimal(n, 0))
  {
    var a: nat := if n < 0 then -n else n;
    assert Pow10(0) == 1;
    assert a / 1 == a;
    assert UnsignedDecimalText(a, 0) == NatToDigits(a);
  }

  /** In w + rest, where w lacks c and rest is empty or starts with c, the first c is at |w|. */
  lemma {:induction false} IndexOfCharAfter(w: string, rest: string, c: char)
    requires c !in w
    requires rest == [] || rest[0] == c
    ensures IndexOfChar(w + rest, c) == |w|
  {
    if |w| > 0 {
      assert (w + rest)[0] == w[0] && (w + rest)[1..] == w[1..] + rest;
      assert c !in w[1..] by { assert forall x :: x in w[1..] ==> x in w; }
      IndexOfCharAfter(w[1..], rest, c);
    }
  }

  lemma ParseUnsignedDecimalText(a: nat, scale: nat)
    ensures ParseUnsignedDecimal(UnsignedDecimalText(a, scale)).Some?
    ensures ParseUnsignedDecimal(UnsignedDecimalText(a, scale)).value.0 == a
    ensures ParseUnsignedDecimal(UnsignedDecimalText(a, scale)).value.1 == scale
  {
    var p := Pow10(scale);
    DivMod(a, p);
    var q, r := a / p, a % p;
    var w := NatToDigits(q);
    if scale == 0 {
      assert UnsignedDecimalText(a, scale) == w;
      ParseDigits(w);
      assert p == 1 && q == a;
    } else {
      var f := PadDigits(r, scale);
      assert UnsignedDecimalText(a, scale) == w + ("." + f);
      ParseDigitsPointDigits(w, f);
      assert DigitsValue(w) * Pow10(|f|) + DigitsValue(f) == q * p + r;
    }
  }

  /** A run of digits parses as a whole number of scale 0. */
  lemma ParseDigits(w: string)
    requires AllDigits(w) && |w| > 0
    ensures ParseUnsignedDecimal(w).Some?
    ensures ParseUnsignedDecimal(w).value.0 == DigitsValue(w) && ParseUnsignedDecimal(w).value.1 == 0
  {
    assert '.' !in w by { assert forall i :: 0 <= i < |w| ==> IsDigit(w[i]); }
    IndexOfCharAfter(w, "", '.');
    assert w + "" == w && w[..|w|] == w;
  }

  /** Digits, a point and digits parse with the fraction digits as the scale. */
  lemma ParseDigitsPointDigits(w: string, f: string)
    requires AllDigits(w) && AllDigits(f) && |w| > 0
    ensures ParseUnsignedDecimal(w + ("." + f)).Some?
    ensures ParseUnsignedDecimal(w + ("." + f)).value.1 == |f|
    ensures ParseUnsignedDecimal(w + ("." + f)).value.0 == DigitsValue(w) * Pow10(|f|) + DigitsValue(f)
  {
    var body := w + ("." + f);
    assert '.' !in w by { assert forall i :: 0 <= i < |w| ==> IsDigit(w[i]); }
    IndexOfCharAfter(w, "." + f, '.');
    assert body[..|w|] == w && body[|w| + 1..] == f;
    ParseAtPoint(body, |w|);
  }

  /** Unsigned decimal text whose first point is at k parses as its two digit runs. */
  lemma ParseAtPoint(body: string, k: nat)
    requires k == IndexOfChar(body, '.') < |body|
    requires AllDigits(body[..k]) && AllDigits(body[k + 1..]) && k > 0
    ensures ParseUnsignedDecimal(body).Some?
    ensures ParseUnsignedDecimal(body).value.1 == |body[k + 1..]|
    ensures ParseUnsignedDecimal(body).value.0 ==
            DigitsValue(body[..k]) * Pow10(|body[k + 1..]|) + DigitsValue(body[k + 1..])
  {
  }

  lemma ParseSignedDecimal(u: string, m: nat, scale: nat)
    requires ParseUnsignedDecimal(u).Some?
    requires ParseUnsignedDecimal(u).value.0 == m && ParseUnsignedDecimal(u).value.1 == scale
    requires |u| > 0 && IsDigit(u[0])
    ensures ParseDecimal("-" + u) == Some(Decimal(-(m as int), scale))
    ensures ParseDecimal(u) == Some(Decimal(m, scale))
  {
    assert ("-" + u)[1..] == u;
    assert SplitSign("-" + u) == (-1, u);
    assert SplitSign(u) == (1, u);
  }

  /** Printing a decimal and parsing the text back gives the same units and the same scale. */
  lemma ParseDecimalToString(d: Decimal)
    ensures ParseDecimal(DecimalToString(d)) == Some(d)
  {
    if d.units < 0 {
      ParseNegativeDecimalText(-d.units, d.scale);
      assert Decimal(-((-d.units) as nat as int), d.scale) == d;
    } else {
      ParseNonNegativeDecimalText(d.units, d.scale);
    }
  }

  lemma ParseNegativeDecimalText(a: nat, scale: nat)
    requires a > 0
    ensures ParseDecimal(DecimalToString(Decimal(-(a as int), scale))) == Some(Decimal(-(a as int), scale))
  {
    var u := UnsignedDecimalText(a, scale);
    assert DecimalToString(Decimal(-(a as int), scale)) == "-" + u;
    ParseUnsignedDecimalText(a, scale);
    ParseSignedDecimal(u, a, scale);
  }

  lemma ParseNonNegativeDecimalText(a: nat, scale: nat)
    ensures ParseDecimal(DecimalToString(Decimal(a, scale))) == Some(Decimal(a, scale))
  {
    var u := UnsignedDecimalText(a, scale);
    assert DecimalToString(Decimal(a, scale)) == u;
    ParseUnsignedDecimalText(a, scale);
    ParseSignedDecimal(u, a, scale);
  }

  /** A decimal with a fraction part is not an int; one without is, when it fits in 32 bits. */
  lemma ParseIntOfDecimalText(d: Decimal)
    ensures ParseInt(DecimalToString(d)) ==
            if d.scale == 0 && MinInt32 <= d.units <= MaxInt32 then Some(d.units) else None
  {
    if d.scale == 0 {
      IntToStringIsDecimalText(d.units);
      if MinInt32 <= d.units <= MaxInt32 {
        ParseIntToString(d.units);
      }
    } else {
      FractionTextIsNoInt(d);
    }
  }

  /** The text of a decimal with fraction digits holds a '.' after its first character, which int.TryParse rejects. */
  lemma FractionTextIsNoInt(d: Decimal)
    requires d.scale > 0
    ensures ParseInt(DecimalToString(d)).None?
  {
    var s := DecimalToString(d);
    var k :| 0 <= k < |s| && s[k] == '.';
    assert k > 0;
  }
}
