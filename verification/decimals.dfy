/** Exact decimal numbers, standing in for the Python `float` that the
    credit amount is converted to, and the numeral grammar `float()`
    accepts on plain decimal text. */
module Decimals {

  import opened Wrappers
  import opened Digits
  import opened StringOps

  /** The number `units / 10^scale`. */
  datatype Decimal = Decimal(units: int, scale: nat)

  /** No superfluous trailing fractional zero. Every finite decimal value
      has exactly one canonical representative (`CanonicalUnique`), so
      structural equality on canonical decimals is exact numeric equality.
      A binary float only approximates it: two decimals that round to the
      same double are equal as floats but distinct here. */
  predicate Canonical(d: Decimal) {
    d.scale == 0 || d.units % 10 != 0
  }

  /** `a` and `b` denote the same number. */
  predicate SameValue(a: Decimal, b: Decimal) {
    a.units * Pow10(b.scale) == b.units * Pow10(a.scale)
  }

  lemma ScaleDownKeepsValue(r: Decimal, q: int, s: nat, u: int)
    requires r.units * Pow10(s) == q * Pow10(r.scale)
    requires u == q * 10
    ensures r.units * (10 * Pow10(s)) == u * Pow10(r.scale)
  {
    calc {
      r.units * (10 * Pow10(s));
      10 * (r.units * Pow10(s));
      10 * (q * Pow10(r.scale));
      (q * 10) * Pow10(r.scale);
    }
  }

  /** Drops trailing fractional zeros without changing the value. */
  function Canonicalize(d: Decimal): (r: Decimal)
    ensures Canonical(r) && SameValue(r, d)
    ensures r.scale <= d.scale
    ensures d.units >= 0 ==> r.units >= 0
    ensures Canonical(d) ==> r == d
    decreases d.scale
  {
    if Canonical(d) then d
    else
      var r := Canonicalize(Decimal(d.units / 10, d.scale - 1));
      ScaleDownKeepsValue(r, d.units / 10, d.scale - 1, d.units);
      r
  }

  lemma MultipleOfTen(x: int, k: nat)
    ensures k > 0 ==> (x * Pow10(k)) % 10 == 0
  {
    if k > 0 {
      assert x * Pow10(k) == (x * Pow10(k - 1)) * 10;
    }
  }

  lemma CancelPositive(x: int, y: int, p: int)
    requires p > 0 && x * p == y * p
    ensures x == y
  {
    assert (x - y) * p == 0;
  }

  lemma CanonicalUniqueOrdered(a: Decimal, b: Decimal)
    requires Canonical(a) && Canonical(b) && SameValue(a, b)
    requires a.scale <= b.scale
    ensures a == b
  {
    var k := b.scale - a.scale;
    Pow10Add(a.scale, k);
    assert a.units * Pow10(k) * Pow10(a.scale) == b.units * Pow10(a.scale);
    CancelPositive(a.units * Pow10(k), b.units, Pow10(a.scale));
    MultipleOfTen(a.units, k);
  }

  /** Canonical decimals with the same value are the same decimal. */
  lemma CanonicalUnique(a: Decimal, b: Decimal)
    requires Canonical(a) && Canonical(b)
    ensures SameValue(a, b) <==> a == b
  {
    if SameValue(a, b) {
      if a.scale <= b.scale {
        CanonicalUniqueOrdered(a, b);
      } else {
        CanonicalUniqueOrdered(b, a);
      }
    }
  }

  predicate IsSign(c: char) {
    c == '-' || c == '+'
  }

  lemma NegationKeepsRemainder(u: int)
    ensures (u % 10 == 0) <==> ((-u) % 10 == 0)
  {
    var q, r := u / 10, u % 10;
    if r == 0 {
      assert -u == 10 * -q;
    } else {
      assert -u == 10 * (-q - 1) + (10 - r);
    }
  }

  /** The same number with the opposite sign. */
  function Negate(d: Decimal): (r: Decimal)
    ensures SameValue(r, Decimal(0, 0)) <==> SameValue(d, Decimal(0, 0))
    ensures Canonical(d) ==> Canonical(r)
  {
    NegationKeepsRemainder(d.units);
    Decimal(-d.units, d.scale)
  }

  /** An unsigned numeral: digits with at most one decimal point and at
      least one digit (`12`, `3.50`, `5.`, `.5`), read exactly. */
  function ParseMagnitude(body: string): (r: Option<Decimal>)
    ensures r.Some? ==> Canonical(r.value) && r.value.units >= 0
  {
    var parts := Split(body, '.');
    if |parts| > 2 then None
    else
      var whole := parts[0];
      var fraction := if |parts| == 2 then parts[1] else "";
      if !AllDigits(whole) || !AllDigits(fraction) || |whole| + |fraction| == 0 then None
      else
        ParseDigitsAppend(whole, fraction);
        Some(Canonicalize(Decimal(ParseDigits(whole + fraction), |fraction|)))
  }

  /** The numerals `float()` accepts on plain decimal text: an optional
      sign before an unsigned numeral. The result is canonical, so equal
      numbers read from different texts (`1.50`, `1.5`) are equal. */
  function ParseDecimal(s: string): (r: Option<Decimal>)
    ensures r.Some? ==> Canonical(r.value)
    ensures s == [] ==> r.None?
  {
    if |s| > 0 && IsSign(s[0]) then
      match ParseMagnitude(s[1..])
      case None => None
      case Some(m) => Some(if s[0] == '-' then Negate(m) else m)
    else ParseMagnitude(s)
  }

  /** The text of a sign: `-` when negative, nothing otherwise. */
  function SignText(negative: bool): string {
    if negative then "-" else ""
  }

  lemma DivMod(n: nat, p: nat)
    requires p > 0
    ensures n / p >= 0 && 0 <= n % p < p && (n / p) * p + n % p == n
  {
  }

  /** Digits of the magnitude: the integer part, then the fractional
      digits when the scale is positive. */
  function FormatMagnitude(n: nat, scale: nat): (s: string)
    ensures |s| >= 1 && !IsSign(s[0])
  {
    if scale == 0 then ToDigits(n)
    else
      var p := Pow10(scale);
      DivMod(n, p);
      ToDigits(n / p) + "." + PadDigits(n % p, scale)
  }

  /** A plain decimal numeral for the number, without exponent: sign,
      integer digits, and the fractional digits when there are any. Unlike
      a float's `repr`, a whole number prints without `.0`. */
  function FormatDecimal(d: Decimal): (s: string)
    ensures |s| >= 1
  {
    var negative := d.units < 0;
    SignText(negative) + FormatMagnitude(if negative then -d.units else d.units, d.scale)
  }

  lemma NoSeparatorsInDigits(s: string)
    requires AllDigits(s)
    ensures '.' !in s && '-' !in s && '+' !in s && '/' !in s
  {
    assert forall i :: 0 <= i < |s| ==> s[i] != '.' && s[i] != '-' && s[i] != '+' && s[i] != '/';
  }

  /** A digit string is read as the integer it denotes. */
  lemma ParseMagnitudeDigits(s: string)
    requires |s| >= 1 && AllDigits(s)
    ensures ParseMagnitude(s) == Some(Decimal(ParseDigits(s), 0))
  {
    NoSeparatorsInDigits(s);
    SplitNoSeparator(s, '.');
    assert s + "" == s;
  }

  /** Digits around one decimal point are read exactly, and trailing
      fractional zeros are dropped. */
  lemma ParseMagnitudePoint(w: string, f: string)
    requires AllDigits(w) && AllDigits(f) && |w| + |f| >= 1
    ensures ParseMagnitude(w + "." + f) == Some(Canonicalize(Decimal(ParseDigits(w + f), |f|)))
  {
    NoSeparatorsInDigits(w);
    NoSeparatorsInDigits(f);
    SplitFirst(w, '.', f);
    SplitNoSeparator(f, '.');
    assert Split(w + "." + f, '.') == [w, f];
  }

  /** Printing a non-negative canonical decimal's digits and reading them
      back gives it back. */
  lemma FormatParseMagnitude(n: nat, scale: nat)
    requires Canonical(Decimal(n, scale))
    ensures ParseMagnitude(FormatMagnitude(n, scale)) == Some(Decimal(n, scale))
  {
    if scale == 0 {
      ParseMagnitudeDigits(ToDigits(n));
    } else {
      var p := Pow10(scale);
      DivMod(n, p);
      var w, f := ToDigits(n / p), PadDigits(n % p, scale);
      ParseMagnitudePoint(w, f);
      ParseDigitsAppend(w, f);
    }
  }

  /** A sign in front of an unsigned numeral: `-` negates, while `+` or no
      sign at all keeps the value. */
  lemma ParseSigned(negative: bool, body: string)
    requires |body| >= 1 && !IsSign(body[0]) && ParseMagnitude(body).Some?
    ensures ParseDecimal(SignText(negative) + body)
         == Some(if negative then Negate(ParseMagnitude(body).value) else ParseMagnitude(body).value)
    ensures ParseDecimal("+" + body) == ParseMagnitude(body)
  {
    assert ("+" + body)[1..] == body;
    if negative {
      assert (SignText(negative) + body)[1..] == body;
    } else {
      assert SignText(negative) + body == body;
    }
  }

  /** Printing a canonical decimal and reading it back gives it back. */
  lemma FormatParseRoundTrip(d: Decimal)
    requires Canonical(d)
    ensures ParseDecimal(FormatDecimal(d)) == Some(d)
  {
    var negative := d.units < 0;
    var n: nat := if negative then -d.units else d.units;
    var body := FormatMagnitude(n, d.scale);
    assert Canonical(Decimal(n, d.scale)) by {
      NegationKeepsRemainder(d.units);
    }
    assert ParseMagnitude(body) == Some(Decimal(n, d.scale)) by {
      FormatParseMagnitude(n, d.scale);
    }
    ParseSigned(negative, body);
  }

  /** A character that is neither a digit nor the decimal point makes an
      unsigned numeral unreadable. */
  lemma ParseMagnitudeRejects(body: string, i: int)
    requires 0 <= i < |body| && !IsDigit(body[i]) && body[i] != '.'
    ensures ParseMagnitude(body) == None
  {
    var parts := Split(body, '.');
    JoinSplit(body, '.');
    if |parts| == 1 {
      assert body == parts[0];
    } else if |parts| == 2 {
      var w, f := parts[0], parts[1];
      assert body == w + "." + f;
      if i < |w| {
        assert w[i] == body[i];
      } else {
        assert i > |w|;
        assert f[i - |w| - 1] == body[i];
      }
    }
  }

  /** Text holding anything but digits, decimal points and one leading
      sign is not a number, and neither is the empty text. */
  lemma ParseDecimalRejects(s: string, i: int)
    requires 0 <= i < |s| && !IsDigit(s[i]) && s[i] != '.'
    requires i > 0 || !IsSign(s[0])
    ensures ParseDecimal(s) == None
  {
    if IsSign(s[0]) {
      ParseMagnitudeRejects(s[1..], i - 1);
    } else {
      ParseMagnitudeRejects(s, i);
    }
  }
}
