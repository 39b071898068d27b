/** Decimal digit strings and the natural numbers they denote. */
module Digits {

  predicate IsDigit(c: char) {
    '0' <= c <= '9'
  }

  predicate AllDigits(s: string) {
    forall i :: 0 <= i < |s| ==> IsDigit(s[i])
  }

  function DigitValue(c: char): (n: nat)
    requires IsDigit(c)
    ensures n < 10
  {
    c as int - '0' as int
  }

  function DigitChar(n: nat): (c: char)
    requires n < 10
    ensures IsDigit(c) && DigitValue(c) == n
  {
    ('0' as int + n) as char
  }

  function Pow10(n: nat): (p: nat)
    ensures p >= 1
  {
    if n == 0 then 1 else 10 * Pow10(n - 1)
  }

  lemma {:induction false} Pow10Add(m: nat, n: nat)
    ensures Pow10(m + n) == Pow10(m) * Pow10(n)
    decreases n
  {
    if n > 0 {
      Pow10Add(m, n - 1);
      assert Pow10(m + n) == 10 * Pow10(m + n - 1);
      assert Pow10(m) * Pow10(n) == Pow10(m) * (10 * Pow10(n - 1));
    }
  }

  /** The value of a digit string read most significant digit first; a
      string of `k` digits denotes a number below `10^k`. */
  function ParseDigits(s: string): (n: nat)
    requires AllDigits(s)
    ensures n < Pow10(|s|)
  {
    if |s| == 0 then 0
    else ParseDigits(s[..|s| - 1]) * 10 + DigitValue(s[|s| - 1])
  }

  lemma ParseDigitsSnoc(s: string, c: char)
    requires AllDigits(s) && IsDigit(c)
    ensures AllDigits(s + [c])
    ensures ParseDigits(s + [c]) == ParseDigits(s) * 10 + DigitValue(c)
  {
    assert (s + [c])[..|s|] == s;
  }

  /** Reading a concatenation: the left part is shifted by the length of
      the right one. */
  lemma {:induction false} ParseDigitsAppend(a: string, b: string)
    requires AllDigits(a) && AllDigits(b)
    ensures AllDigits(a + b)
    ensures ParseDigits(a + b) == ParseDigits(a) * Pow10(|b|) + ParseDigits(b)
    decreases |b|
  {
    if |b| == 0 {
      assert a + b == a;
    } else {
      var b' := b[..|b| - 1];
      var c := b[|b| - 1];
      assert b == b' + [c];
      assert a + b == (a + b') + [c];
      ParseDigitsAppend(a, b');
      ParseDigitsSnoc(a + b', c);
      ParseDigitsSnoc(b', c);
      var pa, pb := ParseDigits(a), ParseDigits(b');
      ShiftDistributes(pa, Pow10(|b'|), pb);
      assert Pow10(|b|) == Pow10(|b'|) * 10;
    }
  }

  lemma ShiftDistributes(x: int, y: int, z: int)
    ensures (x * y + z) * 10 == x * (y * 10) + z * 10
  {
  }

  /** Python's `str(n)`: the shortest digit string denoting `n`. */
  function ToDigits(n: nat): (s: string)
    ensures |s| >= 1 && AllDigits(s)
    ensures ParseDigits(s) == n
    ensures s[0] == '0' ==> n == 0 && |s| == 1
  {
    if n < 10 then [DigitChar(n)]
    else
      var s := ToDigits(n / 10);
      ParseDigitsSnoc(s, DigitChar(n % 10));
      s + [DigitChar(n % 10)]
  }

  /** `n` written with exactly `w` digits, padded with leading zeros (the
      `%0wd` format). */
  function PadDigits(n: nat, w: nat): (s: string)
    requires n < Pow10(w)
    ensures |s| == w && AllDigits(s)
    ensures ParseDigits(s) == n
  {
    if w == 0 then ""
    else
      var s := PadDigits(n / 10, w - 1);
      ParseDigitsSnoc(s, DigitChar(n % 10));
      s + [DigitChar(n % 10)]
  }

  /** A digit string without a superfluous leading zero is the one
      `ToDigits` produces: the two form a bijection. */
  lemma {:induction false} ToDigitsParse(s: string)
    requires |s| >= 1 && AllDigits(s)
    requires s[0] == '0' ==> |s| == 1
    ensures ToDigits(ParseDigits(s)) == s
    decreases |s|
  {
    if |s| > 1 {
      var p := s[..|s| - 1];
      var c := s[|s| - 1];
      assert s == p + [c];
      ToDigitsParse(p);
      LeadingDigitBound(p);
      var n := ParseDigits(s);
      assert n == ParseDigits(p) * 10 + DigitValue(c);
      assert n / 10 == ParseDigits(p) && n % 10 == DigitValue(c);
    }
  }

  /** A digit string with a non-zero first digit is at least `1`. */
  lemma {:induction false} LeadingDigitBound(s: string)
    requires |s| >= 1 && AllDigits(s) && s[0] != '0'
    ensures ParseDigits(s) >= 1
    decreases |s|
  {
    if |s| > 1 {
      LeadingDigitBound(s[..|s| - 1]);
    }
  }
}
