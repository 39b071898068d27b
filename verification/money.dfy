/** The money cleaner `convertir_monto`: delete every `$`, every `,` and
    every `.00` (in that order), strip surrounding whitespace, and read what
    is left as a number. */
module Money {

  import opened Wrappers
  import opened StringOps
  import opened Digits
  import opened Decimals
  import opened Cells
  import Seqs

  /** The text `convertir_monto` hands to `float`: every `$` deleted, then
      every `,`, then every `.00` in one pass, then surrounding whitespace
      trimmed. */
  function CleanAmountText(s: string): (r: string)
    ensures '$' !in r && ',' !in r
    ensures r == [] || (!IsSpace(r[0]) && !IsSpace(r[|r| - 1]))
    ensures |r| <= |s|
  {
    var noDollar := DeleteChar(s, '$');
    var noComma := DeleteChar(noDollar, ',');
    var noCents := DeleteAll(noComma, ".00");
    var r := Strip(noCents);
    DeleteCharMembers(noDollar, ',', '$');
    DeleteCharMembers(s, '$', '$');
    DeleteAllAbsentChar(noComma, ".00", '$');
    DeleteAllAbsentChar(noComma, ".00", ',');
    StripMembers(noCents, '$');
    StripMembers(noCents, ',');
    DeleteAllSubsequence(noComma, ".00");
    Seqs.SubsequenceLength(noCents, noComma);
    r
  }

  /** Every character the cleaner has no reason to delete survives it: one
      that is not whitespace, `$`, `,`, `.` or `0`. */
  lemma CleanAmountKeeps(s: string)
    ensures forall x :: x in s && !IsSpace(x) && x !in "$,.0" ==> x in CleanAmountText(s)
  {
    var noDollar := DeleteChar(s, '$');
    var noComma := DeleteChar(noDollar, ',');
    var noCents := DeleteAll(noComma, ".00");
    forall x | x in s && !IsSpace(x) && x !in "$,.0"
      ensures x in Strip(noCents)
    {
      DeleteCharMembers(s, '$', x);
      DeleteCharMembers(noDollar, ',', x);
      DeleteAllKeeps(noComma, ".00", x);
      StripMembers(noCents, x);
    }
  }

  /** The cleaner only deletes: what it hands on keeps the order of the
      characters it came from. */
  lemma CleanAmountSubsequence(s: string)
    ensures Seqs.IsSubsequence(CleanAmountText(s), s)
  {
    var noDollar := DeleteChar(s, '$');
    var noComma := DeleteChar(noDollar, ',');
    var noCents := DeleteAll(noComma, ".00");
    DeleteCharSubsequence(s, '$');
    DeleteCharSubsequence(noDollar, ',');
    DeleteAllSubsequence(noComma, ".00");
    StripSubsequence(noCents);
    Seqs.SubsequenceTransitive(noComma, noDollar, s);
    Seqs.SubsequenceTransitive(noCents, noComma, s);
    Seqs.SubsequenceTransitive(Strip(noCents), noCents, s);
  }

  /** Padding around an amount: whitespace, currency signs and thousands
      separators, all of which the cleaner throws away. */
  predicate IsPadding(a: string) {
    forall i :: 0 <= i < |a| ==> IsSpace(a[i]) || a[i] == '$' || a[i] == ','
  }

  lemma PaddingVanishes(a: string)
    requires IsPadding(a)
    ensures AllSpace(DeleteChar(DeleteChar(a, '$'), ','))
  {
    var w := DeleteChar(DeleteChar(a, '$'), ',');
    forall i | 0 <= i < |w|
      ensures IsSpace(w[i])
    {
      DeleteCharMembers(DeleteChar(a, '$'), ',', w[i]);
      DeleteCharMembers(a, '$', w[i]);
    }
  }

  /** Whitespace, `$` and `,` around an amount are gone before it is read:
      the cleaned text is the same with or without them, so `" $1,234.00 "`
      and `"$ 500.50"` clean like `"1,234.00"` and `"500.50"`. */
  lemma CleanPadded(a: string, t: string, b: string)
    requires IsPadding(a) && IsPadding(b)
    ensures CleanAmountText(a + t + b) == CleanAmountText(t)
  {
    var a2 := DeleteChar(DeleteChar(a, '$'), ',');
    var b2 := DeleteChar(DeleteChar(b, '$'), ',');
    var t2 := DeleteChar(DeleteChar(t, '$'), ',');
    assert DeleteChar(DeleteChar(a + t + b, '$'), ',') == a2 + t2 + b2 by {
      DeleteCharAppend(a + t, b, '$');
      DeleteCharAppend(a, t, '$');
      DeleteCharAppend(DeleteChar(a, '$') + DeleteChar(t, '$'), DeleteChar(b, '$'), ',');
      DeleteCharAppend(DeleteChar(a, '$'), DeleteChar(t, '$'), ',');
    }
    PaddingVanishes(a);
    PaddingVanishes(b);
    var t3 := DeleteAll(t2, ".00");
    assert DeleteAll(a2 + t2 + b2, ".00") == a2 + t3 + b2 by {
      assert '.' !in a2 by {
        assert forall i :: 0 <= i < |a2| ==> IsSpace(a2[i]);
      }
      assert a2 + t2 + b2 == a2 + (t2 + b2);
      DeleteAllSkip(a2, t2 + b2, ".00");
      assert forall k :: 0 <= k < |b2| ==> b2[k] !in ".00" by {
        assert forall k :: 0 <= k < |b2| ==> IsSpace(b2[k]);
      }
      DeleteAllTail(t2, b2, ".00");
    }
    StripPadded(a2, t3, b2);
  }

  /** So padding changes nothing about the number read, only the text an
      error reports. */
  lemma AmountPadded(a: string, t: string, b: string)
    requires IsPadding(a) && IsPadding(b)
    ensures ConvertAmount(Text(a + t + b)).Ok? <==> ConvertAmount(Text(t)).Ok?
    ensures ConvertAmount(Text(a + t + b)).Ok? ==> ConvertAmount(Text(a + t + b)) == ConvertAmount(Text(t))
  {
    CleanPadded(a, t, b);
  }

  /** Spaces around an amount drop out. */
  lemma PaddedThousands()
    ensures ConvertAmount(Text(" $1,234.00 ")) == Ok(Number(Decimal(1234, 0)))
  {
    ThousandsWithZeroCents();
    PaddedThousandsText();
    AmountPadded(" ", "$1,234.00", " ");
  }

  lemma PaddedThousandsText()
    ensures " " + "$1,234.00" + " " == " $1,234.00 "
  {
  }

  /** A space between `$` and the digits drops out. */
  lemma SpacedDollar()
    ensures ConvertAmount(Text("$ 500.50")) == Ok(Number(Decimal(5005, 1)))
  {
    KeepsCents();
    SpacedDollarTexts();
    AmountPadded("$", "500.50", "");
    AmountPadded("$ ", "500.50", "");
  }

  lemma SpacedDollarTexts()
    ensures "$" + "500.50" + "" == "$500.50"
    ensures "$ " + "500.50" + "" == "$ 500.50"
  {
  }

  /** `convertir_monto` on a cell: text is cleaned and read as a number,
      aborting when it is not one; anything else is returned as it is. */
  function ConvertAmount(c: Cell): (r: Result<Cell, Error>)
    ensures !c.Text? ==> r == Ok(c)
    ensures c.Text? && r.Ok? ==> r.value.Number? && Canonical(r.value.amount)
    ensures c.Text? && r.Err? ==> r.error == AmountNotNumeric(c.text)
    ensures c.Text? && CleanAmountText(c.text) == [] ==> r.Err?
  {
    match c
    case Text(s) =>
      (match ParseDecimal(CleanAmountText(s))
       case Some(d) => Ok(Number(d))
       case None => Err(AmountNotNumeric(s)))
    case _ => Ok(c)
  }

  /** Amount text before cleaning: digits, thousands separators and
      currency signs. */
  predicate IsAmountDigits(d: string) {
    forall i :: 0 <= i < |d| ==> IsDigit(d[i]) || d[i] == ',' || d[i] == '$'
  }

  /** The digits left once `$` and `,` are deleted. */
  function BareDigits(d: string): (w: string)
    requires IsAmountDigits(d)
    ensures AllDigits(w) && '.' !in w
  {
    var w := DeleteChar(DeleteChar(d, '$'), ',');
    forall i | 0 <= i < |w|
      ensures IsDigit(w[i])
    {
      DeleteCharMembers(DeleteChar(d, '$'), ',', w[i]);
      DeleteCharMembers(d, '$', w[i]);
    }
    NoSeparatorsInDigits(w);
    w
  }

  lemma NoDollarOrComma(s: string)
    requires AllDigits(s)
    ensures DeleteChar("." + s, '$') == "." + s
    ensures DeleteChar("." + s, ',') == "." + s
  {
    assert forall i :: 0 <= i < |"." + s| ==> ("." + s)[i] != '$' && ("." + s)[i] != ',';
    DeleteCharAbsent("." + s, '$');
    DeleteCharAbsent("." + s, ',');
  }

  /** The `.00` pass over the fractional part: it deletes the point and the
      first two fractional digits when those are `00`, and nothing else. */
  lemma DeleteCentsFraction(f: string)
    requires AllDigits(f)
    ensures DeleteAll("." + f, ".00") ==
      if |f| >= 2 && f[..2] == "00" then f[2..] else "." + f
  {
    if |f| >= 2 && f[..2] == "00" {
      DeleteLeadingCents(f);
    } else {
      KeepPointWithoutCents(f);
    }
  }

  lemma DeleteLeadingCents(f: string)
    requires AllDigits(f) && |f| >= 2 && f[..2] == "00"
    ensures DeleteAll("." + f, ".00") == f[2..]
  {
    var rest := f[2..];
    assert "." + f == ".00" + rest;
    DeleteAllLeadingMatch(rest, ".00");
    assert AllDigits(rest);
    NoSeparatorsInDigits(rest);
    DeleteAllSkip(rest, "", ".00");
    assert rest + "" == rest;
  }

  lemma KeepPointWithoutCents(f: string)
    requires AllDigits(f) && !(|f| >= 2 && f[..2] == "00")
    ensures DeleteAll("." + f, ".00") == "." + f
  {
    var s := "." + f;
    if |s| >= 3 {
      assert s[..3][1..] == f[..2];
      assert s[..3] != ".00";
      NoSeparatorsInDigits(f);
      DeleteAllSkip(f, "", ".00");
      assert f + "" == f;
      assert s[1..] == f;
    }
  }

  lemma NoSpaceIn(s: string)
    requires forall i :: 0 <= i < |s| ==> IsDigit(s[i]) || s[i] == '.'
    ensures Strip(s) == s
  {
    StripUnpadded(s);
  }

  lemma DeleteSymbols(d: string, f: string)
    requires IsAmountDigits(d) && AllDigits(f)
    ensures DeleteChar(DeleteChar(d + "." + f, '$'), ',') == BareDigits(d) + ("." + f)
  {
    var d1 := DeleteChar(d, '$');
    assert d + "." + f == d + ("." + f);
    DeleteCharAppend(d, "." + f, '$');
    NoDollarOrComma(f);
    DeleteCharAppend(d1, "." + f, ',');
  }

  lemma DeleteCentsAfterDigits(w: string, f: string)
    requires AllDigits(w) && AllDigits(f)
    ensures DeleteAll(w + ("." + f), ".00") ==
      if |f| >= 2 && f[..2] == "00" then w + f[2..] else w + "." + f
  {
    NoSeparatorsInDigits(w);
    DeleteAllSkip(w, "." + f, ".00");
    DeleteCentsFraction(f);
  }

  /** Cleaning an amount with one decimal point: `$` and `,` vanish, and the
      point and the first two fractional digits vanish too when those
      digits are `00`, wherever the point stands. */
  lemma CleanOnePoint(d: string, f: string)
    requires IsAmountDigits(d) && AllDigits(f)
    ensures CleanAmountText(d + "." + f) ==
      if |f| >= 2 && f[..2] == "00" then BareDigits(d) + f[2..] else BareDigits(d) + "." + f
  {
    var w := BareDigits(d);
    var cleaned := if |f| >= 2 && f[..2] == "00" then w + f[2..] else w + "." + f;
    assert DeleteAll(DeleteChar(DeleteChar(d + "." + f, '$'), ','), ".00") == cleaned by {
      DeleteSymbols(d, f);
      DeleteCentsAfterDigits(w, f);
    }
    assert forall i :: 0 <= i < |cleaned| ==> IsDigit(cleaned[i]) || cleaned[i] == '.' by {
      assert forall i :: 0 <= i < |w| ==> IsDigit(w[i]);
      assert forall i :: 0 <= i < |f| ==> IsDigit(f[i]);
    }
    NoSpaceIn(cleaned);
  }

  /** Cleaning an amount without a decimal point keeps only its digits. */
  lemma CleanNoPoint(d: string)
    requires IsAmountDigits(d)
    ensures CleanAmountText(d) == BareDigits(d)
  {
    var w := BareDigits(d);
    DeleteAllSkip(w, "", ".00");
    assert w + "" == w;
    assert forall i :: 0 <= i < |w| ==> IsDigit(w[i]);
    NoSpaceIn(w);
  }

  /** A whole amount: its digits read as an integer. */
  lemma AmountWhole(d: string)
    requires IsAmountDigits(d) && |BareDigits(d)| >= 1
    ensures ConvertAmount(Text(d)) == Ok(Number(Decimal(ParseDigits(BareDigits(d)), 0)))
  {
    CleanNoPoint(d);
    ReadDigits(BareDigits(d));
  }

  /** Reading digits that contain no sign. */
  lemma ReadDigits(g: string)
    requires |g| >= 1 && AllDigits(g)
    ensures ParseDecimal(g) == Some(Decimal(ParseDigits(g), 0))
  {
    ParseMagnitudeDigits(g);
    ParseSigned(false, g);
    assert SignText(false) + g == g;
  }

  lemma ReadPoint(w: string, f: string)
    requires AllDigits(w) && AllDigits(f) && |w| + |f| >= 1
    ensures ParseDecimal(w + "." + f) == Some(Canonicalize(Decimal(ParseDigits(w + f), |f|)))
  {
    var g := w + "." + f;
    ParseMagnitudePoint(w, f);
    assert !IsSign(g[0]) by {
      if |w| > 0 {
        assert g[0] == w[0];
      } else {
        assert g[0] == '.';
      }
    }
    ParseSigned(false, g);
    assert SignText(false) + g == g;
  }

  /** Converting text whose cleaned form is known. */
  lemma ReadCleaned(s: string, t: string, v: Option<Decimal>)
    requires CleanAmountText(s) == t && ParseDecimal(t) == v
    ensures ConvertAmount(Text(s)) == if v.Some? then Ok(Number(v.value)) else Err(AmountNotNumeric(s))
  {
  }

  lemma AmountZeroCents(d: string, f: string)
    requires IsAmountDigits(d) && AllDigits(f) && |f| >= 2 && f[..2] == "00"
    ensures var g := BareDigits(d) + f[2..];
      ConvertAmount(Text(d + "." + f)) ==
        if |g| >= 1 then Ok(Number(Decimal(ParseDigits(g), 0))) else Err(AmountNotNumeric(d + "." + f))
  {
    var g := BareDigits(d) + f[2..];
    assert CleanAmountText(d + "." + f) == g by {
      CleanOnePoint(d, f);
    }
    if |g| >= 1 {
      assert ParseDecimal(g) == Some(Decimal(ParseDigits(g), 0)) by {
        assert forall i :: 0 <= i < |f[2..]| ==> IsDigit(f[2..][i]);
        ReadDigits(g);
      }
      ReadCleaned(d + "." + f, g, Some(Decimal(ParseDigits(g), 0)));
    } else {
      assert ParseDecimal(g) == None by {
        assert g == [];
      }
      ReadCleaned(d + "." + f, g, None);
    }
  }

  lemma AmountOtherCents(d: string, f: string)
    requires IsAmountDigits(d) && AllDigits(f) && !(|f| >= 2 && f[..2] == "00")
    ensures var w := BareDigits(d);
      ConvertAmount(Text(d + "." + f)) ==
        if |w| + |f| >= 1 then Ok(Number(Canonicalize(Decimal(ParseDigits(w + f), |f|))))
        else Err(AmountNotNumeric(d + "." + f))
  {
    var w := BareDigits(d);
    CleanOnePoint(d, f);
    ReadKeptPoint(d + "." + f, w, f);
  }

  lemma ReadKeptPoint(s: string, w: string, f: string)
    requires AllDigits(w) && AllDigits(f) && CleanAmountText(s) == w + "." + f
    ensures ConvertAmount(Text(s)) ==
      if |w| + |f| >= 1 then Ok(Number(Canonicalize(Decimal(ParseDigits(w + f), |f|))))
      else Err(AmountNotNumeric(s))
  {
    var t := w + "." + f;
    if |w| + |f| >= 1 {
      var v := Canonicalize(Decimal(ParseDigits(w + f), |f|));
      ReadPoint(w, f);
      ReadCleaned(s, t, Some(v));
    } else {
      assert t == ".";
      LonePoint();
      ReadCleaned(s, t, None);
    }
  }

  /** An amount with a decimal point. When the fractional digits start
      with `00` those two digits and the point are deleted and the rest is
      read as part of the integer, so `1.005` reads as 15; otherwise the
      amount is read exactly, so `500.50` reads as 500.5. */
  lemma AmountOnePoint(d: string, f: string)
    requires IsAmountDigits(d) && AllDigits(f)
    ensures var w := BareDigits(d);
      ConvertAmount(Text(d + "." + f)) ==
        if |f| >= 2 && f[..2] == "00" then
          (if |w| + |f| > 2 then Ok(Number(Decimal(ParseDigits(w + f[2..]), 0)))
           else Err(AmountNotNumeric(d + "." + f)))
        else if |w| + |f| >= 1 then Ok(Number(Canonicalize(Decimal(ParseDigits(w + f), |f|))))
        else Err(AmountNotNumeric(d + "." + f))
  {
    if |f| >= 2 && f[..2] == "00" {
      AmountZeroCents(d, f);
    } else {
      AmountOtherCents(d, f);
    }
  }

  /** A decimal point without digits is not a number. */
  lemma LonePoint()
    ensures ParseDecimal(".") == None
  {
    SplitFirst("", '.', "");
    assert "" + ['.'] + "" == ".";
  }

  /** Thousands separators, the currency sign and zero cents all vanish. */
  lemma ThousandsWithZeroCents()
    ensures ConvertAmount(Text("$1,234.00")) == Ok(Number(Decimal(1234, 0)))
  {
    assert "$1,234.00" == "$1,234" + "." + "00";
    ThousandsDigits();
    assert "1234" + "00"[2..] == "1234";
    AmountZeroCents("$1,234", "00");
  }

  lemma ThousandsDigits()
    ensures BareDigits("$1,234") == "1234"
    ensures ParseDigits("1234") == 1234
  {
    assert DeleteChar("$1,234", '$') == "1,234";
    assert DeleteChar("1,234", ',') == "1234";
    ReadsThousands();
  }

  lemma ReadsThousands()
    ensures ParseDigits("1234") == 1234
  {
    ParseDigitsSnoc("", '1'); assert "" + ['1'] == "1";
    ParseDigitsSnoc("1", '2'); assert "1" + ['2'] == "12";
    ParseDigitsSnoc("12", '3'); assert "12" + ['3'] == "123";
    ParseDigitsSnoc("123", '4'); assert "123" + ['4'] == "1234";
  }

  /** Non-zero cents are kept. */
  lemma KeepsCents()
    ensures ConvertAmount(Text("$500.50")) == Ok(Number(Decimal(5005, 1)))
  {
    assert "$500.50" == "$500" + "." + "50";
    assert BareDigits("$500") == "500";
    ReadsCents();
    assert "500" + "50" == "50050";
    AmountOtherCents("$500", "50");
  }

  lemma ReadsCents()
    ensures ParseDigits("50050") == 50050
    ensures Canonicalize(Decimal(50050, 2)) == Decimal(5005, 1)
  {
    ParseDigitsSnoc("", '5'); assert "" + ['5'] == "5";
    ParseDigitsSnoc("5", '0'); assert "5" + ['0'] == "50";
    ParseDigitsSnoc("50", '0'); assert "50" + ['0'] == "500";
    ParseDigitsSnoc("500", '5'); assert "500" + ['5'] == "5005";
    ParseDigitsSnoc("5005", '0'); assert "5005" + ['0'] == "50050";
  }

  /** A `.00` inside the fraction is deleted too, so `1.005` reads as 15. */
  lemma InnerCentsDeleted()
    ensures ConvertAmount(Text("1.005")) == Ok(Number(Decimal(15, 0)))
  {
    assert "1.005" == "1" + "." + "005";
    assert BareDigits("1") == "1";
    assert "1" + "005"[2..] == "15";
    assert ParseDigits("15") == 15;
    AmountZeroCents("1", "005");
  }

  /** Commas go before `.00` is looked for, so a `.00` that only forms once
      a comma is gone is deleted as well: `7.0,0` reads as 7. */
  lemma CommaFormsCents()
    ensures ConvertAmount(Text("7.0,0")) == Ok(Number(Decimal(7, 0)))
  {
    CommaFormsCentsText();
    ReadSeven();
    ReadCleaned("7.0,0", "7", Some(Decimal(7, 0)));
  }

  lemma CommaFormsCentsText()
    ensures CleanAmountText("7.0,0") == "7"
  {
    DeleteCharAbsent("7.0,0", '$');
    CommaFormsCentsDeleted();
    assert DeleteAll("7.00", ".00") == "7" by {
      assert "7.00"[1..] == ".00";
      assert DeleteAll(".00", ".00") == "";
    }
    assert Strip("7") == "7" by {
      StripUnpadded("7");
    }
  }

  lemma CommaFormsCentsDeleted()
    ensures DeleteChar("7.0,0", ',') == "7.00"
  {
    assert "7.0,0" == ['7'] + ".0,0";
    assert ".0,0" == ['.'] + "0,0";
    assert "0,0" == ['0'] + ",0";
    assert ",0" == [','] + "0";
    assert DeleteChar("0", ',') == "0";
  }

  lemma ReadSeven()
    ensures ParseDecimal("7") == Some(Decimal(7, 0))
  {
    ParseDigitsSnoc("", '7');
    assert "" + ['7'] == "7";
    ParseMagnitudeDigits("7");
  }

  /** A minus sign survives the cleaning and `float` keeps it, so a
      negative amount is accepted with its sign. */
  lemma NegativeAmount()
    ensures ConvertAmount(Text("-5")) == Ok(Number(Decimal(-5, 0)))
  {
    NegativeAmountText();
    ReadDigits("5");
    ParseSigned(true, "5");
    assert SignText(true) + "5" == "-5";
    ReadCleaned("-5", "-5", Some(Decimal(-5, 0)));
  }

  lemma NegativeAmountText()
    ensures CleanAmountText("-5") == "-5"
  {
    DeleteCharAbsent("-5", '$');
    DeleteCharAbsent("-5", ',');
    StripUnpadded("-5");
  }

  /** Empty text is not a number. */
  lemma EmptyAmount()
    ensures ConvertAmount(Text("")) == Err(AmountNotNumeric(""))
  {
    assert CleanAmountText("") == "";
  }

  /** A printable ASCII character that is no digit, letter, underscore,
      point, sign, currency sign or thousands separator survives cleaning
      and makes the amount unreadable; `float` accepts no such character
      anywhere in its argument. */
  lemma AmountRejectsForeignChar(s: string, x: char)
    requires x in s && '!' <= x <= '~' && !IsDigit(x) && x !in ".$,+-_"
    requires !('a' <= x <= 'z') && !('A' <= x <= 'Z')
    ensures ConvertAmount(Text(s)) == Err(AmountNotNumeric(s))
  {
    var once := DeleteChar(s, '$');
    var twice := DeleteChar(once, ',');
    var t := CleanAmountText(s);
    DeleteCharMembers(s, '$', x);
    DeleteCharMembers(once, ',', x);
    DeleteAllKeeps(twice, ".00", x);
    StripMembers(DeleteAll(twice, ".00"), x);
    var i :| 0 <= i < |t| && t[i] == x;
    ParseDecimalRejects(t, i);
  }

  /** Deleting `.00` is one left-to-right pass: a `.00` formed by the
      deletion itself survives. */
  lemma CentsSinglePass()
    ensures DeleteAll(".0.000", ".00") == ".00"
  {
    assert DeleteAll("0", ".00") == "0";
    assert DeleteAll(".000", ".00") == "0" by {
      assert ".000"[..3] == ".00" && ".000"[3..] == "0";
    }
    assert DeleteAll("0.000", ".00") == "00" by {
      DeleteAllCons('0', ".000", ".00");
      assert "0.000" == ['0'] + ".000";
      assert ['0'] + "0" == "00";
    }
    assert ".0.000"[..3][2] != ".00"[2];
    assert ".0.000"[1..] == "0.000";
    assert ['.'] + "00" == ".00";
  }
}
