/** The date converter `convertir_fecha`: split the text on `/`, put the
    three fields in year-month-day order (the first field is the year when
    it is longer than two characters, the day otherwise), and read the
    result as an ISO date. */
module DateParse {

  import opened Wrappers
  import opened StringOps
  import opened Digits
  import opened Calendar
  import opened Cells

  /** The earliest and latest calendar days a pandas `Timestamp` (64-bit
      nanoseconds around 1970) holds at midnight. */
  const FirstTimestampDay := Date(1677, 9, 22)
  const LastTimestampDay := Date(2262, 4, 11)

  /** Calendar order on dates. */
  predicate NotAfter(a: Date, b: Date) {
    a.year < b.year
    || (a.year == b.year && (a.month < b.month || (a.month == b.month && a.day <= b.day)))
  }

  /** A date `pd.to_datetime` can return. */
  predicate Representable(d: Date) {
    ValidDate(d) && NotAfter(FirstTimestampDay, d) && NotAfter(d, LastTimestampDay)
  }

  /** The year, month and day taken from the `/`-separated fields and
      joined with `-`, or `None` when there are not exactly three fields to
      unpack. */
  function ReorderFields(s: string): (r: Option<string>)
    ensures r.Some? <==> |Split(s, '/')| == 3
    ensures r.Some? ==> '/' !in r.value
  {
    var parts := Split(s, '/');
    if |parts| != 3 then None
    else if |parts[0]| > 2 then Some(parts[0] + "-" + parts[1] + "-" + parts[2])
    else Some(parts[2] + "-" + parts[1] + "-" + parts[0])
  }

  /** Three fields joined with `/` are put in year-month-day order, the
      first one read as the year exactly when it is longer than two
      characters. */
  lemma ReorderBranches(a: string, b: string, c: string)
    requires '/' !in a && '/' !in b && '/' !in c
    ensures ReorderFields(a + "/" + b + "/" + c) ==
      Some(if |a| > 2 then a + "-" + b + "-" + c else c + "-" + b + "-" + a)
  {
    SplitThree(a, b, c, '/');
  }

  /** Whenever the fields are reordered, the text was exactly three fields
      joined with `/`. */
  lemma ReorderedText(s: string)
    requires ReorderFields(s).Some?
    ensures var p := Split(s, '/'); s == p[0] + "/" + p[1] + "/" + p[2]
  {
    var p := Split(s, '/');
    JoinSplit(s, '/');
    assert Join(p, '/') == p[0] + "/" + Join(p[1..], '/');
    assert Join(p[1..], '/') == p[1] + "/" + Join(p[2..], '/');
  }

  /** A date field: one or two digits for the month and day, four for the
      year. */
  predicate DateField(f: string, lo: nat, hi: nat) {
    lo <= |f| <= hi && AllDigits(f)
  }

  /** Three `-`-separated fields: a four-digit year, then a month and a
      day of one or two digits. */
  predicate IsoFields(q: seq<string>) {
    |q| == 3 && DateField(q[0], 4, 4) && DateField(q[1], 1, 2) && DateField(q[2], 1, 2)
  }

  /** The date the fields name, which need not exist. */
  function FieldsDate(q: seq<string>): Date
    requires IsoFields(q)
  {
    Date(ParseDigits(q[0]), ParseDigits(q[1]), ParseDigits(q[2]))
  }

  /** `pd.to_datetime` on `year-month-day` text: accepted exactly when the
      fields name a day that exists and a timestamp can hold, and then
      read as that day. */
  function ParseIsoDate(t: string): (r: Option<Date>)
    ensures r.Some? ==> Representable(r.value)
    ensures r.Some? ==> |Split(t, '-')| == 3
    ensures r.Some? <==> IsoFields(Split(t, '-')) && Representable(FieldsDate(Split(t, '-')))
    ensures r.Some? ==> r.value == FieldsDate(Split(t, '-'))
  {
    var q := Split(t, '-');
    if |q| != 3 then None
    else if !(DateField(q[0], 4, 4) && DateField(q[1], 1, 2) && DateField(q[2], 1, 2)) then None
    else
      var d := Date(ParseDigits(q[0]), ParseDigits(q[1]), ParseDigits(q[2]));
      if Representable(d) then Some(d) else None
  }

  /** `convertir_fecha` on a cell. Text becomes a timestamp or aborts the
      run; anything else has no `split` and aborts it too. */
  function ConvertDate(c: Cell): (r: Result<Cell, Error>)
    ensures r.Ok? ==> c.Text? && r.value.Timestamp? && Representable(r.value.date)
    ensures !c.Text? ==> r == Err(DateNotText(c))
    ensures c.Text? && r.Err? ==> r.error == DateMalformed(c.text)
    ensures c.Text? && |Split(c.text, '/')| != 3 ==> r == Err(DateMalformed(c.text))
  {
    match c
    case Text(s) =>
      (match ReorderFields(s)
       case None => Err(DateMalformed(s))
       case Some(iso) =>
         (match ParseIsoDate(iso)
          case None => Err(DateMalformed(s))
          case Some(d) => Ok(Timestamp(d))))
    case _ => Err(DateNotText(c))
  }

  lemma DigitsHaveNoSeparator(f: string)
    requires AllDigits(f)
    ensures '/' !in f && '-' !in f
  {
    assert forall i :: 0 <= i < |f| ==> IsDigit(f[i]);
  }

  lemma Pow10Small()
    ensures Pow10(2) == 100 && Pow10(4) == 10000
  {
    assert Pow10(1) == 10;
    assert Pow10(3) == 1000;
  }

  /** The two-digit day, the two-digit month and the four-digit year. */
  function DayText(d: Date): (t: string)
    requires ValidDate(d)
    ensures |t| == 2 && AllDigits(t) && ParseDigits(t) == d.day
  {
    Pow10Small();
    PadDigits(d.day, 2)
  }

  function MonthText(d: Date): (t: string)
    requires ValidDate(d)
    ensures |t| == 2 && AllDigits(t) && ParseDigits(t) == d.month
  {
    Pow10Small();
    PadDigits(d.month, 2)
  }

  function YearText(d: Date): (t: string)
    requires ValidDate(d)
    ensures |t| == 4 && AllDigits(t) && ParseDigits(t) == d.year
  {
    Pow10Small();
    PadDigits(d.year, 4)
  }

  /** The layouts found in the input: `dd/mm/yyyy` and `yyyy/mm/dd`, and
      the ISO layout `yyyy-mm-dd` a timestamp is written back as. */
  function DayFirst(d: Date): string
    requires ValidDate(d)
  {
    DayText(d) + "/" + MonthText(d) + "/" + YearText(d)
  }

  function YearFirst(d: Date): string
    requires ValidDate(d)
  {
    YearText(d) + "/" + MonthText(d) + "/" + DayText(d)
  }

  function IsoText(d: Date): string
    requires ValidDate(d)
  {
    YearText(d) + "-" + MonthText(d) + "-" + DayText(d)
  }

  /** Reading ISO text gives back the date it was written from. */
  lemma IsoRoundTrip(d: Date)
    requires Representable(d)
    ensures ParseIsoDate(IsoText(d)) == Some(d)
  {
    DigitsHaveNoSeparator(YearText(d));
    DigitsHaveNoSeparator(MonthText(d));
    DigitsHaveNoSeparator(DayText(d));
    SplitThree(YearText(d), MonthText(d), DayText(d), '-');
  }

  /** A day-first date converts to the date it was written from. */
  lemma DayFirstRoundTrip(d: Date)
    requires Representable(d)
    ensures ConvertDate(Text(DayFirst(d))) == Ok(Timestamp(d))
  {
    DigitsHaveNoSeparator(YearText(d));
    DigitsHaveNoSeparator(MonthText(d));
    DigitsHaveNoSeparator(DayText(d));
    ReorderBranches(DayText(d), MonthText(d), YearText(d));
    IsoRoundTrip(d);
  }

  /** A year-first date converts to the date it was written from. */
  lemma YearFirstRoundTrip(d: Date)
    requires Representable(d)
    ensures ConvertDate(Text(YearFirst(d))) == Ok(Timestamp(d))
  {
    DigitsHaveNoSeparator(YearText(d));
    DigitsHaveNoSeparator(MonthText(d));
    DigitsHaveNoSeparator(DayText(d));
    ReorderBranches(YearText(d), MonthText(d), DayText(d));
    IsoRoundTrip(d);
  }

  /** Writing the same fields day first or year first makes no
      difference to the converted value. */
  lemma LayoutsAgree(day: string, month: string, year: string)
    requires '/' !in day && '/' !in month && '/' !in year
    requires |day| <= 2 < |year|
    ensures ConvertDate(Text(day + "/" + month + "/" + year)).Ok?
        <==> ConvertDate(Text(year + "/" + month + "/" + day)).Ok?
    ensures ConvertDate(Text(day + "/" + month + "/" + year)).Ok? ==>
      ConvertDate(Text(day + "/" + month + "/" + year)) == ConvertDate(Text(year + "/" + month + "/" + day))
  {
    ReorderBranches(day, month, year);
    ReorderBranches(year, month, day);
  }

  /** A day-first text of well-formed fields converts exactly when the
      day it names exists and a timestamp can hold it; any other day
      aborts the run. */
  lemma DayFirstFields(day: string, month: string, year: string)
    requires DateField(day, 1, 2) && DateField(month, 1, 2) && DateField(year, 4, 4)
    ensures var t := day + "/" + month + "/" + year;
      var d := Date(ParseDigits(year), ParseDigits(month), ParseDigits(day));
      ConvertDate(Text(t)) == if Representable(d) then Ok(Timestamp(d)) else Err(DateMalformed(t))
  {
    DigitsHaveNoSeparator(day);
    DigitsHaveNoSeparator(month);
    DigitsHaveNoSeparator(year);
    ReorderBranches(day, month, year);
    SplitThree(year, month, day, '-');
  }

  /** The same for a year-first text. */
  lemma YearFirstFields(year: string, month: string, day: string)
    requires DateField(day, 1, 2) && DateField(month, 1, 2) && DateField(year, 4, 4)
    ensures var t := year + "/" + month + "/" + day;
      var d := Date(ParseDigits(year), ParseDigits(month), ParseDigits(day));
      ConvertDate(Text(t)) == if Representable(d) then Ok(Timestamp(d)) else Err(DateMalformed(t))
  {
    DigitsHaveNoSeparator(day);
    DigitsHaveNoSeparator(month);
    DigitsHaveNoSeparator(year);
    ReorderBranches(year, month, day);
    SplitThree(year, month, day, '-');
  }

  /** Days that do not exist abort the run: 31 April, and 29 February of
      a year that is not a leap year. */
  lemma NonexistentDays()
    ensures ConvertDate(Text("31/04/2020")) == Err(DateMalformed("31/04/2020"))
    ensures ConvertDate(Text("2021/02/29")) == Err(DateMalformed("2021/02/29"))
  {
    AprilThirtyFirst();
    LeapDayOutsideLeapYear();
  }

  lemma AprilThirtyFirst()
    ensures ConvertDate(Text("31/04/2020")) == Err(DateMalformed("31/04/2020"))
  {
    ReadsTwoDigits('3', '1');
    ReadsTwoDigits('0', '4');
    ReadsYear('2', '0', '2', '0');
    NonexistentTexts();
    DayFirstFields("31", "04", "2020");
  }

  lemma LeapDayOutsideLeapYear()
    ensures ConvertDate(Text("2021/02/29")) == Err(DateMalformed("2021/02/29"))
  {
    LeapDayFields();
    NonexistentTexts();
    YearFirstFields("2021", "02", "29");
  }

  lemma LeapDayFields()
    ensures DateField("2021", 4, 4) && DateField("02", 1, 2) && DateField("29", 1, 2)
    ensures !Representable(Date(ParseDigits("2021"), ParseDigits("02"), ParseDigits("29")))
  {
    ReadsTwoDigits('2', '9');
    ReadsTwoDigits('0', '2');
    ReadsYear('2', '0', '2', '1');
    assert ParseDigits("2021") == 2021 && ParseDigits("02") == 2 && ParseDigits("29") == 29;
    assert !IsLeapYear(2021);
  }

  lemma NonexistentTexts()
    ensures "31" + "/" + "04" + "/" + "2020" == "31/04/2020"
    ensures "2021" + "/" + "02" + "/" + "29" == "2021/02/29"
  {
  }

  lemma ReadsTwoDigits(a: char, b: char)
    requires IsDigit(a) && IsDigit(b)
    ensures DateField([a, b], 1, 2) && ParseDigits([a, b]) == DigitValue(a) * 10 + DigitValue(b)
  {
    ParseDigitsSnoc([], a);
    assert [] + [a] == [a];
    ParseDigitsSnoc([a], b);
    assert [a] + [b] == [a, b];
  }

  lemma ReadsYear(a: char, b: char, c: char, d: char)
    requires IsDigit(a) && IsDigit(b) && IsDigit(c) && IsDigit(d)
    ensures DateField([a, b, c, d], 4, 4)
    ensures ParseDigits([a, b, c, d]) == ((DigitValue(a) * 10 + DigitValue(b)) * 10 + DigitValue(c)) * 10 + DigitValue(d)
  {
    ReadsTwoDigits(a, b);
    ParseDigitsSnoc([a, b], c);
    assert [a, b] + [c] == [a, b, c];
    ParseDigitsSnoc([a, b, c], d);
    assert [a, b, c] + [d] == [a, b, c, d];
  }

  /** Both layouts of 5 March 2020 give the same timestamp. */
  lemma MarchFifth()
    ensures ConvertDate(Text("05/03/2020")) == Ok(Timestamp(Date(2020, 3, 5)))
    ensures ConvertDate(Text("2020/03/05")) == Ok(Timestamp(Date(2020, 3, 5)))
  {
    MarchFifthDayFirst();
    MarchFifthYearFirst();
  }

  lemma MarchFifthDayFirst()
    ensures ConvertDate(Text("05/03/2020")) == Ok(Timestamp(Date(2020, 3, 5)))
  {
    MarchFifthTexts();
    DayFirstRoundTrip(Date(2020, 3, 5));
  }

  lemma MarchFifthYearFirst()
    ensures ConvertDate(Text("2020/03/05")) == Ok(Timestamp(Date(2020, 3, 5)))
  {
    MarchFifthTexts();
    YearFirstRoundTrip(Date(2020, 3, 5));
  }

  lemma MarchFifthTexts()
    ensures Representable(Date(2020, 3, 5))
    ensures DayFirst(Date(2020, 3, 5)) == "05/03/2020"
    ensures YearFirst(Date(2020, 3, 5)) == "2020/03/05"
  {
    MarchFifthFields();
    MarchFifthJoined();
  }

  lemma MarchFifthJoined()
    ensures "05" + "/" + "03" + "/" + "2020" == "05/03/2020"
    ensures "2020" + "/" + "03" + "/" + "05" == "2020/03/05"
  {
  }

  lemma MarchFifthFields()
    ensures Representable(Date(2020, 3, 5))
    ensures DayText(Date(2020, 3, 5)) == "05"
    ensures MonthText(Date(2020, 3, 5)) == "03"
    ensures YearText(Date(2020, 3, 5)) == "2020"
  {
    Pow10Small();
    assert PadDigits(0, 1) == "0";
    assert PadDigits(5, 2) == PadDigits(0, 1) + "5";
    assert PadDigits(3, 2) == PadDigits(0, 1) + "3";
    assert PadDigits(2, 1) == "2";
    assert PadDigits(20, 2) == PadDigits(2, 1) + "0";
    assert PadDigits(202, 3) == PadDigits(20, 2) + "2";
    assert PadDigits(2020, 4) == PadDigits(202, 3) + "0";
  }

  /** A date written back as ISO text no longer converts: it has a single
      `/`-separated field. */
  lemma IsoTextRejected(d: Date)
    requires ValidDate(d)
    ensures ConvertDate(Text(IsoText(d))) == Err(DateMalformed(IsoText(d)))
  {
    var t := IsoText(d);
    DigitsHaveNoSeparator(YearText(d));
    DigitsHaveNoSeparator(MonthText(d));
    DigitsHaveNoSeparator(DayText(d));
    assert '/' !in t;
    SplitNoSeparator(t, '/');
  }
}
