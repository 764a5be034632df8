/** The fiscal-period tag: one encoder, one parser, and the comparison key built on them. */
module FiscalPeriod {
  import opened CivilDate
  import opened Digits
  import opened Options
  import opened Ordering

  /** A Python call either returns or raises `ValueError`. */
  datatype Call<+T> = Returned(value: T) | Raised

  datatype Period = Period(filingYear: nat, kind: string, start: Date, end: Date)

  const ANNUAL_MINIMUM_DAYS := 350

  function Days(p: Period): int
    requires Valid(p.start) && Valid(p.end)
  {
    Ordinal(p.end) - Ordinal(p.start)
  }

  predicate IsAnnual(p: Period)
    requires Valid(p.start) && Valid(p.end)
  {
    p.kind == "FY" && Days(p) >= ANNUAL_MINIMUM_DAYS
  }

  // ---------------------------------------------------------------- what the library decides

  /** `digit` gives the value of a decimal digit of any script, as the pattern's `\d` and `int` see it;
      `date` is the general date parser, which accepts more shapes than `YYYY-MM-DD`. */
  datatype Library = Library(digit: char -> Option<nat>, date: string -> Option<Date>)

  /** Among the ASCII characters just the ten digits are digits. */
  ghost predicate Standard(lib: Library) {
    && (forall c :: lib.digit(c).Some? ==> lib.digit(c).value < 10)
    && (forall c :: c as int < 0x80 ==> lib.digit(c) == if IsDigit(c) then Some(DigitValue(c)) else None)
  }

  predicate Digital(lib: Library, s: string) {
    forall i :: 0 <= i < |s| ==> lib.digit(s[i]).Some?
  }

  /** Python's `int` of a text of digits. */
  function NumberOf(lib: Library, s: string): nat
    requires Digital(lib, s)
  {
    if s == "" then 0 else 10 * NumberOf(lib, s[..|s| - 1]) + lib.digit(s[|s| - 1]).value
  }

  lemma {:induction false} AsciiDigits(lib: Library, s: string)
    requires Standard(lib) && AllDigits(s)
    ensures Digital(lib, s) && NumberOf(lib, s) == Value(s)
  {
    if s != "" {
      AsciiDigits(lib, s[..|s| - 1]);
      assert s[|s| - 1] as int < 0x80;
    }
  }

  // ---------------------------------------------------------------- dates as text

  /** The last `width` digits of a number, with leading zeros. */
  function Fixed(n: nat, width: nat): (s: string)
    ensures |s| == width && AllDigits(s)
  {
    if width == 0 then "" else Fixed(n / 10, width - 1) + [DigitChar(n % 10)]
  }

  lemma {:induction false} FixedValue(n: nat, width: nat)
    requires n < Pow10(width)
    ensures Value(Fixed(n, width)) == n
  {
    if width > 0 {
      var s := Fixed(n, width);
      assert n / 10 < Pow10(width - 1);
      FixedValue(n / 10, width - 1);
      assert s[..width - 1] == Fixed(n / 10, width - 1) && s[width - 1] == DigitChar(n % 10);
    }
  }

  lemma Powers()
    ensures Pow10(0) == 1 && Pow10(1) == 10 && Pow10(2) == 100 && Pow10(3) == 1000 && Pow10(4) == 10000
  {
    assert Pow10(2) == 10 * Pow10(1);
    assert Pow10(4) == 10 * Pow10(3);
  }

  /** `YYYY-MM-DD`. */
  function IsoFormat(d: Date): (s: string)
    requires Valid(d)
    ensures |s| == 10
  {
    Fixed(d.year, 4) + "-" + Fixed(d.month, 2) + "-" + Fixed(d.day, 2)
  }

  predicate IsoShape(s: string) {
    |s| == 10 && AllDigits(s[..4]) && s[4] == '-' && AllDigits(s[5..7]) && s[7] == '-' && AllDigits(s[8..])
  }

  /** The date a text of ten characters names; a text that names no date raises. */
  function FromIso(s: string): Call<Date> {
    if !IsoShape(s) then Raised
    else
      var d := Date(Value(s[..4]), Value(s[5..7]), Value(s[8..]));
      if Valid(d) then Returned(d) else Raised
  }

  lemma ReadParts(s: string, y: string, m: string, n: string)
    requires |s| == 10 && s[..4] == y && s[4] == '-' && s[5..7] == m && s[7] == '-' && s[8..] == n
    requires AllDigits(y) && AllDigits(m) && AllDigits(n)
    ensures var d := Date(Value(y), Value(m), Value(n));
            IsoShape(s) && FromIso(s) == if Valid(d) then Returned(d) else Raised
  {
  }

  lemma ReadDashed(y: string, m: string, n: string)
    requires |y| == 4 && |m| == 2 && |n| == 2 && AllDigits(y) && AllDigits(m) && AllDigits(n)
    ensures var d := Date(Value(y), Value(m), Value(n));
            && IsoShape(y + "-" + m + "-" + n)
            && FromIso(y + "-" + m + "-" + n) == if Valid(d) then Returned(d) else Raised
  {
    ReadParts(y + "-" + m + "-" + n, y, m, n);
  }

  lemma YearText(year: nat)
    requires year <= 9999
    ensures Value(Fixed(year, 4)) == year
  {
    Powers();
    FixedValue(year, 4);
  }

  lemma DayText(day: nat)
    requires day <= 99
    ensures Value(Fixed(day, 2)) == day
  {
    Powers();
    FixedValue(day, 2);
  }

  lemma IsoRoundTrip(d: Date)
    requires Valid(d)
    ensures IsoShape(IsoFormat(d)) && FromIso(IsoFormat(d)) == Returned(d)
  {
    YearText(d.year);
    DayText(d.month);
    DayText(d.day);
    ReadDashed(Fixed(d.year, 4), Fixed(d.month, 2), Fixed(d.day, 2));
  }

  // ---------------------------------------------------------------- the encoder

  function IntegerText(i: int): string {
    if i < 0 then "-" + Decimal(-i) else Decimal(i)
  }

  /** The same day a year earlier, or 28 February when that day does not exist. */
  function Prior(end: Date): Call<Date>
    requires Valid(end)
  {
    if end.year == 1 then Raised
    else if Valid(Date(end.year - 1, end.month, end.day)) then Returned(Date(end.year - 1, end.month, end.day))
    else Returned(Date(end.year - 1, end.month, 28))
  }

  lemma PriorIsValid(end: Date)
    requires Valid(end) && end.year >= 2
    ensures Valid(Prior(end).value) && Prior(end).value != MAX_DATE && Prior(end).value.year == end.year - 1
    ensures Prior(end).value != Date(end.year - 1, end.month, end.day) ==> end.month == 2 && end.day == 29
  {
  }

  /** The period an encoded tag describes starts the day after. */
  function StartOf(end: Date): (start: Date)
    requires Valid(end) && end.year >= 2
    ensures Valid(start)
  {
    PriorIsValid(end);
    NextDayIsNext(Prior(end).value);
    NextDay(Prior(end).value)
  }

  function Tag(fiscal: string, kind: string, start: Date, end: Date): string
    requires Valid(start) && Valid(end)
  {
    "FY" + fiscal + ":" + kind + ":" + IsoFormat(start) + ":" + IsoFormat(end)
  }

  /** The tag of the annual period that ends on `end`; the label is the filing's fiscal year, or the
      year of the end when none is given. */
  function EncodeAnnual(end: Date, filingYear: Option<int>): Call<string>
    requires Valid(end)
  {
    if Prior(end).Raised? then Raised
    else
      var fiscal := if filingYear.Some? then filingYear.value else end.year;
      Returned(Tag(IntegerText(fiscal), "FY", StartOf(end), end))
  }

  // ---------------------------------------------------------------- the parser

  predicate KindChar(c: char) {
    'A' <= c <= 'Z' || IsDigit(c)
  }

  /** One line feed at the very end goes unnoticed by the pattern. */
  function Core(tag: string): string {
    if tag != "" && tag[|tag| - 1] == '\n' then tag[..|tag| - 1] else tag
  }

  /** Digits of any script, grouped like a date. */
  predicate DateShape(lib: Library, s: string) {
    |s| == 10 && Digital(lib, s[..4]) && s[4] == '-' && Digital(lib, s[5..7]) && s[7] == '-' && Digital(lib, s[8..])
  }

  /** `FY`, four digits, a kind, two dates, joined by colons. */
  predicate Matches(lib: Library, s: string) {
    && |s| >= 30
    && s[..2] == "FY" && Digital(lib, s[2..6]) && s[6] == ':'
    && (forall i :: 7 <= i < |s| - 22 ==> KindChar(s[i]))
    && s[|s| - 22] == ':' && DateShape(lib, s[|s| - 21..|s| - 11])
    && s[|s| - 11] == ':' && DateShape(lib, s[|s| - 10..])
  }

  /** The annual period a tag describes; none when the tag does not match, is of another kind or spans
      too few days; a tag that matches but names no date, in ASCII digits, raises. */
  function ParseAnnual(lib: Library, tag: string): Call<Option<Period>> {
    ParseCore(lib, Core(tag))
  }

  function ParseCore(lib: Library, s: string): Call<Option<Period>> {
    if !Matches(lib, s) then Returned(None)
    else
      match (FromIso(s[|s| - 21..|s| - 11]), FromIso(s[|s| - 10..]))
      case (Returned(start), Returned(end)) =>
        var p := Period(NumberOf(lib, s[2..6]), s[7..|s| - 22], start, end);
        if IsAnnual(p) then Returned(Some(p)) else Returned(None)
      case _ => Raised
  }

  // ---------------------------------------------------------------- round trip

  /** The parts of a tag at their places. */
  lemma TagParts(fiscal: string, start: Date, end: Date)
    requires Valid(start) && Valid(end)
    ensures var s, n := Tag(fiscal, "FY", start, end), |fiscal|;
            && |s| == n + 27
            && s[..2] == "FY" && s[2..2 + n] == fiscal && s[2 + n] == ':'
            && s[3 + n..5 + n] == "FY" && s[5 + n] == ':'
            && s[6 + n..16 + n] == IsoFormat(start) && s[16 + n] == ':' && s[17 + n..] == IsoFormat(end)
  {
    var s, n := Tag(fiscal, "FY", start, end), |fiscal|;
    assert s == "FY" + (fiscal + (":" + ("FY" + (":" + (IsoFormat(start) + (":" + IsoFormat(end)))))));
  }

  lemma TagHasNoLineFeed(fiscal: string, start: Date, end: Date)
    requires Valid(start) && Valid(end)
    ensures Core(Tag(fiscal, "FY", start, end)) == Tag(fiscal, "FY", start, end)
  {
    var s, iso := Tag(fiscal, "FY", start, end), IsoFormat(end);
    TagParts(fiscal, start, end);
    IsoRoundTrip(end);
    assert s[|s| - 1] == iso[9] && iso[9] == iso[8..][1];
  }

  lemma IsoIsDateShape(lib: Library, s: string)
    requires Standard(lib) && IsoShape(s)
    ensures DateShape(lib, s)
  {
    AsciiDigits(lib, s[..4]);
    AsciiDigits(lib, s[5..7]);
    AsciiDigits(lib, s[8..]);
  }

  /** A tag of kind FY matches exactly when its label is four digits long. */
  lemma TagMatches(lib: Library, fiscal: string, start: Date, end: Date)
    requires Standard(lib) && Valid(start) && Valid(end) && ':' !in fiscal
    ensures Matches(lib, Tag(fiscal, "FY", start, end)) <==> |fiscal| == 4 && Digital(lib, fiscal)
  {
    var s, n := Tag(fiscal, "FY", start, end), |fiscal|;
    TagParts(fiscal, start, end);
    IsoRoundTrip(start);
    IsoRoundTrip(end);
    IsoIsDateShape(lib, IsoFormat(start));
    IsoIsDateShape(lib, IsoFormat(end));
    if n == 4 {
      assert s[7..9] == "FY" && s[7] == s[7..9][0] && s[8] == s[7..9][1];
    } else if n < 4 {
      assert s[2 + n] == ':' && s[2..6][n] == ':';
    } else {
      assert s[6] == fiscal[4];
    }
  }

  lemma LabelText(fiscal: int)
    ensures ':' !in IntegerText(fiscal)
    ensures forall i :: 0 <= i < |IntegerText(fiscal)| ==> IntegerText(fiscal)[i] as int < 0x80
    ensures |IntegerText(fiscal)| == 4 && AllDigits(IntegerText(fiscal)) <==> 1000 <= fiscal <= 9999
    ensures 0 <= fiscal ==> AllDigits(IntegerText(fiscal)) && Value(IntegerText(fiscal)) == fiscal
  {
    if fiscal < 0 {
      NegativeLabel(-fiscal);
    } else {
      DecimalValue(fiscal);
      FourDigitLabel(fiscal);
    }
  }

  lemma NegativeLabel(n: nat)
    ensures ':' !in "-" + Decimal(n) && !AllDigits("-" + Decimal(n))
    ensures forall i :: 0 <= i < |"-" + Decimal(n)| ==> ("-" + Decimal(n))[i] as int < 0x80
  {
    var s := "-" + Decimal(n);
    assert s[0] == '-';
    assert forall i :: 0 < i < |s| ==> s[i] == Decimal(n)[i - 1];
  }

  lemma FourDigitLabel(n: nat)
    ensures |Decimal(n)| == 4 <==> 1000 <= n <= 9999
  {
    Powers();
    if n > 0 {
      SpellingLength(n, 3);
      SpellingLength(n, 4);
    }
  }

  lemma PriorSpan(end: Date)
    requires Valid(end) && end.year >= 2
    ensures Valid(Prior(end).value)
    ensures Ordinal(end) - Ordinal(Prior(end).value)
            == 365 + if end.month > 2 || (end.month == 2 && end.day == 29) then LeapDay(end.year)
                     else LeapDay(end.year - 1)
  {
    if Valid(Date(end.year - 1, end.month, end.day)) {
      SameDayLastYear(end);
    } else {
      LeapDaySpan(end);
    }
  }

  lemma LeapDaySpan(end: Date)
    requires Valid(end) && end.year >= 2 && !Valid(Date(end.year - 1, end.month, end.day))
    ensures end.month == 2 && end.day == 29 && LeapDay(end.year) == 1
    ensures Ordinal(end) - Ordinal(Date(end.year - 1, 2, 28)) == 366
  {
    var eve := Date(end.year, 2, 28);
    SameDayLastYear(eve);
    assert Ordinal(end) == Ordinal(eve) + 1;
    Multiples(end.year);
    assert LeapDay(end.year - 1) == 0;
  }

  /** An encoded period spans 364 days, or 365 when a leap day falls in it. */
  lemma EncodedSpan(end: Date, filingYear: nat)
    requires Valid(end) && end.year >= 2
    ensures var days := Days(Period(filingYear, "FY", StartOf(end), end));
            days == 364 + if end.month > 2 || (end.month == 2 && end.day == 29) then LeapDay(end.year)
                          else LeapDay(end.year - 1)
  {
    PriorIsValid(end);
    PriorSpan(end);
    NextDayIsNext(Prior(end).value);
  }

  /** The parser undoes the encoder: for every end date after year 1 the encoder returns, and parsing
      gives the period back, with the same end, exactly when the filing label has four digits. */
  lemma ParseUndoesEncode(lib: Library, end: Date, filingYear: Option<int>)
    requires Standard(lib) && Valid(end)
    ensures EncodeAnnual(end, filingYear).Raised? <==> end.year == 1
    ensures end.year >= 2 ==>
              var fiscal := if filingYear.Some? then filingYear.value else end.year;
              ParseAnnual(lib, EncodeAnnual(end, filingYear).value)
              == Returned(if 1000 <= fiscal <= 9999 then Some(Period(fiscal, "FY", StartOf(end), end)) else None)
  {
    if end.year >= 2 {
      ParsedTag(lib, if filingYear.Some? then filingYear.value else end.year, end);
    }
  }

  lemma ParsedTag(lib: Library, fiscal: int, end: Date)
    requires Standard(lib) && Valid(end) && end.year >= 2
    ensures ParseAnnual(lib, Tag(IntegerText(fiscal), "FY", StartOf(end), end))
            == Returned(if 1000 <= fiscal <= 9999 then Some(Period(fiscal, "FY", StartOf(end), end)) else None)
  {
    if 1000 <= fiscal <= 9999 {
      LongLabel(lib, fiscal, end);
    } else {
      ShortLabel(lib, fiscal, end);
    }
  }

  lemma LongLabel(lib: Library, fiscal: nat, end: Date)
    requires Standard(lib) && Valid(end) && end.year >= 2 && 1000 <= fiscal <= 9999
    ensures ParseAnnual(lib, Tag(IntegerText(fiscal), "FY", StartOf(end), end))
            == Returned(Some(Period(fiscal, "FY", StartOf(end), end)))
  {
    LabelText(fiscal);
    EncodedIsAnnual(end, fiscal);
    LabelReads(lib, IntegerText(fiscal), Period(fiscal, "FY", StartOf(end), end));
  }

  lemma LabelReads(lib: Library, fiscal: string, p: Period)
    requires Standard(lib) && |fiscal| == 4 && AllDigits(fiscal) && Value(fiscal) == p.filingYear
    requires Valid(p.start) && Valid(p.end) && IsAnnual(p)
    ensures ParseAnnual(lib, Tag(fiscal, "FY", p.start, p.end)) == Returned(Some(p))
  {
    ParsedParts(lib, fiscal, p.start, p.end);
    ReadAs(lib, Tag(fiscal, "FY", p.start, p.end), p);
  }

  lemma EncodedIsAnnual(end: Date, filingYear: nat)
    requires Valid(end) && end.year >= 2
    ensures IsAnnual(Period(filingYear, "FY", StartOf(end), end))
  {
    EncodedSpan(end, filingYear);
  }

  lemma ReadAs(lib: Library, s: string, p: Period)
    requires Core(s) == s && Matches(lib, s) && Valid(p.start) && Valid(p.end) && IsAnnual(p)
    requires NumberOf(lib, s[2..6]) == p.filingYear && s[7..|s| - 22] == p.kind
    requires FromIso(s[|s| - 21..|s| - 11]) == Returned(p.start) && FromIso(s[|s| - 10..]) == Returned(p.end)
    ensures ParseAnnual(lib, s) == Returned(Some(p))
  {
  }

  lemma ShortLabel(lib: Library, fiscal: int, end: Date)
    requires Standard(lib) && Valid(end) && end.year >= 2 && !(1000 <= fiscal <= 9999)
    ensures ParseAnnual(lib, Tag(IntegerText(fiscal), "FY", StartOf(end), end)) == Returned(None)
  {
    TagHasNoLineFeed(IntegerText(fiscal), StartOf(end), end);
    LabelText(fiscal);
    TagMatches(lib, IntegerText(fiscal), StartOf(end), end);
    AsciiLabel(lib, IntegerText(fiscal));
  }

  lemma AsciiLabel(lib: Library, text: string)
    requires Standard(lib) && forall i :: 0 <= i < |text| ==> text[i] as int < 0x80
    ensures Digital(lib, text) <==> AllDigits(text)
  {
  }

  lemma ParsedParts(lib: Library, fiscal: string, start: Date, end: Date)
    requires Standard(lib) && Valid(start) && Valid(end) && |fiscal| == 4 && AllDigits(fiscal)
    ensures var s := Tag(fiscal, "FY", start, end);
            && Matches(lib, s) && Core(s) == s
            && NumberOf(lib, s[2..6]) == Value(fiscal) && s[7..|s| - 22] == "FY"
            && FromIso(s[|s| - 21..|s| - 11]) == Returned(start) && FromIso(s[|s| - 10..]) == Returned(end)
  {
    TagParts(fiscal, start, end);
    TagHasNoLineFeed(fiscal, start, end);
    AsciiDigits(lib, fiscal);
    TagMatches(lib, fiscal, start, end);
    IsoRoundTrip(start);
    IsoRoundTrip(end);
  }

  // ---------------------------------------------------------------- and back

  lemma {:induction false} FixedSpelling(s: string)
    requires AllDigits(s)
    ensures Fixed(Value(s), |s|) == s
  {
    if s != "" {
      var init, last := s[..|s| - 1], s[|s| - 1];
      FixedSpelling(init);
      assert Value(s) / 10 == Value(init) && Value(s) % 10 == DigitValue(last);
      assert s == init + [last];
    }
  }

  lemma IsoSpelling(s: string)
    requires FromIso(s).Returned?
    ensures Valid(FromIso(s).value) && IsoFormat(FromIso(s).value) == s
  {
    FixedSpelling(s[..4]);
    FixedSpelling(s[5..7]);
    FixedSpelling(s[8..]);
    assert s == s[..4] + "-" + s[5..7] + "-" + s[8..];
  }

  lemma LabelSpelling(s: string)
    requires |s| == 4 && AllDigits(s)
    ensures Value(s) <= 9999
    ensures IntegerText(Value(s)) == s <==> Value(s) >= 1000
  {
    Powers();
    ValueBound(s);
    LabelText(Value(s));
    LeadingZero(s);
    if s[0] != '0' {
      CanonicalSpelling(s);
    }
  }

  lemma LeadingZero(s: string)
    requires s != "" && AllDigits(s)
    ensures s[0] == '0' ==> Value(s) < Pow10(|s| - 1)
  {
    ValueBound(s[1..]);
    ValueConcat(s[..1], s[1..]);
    assert s[..1] + s[1..] == s;
    assert s[0] == '0' ==> Value(s[..1]) == 0;
  }

  /** What a tag that parses is made of. */
  lemma ParsedShape(lib: Library, tag: string, p: Period)
    requires ParseAnnual(lib, tag) == Returned(Some(p))
    ensures tag != "" && Valid(p.start) && Valid(p.end) && p.kind == "FY"
    ensures var s := Core(tag);
            && |s| == 31 && Digital(lib, s[2..6]) && p.filingYear == NumberOf(lib, s[2..6])
            && s == Tag(s[2..6], "FY", p.start, p.end)
  {
    var s := Core(tag);
    var kind := s[7..|s| - 22];
    assert |s| == 31 && kind == "FY";
    IsoSpelling(s[10..20]);
    IsoSpelling(s[21..]);
    Joined(s);
  }

  lemma Joined(s: string)
    requires |s| == 31 && s[..2] == "FY" && s[6] == ':' && s[7..9] == "FY" && s[9] == ':' && s[20] == ':'
    ensures s == "FY" + s[2..6] + ":" + "FY" + ":" + s[10..20] + ":" + s[21..]
  {
    assert s == s[..2] + s[2..6] + [s[6]] + s[7..9] + [s[9]] + s[10..20] + [s[20]] + s[21..];
  }

  /** The encoder undoes the parser: a tag that parses is what the encoder writes for its period exactly
      when it does not end in a line feed, its label is written in ASCII digits without a leading zero,
      the end does not fall in year 1, and the start is the one the end implies. */
  lemma EncodeUndoesParse(lib: Library, tag: string, p: Period)
    requires Standard(lib) && ParseAnnual(lib, tag) == Returned(Some(p))
    ensures Valid(p.end) && |tag| >= 6
    ensures EncodeAnnual(p.end, Some(p.filingYear)) == Returned(tag) <==>
            && tag[|tag| - 1] != '\n' && AllDigits(tag[2..6]) && p.filingYear >= 1000
            && p.end.year >= 2 && p.start == StartOf(p.end)
  {
    ParsedShape(lib, tag, p);
    if EncodeAnnual(p.end, Some(p.filingYear)) == Returned(tag) {
      EncodedIsNormal(lib, tag, p);
    }
    if tag[|tag| - 1] != '\n' && AllDigits(tag[2..6]) && p.filingYear >= 1000 {
      AsciiDigits(lib, tag[2..6]);
      LabelSpelling(tag[2..6]);
    }
  }

  lemma EncodedIsNormal(lib: Library, tag: string, p: Period)
    requires Standard(lib) && ParseAnnual(lib, tag) == Returned(Some(p)) && Valid(p.end)
    requires EncodeAnnual(p.end, Some(p.filingYear)) == Returned(tag)
    ensures |tag| >= 6 && tag[|tag| - 1] != '\n' && AllDigits(tag[2..6]) && p.filingYear >= 1000
    ensures p.end.year >= 2 && p.start == StartOf(p.end)
  {
    var text := IntegerText(p.filingYear);
    ParsedTag(lib, p.filingYear, p.end);
    TagHasNoLineFeed(text, StartOf(p.end), p.end);
    TagParts(text, StartOf(p.end), p.end);
    LabelText(p.filingYear);
    assert tag[2..6] == text;
    assert Core(tag) == tag;
  }

  predicate NamesDate(s: string) {
    IsoShape(s) && Valid(Date(Value(s[..4]), Value(s[5..7]), Value(s[8..])))
  }

  /** The parser raises exactly on a tag that matches the pattern and whose start or end is no date. */
  lemma ParseRaisesExactlyWhen(lib: Library, tag: string)
    ensures ParseAnnual(lib, tag).Raised? <==>
            var s := Core(tag);
            Matches(lib, s) && !(NamesDate(s[|s| - 21..|s| - 11]) && NamesDate(s[|s| - 10..]))
  {
  }

  /** One line feed at the end makes no difference to the parser. */
  lemma LineFeedGoesUnnoticed(lib: Library, tag: string)
    requires tag == "" || tag[|tag| - 1] != '\n'
    ensures ParseAnnual(lib, tag + "\n") == ParseAnnual(lib, tag)
  {
    var longer := tag + "\n";
    assert longer[|longer| - 1] == '\n' && longer[..|longer| - 1] == tag;
  }

  // ---------------------------------------------------------------- the comparison key

  datatype Key = Key(end: Date, tag: string)

  function CountColons(s: string): nat {
    if s == "" then 0 else CountColons(s[..|s| - 1]) + if s[|s| - 1] == ':' then 1 else 0
  }

  function LastPart(s: string): string {
    if s == "" || s[|s| - 1] == ':' then "" else LastPart(s[..|s| - 1]) + [s[|s| - 1]]
  }

  /** The end date that stands for a tag; `isdigit` also takes digits that `int` refuses, and tags with
      those end up with the rest. */
  function EndOf(tag: string, lib: Library): Date {
    match ParseAnnual(lib, tag)
    case Returned(Some(p)) => p.end
    case _ =>
      if CountColons(tag) >= 3 && lib.date(LastPart(tag)).Some? then lib.date(LastPart(tag)).value
      else if CountColons(tag) == 0 && |tag| >= 6 && tag[..2] == "FY" && Digital(lib, tag[2..6])
              && NumberOf(lib, tag[2..6]) >= 1
      then Date(NumberOf(lib, tag[2..6]), 12, 31)
      else MIN_DATE
  }

  /** The key of any tag. */
  function PeriodEndKey(tag: string, lib: Library): Key {
    Key(EndOf(tag, lib), tag)
  }

  predicate KeyBefore(a: Key, b: Key) {
    Before(a.end, b.end) || (a.end == b.end && TextLess(a.tag, b.tag))
  }

  predicate TagBefore(lib: Library, a: string, b: string) {
    KeyBefore(PeriodEndKey(a, lib), PeriodEndKey(b, lib))
  }

  /** The key orders tags totally and without ties between distinct tags, so a greatest tag is unique. */
  lemma TagsAreTotal(lib: Library, a: string, b: string, c: string)
    ensures !TagBefore(lib, a, a)
    ensures TagBefore(lib, a, c) ==> TagBefore(lib, a, b) || TagBefore(lib, b, c)
    ensures TagBefore(lib, a, b) && TagBefore(lib, b, c) ==> TagBefore(lib, a, c)
    ensures a != b ==> TagBefore(lib, a, b) || TagBefore(lib, b, a)
  {
    var x, y, z := PeriodEndKey(a, lib), PeriodEndKey(b, lib), PeriodEndKey(c, lib);
    assert x.tag == a && y.tag == b;
    KeysTotalAt(x, y, z);
  }

  lemma KeysTotalAt(a: Key, b: Key, c: Key)
    ensures !KeyBefore(a, a)
    ensures KeyBefore(a, c) ==> KeyBefore(a, b) || KeyBefore(b, c)
    ensures KeyBefore(a, b) && KeyBefore(b, c) ==> KeyBefore(a, c)
    ensures a.tag != b.tag ==> KeyBefore(a, b) || KeyBefore(b, a)
  {
    TextFacts(a.tag, b.tag, c.tag);
  }

  lemma TextFacts(a: string, b: string, c: string)
    ensures !TextLess(a, a)
    ensures TextLess(a, c) ==> TextLess(a, b) || TextLess(b, c)
    ensures TextLess(a, b) && TextLess(b, c) ==> TextLess(a, c)
    ensures a != b ==> TextLess(a, b) || TextLess(b, a)
  {
    LexOrder(CharLess, a, b, c);
  }

  lemma {:induction false} LexAfterPrefix(prefix: string, a: string, b: string)
    ensures TextLess(prefix + a, prefix + b) <==> TextLess(a, b)
  {
    if prefix == "" {
      assert prefix + a == a && prefix + b == b;
    } else {
      assert (prefix + a)[1..] == prefix[1..] + a && (prefix + b)[1..] == prefix[1..] + b;
      LexAfterPrefix(prefix[1..], a, b);
    }
  }

  lemma {:induction false} LexDecidedEarly(a: string, b: string, x: string, y: string)
    requires |a| == |b| && TextLess(a, b)
    ensures TextLess(a + x, b + y)
  {
    assert (a + x)[0] == a[0] && (b + y)[0] == b[0];
    if a[0] == b[0] {
      assert (a + x)[1..] == a[1..] + x && (b + y)[1..] == b[1..] + y;
      LexDecidedEarly(a[1..], b[1..], x, y);
    }
  }

  lemma KeyOfParsed(lib: Library, tag: string, p: Period)
    requires ParseAnnual(lib, tag) == Returned(Some(p))
    ensures PeriodEndKey(tag, lib) == Key(p.end, tag)
  {
  }

  lemma EncodedKey(e: Date, f: nat, lib: Library)
    requires Standard(lib) && Valid(e) && e.year >= 2 && 1000 <= f <= 9999
    ensures var tag := Tag(IntegerText(f), "FY", StartOf(e), e);
            EncodeAnnual(e, Some(f)) == Returned(tag) && PeriodEndKey(tag, lib) == Key(e, tag)
  {
    ParsedTag(lib, f, e);
    KeyOfParsed(lib, Tag(IntegerText(f), "FY", StartOf(e), e), Period(f, "FY", StartOf(e), e));
  }

  /** Encoded tags are ordered by end date whatever filing they come from, and at one end date the
      later filing wins. */
  lemma EncodedTagsOrderByEnd(e: Date, f: nat, e': Date, f': nat, lib: Library)
    requires Standard(lib) && Valid(e) && Valid(e') && e.year >= 2 && e'.year >= 2
    requires 1000 <= f <= 9999 && 1000 <= f' <= 9999
    ensures var a, b := EncodeAnnual(e, Some(f)).value, EncodeAnnual(e', Some(f')).value;
            TagBefore(lib, a, b) <==> Before(e, e') || (e == e' && f < f')
  {
    EncodedKey(e, f, lib);
    EncodedKey(e', f', lib);
    if e == e' {
      SameEndOrder(e, f, f');
    }
  }

  lemma SameEndOrder(e: Date, f: nat, f': nat)
    requires Valid(e) && e.year >= 2 && 1000 <= f <= 9999 && 1000 <= f' <= 9999
    ensures var a, b := Tag(IntegerText(f), "FY", StartOf(e), e), Tag(IntegerText(f'), "FY", StartOf(e), e);
            TextLess(a, b) <==> f < f'
  {
    LabelText(f);
    LabelText(f');
    LabelOrder(f, f', StartOf(e), e);
    LabelOrder(f', f, StartOf(e), e);
    TextFacts(Tag(IntegerText(f), "FY", StartOf(e), e), Tag(IntegerText(f'), "FY", StartOf(e), e),
              Tag(IntegerText(f), "FY", StartOf(e), e));
  }

  function AfterLabel(start: Date, end: Date): string
    requires Valid(start) && Valid(end)
  {
    ":" + "FY" + ":" + IsoFormat(start) + ":" + IsoFormat(end)
  }

  lemma LabelFirst(fiscal: string, start: Date, end: Date)
    requires Valid(start) && Valid(end)
    ensures Tag(fiscal, "FY", start, end) == "FY" + (fiscal + AfterLabel(start, end))
  {
  }

  lemma LabelOrder(f: nat, f': nat, start: Date, end: Date)
    requires Valid(start) && Valid(end) && 1000 <= f <= 9999 && 1000 <= f' <= 9999
    ensures f < f' ==> TextLess(Tag(IntegerText(f), "FY", start, end), Tag(IntegerText(f'), "FY", start, end))
  {
    if f < f' {
      var label', rest := IntegerText(f'), AfterLabel(start, end);
      LabelText(f);
      LabelText(f');
      SameLengthOrder(IntegerText(f), label');
      LabelFirst(IntegerText(f), start, end);
      LabelFirst(label', start, end);
      LexDecidedEarly(IntegerText(f), label', rest, rest);
      LexAfterPrefix("FY", IntegerText(f) + rest, label' + rest);
    }
  }
}
