/** Fiscal-period tags once more, by how they are put together and without looking at places. */
module FiscalReference {
  import opened CivilDate
  import opened Digits
  import opened FiscalPeriod
  import opened Options
  import opened Ordering

  datatype DateText = DateText(year: string, month: string, day: string)

  datatype Parts = Parts(filing: string, kind: string, start: DateText, end: DateText)

  function DateTextOf(d: DateText): string {
    d.year + "-" + d.month + "-" + d.day
  }

  function TextOf(p: Parts): string {
    "FY" + p.filing + ":" + p.kind + ":" + DateTextOf(p.start) + ":" + DateTextOf(p.end)
  }

  ghost predicate DateFits(lib: Library, d: DateText) {
    && |d.year| == 4 && |d.month| == 2 && |d.day| == 2
    && Digital(lib, d.year) && Digital(lib, d.month) && Digital(lib, d.day)
  }

  /** What the pattern asks of the parts. */
  ghost predicate Fits(lib: Library, p: Parts) {
    && |p.filing| == 4 && Digital(lib, p.filing)
    && p.kind != "" && (forall c :: c in p.kind ==> 'A' <= c <= 'Z' || '0' <= c <= '9')
    && DateFits(lib, p.start) && DateFits(lib, p.end)
  }

  // ---------------------------------------------------------------- the pattern

  lemma DateFrom(lib: Library, s: string) returns (d: DateText)
    requires DateShape(lib, s)
    ensures DateFits(lib, d) && DateTextOf(d) == s
  {
    d := DateText(s[..4], s[5..7], s[8..]);
    assert s == s[..4] + [s[4]] + s[5..7] + [s[7]] + s[8..];
  }

  lemma DateInto(lib: Library, d: DateText)
    requires DateFits(lib, d)
    ensures DateShape(lib, DateTextOf(d))
    ensures var s := DateTextOf(d); s[..4] == d.year && s[5..7] == d.month && s[8..] == d.day
  {
    var s := DateTextOf(d);
    assert s[..4] == d.year && s[5..7] == d.month && s[8..] == d.day && s[4] == '-' && s[7] == '-';
  }

  lemma PartsFrom(lib: Library, s: string) returns (p: Parts)
    requires Matches(lib, s)
    ensures Fits(lib, p) && TextOf(p) == s
    ensures p.filing == s[2..6] && p.kind == s[7..|s| - 22]
    ensures DateTextOf(p.start) == s[|s| - 21..|s| - 11] && DateTextOf(p.end) == s[|s| - 10..]
  {
    var n := |s|;
    var start := DateFrom(lib, s[n - 21..n - 11]);
    var end := DateFrom(lib, s[n - 10..]);
    p := Parts(s[2..6], s[7..n - 22], start, end);
    assert forall i :: 0 <= i < |p.kind| ==> p.kind[i] == s[7 + i];
    Assemble(s);
  }

  lemma Assemble(s: string)
    requires |s| >= 30 && s[..2] == "FY" && s[6] == ':' && s[|s| - 22] == ':' && s[|s| - 11] == ':'
    ensures s == "FY" + s[2..6] + ":" + s[7..|s| - 22] + ":" + s[|s| - 21..|s| - 11] + ":" + s[|s| - 10..]
  {
    var n := |s|;
    assert s == s[..2] + s[2..6] + [s[6]] + s[7..n - 22] + [s[n - 22]] + s[n - 21..n - 11] + [s[n - 11]] + s[n - 10..];
  }

  lemma Places(filing: string, kind: string, start: string, end: string)
    requires |filing| == 4 && |start| == |end| == 10
    ensures var s := "FY" + filing + ":" + kind + ":" + start + ":" + end;
            && |s| == 29 + |kind| && s[..2] == "FY" && s[2..6] == filing && s[6] == ':'
            && s[7..|s| - 22] == kind && s[|s| - 22] == ':' && s[|s| - 21..|s| - 11] == start
            && s[|s| - 11] == ':' && s[|s| - 10..] == end
  {
    var s := "FY" + filing + ":" + kind + ":" + start + ":" + end;
    assert s == "FY" + (filing + (":" + (kind + (":" + (start + (":" + end))))));
  }

  lemma PartsInto(lib: Library, p: Parts)
    requires Fits(lib, p)
    ensures Matches(lib, TextOf(p))
    ensures var s := TextOf(p);
            && s[2..6] == p.filing && s[7..|s| - 22] == p.kind
            && s[|s| - 21..|s| - 11] == DateTextOf(p.start) && s[|s| - 10..] == DateTextOf(p.end)
  {
    var s := TextOf(p);
    DateInto(lib, p.start);
    DateInto(lib, p.end);
    Places(p.filing, p.kind, DateTextOf(p.start), DateTextOf(p.end));
    forall i | 7 <= i < |s| - 22
      ensures KindChar(s[i])
    {
      assert s[i] == s[7..|s| - 22][i - 7] && p.kind[i - 7] in p.kind;
    }
  }

  /** The pattern matches exactly the texts put together from fitting parts. */
  lemma PatternMeaning(lib: Library, s: string)
    ensures Matches(lib, s) <==> exists p :: Fits(lib, p) && TextOf(p) == s
  {
    if Matches(lib, s) {
      var p := PartsFrom(lib, s);
    }
    if exists p :: Fits(lib, p) && TextOf(p) == s {
      var p :| Fits(lib, p) && TextOf(p) == s;
      PartsInto(lib, p);
    }
  }

  // ---------------------------------------------------------------- the parser

  /** The date text, in ASCII digits, names the date. */
  ghost predicate Names(t: DateText, d: Date) {
    && AllDigits(t.year) && AllDigits(t.month) && AllDigits(t.day)
    && d == Date(Value(t.year), Value(t.month), Value(t.day)) && Valid(d)
  }

  /** The parts describe the annual period: of kind FY and of at least 350 days. */
  ghost predicate Describes(lib: Library, parts: Parts, p: Period) {
    && Fits(lib, parts) && parts.kind == "FY" && p.kind == "FY" && p.filingYear == NumberOf(lib, parts.filing)
    && Names(parts.start, p.start) && Names(parts.end, p.end)
    && Ordinal(p.end) - Ordinal(p.start) >= 350
  }

  lemma NamesMeaning(lib: Library, t: DateText, d: Date)
    requires DateFits(lib, t)
    ensures FromIso(DateTextOf(t)) == Call.Returned(d) <==> Names(t, d)
  {
    DateInto(lib, t);
  }

  lemma LastIsDigit(lib: Library, p: Parts)
    requires Standard(lib) && Fits(lib, p)
    ensures TextOf(p) != "" && TextOf(p)[|TextOf(p)| - 1] != '\n'
  {
    var s := TextOf(p);
    PartsInto(lib, p);
    assert s[|s| - 1] == s[|s| - 10..][9] && s[|s| - 10..][9] == s[|s| - 10..][8..][1];
    assert lib.digit(s[|s| - 1]).Some?;
  }

  lemma CoreMeaning(tag: string, s: string)
    requires s == "" || s[|s| - 1] != '\n'
    ensures Core(tag) == s <==> tag == s || tag == s + "\n"
  {
    if tag == s + "\n" {
      assert tag[..|tag| - 1] == s;
    }
    if Core(tag) == s && tag != s {
      assert tag == tag[..|tag| - 1] + [tag[|tag| - 1]];
    }
  }

  /** The tag is the text of the parts, give or take one line feed at the end. */
  ghost predicate Spells(tag: string, parts: Parts) {
    tag == TextOf(parts) || tag == TextOf(parts) + "\n"
  }

  lemma ParsedFrom(lib: Library, tag: string, p: Period) returns (parts: Parts)
    requires Standard(lib) && ParseAnnual(lib, tag) == Call.Returned(Some(p))
    ensures Describes(lib, parts, p) && Spells(tag, parts)
  {
    parts := PartsFrom(lib, Core(tag));
    NamesMeaning(lib, parts.start, p.start);
    NamesMeaning(lib, parts.end, p.end);
    LastIsDigit(lib, parts);
    CoreMeaning(tag, TextOf(parts));
  }

  lemma ParsedInto(lib: Library, tag: string, p: Period, parts: Parts)
    requires Standard(lib) && Describes(lib, parts, p) && Spells(tag, parts)
    ensures ParseAnnual(lib, tag) == Call.Returned(Some(p))
  {
    LastIsDigit(lib, parts);
    CoreMeaning(tag, TextOf(parts));
    PartsInto(lib, parts);
    NamesMeaning(lib, parts.start, p.start);
    NamesMeaning(lib, parts.end, p.end);
  }

  /** A tag parses to a period exactly when it is put together from parts that describe it, give or take one
      line feed at the end. */
  lemma ParseMeaning(lib: Library, tag: string, p: Period)
    requires Standard(lib)
    ensures ParseAnnual(lib, tag) == Call.Returned(Some(p)) <==>
            exists parts :: Describes(lib, parts, p) && Spells(tag, parts)
  {
    if ParseAnnual(lib, tag) == Call.Returned(Some(p)) {
      var parts := ParsedFrom(lib, tag, p);
    }
    if exists parts :: Describes(lib, parts, p) && Spells(tag, parts) {
      var parts :| Describes(lib, parts, p) && Spells(tag, parts);
      ParsedInto(lib, tag, p, parts);
    }
  }

  // ---------------------------------------------------------------- the end that stands for a tag

  ghost predicate Unparsed(lib: Library, tag: string) {
    forall p: Period :: ParseAnnual(lib, tag) != Call.Returned(Some(p))
  }

  /** Four parts or more, joined by colons; the last of them. */
  ghost predicate LastOfFour(tag: string, last: string) {
    exists a: string, b: string, c: string :: tag == a + ":" + b + ":" + c + ":" + last && ':' !in last
  }

  /** No colons, and a year in digits of any script after `FY`. */
  ghost predicate BareYear(lib: Library, tag: string, year: nat) {
    && ':' !in tag
    && exists filing: string, rest: string ::
         tag == "FY" + filing + rest && |filing| == 4 && Digital(lib, filing) && NumberOf(lib, filing) == year
  }

  lemma {:induction false} ColonsAdd(a: string, b: string)
    ensures CountColons(a + b) == CountColons(a) + CountColons(b)
  {
    if b == "" {
      assert a + b == a;
    } else {
      var init := b[..|b| - 1];
      assert (a + b)[..|a + b| - 1] == a + init && (a + b)[|a + b| - 1] == b[|b| - 1];
      ColonsAdd(a, init);
    }
  }

  lemma {:induction false} NoColons(s: string)
    ensures CountColons(s) == 0 <==> ':' !in s
  {
    if s != "" {
      var init, last := s[..|s| - 1], s[|s| - 1];
      NoColons(init);
      assert s == init + [last];
    }
  }

  /** The last part has no colon, and what precedes it ends in one. */
  lemma {:induction false} SplitLast(s: string) returns (before: string)
    requires ':' in s
    ensures s == before + ":" + LastPart(s) && ':' !in LastPart(s)
    ensures CountColons(before) == CountColons(s) - 1
  {
    var init, last := s[..|s| - 1], s[|s| - 1];
    assert s == init + [last];
    if last == ':' {
      before := init;
    } else {
      before := SplitLast(init);
    }
  }

  lemma {:induction false} LastPartIs(before: string, last: string)
    requires ':' !in last
    ensures LastPart(before + ":" + last) == last
  {
    var s := before + ":" + last;
    if last != "" {
      var init := last[..|last| - 1];
      assert s[..|s| - 1] == before + ":" + init && s[|s| - 1] == last[|last| - 1];
      LastPartIs(before, init);
    }
  }

  lemma LastOfFourMeaning(tag: string, last: string)
    ensures LastOfFour(tag, last) <==> CountColons(tag) >= 3 && LastPart(tag) == last
  {
    NoColons(tag);
    if CountColons(tag) >= 3 && LastPart(tag) == last {
      var abc := SplitLast(tag);
      NoColons(abc);
      var ab := SplitLast(abc);
      NoColons(ab);
      var a := SplitLast(ab);
      assert tag == a + ":" + LastPart(ab) + ":" + LastPart(abc) + ":" + last;
    }
    forall a: string, b: string, c: string | tag == a + ":" + b + ":" + c + ":" + last && ':' !in last
      ensures CountColons(tag) >= 3 && LastPart(tag) == last
    {
      FourParts(a, b, c, last);
    }
  }

  lemma FourParts(a: string, b: string, c: string, last: string)
    requires ':' !in last
    ensures var tag := a + ":" + b + ":" + c + ":" + last; CountColons(tag) >= 3 && LastPart(tag) == last
  {
    LastPartIs(a + ":" + b + ":" + c, last);
    ColonsAdd(a, ":");
    ColonsAdd(a + ":", b);
    ColonsAdd(a + ":" + b, ":");
    ColonsAdd(a + ":" + b + ":", c);
    ColonsAdd(a + ":" + b + ":" + c, ":");
    ColonsAdd(a + ":" + b + ":" + c + ":", last);
    assert CountColons(":") == 1 by {
      assert ":"[..0] == "";
    }
  }

  lemma BareYearMeaning(lib: Library, tag: string, year: nat)
    ensures BareYear(lib, tag, year) <==>
            && CountColons(tag) == 0 && |tag| >= 6 && tag[..2] == "FY"
            && Digital(lib, tag[2..6]) && NumberOf(lib, tag[2..6]) == year
  {
    NoColons(tag);
    if |tag| >= 6 && tag[..2] == "FY" {
      assert tag == "FY" + tag[2..6] + tag[6..];
    }
    forall filing: string, rest: string | tag == "FY" + filing + rest && |filing| == 4
      ensures |tag| >= 6 && tag[..2] == "FY" && tag[2..6] == filing
    {
    }
  }

  lemma EndOfParsed(lib: Library, tag: string, p: Period)
    requires ParseAnnual(lib, tag) == Call.Returned(Some(p))
    ensures EndOf(tag, lib) == p.end
  {
  }

  lemma EndOfLast(lib: Library, tag: string, last: string)
    requires Unparsed(lib, tag) && LastOfFour(tag, last) && lib.date(last).Some?
    ensures EndOf(tag, lib) == lib.date(last).value
  {
    LastOfFourMeaning(tag, last);
  }

  lemma EndOfBareYear(lib: Library, tag: string, year: nat)
    requires Unparsed(lib, tag) && BareYear(lib, tag, year) && year >= 1
    ensures EndOf(tag, lib) == Date(year, 12, 31)
  {
    BareYearMeaning(lib, tag, year);
  }

  lemma EndOfOther(lib: Library, tag: string)
    requires Unparsed(lib, tag)
    requires forall last :: LastOfFour(tag, last) ==> lib.date(last).None?
    requires forall year: nat :: BareYear(lib, tag, year) ==> year == 0
    ensures EndOf(tag, lib) == Date(1, 1, 1)
  {
    LastOfFourMeaning(tag, LastPart(tag));
    if |tag| >= 6 && Digital(lib, tag[2..6]) {
      BareYearMeaning(lib, tag, NumberOf(lib, tag[2..6]));
    }
  }

  /** The end of the year the tag names, when it has no colon and names one. */
  ghost predicate EndsYear(lib: Library, tag: string, end: Date) {
    exists year: nat :: year >= 1 && BareYear(lib, tag, year) && end == Date(year, 12, 31)
  }

  ghost predicate EndsLast(lib: Library, tag: string, end: Date) {
    exists last :: LastOfFour(tag, last) && lib.date(last) == Some(end)
  }

  ghost predicate EndsPeriod(lib: Library, tag: string, end: Date) {
    exists p: Period :: ParseAnnual(lib, tag) == Call.Returned(Some(p)) && p.end == end
  }

  /** What the end of a tag is: that of its period when it parses, else the date in its last part when there are
      four, else the last day of the year it names when it has no colon, else the first day of year one. */
  lemma EndOfMeaning(lib: Library, tag: string)
    ensures var end := EndOf(tag, lib);
            || EndsPeriod(lib, tag, end)
            || (Unparsed(lib, tag) && (EndsLast(lib, tag, end) || EndsYear(lib, tag, end)))
            || (Unparsed(lib, tag) && end == Date(1, 1, 1)
                && forall e :: !EndsLast(lib, tag, e) && !EndsYear(lib, tag, e))
    ensures forall end :: EndsPeriod(lib, tag, end) ==> EndOf(tag, lib) == end
    ensures forall end :: Unparsed(lib, tag) && EndsLast(lib, tag, end) ==> EndOf(tag, lib) == end
    ensures forall end :: Unparsed(lib, tag) && EndsYear(lib, tag, end) ==> EndOf(tag, lib) == end
  {
    forall end | EndsPeriod(lib, tag, end)
      ensures EndOf(tag, lib) == end
    {
      var p: Period :| ParseAnnual(lib, tag) == Call.Returned(Some(p)) && p.end == end;
      EndOfParsed(lib, tag, p);
    }
    if Unparsed(lib, tag) {
      UnparsedEnd(lib, tag);
    } else {
      var p: Period :| ParseAnnual(lib, tag) == Call.Returned(Some(p));
      EndOfParsed(lib, tag, p);
    }
  }

  lemma UnparsedEnd(lib: Library, tag: string)
    requires Unparsed(lib, tag)
    ensures var end := EndOf(tag, lib);
            || EndsLast(lib, tag, end) || EndsYear(lib, tag, end)
            || (end == Date(1, 1, 1) && forall e :: !EndsLast(lib, tag, e) && !EndsYear(lib, tag, e))
    ensures forall end :: EndsLast(lib, tag, end) || EndsYear(lib, tag, end) ==> EndOf(tag, lib) == end
  {
    forall end | EndsLast(lib, tag, end)
      ensures EndOf(tag, lib) == end
    {
      var last :| LastOfFour(tag, last) && lib.date(last) == Some(end);
      EndOfLast(lib, tag, last);
    }
    forall end | EndsYear(lib, tag, end)
      ensures EndOf(tag, lib) == end
    {
      var year: nat :| year >= 1 && BareYear(lib, tag, year) && end == Date(year, 12, 31);
      EndOfBareYear(lib, tag, year);
    }
    if forall e :: !EndsLast(lib, tag, e) && !EndsYear(lib, tag, e) {
      forall last | LastOfFour(tag, last)
        ensures lib.date(last).None?
      {
        assert lib.date(last).Some? ==> EndsLast(lib, tag, lib.date(last).value);
      }
      forall year: nat | BareYear(lib, tag, year)
        ensures year == 0
      {
        assert year >= 1 ==> EndsYear(lib, tag, Date(year, 12, 31));
      }
      EndOfOther(lib, tag);
    }
  }

  /** The comparison of tags: by the end that stands for them, then as texts. */
  lemma TagBeforeMeaning(lib: Library, a: string, b: string)
    ensures TagBefore(lib, a, b) <==>
            var d, e := EndOf(a, lib), EndOf(b, lib);
            || d.year < e.year
            || (d.year == e.year && d.month < e.month)
            || (d.year == e.year && d.month == e.month && d.day < e.day)
            || (d == e && exists k: nat :: k <= |a| && k < |b| && a[..k] == b[..k] && (k == |a| || a[k] < b[k]))
  {
    TextLessMeaning(a, b);
  }
}
