/** The exchange calendar over day numbers: which days trade, and which session is settled at an instant. */
module MarketCalendar {
  import opened CivilDate
  import opened Ordering

  /** Date arithmetic that leaves the representable dates raises. */
  datatype Call<+T> = Returned(value: T) | Overflow

  const FIRST_DAY := 1
  const LAST_DAY := 3652059

  type Day = d: int | FIRST_DAY <= d <= LAST_DAY witness 1

  /** The bounds are the calendar's own. */
  lemma DayBounds(last: Date)
    requires last == MAX_DATE
    ensures Ordinal(MIN_DATE) == FIRST_DAY && Ordinal(last) == LAST_DAY
  {
    LastOrdinal(last);
    MonthStarts(1, 1);
    assert DaysBeforeYear(1) == 0;
  }

  /** Monday to Friday and no holiday; day one is a Monday. */
  predicate IsSession(holidays: set<int>, d: int) {
    (d + 6) % 7 < 5 && d !in holidays
  }

  /** Which weekday is which: 1 January 2000 was a Saturday. */
  lemma FirstWeekOf2000(day: Date)
    requires day == Date(2000, 1, 1)
    ensures var n := Ordinal(day);
            && !IsSession({}, n) && !IsSession({}, n + 1)
            && IsSession({}, n + 2) && IsSession({}, n + 3) && IsSession({}, n + 4) && IsSession({}, n + 5)
            && IsSession({}, n + 6)
  {
    MonthStarts(day.year, day.month);
    assert (day.year - 1) / 4 == 499 && (day.year - 1) / 100 == 19 && (day.year - 1) / 400 == 4;
  }

  /** Every other day trades as the same weekday does, unless it is a holiday. */
  lemma WeeksRepeat(holidays: set<int>, d: int)
    ensures IsSession({}, d) <==> IsSession({}, d + 7)
    ensures IsSession(holidays, d) <==> IsSession({}, d) && d !in holidays
  {
  }

  /** `r` is the newest session up to `bound`. */
  ghost predicate Newest(holidays: set<int>, bound: int, r: Day) {
    IsSession(holidays, r) && r <= bound && forall s :: r < s <= bound ==> !IsSession(holidays, s)
  }

  ghost predicate NoneUpTo(holidays: set<int>, bound: int) {
    forall s :: FIRST_DAY <= s <= bound ==> !IsSession(holidays, s)
  }

  /** The backward loop finds the newest session on or strictly before a day; it runs off the calendar
      exactly when there is none. */
  method PreviousSession(holidays: set<int>, d: Day, strictlyBefore: bool) returns (r: Call<Day>)
    ensures var bound := if strictlyBefore then d - 1 else d;
            match r
            case Returned(s) => Newest(holidays, bound, s)
            case Overflow => NoneUpTo(holidays, bound)
  {
    var bound := if strictlyBefore then d - 1 else d;
    if bound < FIRST_DAY {
      return Overflow;
    }
    var candidate: Day := bound;
    while !IsSession(holidays, candidate)
      invariant candidate <= bound
      invariant forall s :: candidate < s <= bound ==> !IsSession(holidays, s)
      decreases candidate
    {
      if candidate == FIRST_DAY {
        return Overflow;
      }
      candidate := candidate - 1;
    }
    return Returned(candidate);
  }

  ghost function Mondays(weeks: nat): set<int> {
    set i | 0 <= i < weeks :: 1 + 7 * i
  }

  lemma {:induction false} MondaysCount(weeks: nat)
    ensures |Mondays(weeks)| == weeks
  {
    if weeks > 0 {
      MondaysCount(weeks - 1);
      assert Mondays(weeks) == Mondays(weeks - 1) + {1 + 7 * (weeks - 1)};
    }
  }

  /** Finitely many holidays cannot close every Monday: from seven days per holiday on, every search finds
      a session. */
  lemma HolidaysRunOut(holidays: set<int>, bound: int)
    requires bound > 7 * |holidays|
    ensures !NoneUpTo(holidays, bound)
  {
    var mondays := Mondays(|holidays| + 1);
    MondaysCount(|holidays| + 1);
    if mondays <= holidays {
      SubsetSize(mondays, holidays);
    }
    var day :| day in mondays && day !in holidays;
    var i :| 0 <= i < |holidays| + 1 && day == 1 + 7 * i;
    assert IsSession(holidays, day);
  }

  // ---------------------------------------------------------------- counting

  /** The sessions after `start` up to and including `end`. */
  ghost function Sessions(holidays: set<int>, start: int, end: int): set<int> {
    set s | start < s <= end && IsSession(holidays, s)
  }

  lemma SessionsStep(holidays: set<int>, start: int, cur: int)
    requires start < cur
    ensures |Sessions(holidays, start, cur)|
            == |Sessions(holidays, start, cur - 1)| + if IsSession(holidays, cur) then 1 else 0
  {
    var before := Sessions(holidays, start, cur - 1);
    if IsSession(holidays, cur) {
      assert Sessions(holidays, start, cur) == before + {cur};
    } else {
      assert Sessions(holidays, start, cur) == before;
    }
  }

  /** The counting loop counts the sessions of the half-open interval. Its last step past the end raises
      when the end is the last representable day. */
  method CountSessions(holidays: set<int>, start: Day, end: Day) returns (r: Call<nat>)
    ensures r == Overflow <==> start < end && end == LAST_DAY
    ensures r.Returned? ==> r.value == |Sessions(holidays, start, end)|
  {
    if end <= start {
      assert Sessions(holidays, start, end) == {};
      return Returned(0);
    }
    var sessions: nat := 0;
    var cur: Day := start + 1;
    assert Sessions(holidays, start, start) == {};
    while cur <= end
      invariant start < cur && cur <= end + 1
      invariant sessions == |Sessions(holidays, start, cur - 1)|
      decreases end - cur
    {
      SessionsStep(holidays, start, cur);
      if IsSession(holidays, cur) {
        sessions := sessions + 1;
      }
      if cur == LAST_DAY {
        return Overflow;
      }
      cur := cur + 1;
    }
    return Returned(sessions);
  }

  /** Counts of adjacent intervals add up. */
  lemma CountsAdd(holidays: set<int>, a: int, b: int, c: int)
    requires a <= b <= c
    ensures |Sessions(holidays, a, c)| == |Sessions(holidays, a, b)| + |Sessions(holidays, b, c)|
  {
    assert Sessions(holidays, a, c) == Sessions(holidays, a, b) + Sessions(holidays, b, c);
    assert Sessions(holidays, a, b) !! Sessions(holidays, b, c);
  }

  /** No session lies between a day and the newest session up to it. */
  lemma NothingSinceNewest(holidays: set<int>, d: int, r: Day)
    requires Newest(holidays, d, r)
    ensures Sessions(holidays, r, d) == {}
  {
  }

  // ---------------------------------------------------------------- settlement

  /** An instant in market-local time: the day and the microseconds since its midnight. */
  datatype Instant = Instant(day: Day, micros: nat)

  const CLOSE: nat := 16 * 3600 * 1000000

  /** What a later instant looks like in market time. The clock may run back, as it does in the repeated
      hour at the end of daylight saving, but neither over midnight nor over the close. */
  predicate NotAfter(a: Instant, b: Instant) {
    a.day < b.day || (a.day == b.day && (a.micros >= CLOSE ==> b.micros >= CLOSE))
  }

  /** The close of session `s` is at or before the instant. */
  predicate ClosedBy(s: int, c: Instant) {
    s < c.day || (s == c.day && c.micros >= CLOSE)
  }

  /** `r` is the greatest session whose close is knowable at the instant. */
  ghost predicate SettledAt(holidays: set<int>, c: Instant, r: Day) {
    && IsSession(holidays, r) && ClosedBy(r, c)
    && forall s :: s > r && IsSession(holidays, s) ==> !ClosedBy(s, c)
  }

  /** The settled session of a cutoff, or an overflow exactly when no session has closed yet. */
  method SettledSession(holidays: set<int>, c: Instant) returns (r: Call<Day>)
    ensures r.Returned? ==> SettledAt(holidays, c, r.value)
    ensures r.Returned? ==> r.value < c.day || (r.value == c.day && c.micros >= 16 * 60 * 60 * 1000000)
    ensures r.Returned? ==> forall s :: s > r.value && IsSession(holidays, s) ==>
              s > c.day || (s == c.day && c.micros < 16 * 60 * 60 * 1000000)
    ensures r == Overflow ==> forall s :: FIRST_DAY <= s && IsSession(holidays, s) ==> !ClosedBy(s, c)
  {
    if c.micros >= CLOSE {
      if IsSession(holidays, c.day) {
        r := Returned(c.day);
      } else {
        r := PreviousSession(holidays, c.day, true);
      }
    } else {
      r := PreviousSession(holidays, c.day, true);
    }
  }

  lemma SettledUnique(holidays: set<int>, c: Instant, r: Day, r': Day)
    requires SettledAt(holidays, c, r) && SettledAt(holidays, c, r')
    ensures r == r'
  {
  }

  /** A later cutoff never settles an earlier session, and the sessions counted between the two settled
      ones are exactly those that closed in between. */
  lemma SettlementIsMonotone(holidays: set<int>, c: Instant, c': Instant, r: Day, r': Day)
    requires NotAfter(c, c') && SettledAt(holidays, c, r) && SettledAt(holidays, c', r')
    ensures r <= r'
    ensures forall s :: s in Sessions(holidays, r, r') <==>
                        IsSession(holidays, s) && ClosedBy(s, c') && !ClosedBy(s, c)
  {
    if r' < r {
      assert ClosedBy(r, c');
    }
    forall s
      ensures s in Sessions(holidays, r, r') <==> IsSession(holidays, s) && ClosedBy(s, c') && !ClosedBy(s, c)
    {
      if IsSession(holidays, s) {
        assert ClosedBy(s, c) <==> s <= r;
        assert ClosedBy(s, c') <==> s <= r';
      }
    }
  }
}
