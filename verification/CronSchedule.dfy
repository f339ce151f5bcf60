/** `Schedule.Next` and `dayMatches` of `task/task.go`. */
module CronSchedule {
  import opened Text
  import opened Word64
  import opened Calendar
  import opened Arithmetic

  datatype Schedule = Schedule(second: Word, minute: Word, hour: Word, day: Word, month: Word, week: Word)

  predicate MonthMatches(s: Schedule, t: int) { Has(s.month, Month(t)) }

  predicate DayMatches(s: Schedule, t: int) {
    var domMatch := Has(s.day, Day(t));
    var dowMatch := Has(s.week, Weekday(t));
    if Has(s.day, 63) || Has(s.week, 63) then domMatch && dowMatch
    else domMatch || dowMatch
  }

  predicate HourMatches(s: Schedule, t: int) { Has(s.hour, Hour(t)) }

  predicate MinuteMatches(s: Schedule, t: int) { Has(s.minute, Minute(t)) }

  predicate SecondMatches(s: Schedule, t: int) { Has(s.second, Second(t)) }

  /** The instants at which a schedule fires. */
  predicate Matches(s: Schedule, t: int) {
    && MonthMatches(s, t) && DayMatches(s, t)
    && HourMatches(s, t) && MinuteMatches(s, t) && SecondMatches(s, t)
  }

  ghost predicate NoMatch(s: Schedule, from: int, to: int) {
    forall u :: from <= u < to ==> !Matches(s, u)
  }

  /** `r` is the least firing instant from `from` on, up to the end of year `limit`. */
  ghost predicate IsNext(s: Schedule, from: int, limit: int, r: Option<int>) {
    match r
    case None => forall u :: from <= u && Year(u) <= limit ==> !Matches(s, u)
    case Some(t) => from <= t && Year(t) <= limit && Matches(s, t) && NoMatch(s, from, t)
  }

  /** First instant of the year after `limit`. */
  ghost function End(limit: int): int { DaysBeforeYear(limit + 1) * DAY }

  ghost predicate MonthStart(t: int) { Day(t) == 1 && t % DAY == 0 }

  /** Once a field was advanced, a field that does not match stands at its own beginning. */
  ghost predicate Aligned(s: Schedule, t: int) {
    && (!MonthMatches(s, t) ==> MonthStart(t))
    && (!DayMatches(s, t) ==> t % DAY == 0)
    && (!HourMatches(s, t) ==> t % HOUR == 0)
    && (!MinuteMatches(s, t) ==> t % MINUTE == 0)
  }

  /** What every jump of the search keeps. */
  ghost predicate Searching(s: Schedule, from: int, limit: int, t: int, added: bool) {
    && from <= t <= End(limit)
    && NoMatch(s, from, t)
    && (added ==> Aligned(s, t))
  }

  lemma BeforeEnd(t: int, limit: int)
    ensures Year(t) <= limit <==> t < End(limit)
  {
    if Year(t) <= limit {
      YearsOrdered(Year(t) + 1, limit + 1);
    } else {
      YearsOrdered(limit + 1, Year(t));
    }
  }

  // ---- day of month and day of week ----

  /** Every day the day rule accepts has its day of the month in the field. */
  ghost predicate OnListedDays(s: Schedule) { forall t :: DayMatches(s, t) ==> Has(s.day, Day(t)) }

  /** A year whose January starts on weekday `w`. */
  lemma JanuaryOn(w: int) returns (y: int)
    requires 0 <= w < 7
    ensures (DaysBeforeYear(y) + 1) % 7 == w
  {
    y := if w == 0 then 6 else if w == 5 then 10 else if w == 6 then 5 else w;
    FirstYears();
  }

  lemma FirstYears()
    ensures DaysBeforeYear(1) == 0 && DaysBeforeYear(2) == 365 && DaysBeforeYear(3) == 730 && DaysBeforeYear(4) == 1095
    ensures DaysBeforeYear(5) == 1461 && DaysBeforeYear(6) == 1826 && DaysBeforeYear(10) == 3287
  {
    YearLength(1);
    YearLength(2);
    YearLength(3);
    YearLength(4);
    YearLength(5);
    YearLength(6);
    YearLength(7);
    YearLength(8);
    YearLength(9);
  }

  /** Some instant has any given day of the month and day of the week. */
  lemma DayAndWeekday(d: int, w: int) returns (t: int)
    requires 1 <= d <= 31 && 0 <= w < 7
    ensures Day(t) == d && Weekday(t) == w
  {
    var y := JanuaryOn((w - (d - 1)) % 7);
    var n := DaysBeforeYear(y) + d - 1;
    WeekShift(DaysBeforeYear(y) + 1, d - 1, w);
    t := n * DAY;
    Midnight(n);
    FieldsOf(t, y, 1);
  }

  lemma WeekShift(a: int, k: int, w: int)
    requires 0 <= w < 7 && a % 7 == (w - k) % 7
    ensures (a + k) % 7 == w
  {
    var q := a / 7 - (w - k) / 7;
    assert a + k == 7 * q + w;
  }

  /** A day field restricts a schedule to its own days exactly when one of the two fields is a
      star, no weekday is given, or the field lists every day. */
  lemma OnListedDaysIff(s: Schedule)
    ensures OnListedDays(s) <==>
            || Has(s.day, 63) || Has(s.week, 63)
            || (forall w :: 0 <= w < 7 ==> !Has(s.week, w))
            || (forall d :: 1 <= d <= 31 ==> Has(s.day, d))
  {
    if !Has(s.day, 63) && !Has(s.week, 63) {
      if w, d :| 0 <= w < 7 && Has(s.week, w) && 1 <= d <= 31 && !Has(s.day, d) {
        var t := DayAndWeekday(d, w);
        assert DayMatches(s, t);
      }
    }
  }

  /** The words of the documented example `0 0 0 1,15 * 1`. */
  const FIRST_AND_FIFTEENTH := Schedule({0}, {0}, {0}, {1, 15}, (set k: nat | 1 <= k <= 12) + {63}, {1})

  /** It fires at midnight of 8 January of year 1, a Monday. */
  lemma MondaysFireToo()
    ensures var t := 7 * DAY;
      Day(t) == 8 && Weekday(t) == 1 && Matches(FIRST_AND_FIFTEENTH, t) && !OnListedDays(FIRST_AND_FIFTEENTH)
  {
    var t := 7 * DAY;
    FirstYears();
    Midnight(7);
    FieldsOf(t, 1, 1);
  }

  // ---- the meaning of a schedule, field by field ----

  /** The field was given as a star: it does not restrict by itself. */
  predicate Unrestricted(field: Word) { Has(field, 63) }

  /** When a schedule fires, as the notation has it: second, minute, hour and month are listed;
      with a star for the days of the month or of the week, both days are listed (the star lists
      all), and without one, either is. */
  ghost predicate Fires(s: Schedule, t: int) {
    && Has(s.second, Second(t)) && Has(s.minute, Minute(t)) && Has(s.hour, Hour(t)) && Has(s.month, Month(t))
    && (Unrestricted(s.day) || Unrestricted(s.week) ==> Has(s.day, Day(t)) && Has(s.week, Weekday(t)))
    && (!Unrestricted(s.day) && !Unrestricted(s.week) ==> Has(s.day, Day(t)) || Has(s.week, Weekday(t)))
  }

  lemma MatchesIsFires(s: Schedule, t: int)
    ensures Matches(s, t) <==> Fires(s, t)
  {
  }

  /** Every day of the month is listed, by a star. */
  predicate EveryDay(s: Schedule) { Unrestricted(s.day) && forall d :: 1 <= d <= 31 ==> Has(s.day, d) }

  predicate EveryWeekday(s: Schedule) { Unrestricted(s.week) && forall w :: 0 <= w < 7 ==> Has(s.week, w) }

  predicate ClockMatches(s: Schedule, t: int) {
    Has(s.second, Second(t)) && Has(s.minute, Minute(t)) && Has(s.hour, Hour(t)) && Has(s.month, Month(t))
  }

  /** A star for the days of the month leaves exactly the listed weekdays, a star for the weekdays
      exactly the listed days of the month. */
  lemma StarLeavesTheOther(s: Schedule, t: int)
    ensures EveryDay(s) ==> (Matches(s, t) <==> ClockMatches(s, t) && Has(s.week, Weekday(t)))
    ensures EveryWeekday(s) ==> (Matches(s, t) <==> ClockMatches(s, t) && Has(s.day, Day(t)))
  {
    MatchesIsFires(s, t);
  }

  /** The words of `0 0 0 * * 1`. */
  const MONDAYS := Schedule({0}, {0}, {0}, (set k: nat | 1 <= k <= 31) + {63}, (set k: nat | 1 <= k <= 12) + {63}, {1})

  // ---- one lemma per unit: what truncating and adding one unit does ----

  lemma DaysSpan(a: int, b: int, u: int)
    ensures a * DAY <= u < b * DAY <==> a <= DayNumber(u) < b
  {
  }

  lemma Midnight(n: int)
    ensures var t := n * DAY;
      && DayNumber(t) == n && t % DAY == 0 && t % HOUR == 0 && t % MINUTE == 0
      && Hour(t) == 0 && Minute(t) == 0 && Second(t) == 0
  {
    ClockParts(n, 0, 0, 0);
    SplitHour(24 * n, 0);
  }

  lemma ThirteenthMonth(y: int, m: int)
    requires m == 13
    ensures Date(y, m, 1, 0, 0, 0) == FirstOfMonth(y, m) * DAY
  {
    YearIsTwelveMonths(y);
    assert (m - 1) / 12 == 1 && (m - 1) % 12 == 0;
    assert y + (m - 1) / 12 == y + 1;
    assert FirstOfMonth(y + 1, 1) == FirstOfMonth(y, m);
  }

  /** `time.Date` with month 13 carries into the next year. */
  lemma DateCarriesMonth(y: int, m: int)
    requires 1 <= m <= 12
    ensures Date(y, m + 1, 1, 0, 0, 0) == FirstOfMonth(y, m + 1) * DAY
  {
    if m < 12 {
      DateInYear(y, m + 1, 1, 0, 0, 0);
    } else {
      ThirteenthMonth(y, m + 1);
    }
  }

  /** Truncation to the month, and one month later, as day numbers. */
  lemma MonthEdges(t: int)
    ensures var first := Date(Year(t), Month(t), 1, 0, 0, 0);
      && first == FirstOfMonth(Year(t), Month(t)) * DAY
      && AddDate(first, 0, 1, 0) == FirstOfMonth(Year(t), Month(t) + 1) * DAY
  {
    DateInYear(Year(t), Month(t), 1, 0, 0, 0);
    DateRoundTrip(Year(t), Month(t), 1, 0, 0, 0);
    DateCarriesMonth(Year(t), Month(t));
  }

  lemma NextMonth(y: int, m: int, t: int)
    requires 1 <= m <= 12 && t == FirstOfMonth(y, m + 1) * DAY
    ensures Day(t) == 1
    ensures Month(t) == if m == 12 then 1 else m + 1
    ensures Year(t) == if m == 12 then y + 1 else y
  {
    Midnight(FirstOfMonth(y, m + 1));
    if m < 12 {
      FieldsOf(t, y, m + 1);
    } else {
      YearIsTwelveMonths(y);
      FieldsOf(t, y + 1, 1);
    }
  }

  lemma MonthSpan(t: int, first: int, next: int)
    requires first == FirstOfMonth(Year(t), Month(t)) * DAY && next == FirstOfMonth(Year(t), Month(t) + 1) * DAY
    ensures first <= t < next
    ensures forall u :: first <= u < next ==> Month(u) == Month(t)
  {
    var y, m := Year(t), Month(t);
    DayInMonth(t);
    DaysSpan(FirstOfMonth(y, m), FirstOfMonth(y, m + 1), t);
    forall u | first <= u < next
      ensures Month(u) == m
    {
      DaysSpan(FirstOfMonth(y, m), FirstOfMonth(y, m + 1), u);
      FieldsOf(u, y, m);
    }
  }

  lemma MonthStartIsFirst(t: int)
    requires MonthStart(t)
    ensures t == FirstOfMonth(Year(t), Month(t)) * DAY
  {
    DayInMonth(t);
    assert t == DayNumber(t) * DAY;
  }

  lemma MonthJump(t: int, first: int, next: int)
    requires first == Date(Year(t), Month(t), 1, 0, 0, 0)
    requires next == AddDate(first, 0, 1, 0)
    ensures first <= t < next
    ensures MonthStart(t) ==> first == t
    ensures forall u :: first <= u < next ==> Month(u) == Month(t)
    ensures MonthStart(next) && next % HOUR == 0 && next % MINUTE == 0
    ensures Month(next) == if Month(t) == 12 then 1 else Month(t) + 1
    ensures Year(next) == if Month(t) == 12 then Year(t) + 1 else Year(t)
  {
    MonthEdges(t);
    MonthSpan(t, first, next);
    if MonthStart(t) {
      MonthStartIsFirst(t);
    }
    Midnight(FirstOfMonth(Year(t), Month(t) + 1));
    NextMonth(Year(t), Month(t), next);
  }

  /** Truncation to the day, and one day later, as day numbers. */
  lemma DayEdges(t: int)
    ensures var first := Date(Year(t), Month(t), Day(t), 0, 0, 0);
      && first == DayNumber(t) * DAY
      && AddDate(first, 0, 0, 1) == (DayNumber(t) + 1) * DAY
  {
    DayInMonth(t);
    DateInYear(Year(t), Month(t), Day(t), 0, 0, 0);
    DateRoundTrip(Year(t), Month(t), Day(t), 0, 0, 0);
    DateInYear(Year(t), Month(t), Day(t) + 1, 0, 0, 0);
  }

  lemma NextDay(t: int, next: int)
    requires DayNumber(next) == DayNumber(t) + 1
    ensures Day(next) != 1 ==> Month(next) == Month(t)
  {
    var y, m := Year(t), Month(t);
    DayInMonth(t);
    if Day(t) < DaysIn(y, m) {
      FieldsOf(next, y, m);
    } else if m < 12 {
      FieldsOf(next, y, m + 1);
    } else {
      YearIsTwelveMonths(y);
      FieldsOf(next, y + 1, 1);
    }
  }

  lemma DayJump(t: int, first: int, next: int)
    requires first == Date(Year(t), Month(t), Day(t), 0, 0, 0)
    requires next == AddDate(first, 0, 0, 1)
    ensures first <= t < next == first + DAY
    ensures t % DAY == 0 ==> first == t
    ensures forall u :: first <= u < next ==> DayNumber(u) == DayNumber(t)
    ensures next % DAY == 0 && next % HOUR == 0 && next % MINUTE == 0
    ensures Day(next) != 1 ==> Month(next) == Month(t)
  {
    DayEdges(t);
    DaysSpan(DayNumber(t), DayNumber(t) + 1, t);
    forall u | first <= u < next
      ensures DayNumber(u) == DayNumber(t)
    {
      DaysSpan(DayNumber(t), DayNumber(t) + 1, u);
    }
    Midnight(DayNumber(t) + 1);
    NextDay(t, next);
  }

  lemma HourJump(t: int, first: int, next: int)
    requires first == Date(Year(t), Month(t), Day(t), Hour(t), 0, 0)
    requires next == first + HOUR
    ensures first <= t < next
    ensures t % HOUR == 0 ==> first == t
    ensures forall u :: first <= u < next ==> Hour(u) == Hour(t) && DayNumber(u) == DayNumber(t)
    ensures next % HOUR == 0
  {
    DayInMonth(t);
    DateInYear(Year(t), Month(t), Day(t), Hour(t), 0, 0);
    ClockOf(t);
    HourGrid(t, first, next);
  }

  lemma HourGrid(t: int, first: int, next: int)
    requires first == DayNumber(t) * DAY + Hour(t) * HOUR && next == first + HOUR
    ensures first <= t < next
    ensures t % HOUR == 0 ==> first == t
    ensures forall u :: first <= u < next ==> Hour(u) == Hour(t) && DayNumber(u) == DayNumber(t)
    ensures next % HOUR == 0
  {
    var n, h := DayNumber(t), Hour(t);
    SplitHour(24 * n + h, t - first);
    forall u | first <= u < next
      ensures Hour(u) == h && DayNumber(u) == n
    {
      SplitDay(n, u - n * DAY);
      SplitHour(h, u - first);
    }
    SplitHour(24 * n + h + 1, 0);
  }

  lemma MinuteJump(t: int, first: int, next: int)
    requires first == Date(Year(t), Month(t), Day(t), Hour(t), Minute(t), 0)
    requires next == first + MINUTE
    ensures first <= t < next
    ensures t % MINUTE == 0 ==> first == t
    ensures forall u :: first <= u < next ==> Minute(u) == Minute(t) && Hour(u) == Hour(t) && DayNumber(u) == DayNumber(t)
    ensures next % MINUTE == 0
  {
    DayInMonth(t);
    DateInYear(Year(t), Month(t), Day(t), Hour(t), Minute(t), 0);
    ClockOf(t);
    MinuteGrid(t, first, next);
  }

  lemma MinuteGrid(t: int, first: int, next: int)
    requires first == DayNumber(t) * DAY + Hour(t) * HOUR + Minute(t) * MINUTE && next == first + MINUTE
    ensures first <= t < next
    ensures t % MINUTE == 0 ==> first == t
    ensures forall u :: first <= u < next ==> Minute(u) == Minute(t) && Hour(u) == Hour(t) && DayNumber(u) == DayNumber(t)
    ensures next % MINUTE == 0
  {
    ClockOf(t);
    var n, h, m := DayNumber(t), Hour(t), Minute(t);
    forall u | first <= u < next
      ensures Minute(u) == m && Hour(u) == h && DayNumber(u) == n
    {
      ClockParts(n, h, m, u - first);
    }
    SplitMinute(60 * (24 * n + h) + m + 1, 0);
  }

  /** What the next second can change. */
  lemma Tick(q: int)
    ensures DayNumber(q) == if q % DAY == 0 then DayNumber(q - 1) + 1 else DayNumber(q - 1)
    ensures q % DAY == 0 ==> Hour(q) == 0 && q % HOUR == 0
    ensures q % HOUR == 0 ==> Minute(q) == 0 && q % MINUTE == 0
    ensures q % HOUR != 0 ==> Hour(q) == Hour(q - 1)
    ensures q % MINUTE == 0 ==> Second(q) == 0
    ensures q % MINUTE != 0 ==> Minute(q) == Minute(q - 1)
  {
    var p := q - 1;
    var n, h, m, s := DayNumber(p), Hour(p), Minute(p), Second(p);
    ClockOf(p);
    if s < 59 {
      ClockParts(n, h, m, s + 1);
      TickWithin(q);
    } else if m < 59 {
      ClockParts(n, h, m + 1, 0);
      TickWithin(q);
    } else if h < 23 {
      ClockParts(n, h + 1, 0, 0);
      TickWithin(q);
    } else {
      Midnight(n + 1);
    }
  }

  lemma TickWithin(q: int)
    ensures q % MINUTE == Second(q)
    ensures q % HOUR == Minute(q) * MINUTE + Second(q)
    ensures q % DAY == Hour(q) * HOUR + Minute(q) * MINUTE + Second(q)
  {
    ClockOf(q);
    var n, h, m, s := DayNumber(q), Hour(q), Minute(q), Second(q);
    SplitDay(n, h * HOUR + m * MINUTE + s);
    SplitHour(24 * n + h, m * MINUTE + s);
  }

  lemma EndOnGrid(limit: int)
    ensures End(limit) % DAY == 0 && End(limit) % HOUR == 0 && End(limit) % MINUTE == 0
  {
    Midnight(DaysBeforeYear(limit + 1));
  }

  // ---- one lemma per loop: the jump keeps the search invariant ----

  /** Skipping to `next` loses no firing instant when one field fails all the way. */
  ghost predicate Skips(s: Schedule, t: int, next: int) { t < next && NoMatch(s, t, next) }

  lemma SkipOn(s: Schedule, from: int, t: int, next: int)
    requires NoMatch(s, from, t) && Skips(s, t, next)
    ensures NoMatch(s, from, next)
  {
  }

  lemma MonthSkip(s: Schedule, t: int, added: bool, next: int)
    requires !MonthMatches(s, t) && (added ==> Aligned(s, t))
    requires next == AddDate(if added then t else Date(Year(t), Month(t), 1, 0, 0, 0), 0, 1, 0)
    ensures Skips(s, t, next) && Aligned(s, next)
    ensures Month(next) != 1 ==> Year(next) == Year(t)
    ensures Month(next) == 1 ==> Day(next) == 1 && next % DAY == 0 && Year(next) == Year(t) + 1
  {
    var first := Date(Year(t), Month(t), 1, 0, 0, 0);
    MonthJump(t, first, AddDate(first, 0, 1, 0));
    assert added ==> t == first;
    forall u | t <= u < next
      ensures !Matches(s, u)
    {
      assert Month(u) == Month(t);
      assert !MonthMatches(s, u);
    }
  }

  lemma DaySkip(s: Schedule, t: int, added: bool, next: int)
    requires MonthMatches(s, t) && !DayMatches(s, t) && (added ==> Aligned(s, t))
    requires next == AddDate(if added then t else Date(Year(t), Month(t), Day(t), 0, 0, 0), 0, 0, 1)
    ensures Skips(s, t, next) && Aligned(s, next)
    ensures Day(next) != 1 ==> MonthMatches(s, next)
    ensures next % DAY == 0 && next - DAY <= t
  {
    var first := Date(Year(t), Month(t), Day(t), 0, 0, 0);
    DayJump(t, first, AddDate(first, 0, 0, 1));
    assert added ==> t == first;
    forall u | t <= u < next
      ensures !Matches(s, u)
    {
      SameDay(s, u, t);
    }
  }

  lemma SameDay(s: Schedule, p: int, q: int)
    requires DayNumber(p) == DayNumber(q)
    ensures Year(p) == Year(q) && Month(p) == Month(q) && Day(p) == Day(q)
    ensures MonthMatches(s, p) == MonthMatches(s, q) && DayMatches(s, p) == DayMatches(s, q)
  {
  }

  /** A jump of at most a day that lands on the grid of the fields that failed. */
  lemma LandsAligned(s: Schedule, q: int)
    requires MonthMatches(s, q - 1)
    requires DayMatches(s, q - 1) || q % DAY == 0
    requires HourMatches(s, q - 1) || q % HOUR == 0
    requires MinuteMatches(s, q - 1) || q % MINUTE == 0
    ensures Aligned(s, q)
    ensures Day(q) != 1 || q % DAY != 0 ==> MonthMatches(s, q)
    ensures Hour(q) != 0 ==> MonthMatches(s, q) && (DayMatches(s, q - 1) ==> DayMatches(s, q))
    ensures Minute(q) != 0 ==> Hour(q) == Hour(q - 1) && DayNumber(q) == DayNumber(q - 1)
    ensures Second(q) != 0 ==> Minute(q) == Minute(q - 1) && Hour(q) == Hour(q - 1) && DayNumber(q) == DayNumber(q - 1)
  {
    Tick(q);
    if q % DAY == 0 {
      NextDay(q - 1, q);
    } else {
      SameDay(s, q - 1, q);
    }
  }

  lemma HourSkip(s: Schedule, t: int, added: bool, next: int)
    requires MonthMatches(s, t) && DayMatches(s, t) && !HourMatches(s, t) && (added ==> Aligned(s, t))
    requires next == (if added then t else Date(Year(t), Month(t), Day(t), Hour(t), 0, 0)) + HOUR
    ensures Skips(s, t, next) && Aligned(s, next)
    ensures Hour(next) != 0 ==> MonthMatches(s, next) && DayMatches(s, next)
    ensures next % HOUR == 0 && next - HOUR <= t
  {
    var first := Date(Year(t), Month(t), Day(t), Hour(t), 0, 0);
    HourJump(t, first, first + HOUR);
    assert next == first + HOUR;
    forall u | t <= u < next
      ensures !Matches(s, u)
    {
      assert !HourMatches(s, u);
    }
    SameDay(s, t, next - 1);
    Tick(next);
    LandsAligned(s, next);
  }

  lemma MinuteSkip(s: Schedule, t: int, added: bool, next: int)
    requires MonthMatches(s, t) && DayMatches(s, t) && HourMatches(s, t) && !MinuteMatches(s, t)
    requires added ==> Aligned(s, t)
    requires next == (if added then t else Date(Year(t), Month(t), Day(t), Hour(t), Minute(t), 0)) + MINUTE
    ensures Skips(s, t, next) && Aligned(s, next)
    ensures Minute(next) != 0 ==> MonthMatches(s, next) && DayMatches(s, next) && HourMatches(s, next)
    ensures next % MINUTE == 0 && next - MINUTE <= t
  {
    var first := Date(Year(t), Month(t), Day(t), Hour(t), Minute(t), 0);
    MinuteJump(t, first, first + MINUTE);
    assert next == first + MINUTE;
    forall u | t <= u < next
      ensures !Matches(s, u)
    {
      assert !MinuteMatches(s, u);
    }
    SameDay(s, t, next - 1);
    MinuteLands(s, next);
  }

  lemma MinuteLands(s: Schedule, next: int)
    requires MonthMatches(s, next - 1) && DayMatches(s, next - 1) && HourMatches(s, next - 1) && next % MINUTE == 0
    ensures Aligned(s, next)
    ensures Minute(next) != 0 ==> MonthMatches(s, next) && DayMatches(s, next) && HourMatches(s, next)
  {
    LandsAligned(s, next);
    if Minute(next) != 0 {
      SameDay(s, next - 1, next);
    }
  }

  lemma SecondSkip(s: Schedule, t: int, added: bool, next: int)
    requires MonthMatches(s, t) && DayMatches(s, t) && HourMatches(s, t) && MinuteMatches(s, t) && !SecondMatches(s, t)
    requires next == (if added then t else Date(Year(t), Month(t), Day(t), Hour(t), Minute(t), Second(t))) + 1
    ensures Skips(s, t, next) && Aligned(s, next) && next == t + 1
    ensures Second(next) != 0 ==>
              MonthMatches(s, next) && DayMatches(s, next) && HourMatches(s, next) && MinuteMatches(s, next)
  {
    DateOfFields(t);
    LandsAligned(s, next);
  }

  /** On a grid, a point that is less than one unit behind another is not behind it. */
  lemma GridOrder(a: int, b: int, unit: int)
    requires unit > 0 && a % unit == 0 && b % unit == 0 && a - unit < b
    ensures a <= b
  {
    var d := a / unit - b / unit;
    assert d * unit == a - b;
    NoSmallMultiple(d, unit);
  }

  /** A jump on a unit's grid that starts before the end of the limit year stays within it. */
  lemma StaysWithin(t: int, next: int, unit: int, limit: int)
    requires unit == DAY || unit == HOUR || unit == MINUTE
    requires t < End(limit) && next % unit == 0 && next - unit <= t
    ensures next <= End(limit)
  {
    EndOnGrid(limit);
    GridOrder(next, End(limit), unit);
  }

  /** The end of the limit year is the first instant of a January. */
  lemma EndIsNewYear(limit: int)
    ensures Month(End(limit)) == 1 && Day(End(limit)) == 1
    ensures Hour(End(limit)) == 0 && Minute(End(limit)) == 0 && Second(End(limit)) == 0
  {
    Midnight(DaysBeforeYear(limit + 1));
    FieldsOf(End(limit), limit + 1, 1);
  }

  lemma MonthWithin(t: int, next: int, limit: int)
    requires t < End(limit)
    requires Month(next) != 1 ==> Year(next) == Year(t)
    requires Month(next) == 1 ==> Day(next) == 1 && next % DAY == 0 && Year(next) == Year(t) + 1
    ensures next <= End(limit)
    ensures Month(next) != 1 ==> next < End(limit)
  {
    BeforeEnd(t, limit);
    BeforeEnd(next, limit);
    if Month(next) == 1 {
      DayInMonth(next);
      ClockOf(next);
      YearsOrdered(Year(next), limit + 1);
    }
  }

  lemma MonthStep(s: Schedule, from: int, limit: int, t: int, added: bool, next: int)
    requires Searching(s, from, limit, t, added) && t < End(limit)
    requires !MonthMatches(s, t)
    requires next == AddDate(if added then t else Date(Year(t), Month(t), 1, 0, 0, 0), 0, 1, 0)
    ensures t < next && Searching(s, from, limit, next, true)
    ensures Month(next) != 1 ==> next < End(limit)
  {
    MonthSkip(s, t, added, next);
    SkipOn(s, from, t, next);
    MonthWithin(t, next, limit);
  }

  lemma DayStep(s: Schedule, from: int, limit: int, t: int, added: bool, next: int)
    requires Searching(s, from, limit, t, added) && t < End(limit)
    requires MonthMatches(s, t) && !DayMatches(s, t)
    requires next == AddDate(if added then t else Date(Year(t), Month(t), Day(t), 0, 0, 0), 0, 0, 1)
    ensures t < next && Searching(s, from, limit, next, true)
    ensures Day(next) != 1 ==> next < End(limit) && MonthMatches(s, next)
  {
    DaySkip(s, t, added, next);
    SkipOn(s, from, t, next);
    StaysWithin(t, next, DAY, limit);
    if next == End(limit) {
      EndIsNewYear(limit);
    }
  }

  lemma HourStep(s: Schedule, from: int, limit: int, t: int, added: bool, next: int)
    requires Searching(s, from, limit, t, added) && t < End(limit)
    requires MonthMatches(s, t) && DayMatches(s, t) && !HourMatches(s, t)
    requires next == (if added then t else Date(Year(t), Month(t), Day(t), Hour(t), 0, 0)) + HOUR
    ensures t < next && Searching(s, from, limit, next, true)
    ensures Hour(next) != 0 ==> next < End(limit) && MonthMatches(s, next) && DayMatches(s, next)
  {
    HourSkip(s, t, added, next);
    SkipOn(s, from, t, next);
    StaysWithin(t, next, HOUR, limit);
    if next == End(limit) {
      EndIsNewYear(limit);
    }
  }

  lemma MinuteStep(s: Schedule, from: int, limit: int, t: int, added: bool, next: int)
    requires Searching(s, from, limit, t, added) && t < End(limit)
    requires MonthMatches(s, t) && DayMatches(s, t) && HourMatches(s, t) && !MinuteMatches(s, t)
    requires next == (if added then t else Date(Year(t), Month(t), Day(t), Hour(t), Minute(t), 0)) + MINUTE
    ensures t < next && Searching(s, from, limit, next, true)
    ensures Minute(next) != 0 ==> next < End(limit) && MonthMatches(s, next) && DayMatches(s, next) && HourMatches(s, next)
  {
    MinuteSkip(s, t, added, next);
    SkipOn(s, from, t, next);
    StaysWithin(t, next, MINUTE, limit);
    if next == End(limit) {
      EndIsNewYear(limit);
    }
  }

  lemma SecondStep(s: Schedule, from: int, limit: int, t: int, added: bool, next: int)
    requires Searching(s, from, limit, t, added) && t < End(limit)
    requires MonthMatches(s, t) && DayMatches(s, t) && HourMatches(s, t) && MinuteMatches(s, t) && !SecondMatches(s, t)
    requires next == (if added then t else Date(Year(t), Month(t), Day(t), Hour(t), Minute(t), Second(t))) + 1
    ensures t < next && Searching(s, from, limit, next, true)
    ensures Second(next) != 0 ==> next < End(limit)
    ensures Second(next) != 0 ==> MonthMatches(s, next) && DayMatches(s, next) && HourMatches(s, next) && MinuteMatches(s, next)
  {
    SecondSkip(s, t, added, next);
    SkipOn(s, from, t, next);
    if next == End(limit) {
      EndIsNewYear(limit);
    }
  }

  lemma SearchExhausted(s: Schedule, from: int, limit: int, t: int, added: bool)
    requires Searching(s, from, limit, t, added) && Year(t) > limit
    ensures IsNext(s, from, limit, None)
  {
    BeforeEnd(t, limit);
    forall u | from <= u && Year(u) <= limit
      ensures !Matches(s, u)
    {
      BeforeEnd(u, limit);
    }
  }

  /** The obvious search: try every second up to the end of the limit year. */
  ghost function Scan(s: Schedule, t: int, limit: int): Option<int>
    decreases if t < End(limit) then End(limit) - t else 0
  {
    if t >= End(limit) then None
    else if Matches(s, t) then Some(t)
    else Scan(s, t + 1, limit)
  }

  lemma NextFromLater(s: Schedule, t: int, limit: int, r: Option<int>)
    requires !Matches(s, t) && IsNext(s, t + 1, limit, r)
    ensures IsNext(s, t, limit, r)
  {
  }

  lemma PastTheEnd(t: int, limit: int)
    requires t >= End(limit)
    ensures forall u :: t <= u ==> Year(u) > limit
  {
    forall u | t <= u
      ensures Year(u) > limit
    {
      BeforeEnd(u, limit);
    }
  }

  lemma {:induction false} ScanIsNext(s: Schedule, t: int, limit: int)
    ensures IsNext(s, t, limit, Scan(s, t, limit))
    decreases if t < End(limit) then End(limit) - t else 0
  {
    BeforeEnd(t, limit);
    if t >= End(limit) {
      PastTheEnd(t, limit);
    } else if !Matches(s, t) {
      ScanIsNext(s, t + 1, limit);
      NextFromLater(s, t, limit, Scan(s, t + 1, limit));
    }
  }

  /** The specification leaves no choice. */
  lemma NextUnique(s: Schedule, from: int, limit: int, a: Option<int>, b: Option<int>)
    requires IsNext(s, from, limit, a) && IsNext(s, from, limit, b)
    ensures a == b
  {
  }

  /** After midnight of a Monday, `0 0 0 * * 1` fires next a week later. */
  lemma NextMonday(n: int, now: int, t: int)
    requires now == n * DAY && t == (n + 7) * DAY && Weekday(now) == 1
    ensures NextOf(MONDAYS, now) == Some(t)
  {
    var limit := Year(now + 1) + 5;
    WeekLater(n, limit);
    NoMondayBetween(n);
    NextIs(MONDAYS, now, t);
  }

  lemma NextIs(s: Schedule, now: int, t: int)
    requires IsNext(s, now + 1, Year(now + 1) + 5, Some(t))
    ensures NextOf(s, now) == Some(t)
  {
    ScanIsNext(s, now + 1, Year(now + 1) + 5);
    NextUnique(s, now + 1, Year(now + 1) + 5, Some(t), NextOf(s, now));
  }

  lemma NoMondayBetween(n: int)
    requires Weekday(n * DAY) == 1
    ensures NoMatch(MONDAYS, n * DAY + 1, (n + 7) * DAY)
  {
    forall u | n * DAY + 1 <= u < (n + 7) * DAY
      ensures !Matches(MONDAYS, u)
    {
      NotMonday(n, u);
    }
  }

  lemma WeekLater(n: int, limit: int)
    requires Weekday(n * DAY) == 1 && limit == Year(n * DAY + 1) + 5
    ensures Matches(MONDAYS, (n + 7) * DAY) && Year((n + 7) * DAY) <= limit
  {
    Midnight(n);
    Midnight(n + 7);
    assert Weekday((n + 7) * DAY) == 1;
    StarLeavesTheOther(MONDAYS, (n + 7) * DAY);
    BeforeEnd(n * DAY + 1, limit - 5);
    YearsOrdered(limit - 4, limit + 1);
    BeforeEnd((n + 7) * DAY, limit);
  }

  lemma NotMonday(n: int, u: int)
    requires Weekday(n * DAY) == 1 && n * DAY < u < (n + 7) * DAY
    ensures !Matches(MONDAYS, u)
  {
    StarLeavesTheOther(MONDAYS, u);
    if Hour(u) == 0 && Minute(u) == 0 && Second(u) == 0 {
      ClockOf(u);
      Midnight(n);
      assert n < DayNumber(u) < n + 7;
      NoSeventh(n + 1, DayNumber(u) - n);
    }
  }

  lemma NoSeventh(a: int, k: int)
    requires a % 7 == 1 && 0 < k < 7
    ensures (a + k) % 7 != 1
  {
    assert a == 7 * (a / 7) + 1;
  }

  /** The next instant fires and none before it does, in the words of the fields. */
  lemma NextFires(s: Schedule, sec: int)
    ensures var r, limit := NextOf(s, sec), Year(sec + 1) + 5;
      && (r.Some? ==> sec < r.value && Year(r.value) <= limit && Fires(s, r.value))
      && (forall u :: sec < u && Year(u) <= limit && (r.Some? ==> u < r.value) ==> !Fires(s, u))
  {
    var r, limit := NextOf(s, sec), Year(sec + 1) + 5;
    ScanIsNext(s, sec + 1, limit);
    if r.Some? {
      MatchesIsFires(s, r.value);
    }
    forall u | sec < u && Year(u) <= limit && (r.Some? ==> u < r.value)
      ensures !Fires(s, u)
    {
      MatchesIsFires(s, u);
    }
  }

  /** What `Next` returns for a start in second `sec`. */
  ghost function NextOf(s: Schedule, sec: int): Option<int> { Scan(s, sec + 1, Year(sec + 1) + 5) }

  method Next(s: Schedule, sec: int, nano: nat) returns (r: Option<int>)
    requires nano < 1_000_000_000
    ensures IsNext(s, sec + 1, Year(sec + 1) + 5, r)
    ensures r == NextOf(s, sec)
    ensures r.Some? ==> sec < r.value && Year(r.value) <= Year(sec + 1) + 5 && Fires(s, r.value)
    ensures forall u :: sec < u && Year(u) <= Year(sec + 1) + 5 && (r.Some? ==> u < r.value) ==> !Fires(s, u)
  {
    NextFires(s, sec);
    ScanIsNext(s, sec + 1, Year(sec + 1) + 5);
    // t.Add(1*time.Second - t.Nanosecond()) drops the fraction and moves to the upcoming second.
    var t := sec + 1;
    ghost var from := t;
    var added := false;
    var yearLimit := Year(t) + 5;
    BeforeEnd(t, yearLimit);
    label Wrap:
    while true
      invariant Searching(s, from, yearLimit, t, added)
      decreases End(yearLimit) - t
    {
      BeforeEnd(t, yearLimit);
      if Year(t) > yearLimit {
        SearchExhausted(s, from, yearLimit, t, added);
        NextUnique(s, from, yearLimit, None, NextOf(s, sec));
        return None;
      }

      ghost var head := t;

      while !MonthMatches(s, t)
        invariant Searching(s, from, yearLimit, t, added) && head <= t < End(yearLimit)
        decreases End(yearLimit) - t
      {
        ghost var before, wasAdded := t, added;
        if !added {
          added := true;
          t := Date(Year(t), Month(t), 1, 0, 0, 0);
        }
        t := AddDate(t, 0, 1, 0);
        MonthStep(s, from, yearLimit, before, wasAdded, t);
        if Month(t) == 1 {
          continue Wrap;
        }
      }

      while !DayMatches(s, t)
        invariant Searching(s, from, yearLimit, t, added) && head <= t < End(yearLimit)
        invariant MonthMatches(s, t)
        decreases End(yearLimit) - t
      {
        ghost var before, wasAdded := t, added;
        if !added {
          added := true;
          t := Date(Year(t), Month(t), Day(t), 0, 0, 0);
        }
        t := AddDate(t, 0, 0, 1);
        DayStep(s, from, yearLimit, before, wasAdded, t);
        if Day(t) == 1 {
          continue Wrap;
        }
      }

      while !HourMatches(s, t)
        invariant Searching(s, from, yearLimit, t, added) && head <= t < End(yearLimit)
        invariant MonthMatches(s, t) && DayMatches(s, t)
        decreases End(yearLimit) - t
      {
        ghost var before, wasAdded := t, added;
        if !added {
          added := true;
          t := Date(Year(t), Month(t), Day(t), Hour(t), 0, 0);
        }
        t := t + HOUR;
        HourStep(s, from, yearLimit, before, wasAdded, t);
        if Hour(t) == 0 {
          continue Wrap;
        }
      }

      while !MinuteMatches(s, t)
        invariant Searching(s, from, yearLimit, t, added) && head <= t < End(yearLimit)
        invariant MonthMatches(s, t) && DayMatches(s, t) && HourMatches(s, t)
        decreases End(yearLimit) - t
      {
        ghost var before, wasAdded := t, added;
        if !added {
          added := true;
          t := Date(Year(t), Month(t), Day(t), Hour(t), Minute(t), 0);
        }
        t := t + MINUTE;
        MinuteStep(s, from, yearLimit, before, wasAdded, t);
        if Minute(t) == 0 {
          continue Wrap;
        }
      }

      while !SecondMatches(s, t)
        invariant Searching(s, from, yearLimit, t, added) && head <= t < End(yearLimit)
        invariant MonthMatches(s, t) && DayMatches(s, t) && HourMatches(s, t) && MinuteMatches(s, t)
        decreases End(yearLimit) - t
      {
        ghost var before, wasAdded := t, added;
        if !added {
          added := true;
          t := Date(Year(t), Month(t), Day(t), Hour(t), Minute(t), Second(t));
        }
        t := t + 1;
        SecondStep(s, from, yearLimit, before, wasAdded, t);
        if Second(t) == 0 {
          continue Wrap;
        }
      }

      BeforeEnd(t, yearLimit);
      NextUnique(s, from, yearLimit, Some(t), NextOf(s, sec));
      return Some(t);
    }
  }
}
