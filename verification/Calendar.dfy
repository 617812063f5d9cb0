/**
 Expansion of partial dates: a year, a month or a day becomes the range from its first to its
 last second. The end is computed as the source does, by adding one period to the start and
 taking one second off, in civil-date arithmetic that fails beyond year 9999.
 */
module Calendar {
  import opened Wrappers

  datatype DateTime = DateTime(year: int, month: int, day: int, hour: int, minute: int, second: int)

  // What a date string without a time names.
  datatype Period = Year(year: int) | Month(year: int, month: int) | Day(year: int, month: int, day: int)

  predicate IsLeap(year: int) {
    year % 4 == 0 && (year % 100 != 0 || year % 400 == 0)
  }

  function DaysInMonth(year: int, month: int): int {
    if month == 2 then (if IsLeap(year) then 29 else 28)
    else if month in {4, 6, 9, 11} then 30
    else 31
  }

  predicate Valid(t: DateTime) {
    && 1 <= t.year <= 9999 && 1 <= t.month <= 12 && 1 <= t.day <= DaysInMonth(t.year, t.month)
    && 0 <= t.hour < 24 && 0 <= t.minute < 60 && 0 <= t.second < 60
  }

  // The Gregorian months.
  lemma MonthLengths(year: int, month: int)
    requires 1 <= month <= 12
    ensures DaysInMonth(year, month) ==
            [31, if (year % 4 == 0 && year % 100 != 0) || year % 400 == 0 then 29 else 28, 31, 30, 31, 30,
             31, 31, 30, 31, 30, 31][month - 1]
  {
    LeapCycles(year);
  }

  // ---- Seconds since the first of January of year 1 ----

  function DaysBeforeYear(year: int): int {
    365 * (year - 1) + (year - 1) / 4 - (year - 1) / 100 + (year - 1) / 400
  }

  function DaysBeforeMonth(year: int, month: int): int {
    if month <= 1 then 0 else DaysBeforeMonth(year, month - 1) + DaysInMonth(year, month - 1)
  }

  function DayNumber(year: int, month: int, day: int): int {
    DaysBeforeYear(year) + DaysBeforeMonth(year, month) + day - 1
  }

  function Instant(t: DateTime): int {
    DayNumber(t.year, t.month, t.day) * 86400 + t.hour * 3600 + t.minute * 60 + t.second
  }

  lemma YearLength(year: int)
    requires year >= 1
    ensures DaysBeforeYear(year + 1) == DaysBeforeYear(year) + if IsLeap(year) then 366 else 365
  {
    EveryFourth(year);
    EveryHundredth(year);
    EveryFourHundredth(year);
    LeapCycles(year);
  }

  lemma EveryFourth(n: int)
    ensures n / 4 == (n - 1) / 4 + if n % 4 == 0 then 1 else 0
  {
  }

  lemma EveryHundredth(n: int)
    ensures n / 100 == (n - 1) / 100 + if n % 100 == 0 then 1 else 0
  {
  }

  lemma EveryFourHundredth(n: int)
    ensures n / 400 == (n - 1) / 400 + if n % 400 == 0 then 1 else 0
  {
  }

  lemma LeapCycles(n: int)
    ensures n % 400 == 0 ==> n % 100 == 0
    ensures n % 100 == 0 ==> n % 4 == 0
  {
  }

  lemma MonthsOfYear(year: int)
    ensures DaysBeforeMonth(year, 13) == if IsLeap(year) then 366 else 365
  {
    var feb := DaysInMonth(year, 2);
    assert DaysBeforeMonth(year, 2) == 31;
    assert DaysBeforeMonth(year, 3) == 31 + feb;
    assert DaysBeforeMonth(year, 4) == 62 + feb;
    assert DaysBeforeMonth(year, 5) == 92 + feb;
    assert DaysBeforeMonth(year, 6) == 123 + feb;
    assert DaysBeforeMonth(year, 7) == 153 + feb;
    assert DaysBeforeMonth(year, 8) == 184 + feb;
    assert DaysBeforeMonth(year, 9) == 215 + feb;
    assert DaysBeforeMonth(year, 10) == 245 + feb;
    assert DaysBeforeMonth(year, 11) == 276 + feb;
    assert DaysBeforeMonth(year, 12) == 306 + feb;
  }

  lemma {:induction false} YearsGrow(year: int, later: int)
    requires 1 <= year < later
    ensures DaysBeforeYear(year) + (if IsLeap(year) then 366 else 365) <= DaysBeforeYear(later)
    decreases later - year
  {
    YearLength(year);
    if year + 1 < later {
      YearsGrow(year + 1, later);
    }
  }

  lemma {:induction false} MonthsGrow(year: int, month: int, later: int)
    requires 1 <= month < later
    ensures DaysBeforeMonth(year, month) + DaysInMonth(year, month) <= DaysBeforeMonth(year, later)
    decreases later - month
  {
    if month + 1 < later {
      MonthsGrow(year, month, later - 1);
    }
  }

  // ---- Order ----

  predicate DateBefore(y: int, m: int, d: int, y': int, m': int, d': int) {
    y < y' || (y == y' && (m < m' || (m == m' && d < d')))
  }

  lemma DaysAreOrdered(y: int, m: int, d: int, y': int, m': int, d': int)
    requires y >= 1 && 1 <= m <= 12 && 1 <= d <= DaysInMonth(y, m)
    requires y' >= 1 && 1 <= m' <= 12 && 1 <= d' <= DaysInMonth(y', m')
    requires DateBefore(y, m, d, y', m', d')
    ensures DayNumber(y, m, d) < DayNumber(y', m', d')
  {
    if y < y' {
      YearsGrow(y, y');
      MonthsGrow(y, m, 13);
      MonthsOfYear(y);
      if 1 < m' {
        MonthsGrow(y', 1, m');
      }
    } else if m < m' {
      MonthsGrow(y, m, m');
    }
  }

  predicate Before(a: DateTime, b: DateTime) {
    || DateBefore(a.year, a.month, a.day, b.year, b.month, b.day)
    || ((a.year, a.month, a.day) == (b.year, b.month, b.day) &&
        a.hour * 3600 + a.minute * 60 + a.second < b.hour * 3600 + b.minute * 60 + b.second)
  }

  // Instants are ordered as the fields are.
  lemma InstantsAreOrdered(a: DateTime, b: DateTime)
    requires Valid(a) && Valid(b)
    ensures Instant(a) < Instant(b) <==> Before(a, b)
  {
    if DateBefore(a.year, a.month, a.day, b.year, b.month, b.day) {
      DaysAreOrdered(a.year, a.month, a.day, b.year, b.month, b.day);
    } else if DateBefore(b.year, b.month, b.day, a.year, a.month, a.day) {
      DaysAreOrdered(b.year, b.month, b.day, a.year, a.month, a.day);
    }
  }

  // ---- The arithmetic used by the expansion ----

  // One second earlier, borrowing from the day, month and year.
  function MinusSecond(t: DateTime): (r: DateTime)
    requires Valid(t) && (t.year, t.month, t.day, t.hour, t.minute, t.second) != (1, 1, 1, 0, 0, 0)
    ensures Valid(r) && Instant(r) == Instant(t) - 1
  {
    if t.second > 0 then t.(second := t.second - 1)
    else if t.minute > 0 then t.(minute := t.minute - 1, second := 59)
    else if t.hour > 0 then t.(hour := t.hour - 1, minute := 59, second := 59)
    else if t.day > 1 then DateTime(t.year, t.month, t.day - 1, 23, 59, 59)
    else if t.month > 1 then DateTime(t.year, t.month - 1, DaysInMonth(t.year, t.month - 1), 23, 59, 59)
    else
      YearLength(t.year - 1);
      MonthsOfYear(t.year - 1);
      DateTime(t.year - 1, 12, 31, 23, 59, 59)
  }

  // Some seconds after midnight, less than a day.
  function PlusSeconds(t: DateTime, seconds: int): (r: DateTime)
    requires Valid(t) && t.hour == t.minute == t.second == 0 && 0 <= seconds < 86400
    ensures Valid(r) && Instant(r) == Instant(t) + seconds
  {
    ClockFields(seconds);
    t.(hour := seconds / 3600, minute := seconds / 60 % 60, second := seconds % 60)
  }

  lemma ClockFields(seconds: int)
    requires 0 <= seconds < 86400
    ensures var (h, m, s) := (seconds / 3600, seconds / 60 % 60, seconds % 60);
            0 <= h < 24 && 0 <= m < 60 && 0 <= s < 60 && h * 3600 + m * 60 + s == seconds
  {
    var minutes := seconds / 60;
    assert seconds == minutes * 60 + seconds % 60;
    assert minutes == minutes / 60 * 60 + minutes % 60 && minutes / 60 == seconds / 3600;
  }

  predicate Exists(p: Period) {
    match p
    case Year(y) => 1 <= y <= 9999
    case Month(y, m) => 1 <= y <= 9999 && 1 <= m <= 12
    case Day(y, m, d) => 1 <= y <= 9999 && 1 <= m <= 12 && 1 <= d <= DaysInMonth(y, m)
  }

  function Start(p: Period): DateTime {
    match p
    case Year(y) => DateTime(y, 1, 1, 0, 0, 0)
    case Month(y, m) => DateTime(y, m, 1, 0, 0, 0)
    case Day(y, m, d) => DateTime(y, m, d, 0, 0, 0)
  }

  // The start moved on by one year or month; fails beyond year 9999.
  function NextStart(p: Period): Option<DateTime>
    requires Exists(p) && !p.Day?
  {
    var (y, m) := if p.Year? then (p.year + 1, 1) else if p.month == 12 then (p.year + 1, 1) else (p.year, p.month + 1);
    if y > 9999 then None else Some(DateTime(y, m, 1, 0, 0, 0))
  }

  datatype Range = Range(start: DateTime, end: DateTime)

  // The date exists, and adding its period does not pass year 9999.
  predicate Expands(p: Period) {
    Exists(p) && p != Year(9999) && p != Month(9999, 12)
  }

  // None is the source's error, for a date that does not exist or whose end cannot be computed.
  function Expand(p: Period): (r: Option<Range>)
    ensures r.Some? <==> Expands(p)
  {
    if !Exists(p) then None
    else if p.Day? then Some(Range(Start(p), PlusSeconds(Start(p), 86399)))
    else
      var next := NextStart(p);
      if next.None? then None else Some(Range(Start(p), MinusSecond(next.value)))
  }

  // ---- What an expansion contains ----

  predicate Within(t: DateTime, p: Period) {
    match p
    case Year(y) => t.year == y
    case Month(y, m) => t.year == y && t.month == m
    case Day(y, m, d) => t.year == y && t.month == m && t.day == d
  }

  // A period expands exactly when a valid date-time lies in it and it is neither the last year nor
  // the last month of the calendar.
  lemma ExpandsIff(p: Period)
    ensures Expand(p).Some? <==>
            (exists t :: Valid(t) && Within(t, p)) && p != Year(9999) && p != Month(9999, 12)
    ensures Expand(p).Some? ==> 1 <= p.year <= 9999
  {
    if Exists(p) {
      assert Valid(Start(p)) && Within(Start(p), p);
    }
  }

  // The expanded range holds exactly the instants of the period.
  lemma ExpansionIsExact(p: Period, t: DateTime)
    requires Expands(p) && Valid(t)
    ensures Instant(Expand(p).value.start) <= Instant(t) <= Instant(Expand(p).value.end) <==> Within(t, p)
  {
    var r := Expand(p).value;
    InstantsAreOrdered(t, r.start);
    if p.Day? {
      InstantsAreOrdered(r.end, t);
    } else {
      InstantsAreOrdered(t, NextStart(p).value);
    }
  }

  // The ends are the last second: 23:59:59 on the period's last day.
  lemma EndIsLastSecond(p: Period)
    requires Expands(p)
    ensures var end := Expand(p).value.end;
            Valid(end) && Within(end, p) && (end.hour, end.minute, end.second) == (23, 59, 59)
  {
    var r := Expand(p).value;
    ExpansionIsExact(p, r.end);
    if !p.Day? {
      InstantsAreOrdered(r.start, NextStart(p).value);
    }
  }

  function Successor(p: Period): Period {
    match p
    case Year(y) => Year(y + 1)
    case Month(y, m) => if m == 12 then Month(y + 1, 1) else Month(y, m + 1)
    case Day(y, m, d) =>
      if d < DaysInMonth(y, m) then Day(y, m, d + 1)
      else if m < 12 then Day(y, m + 1, 1)
      else Day(y + 1, 1, 1)
  }

  // The day after, also across the ends of months and years.
  lemma DaysTile(p: Period)
    requires p.Day? && Exists(p) && p != Day(9999, 12, 31)
    ensures Exists(Successor(p)) && Instant(Start(Successor(p))) == Instant(Start(p)) + 86400
  {
    if p.day == DaysInMonth(p.year, p.month) && p.month == 12 {
      YearLength(p.year);
      MonthsOfYear(p.year);
    }
  }

  // Consecutive periods tile: each begins one second after the one before it ends.
  lemma PeriodsTile(p: Period)
    requires Expands(p) && p != Day(9999, 12, 31)
    ensures Exists(Successor(p))
    ensures Instant(Start(Successor(p))) == Instant(Expand(p).value.end) + 1
  {
    if p.Day? {
      DaysTile(p);
    }
  }

  // Days lie in their month's range and months in their year's.
  lemma PeriodsNest(y: int, m: int, d: int)
    requires Expands(Day(y, m, d)) && Expands(Month(y, m)) && Expands(Year(y))
    ensures Instant(Start(Year(y))) <= Instant(Start(Month(y, m))) <= Instant(Start(Day(y, m, d)))
    ensures Instant(Expand(Day(y, m, d)).value.end) <= Instant(Expand(Month(y, m)).value.end)
    ensures Instant(Expand(Month(y, m)).value.end) <= Instant(Expand(Year(y)).value.end)
  {
    EndIsLastSecond(Day(y, m, d));
    EndIsLastSecond(Month(y, m));
    ExpansionIsExact(Month(y, m), Start(Day(y, m, d)));
    ExpansionIsExact(Month(y, m), Expand(Day(y, m, d)).value.end);
    ExpansionIsExact(Year(y), Start(Month(y, m)));
    ExpansionIsExact(Year(y), Expand(Month(y, m)).value.end);
  }

  // ---- The datetime parameter ----

  // None, "..", a full timestamp with or without a zone, and a partial date.
  datatype Component = NotGiven | Dots | Timestamp(text: string, zoned: bool) | Partial(period: Period)

  datatype Bound = Open | Text(text: string) | At(t: DateTime)
  datatype Formatted = Single(b: Bound) | Interval(from: Bound, to: Bound)

  // The start, and the end if there is one.
  function ToRange(c: Component): Option<(Bound, Option<Bound>)> {
    match c
    case NotGiven => Some((Open, None))
    case Dots => Some((Open, None))
    case Timestamp(text, zoned) => Some((Text(if zoned then text else text + "Z"), None))
    case Partial(p) =>
      if Expand(p).None? then None else Some((At(Expand(p).value.start), Some(At(Expand(p).value.end))))
  }

  datatype Outcome = NoParameter | Error | Parameter(value: Formatted)

  function FormatDatetime(components: seq<Component>): Outcome {
    if components == [] then NoParameter
    else if |components| == 1 then
      if components[0] == NotGiven || ToRange(components[0]).None? then Error
      else
        var (start, end) := ToRange(components[0]).value;
        Parameter(if end.Some? then Interval(start, end.value) else Single(start))
    else if |components| == 2 then
      if components == [NotGiven, NotGiven] || ToRange(components[0]).None? || ToRange(components[1]).None? then Error
      else
        var (start, _) := ToRange(components[0]).value;
        var (backup, end) := ToRange(components[1]).value;
        Parameter(Interval(start, if end.Some? then end.value else backup))
    else Error
  }

  ghost predicate InInterval(t: DateTime, f: Formatted) {
    f.Interval? && (f.from.At? ==> Instant(f.from.t) <= Instant(t)) && (f.to.At? ==> Instant(t) <= Instant(f.to.t))
  }

  // Nothing in p comes after t; nothing in p comes before t.
  ghost predicate NotBeforePeriod(t: DateTime, p: Period) {
    Within(t, p) || forall u :: Valid(u) && Within(u, p) ==> Instant(u) < Instant(t)
  }

  ghost predicate NotAfterPeriod(t: DateTime, p: Period) {
    Within(t, p) || forall u :: Valid(u) && Within(u, p) ==> Instant(t) < Instant(u)
  }

  lemma StartIsFirst(p: Period, t: DateTime)
    requires Expands(p) && Valid(t)
    ensures Instant(Expand(p).value.start) <= Instant(t) <==> NotBeforePeriod(t, p)
  {
    var r := Expand(p).value;
    ExpansionIsExact(p, t);
    EndIsLastSecond(p);
    forall u | Valid(u) && Within(u, p) ensures Instant(u) <= Instant(r.end) {
      ExpansionIsExact(p, u);
    }
    assert Within(r.start, p);
  }

  lemma EndIsLast(p: Period, t: DateTime)
    requires Expands(p) && Valid(t)
    ensures Instant(t) <= Instant(Expand(p).value.end) <==> NotAfterPeriod(t, p)
  {
    var r := Expand(p).value;
    ExpansionIsExact(p, t);
    EndIsLastSecond(p);
    forall u | Valid(u) && Within(u, p) ensures Instant(r.start) <= Instant(u) {
      ExpansionIsExact(p, u);
    }
  }

  // A range of two partial dates holds everything from the first period to the last,
  // both included.
  lemma RangeCoversBothPeriods(p: Period, q: Period, t: DateTime)
    requires Expands(p) && Expands(q) && Valid(t)
    ensures FormatDatetime([Partial(p), Partial(q)]).Parameter?
    ensures InInterval(t, FormatDatetime([Partial(p), Partial(q)]).value) <==>
            NotBeforePeriod(t, p) && NotAfterPeriod(t, q)
  {
    FormatOfPair(p, q);
    StartIsFirst(p, t);
    EndIsLast(q, t);
  }

  lemma FormatOfPair(p: Period, q: Period)
    requires Expands(p) && Expands(q)
    ensures FormatDatetime([Partial(p), Partial(q)]) ==
            Parameter(Interval(At(Expand(p).value.start), At(Expand(q).value.end)))
  {
  }

  // One component alone: a partial date becomes its own range, a timestamp stays as it is, with a
  // zone, and ".." stays open. Without a component there is no parameter, and three are too many.
  lemma FormatOfOne(c: Component, rest: seq<Component>, t: DateTime)
    requires Valid(t)
    ensures FormatDatetime([]) == NoParameter && FormatDatetime([NotGiven]) == Error
    ensures FormatDatetime([Dots]) == Parameter(Single(Open))
    ensures c.Timestamp? ==>
              FormatDatetime([c]) == Parameter(Single(Text(c.text + if c.zoned then "" else "Z")))
    ensures c.Partial? ==>
              if Expands(c.period) then
                FormatDatetime([c]).Parameter? && (InInterval(t, FormatDatetime([c]).value) <==> Within(t, c.period))
              else FormatDatetime([c]) == Error
    ensures |rest| > 2 ==> FormatDatetime(rest) == Error
  {
    if c.Partial? && Expands(c.period) {
      ExpansionIsExact(c.period, t);
    } else if c.Timestamp? {
      assert c.text + "" == c.text;
    }
  }

  // An end that is not given, or "..", leaves the range open there; two that are not given are
  // an error, and so is a date without a range.
  lemma OpenRanges(p: Period, open: Component, t: DateTime)
    requires Valid(t) && (open == NotGiven || open == Dots)
    ensures FormatDatetime([NotGiven, NotGiven]) == Error
    ensures Expands(p) ==>
              && FormatDatetime([Partial(p), open]).Parameter? && FormatDatetime([open, Partial(p)]).Parameter?
              && (InInterval(t, FormatDatetime([Partial(p), open]).value) <==> NotBeforePeriod(t, p))
              && (InInterval(t, FormatDatetime([open, Partial(p)]).value) <==> NotAfterPeriod(t, p))
    ensures !Expands(p) ==> FormatDatetime([Partial(p), open]) == FormatDatetime([open, Partial(p)]) == Error
  {
    if Expands(p) {
      StartIsFirst(p, t);
      EndIsLast(p, t);
      FormatOfOpen(p, open);
    }
  }

  lemma FormatOfOpen(p: Period, open: Component)
    requires Expands(p) && (open == NotGiven || open == Dots)
    ensures FormatDatetime([Partial(p), open]) == Parameter(Interval(At(Expand(p).value.start), Open))
    ensures FormatDatetime([open, Partial(p)]) == Parameter(Interval(Open, At(Expand(p).value.end)))
  {
  }

  // Timestamps at the ends of a range are kept, with a zone.
  lemma RangeOfTimestamps(from: Component, to: Component)
    requires from.Timestamp? && to.Timestamp?
    ensures FormatDatetime([from, to]) ==
            Parameter(Interval(Text(from.text + if from.zoned then "" else "Z"),
                               Text(to.text + if to.zoned then "" else "Z")))
  {
    assert from.text + "" == from.text && to.text + "" == to.text;
  }
}
