/** The Gregorian calendar, and past years' equivalents of the days of a trip (providers/weather_openmeteo.py).

    Days are counted by the proleptic Gregorian ordinal, 1 January of year 1 being day 1. */
module Calendar {
  import opened Common

  datatype Date = Date(year: int, month: int, day: int)

  predicate Leap(y: int) {
    y % 4 == 0 && (y % 100 != 0 || y % 400 == 0)
  }

  function DaysInMonth(y: int, m: int): int {
    if m == 2 then if Leap(y) then 29 else 28
    else if m in {4, 6, 9, 11} then 30
    else 31
  }

  predicate IsDate(d: Date) {
    1 <= d.year <= 9999 && 1 <= d.month <= 12 && 1 <= d.day <= DaysInMonth(d.year, d.month)
  }

  function LeapsBefore(y: int): int {
    (y - 1) / 4 - (y - 1) / 100 + (y - 1) / 400
  }

  function DaysBeforeYear(y: int): int {
    365 * (y - 1) + LeapsBefore(y)
  }

  function DaysBeforeMonth(y: int, m: int): int
    decreases m
  {
    if m <= 1 then 0 else DaysBeforeMonth(y, m - 1) + DaysInMonth(y, m - 1)
  }

  function Ordinal(d: Date): int {
    DaysBeforeYear(d.year) + DaysBeforeMonth(d.year, d.month) + d.day
  }

  function NextDay(d: Date): Date {
    if d.day < DaysInMonth(d.year, d.month) then d.(day := d.day + 1)
    else if d.month < 12 then Date(d.year, d.month + 1, 1)
    else Date(d.year + 1, 1, 1)
  }

  lemma QuotientSteps(y: int)
    ensures y / 4 == (y - 1) / 4 + One(y % 4 == 0)
    ensures y / 100 == (y - 1) / 100 + One(y % 100 == 0)
    ensures y / 400 == (y - 1) / 400 + One(y % 400 == 0)
  {
  }

  lemma LeapRule(y: int)
    ensures One(Leap(y)) == One(y % 4 == 0) - One(y % 100 == 0) + One(y % 400 == 0)
  {
    if y % 400 == 0 {
      assert y % 100 == 0 && y % 4 == 0 by { assert y == 400 * (y / 400); }
    } else if y % 100 == 0 {
      assert y % 4 == 0 by { assert y == 100 * (y / 100); }
    }
  }

  /** The closed form of the leap days gone by follows the leap rule year by year. */
  lemma LeapsBeforeNext(y: int)
    ensures LeapsBefore(y + 1) == LeapsBefore(y) + One(Leap(y))
  {
    hide Leap;
    QuotientSteps(y);
    LeapRule(y);
  }

  /** Days before each month, as a table. */
  lemma MonthTable(y: int, m: int)
    requires 1 <= m <= 13
    ensures DaysBeforeMonth(y, m) == One(m > 2 && Leap(y)) +
      [0, 31, 59, 90, 120, 151, 181, 212, 243, 273, 304, 334, 365][m - 1]
  {
    if m > 1 { MonthTable(y, m - 1); }
  }

  lemma YearStep(y: int)
    ensures DaysBeforeYear(y + 1) == DaysBeforeYear(y) + 365 + One(Leap(y))
  {
    LeapsBeforeNext(y);
  }

  /** The calendar's next day has the next ordinal. */
  lemma NextDayIsNext(d: Date)
    requires IsDate(d)
    ensures Ordinal(NextDay(d)) == Ordinal(d) + 1
  {
    hide DaysBeforeYear;
    hide DaysInMonth;
    hide DaysBeforeMonth;
    MonthStep(d.year + 1, 2);
    MonthStep(d.year, d.month + 1);
    if d.month == 12 {
      DecemberEnds(d.year);
      YearStep(d.year);
    }
  }

  /** The next day of a date is a date, but for the last one there is. */
  lemma NextDayIsADate(d: Date)
    requires IsDate(d) && d != Date(9999, 12, 31)
    ensures IsDate(NextDay(d))
  {
  }

  /** The day n days after 1 January of year 1. */
  function DayAfter(n: nat): Date {
    if n == 0 then Date(1, 1, 1) else NextDay(DayAfter(n - 1))
  }

  lemma FirstDay()
    ensures IsDate(Date(1, 1, 1)) && Ordinal(Date(1, 1, 1)) == 1
  {
  }

  /** The ordinal of a day is its number, counting from 1 January of year 1 through the whole calendar. */
  lemma {:induction false} OrdinalCountsDays(n: nat)
    requires n < Ordinal(Date(9999, 12, 31))
    ensures IsDate(DayAfter(n)) && Ordinal(DayAfter(n)) == n + 1
  {
    hide Ordinal;
    hide IsDate;
    hide NextDay;
    FirstDay();
    if n > 0 {
      OrdinalCountsDays(n - 1);
      NextDayIsADate(DayAfter(n - 1));
      NextDayIsNext(DayAfter(n - 1));
    }
  }

  lemma MonthStep(y: int, m: int)
    requires m > 1
    ensures DaysBeforeMonth(y, m) == DaysBeforeMonth(y, m - 1) + DaysInMonth(y, m - 1)
    ensures DaysBeforeMonth(y, 1) == 0
  {
  }

  lemma DecemberEnds(y: int)
    ensures DaysBeforeMonth(y, 12) + DaysInMonth(y, 12) == 365 + One(Leap(y))
  {
    MonthTable(y, 12);
  }

  lemma OrdinalWithinYear(d: Date)
    requires IsDate(d)
    ensures DaysBeforeYear(d.year) < Ordinal(d) <= DaysBeforeYear(d.year + 1)
  {
    MonthTable(d.year, d.month);
    LeapsBeforeNext(d.year);
  }

  // ---- The same day of another year ----

  predicate IsLeapDay(d: Date) { d.month == 2 && d.day == 29 }

  /** Ok(None) when no such date can be built; Err is the ValueError of the clamped construction. */
  function YearEquivalent(d: Date, year: int): Result<Option<Date>, ()> {
    if IsDate(Date(year, d.month, d.day)) then Ok(Some(Date(year, d.month, d.day)))
    else if IsLeapDay(d) then
      if IsDate(Date(year, 2, 28)) then Ok(Some(Date(year, 2, 28))) else Err(())
    else Ok(None)
  }

  /** The equivalent day of a year that has a calendar. */
  function Equivalent(d: Date, year: int): Date {
    if IsLeapDay(d) && !Leap(year) then Date(year, 2, 28) else Date(year, d.month, d.day)
  }

  /** Within the calendar the equivalent day always exists: no sampled year is skipped. */
  lemma EquivalentAlwaysExists(d: Date, year: int)
    requires IsDate(d)
    ensures YearEquivalent(d, year) ==
      if 1 <= year <= 9999 then Ok(Some(Equivalent(d, year)))
      else if IsLeapDay(d) then Err(()) else Ok(None)
    ensures 1 <= year <= 9999 ==> IsDate(Equivalent(d, year))
  {
  }

  predicate PastLeapDay(d: Date) { d.month > 2 || IsLeapDay(d) }

  /** The first year whose leap day is still ahead of d. */
  function LeapYearAhead(d: Date): int { d.year + One(PastLeapDay(d)) }

  /** How far apart a day and its equivalent are. */
  lemma EquivalentShift(d: Date, year: int)
    requires IsDate(d)
    ensures Ordinal(d) - Ordinal(Equivalent(d, year)) ==
      365 * (d.year - year) + LeapsBefore(LeapYearAhead(d)) - LeapsBefore(year + One(PastLeapDay(d)))
  {
    hide LeapsBefore;
    hide Leap;
    MonthTable(d.year, d.month);
    MonthTable(year, d.month);
    LeapsBeforeNext(d.year);
    LeapsBeforeNext(year);
  }

  lemma DivisionWindow(a: int, b: int, w: nat)
    ensures -1 <= ((a + w) / 4 - a / 4) - ((b + w) / 4 - b / 4) <= 1
    ensures -1 <= ((a + w) / 100 - a / 100) - ((b + w) / 100 - b / 100) <= 1
    ensures -1 <= ((a + w) / 400 - a / 400) - ((b + w) / 400 - b / 400) <= 1
  {
  }

  function LeapsFrom(y: int, w: int): int { LeapsBefore(y + w) - LeapsBefore(y) }

  lemma FourYearsHaveAtMostOneLeapDay(y: int, w: nat)
    requires w <= 4
    ensures 0 <= LeapsFrom(y, w) <= 1
  {
    hide LeapsBefore;
    LeapsBeforeNext(y);
    LeapsBeforeNext(y + 1);
    LeapsBeforeNext(y + 2);
    LeapsBeforeNext(y + 3);
    OneInFour(y);
  }

  lemma OneInFour(y: int)
    ensures One(Leap(y)) + One(Leap(y + 1)) + One(Leap(y + 2)) + One(Leap(y + 3)) <= 1
  {
  }

  /** Two stretches of equally many years differ by at most three leap days, and by at most one within four years. */
  lemma LeapDrift(a: int, b: int, w: nat)
    ensures -3 <= LeapsFrom(a, w) - LeapsFrom(b, w) <= 3
    ensures w <= 4 ==> -1 <= LeapsFrom(a, w) - LeapsFrom(b, w) <= 1
  {
    DivisionWindow(a - 1, b - 1, w);
    if w <= 4 {
      FourYearsHaveAtMostOneLeapDay(a, w);
      FourYearsHaveAtMostOneLeapDay(b, w);
    }
  }

  /** The archive day read for the requested day d of a trip starting on s, when sampling a year. */
  function ArchiveDay(s: Date, d: Date, year: int): int {
    Ordinal(Equivalent(s, year)) + (Ordinal(d) - Ordinal(s))
  }

  lemma OrdinalOrder(s: Date, d: Date)
    requires IsDate(s) && IsDate(d) && Ordinal(s) <= Ordinal(d)
    ensures s.year <= d.year
    ensures LeapYearAhead(s) <= LeapYearAhead(d)
  {
    OrdinalWithinYear(s);
    OrdinalWithinYear(d);
    if d.year < s.year {
      LeapsBeforeMonotone(d.year + 1, s.year);
    }
    if s.year == d.year {
      MonthTable(s.year, s.month);
      MonthTable(d.year, d.month);
    }
  }

  lemma LeapsBeforeMonotone(a: int, b: int)
    requires a <= b
    ensures LeapsBefore(a) <= LeapsBefore(b)
    decreases b - a
  {
    if a < b {
      LeapsBeforeNext(a);
      LeapsBeforeMonotone(a + 1, b);
    }
  }

  /** The archive day is the equivalent calendar day or a neighbour whenever the trip ends within three calendar
      years of its start, and never more than three days off however long the trip is. */
  lemma ArchiveDayIsEquivalentOrNeighbour(s: Date, d: Date, year: int)
    requires IsDate(s) && IsDate(d) && Ordinal(s) <= Ordinal(d)
    ensures d.year <= s.year + 3 ==>
      -1 <= ArchiveDay(s, d, year) - Ordinal(Equivalent(d, year + d.year - s.year)) <= 1
    ensures -3 <= ArchiveDay(s, d, year) - Ordinal(Equivalent(d, year + d.year - s.year)) <= 3
  {
    hide Ordinal;
    hide LeapsBefore;
    hide Equivalent;
    hide PastLeapDay;
    hide IsDate;
    EquivalentShift(s, year);
    EquivalentShift(d, year + d.year - s.year);
    OrdinalOrder(s, d);
    var w := LeapYearAhead(d) - LeapYearAhead(s);
    LeapDrift(LeapYearAhead(s), year + One(PastLeapDay(s)), w);
  }

  /** The bound of one day is needed: 1 March becomes 29 February or 2 March.  And a trip of five years drifts by two. */
  lemma ArchiveDayCanDrift()
    ensures ArchiveDay(Date(2027, 2, 20), Date(2027, 3, 1), 2024) == Ordinal(Date(2024, 2, 29))
    ensures ArchiveDay(Date(2028, 2, 20), Date(2028, 3, 1), 2025) == Ordinal(Date(2025, 3, 2))
    ensures ArchiveDay(Date(2028, 1, 1), Date(2032, 3, 1), 1897) == Ordinal(Date(1901, 3, 3))
  {
    MonthTable(2027, 2);
    MonthTable(2027, 3);
    MonthTable(2024, 2);
    MonthTable(2028, 2);
    MonthTable(2028, 3);
    MonthTable(2025, 2);
    MonthTable(2025, 3);
    MonthTable(2032, 3);
    MonthTable(1901, 3);
  }

  // ---- Sampled years ----

  const CLIMATE_SAMPLE_YEAR_COUNT := 3

  function SampleYears(today: Date): seq<int> {
    [today.year - 3, today.year - 2, today.year - 1]
  }

  /** The sampled years are the most recent three that are wholly past, oldest first. */
  lemma SampledYearsAreTheLast(today: Date, y: int)
    ensures y in SampleYears(today) <==> today.year - CLIMATE_SAMPLE_YEAR_COUNT <= y < today.year
    ensures forall i :: 0 <= i < |SampleYears(today)| ==> SampleYears(today)[i] == today.year - |SampleYears(today)| + i
  {
    if today.year - CLIMATE_SAMPLE_YEAR_COUNT <= y < today.year {
      assert SampleYears(today)[y - today.year + CLIMATE_SAMPLE_YEAR_COUNT] == y;
    }
  }

  lemma EquivalentsIncrease(d: Date, y: int, z: int)
    requires IsDate(d) && 1 <= y < z <= 9999
    ensures Ordinal(Equivalent(d, y)) < Ordinal(Equivalent(d, z))
  {
    EquivalentAlwaysExists(d, y);
    EquivalentAlwaysExists(d, z);
    OrdinalWithinYear(Equivalent(d, y));
    OrdinalWithinYear(Equivalent(d, z));
    LeapsBeforeMonotone(y + 1, z);
  }

  /** A trip within one calendar year reads nothing later than 1 January of this year. */
  lemma OneYearTripReadsThePast(today: Date, s: Date, d: Date, y: int)
    requires IsDate(today) && today.year > CLIMATE_SAMPLE_YEAR_COUNT && y in SampleYears(today)
    requires IsDate(s) && IsDate(d) && Ordinal(s) <= Ordinal(d) && s.year == d.year
    ensures ArchiveDay(s, d, y) <= Ordinal(Date(today.year, 1, 1)) <= Ordinal(today)
  {
    ArchiveDayIsEquivalentOrNeighbour(s, d, y);
    EquivalentAlwaysExists(d, y);
    OrdinalWithinYear(Equivalent(d, y));
    LeapsBeforeMonotone(y + 1, today.year);
    OrdinalWithinYear(today);
  }

  /** A trip over New Year can ask the archive for days that have not happened yet. */
  lemma NewYearTripReadsTheFuture()
    ensures var today := Date(2026, 1, 5);
      today.year - 1 in SampleYears(today) &&
      ArchiveDay(Date(2026, 12, 20), Date(2027, 1, 20), today.year - 1) == Ordinal(today) + 15
  {
    MonthTable(2026, 12);
    MonthTable(2025, 12);
  }
}
