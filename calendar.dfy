/** Calendar dates as the page compares them.
    The page works with Python `datetime.date` values: it subtracts a
    `timedelta` of `weekday()` days, takes `replace(day=1)` and compares dates.
    A date here is a year/month/day triple restricted to the proleptic
    Gregorian calendar of years 1 to 9999. `Ordinal` numbers the days so that
    1 January of year 1 is day 1, the same count as `date.toordinal()`, and
    `Weekday` is derived from it the same way (Monday is 0). */
module Calendar {

  datatype Date = Date(year: int, month: int, day: int)

  predicate IsLeap(year: int) {
    year % 4 == 0 && (year % 100 != 0 || year % 400 == 0)
  }

  function DaysInMonth(year: int, month: int): (n: int)
    requires 1 <= month <= 12
    ensures 28 <= n <= 31
    ensures n == 29 <==> month == 2 && IsLeap(year)
  {
    if month == 2 then (if IsLeap(year) then 29 else 28)
    else if month == 4 || month == 6 || month == 9 || month == 11 then 30
    else 31
  }

  predicate Valid(d: Date) {
    && 1 <= d.year <= 9999
    && 1 <= d.month <= 12
    && 1 <= d.day <= DaysInMonth(d.year, d.month)
  }

  /** The dates a `datetime.date` can hold. */
  type CalendarDate = d: Date | Valid(d) witness Date(1, 1, 1)

  function DaysInYear(year: int): int {
    if IsLeap(year) then 366 else 365
  }

  /** Days in the years before `year`. */
  function DaysBeforeYear(year: int): int
    requires year >= 1
  {
    var y := year - 1;
    y * 365 + y / 4 - y / 100 + y / 400
  }

  /** Days in the months of `year` before `month`. */
  function DaysBeforeMonth(year: int, month: int): int
    requires 1 <= month <= 12
  {
    var cumulative := [0, 31, 59, 90, 120, 151, 181, 212, 243, 273, 304, 334];
    cumulative[month - 1] + (if month > 2 && IsLeap(year) then 1 else 0)
  }

  /** Day number of `d`, with 1 January of year 1 as day 1. */
  function Ordinal(d: CalendarDate): (n: int)
    ensures DaysBeforeYear(d.year) < n
  {
    DaysBeforeYear(d.year) + DaysBeforeMonth(d.year, d.month) + d.day
  }

  /** 1 January of year 1 was a Monday, so Mondays are the days 1, 8, 15, ... */
  predicate IsMonday(n: int) {
    n % 7 == 1
  }

  lemma WeekdayOffset(n: int)
    ensures 0 <= (n + 6) % 7 <= 6
    ensures IsMonday(n - (n + 6) % 7)
  {
  }

  /** Day of the week, Monday = 0 through Sunday = 6. */
  function Weekday(d: CalendarDate): (w: int)
    ensures 0 <= w <= 6
    ensures IsMonday(Ordinal(d) - w)
  {
    var n := Ordinal(d);
    WeekdayOffset(n);
    (n + 6) % 7
  }

  /** The first day of the month of `d` (`d.replace(day=1)`). */
  function FirstOfMonth(d: CalendarDate): (f: CalendarDate)
    ensures f.day == 1
    ensures Ordinal(d) - Ordinal(f) == d.day - 1
  {
    Date(d.year, d.month, 1)
  }

  /** Python orders dates by (year, month, day). */
  predicate Before(a: Date, b: Date) {
    || a.year < b.year
    || (a.year == b.year && a.month < b.month)
    || (a.year == b.year && a.month == b.month && a.day < b.day)
  }

  lemma QuarterStep(year: int)
    requires year >= 1
    ensures year / 4 - (year - 1) / 4 == if year % 4 == 0 then 1 else 0
  {
  }

  lemma CenturyStep(year: int)
    requires year >= 1
    ensures year / 100 - (year - 1) / 100 == if year % 100 == 0 then 1 else 0
  {
  }

  lemma QuadricentennialStep(year: int)
    requires year >= 1
    ensures year / 400 - (year - 1) / 400 == if year % 400 == 0 then 1 else 0
  {
  }

  lemma MultipleOfMultiple(year: int, k: int, m: int)
    requires 0 < k && 0 < m && year % (k * m) == 0
    ensures year % k == 0
  {
    var b := year / (k * m);
    var a := year / k;
    var r := year % k;
    assert year == (k * m) * b;
    assert year == k * a + r && 0 <= r < k;
    assert k * (m * b - a) == r;
    // a non-zero multiple of k cannot lie in [0, k)
    if m * b - a >= 1 {
      assert false;
    } else if m * b - a <= -1 {
      assert false;
    }
  }

  lemma CenturiesAreQuarters(year: int)
    ensures year % 400 == 0 ==> year % 100 == 0
    ensures year % 100 == 0 ==> year % 4 == 0
  {
    if year % 400 == 0 {
      MultipleOfMultiple(year, 100, 4);
    }
    if year % 100 == 0 {
      MultipleOfMultiple(year, 4, 25);
    }
  }

  /** The leap-day corrections of the ordinal grow by one exactly in a leap year. */
  lemma LeapCorrectionStep(year: int)
    requires year >= 1
    ensures (year / 4 - year / 100 + year / 400) - ((year - 1) / 4 - (year - 1) / 100 + (year - 1) / 400)
         == if IsLeap(year) then 1 else 0
  {
    QuarterStep(year);
    CenturyStep(year);
    QuadricentennialStep(year);
    CenturiesAreQuarters(year);
  }

  lemma DaysBeforeYearStep(year: int)
    requires year >= 1
    ensures DaysBeforeYear(year + 1) == DaysBeforeYear(year) + DaysInYear(year)
  {
    LeapCorrectionStep(year);
  }

  /** Every day of `year` comes before every day of a later year. */
  lemma {:induction false} DaysBeforeYearGrows(year: int, later: int)
    requires 1 <= year < later
    ensures DaysBeforeYear(year) + DaysInYear(year) <= DaysBeforeYear(later)
    decreases later - year
  {
    DaysBeforeYearStep(year);
    if year + 1 < later {
      DaysBeforeYearGrows(year + 1, later);
    }
  }

  lemma DaysBeforeMonthStep(year: int, month: int)
    requires 1 <= month < 12
    ensures DaysBeforeMonth(year, month + 1) == DaysBeforeMonth(year, month) + DaysInMonth(year, month)
  {
  }

  /** Every day of `month` comes before every day of a later month of the same year. */
  lemma {:induction false} DaysBeforeMonthGrows(year: int, month: int, later: int)
    requires 1 <= month < later <= 12
    ensures DaysBeforeMonth(year, month) + DaysInMonth(year, month) <= DaysBeforeMonth(year, later)
    decreases later - month
  {
    DaysBeforeMonthStep(year, month);
    if month + 1 < later {
      DaysBeforeMonthGrows(year, month + 1, later);
    }
  }

  /** Every day of a year falls inside that year's share of the ordinals. */
  lemma OrdinalWithinYear(d: CalendarDate)
    ensures Ordinal(d) <= DaysBeforeYear(d.year) + DaysInYear(d.year)
  {
    if d.month < 12 {
      DaysBeforeMonthGrows(d.year, d.month, 12);
    }
  }

  /** Comparing ordinals is comparing dates: the order of `Before` and equality. */
  lemma OrdinalOrder(a: CalendarDate, b: CalendarDate)
    ensures Before(a, b) <==> Ordinal(a) < Ordinal(b)
    ensures a == b <==> Ordinal(a) == Ordinal(b)
  {
    forall x: CalendarDate, y: CalendarDate | Before(x, y)
      ensures Ordinal(x) < Ordinal(y)
    {
      if x.year < y.year {
        OrdinalWithinYear(x);
        DaysBeforeYearGrows(x.year, y.year);
      } else if x.month < y.month {
        DaysBeforeMonthGrows(x.year, x.month, y.month);
      }
    }
    assert Before(a, b) || Before(b, a) || a == b;
  }
}
