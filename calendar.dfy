/**
 * Proleptic Gregorian calendar dates and the three pieces of calendar
 * arithmetic the enrollment rules use: adding whole years, adding whole
 * months (both with the day clamped to the end of the target month), and
 * stepping one day back or forward.
 */
module Calendar {

  datatype Date = Date(year: int, month: int, day: int)

  predicate IsLeapYear(y: int) {
    y % 4 == 0 && (y % 100 != 0 || y % 400 == 0)
  }

  function DaysInMonth(y: int, m: int): (n: int)
    requires 1 <= m <= 12
    ensures 28 <= n <= 31
    ensures m == 2 ==> (n == 29 <==> IsLeapYear(y))
    ensures m != 2 ==> n >= 30
  {
    if m == 2 then (if IsLeapYear(y) then 29 else 28)
    else if m == 4 || m == 6 || m == 9 || m == 11 then 30
    else 31
  }

  /** A date that exists on the calendar. */
  predicate ValidDate(d: Date) {
    1 <= d.month <= 12 && 1 <= d.day <= DaysInMonth(d.year, d.month)
  }

  /** Chronological order: `a` is a strictly earlier day than `b`. */
  predicate Before(a: Date, b: Date) {
    a.year < b.year ||
    (a.year == b.year && (a.month < b.month || (a.month == b.month && a.day < b.day)))
  }

  predicate NotAfter(a: Date, b: Date) {
    Before(a, b) || a == b
  }

  /** Number of whole months from January of year 0 to the month of `d`. */
  function MonthIndex(d: Date): int {
    d.year * 12 + (d.month - 1)
  }

  function Min(a: int, b: int): (r: int)
    ensures r <= a && r <= b && (r == a || r == b)
  {
    if a <= b then a else b
  }

  /** `d + relativedelta(months = n)`: the same day in the month `n` months on,
      or the last day of that month when it is shorter. */
  function AddMonths(d: Date, n: int): (r: Date)
    requires ValidDate(d)
    ensures ValidDate(r)
    ensures MonthIndex(r) == MonthIndex(d) + n
    ensures r.day == Min(d.day, DaysInMonth(r.year, r.month))
  {
    var k := MonthIndex(d) + n;
    var y, m := k / 12, k % 12 + 1;
    Date(y, m, Min(d.day, DaysInMonth(y, m)))
  }

  /** `d + relativedelta(years = n)`: the same month and day `n` years on,
      with 29 February becoming 28 February in a common year. */
  function AddYears(d: Date, n: int): (r: Date)
    requires ValidDate(d)
    ensures ValidDate(r)
    ensures r.year == d.year + n && r.month == d.month
    ensures r.day == Min(d.day, DaysInMonth(r.year, r.month))
  {
    Date(d.year + n, d.month, Min(d.day, DaysInMonth(d.year + n, d.month)))
  }

  /** `d - relativedelta(days = 1)`. */
  function PrevDay(d: Date): (r: Date)
    requires ValidDate(d)
    ensures ValidDate(r)
    ensures Before(r, d)
  {
    if d.day > 1 then Date(d.year, d.month, d.day - 1)
    else if d.month > 1 then Date(d.year, d.month - 1, DaysInMonth(d.year, d.month - 1))
    else Date(d.year - 1, 12, 31)
  }

  /** `d + relativedelta(days = 1)`. */
  function NextDay(d: Date): (r: Date)
    requires ValidDate(d)
    ensures ValidDate(r)
    ensures Before(d, r)
  {
    if d.day < DaysInMonth(d.year, d.month) then Date(d.year, d.month, d.day + 1)
    else if d.month < 12 then Date(d.year, d.month + 1, 1)
    else Date(d.year + 1, 1, 1)
  }

  lemma {:induction false} NextDayUndoesPrevDay(d: Date)
    requires ValidDate(d)
    ensures NextDay(PrevDay(d)) == d
    ensures PrevDay(NextDay(d)) == d
  {
  }

  /** No valid date lies strictly between `PrevDay(d)` and `d`. */
  lemma {:induction false} PrevDayIsImmediatePredecessor(a: Date, d: Date)
    requires ValidDate(a) && ValidDate(d)
    requires Before(a, d)
    ensures NotAfter(a, PrevDay(d))
  {
    if d.day == 1 && d.month > 1 && a.year == d.year && a.month == d.month - 1 {
      assert a.day <= DaysInMonth(d.year, d.month - 1);
    }
  }

  /** Adding years is adding twelve times as many months. */
  lemma {:induction false} AddYearsIsTwelveMonths(d: Date, n: int)
    requires ValidDate(d)
    ensures AddYears(d, n) == AddMonths(d, 12 * n)
  {
    var k := MonthIndex(d) + 12 * n;
    assert k == (d.year + n) * 12 + (d.month - 1);
    assert k / 12 == d.year + n && k % 12 == d.month - 1 by {
      DivModUnique(k, d.year + n, d.month - 1);
    }
  }

  /** Euclidean division by twelve has one quotient and remainder. */
  lemma {:induction false} DivModUnique(k: int, q: int, r: int)
    requires 0 <= r < 12 && k == q * 12 + r
    ensures k / 12 == q && k % 12 == r
  {
  }

  /** Adding a positive number of months lands strictly later. */
  lemma {:induction false} AddMonthsMovesForward(d: Date, n: int)
    requires ValidDate(d) && n >= 1
    ensures Before(d, AddMonths(d, n))
  {
    var r := AddMonths(d, n);
    assert MonthIndex(r) > MonthIndex(d);
    if r.year == d.year {
      assert r.month > d.month;
    }
  }

  /** The day clamp of both additions: 29 February moves to 28 February in a
      common year, and every other day of the month is kept. */
  lemma {:induction false} AddYearsClampsLeapDay(d: Date, n: int)
    requires ValidDate(d)
    ensures d.month == 2 && d.day == 29 && !IsLeapYear(d.year + n) ==> AddYears(d, n).day == 28
    ensures d.day <= 28 ==> AddYears(d, n) == Date(d.year + n, d.month, d.day)
  {
  }

  /** From a leap year, adding a number of years that is 1 modulo 4 lands in
      a common year. */
  lemma {:induction false} LeapYearPlusOneModFourIsCommon(y: int, n: int)
    requires IsLeapYear(y) && n % 4 == 1
    ensures !IsLeapYear(y + n)
  {
    assert (y + n) % 4 == 1;
  }
}
