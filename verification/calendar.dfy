/**
 * Calendar dates and times of day as Python's `datetime.date` and `datetime.time`
 * values, restricted to what the hospital backend uses: dates in the proleptic
 * Gregorian calendar between years 1 and 9999, day arithmetic by `timedelta(days=n)`
 * (which raises OverflowError outside that range) and times of day to the second.
 */
module Calendar {
  import opened Wrappers

  const MinYear := 1
  const MaxYear := 9999

  datatype Date = Date(year: int, month: int, day: int)

  predicate IsLeapYear(y: int) {
    y % 4 == 0 && (y % 100 != 0 || y % 400 == 0)
  }

  function DaysInMonth(y: int, m: int): (n: int)
    requires 1 <= m <= 12
    ensures 28 <= n <= 31
  {
    if m == 2 then (if IsLeapYear(y) then 29 else 28)
    else if m == 4 || m == 6 || m == 9 || m == 11 then 30
    else 31
  }

  /** What Python's `date(year, month, day)` constructor accepts. */
  predicate ValidDate(d: Date) {
    && MinYear <= d.year <= MaxYear
    && 1 <= d.month <= 12
    && 1 <= d.day <= DaysInMonth(d.year, d.month)
  }

  type Day = d: Date | ValidDate(d) witness Date(1970, 1, 1)

  /** Python's `a < b` on dates: lexicographic on (year, month, day). */
  predicate Before(a: Date, b: Date) {
    || a.year < b.year
    || (a.year == b.year && a.month < b.month)
    || (a.year == b.year && a.month == b.month && a.day < b.day)
  }

  /** Python's `a <= b` on dates. */
  predicate OnOrBefore(a: Date, b: Date) {
    a == b || Before(a, b)
  }

  /** Days before January 1 of year `y`, counting from 0001-01-01 (Python's `_days_before_year`). */
  function DaysBeforeYear(y: int): int {
    var p := y - 1;
    p * 365 + p / 4 - p / 100 + p / 400
  }

  /** Python's `_DAYS_BEFORE_MONTH` for a common year: days before the first of each month, January first. */
  const CommonDaysBefore: seq<int> := [0, 31, 59, 90, 120, 151, 181, 212, 243, 273, 304, 334]

  /** Days in year `y` before the first of month `m` (Python's `_days_before_month`). */
  function DaysBeforeMonth(y: int, m: int): (n: int)
    requires 1 <= m <= 12
    ensures n >= 0
  {
    CommonDaysBefore[m - 1] + (if m > 2 && IsLeapYear(y) then 1 else 0)
  }

  /** Python's `date.toordinal()`: 0001-01-01 is day 1. */
  function Ordinal(d: Date): int
    requires 1 <= d.month <= 12
  {
    DaysBeforeYear(d.year) + DaysBeforeMonth(d.year, d.month) + d.day
  }

  /** Python's `date.weekday()`: Monday is 0, Sunday is 6. */
  function Weekday(d: Day): (w: int)
    ensures 0 <= w < 7
  {
    (Ordinal(d) + 6) % 7
  }

  /** 0001-01-01 was a Monday, and 1970-01-01 a Thursday. */
  lemma WeekdayAnchors()
    ensures Weekday(Date(1, 1, 1)) == 0
    ensures Weekday(Date(1970, 1, 1)) == 3
  {
    assert Ordinal(Date(1970, 1, 1)) == 719163;
  }

  /** Each next day is the next weekday, Sunday wrapping round to Monday. */
  lemma WeekdayOfNextDate(d: Day)
    requires NextDate(d).Some?
    ensures Weekday(NextDate(d).value) == (Weekday(d) + 1) % 7
  {
    var e := NextDate(d).value;
    assert Ordinal(e) == Ordinal(d) + 1;
    assert Weekday(e) == (Ordinal(d) + 6 + 1) % 7;
    ModSevenStep(Ordinal(d) + 6);
  }

  lemma ModSevenStep(a: int)
    ensures (a + 1) % 7 == (a % 7 + 1) % 7
  {
    var q, r := a / 7, a % 7;
    assert a == 7 * q + r;
    if r == 6 {
      assert a + 1 == 7 * (q + 1);
    } else {
      assert a + 1 == 7 * q + (r + 1);
    }
  }

  lemma YearLength(y: int)
    ensures DaysBeforeYear(y + 1) == DaysBeforeYear(y) + (if IsLeapYear(y) then 366 else 365)
  {
    DivStep(y, 4);
    DivStep(y, 100);
    DivStep(y, 400);
    if y % 100 == 0 {
      assert y == 4 * (25 * (y / 100));
    }
    if y % 400 == 0 {
      assert y == 100 * (4 * (y / 400));
    }
    assert DaysBeforeYear(y + 1) == y * 365 + y / 4 - y / 100 + y / 400;
    assert DaysBeforeYear(y) == (y - 1) * 365 + (y - 1) / 4 - (y - 1) / 100 + (y - 1) / 400;
    assert y * 365 == (y - 1) * 365 + 365;
  }

  /** The quotient by `k`, one of the leap-year divisors, goes up by one exactly at multiples of `k`. */
  lemma DivStep(y: int, k: int)
    requires k == 4 || k == 100 || k == 400
    ensures y / k == (y - 1) / k + (if y % k == 0 then 1 else 0)
  {
    if k == 4 {
      assert y / 4 == (y - 1) / 4 + (if y % 4 == 0 then 1 else 0);
    } else if k == 100 {
      assert y / 100 == (y - 1) / 100 + (if y % 100 == 0 then 1 else 0);
    } else {
      assert y / 400 == (y - 1) / 400 + (if y % 400 == 0 then 1 else 0);
    }
  }

  /** The first of the next month comes one day after the last of this one. */
  lemma MonthStep(y: int, m: int)
    requires 1 <= m < 12
    ensures Ordinal(Date(y, m + 1, 1)) == Ordinal(Date(y, m, DaysInMonth(y, m))) + 1
  {
  }

  /** January 1 comes one day after December 31 of the year before. */
  lemma YearStep(y: int)
    ensures Ordinal(Date(y + 1, 1, 1)) == Ordinal(Date(y, 12, 31)) + 1
  {
    YearLength(y);
  }

  /** `date.max`, 9999-12-31: the last day Python can represent. */
  const LastDay: Day := Date(MaxYear, 12, 31)

  /** The day after `d`, or None where Python's `d + timedelta(days=1)` overflows. */
  function NextDate(d: Day): (r: Option<Day>)
    ensures r.None? <==> d == Date(MaxYear, 12, 31)
    ensures r.Some? ==> Before(d, r.value) && Ordinal(r.value) == Ordinal(d) + 1
  {
    if d.day < DaysInMonth(d.year, d.month) then Some(Date(d.year, d.month, d.day + 1))
    else if d.month < 12 then
      MonthStep(d.year, d.month);
      Some(Date(d.year, d.month + 1, 1))
    else if d.year < MaxYear then
      YearStep(d.year);
      Some(Date(d.year + 1, 1, 1))
    else None
  }

  /** The day before `d`, or None where Python's `d - timedelta(days=1)` overflows. */
  function PrevDate(d: Day): (r: Option<Day>)
    ensures r.None? <==> d == Date(MinYear, 1, 1)
    ensures r.Some? ==> Before(r.value, d) && Ordinal(r.value) + 1 == Ordinal(d)
  {
    if d.day > 1 then Some(Date(d.year, d.month, d.day - 1))
    else if d.month > 1 then
      MonthStep(d.year, d.month - 1);
      Some(Date(d.year, d.month - 1, DaysInMonth(d.year, d.month - 1)))
    else if d.year > MinYear then
      YearStep(d.year - 1);
      Some(Date(d.year - 1, 12, 31))
    else None
  }

  /** Stepping forward and stepping back are inverse: `e` follows `d` exactly when `d` precedes `e`. */
  lemma NextPrevInverse(d: Day, e: Day)
    ensures NextDate(d) == Some(e) <==> PrevDate(e) == Some(d)
  {
    NextThenPrev(d);
    PrevThenNext(e);
  }

  lemma NextThenPrev(d: Day)
    ensures NextDate(d).Some? ==> PrevDate(NextDate(d).value) == Some(d)
  {
    if d.day < DaysInMonth(d.year, d.month) {
      var e := Date(d.year, d.month, d.day + 1);
      assert NextDate(d) == Some(e);
      assert PrevDate(e) == Some(Date(d.year, d.month, d.day));
    } else if d.month < 12 {
      var e := Date(d.year, d.month + 1, 1);
      assert NextDate(d) == Some(e);
      assert PrevDate(e) == Some(Date(d.year, d.month, DaysInMonth(d.year, d.month)));
    } else if d.year < MaxYear {
      var e := Date(d.year + 1, 1, 1);
      assert NextDate(d) == Some(e);
      assert PrevDate(e) == Some(Date(d.year, 12, 31));
    }
  }

  lemma PrevThenNext(e: Day)
    ensures PrevDate(e).Some? ==> NextDate(PrevDate(e).value) == Some(e)
  {
    if e.day > 1 {
      var d := Date(e.year, e.month, e.day - 1);
      assert PrevDate(e) == Some(d);
      assert NextDate(d) == Some(Date(e.year, e.month, e.day));
    } else if e.month > 1 {
      var d := Date(e.year, e.month - 1, DaysInMonth(e.year, e.month - 1));
      assert PrevDate(e) == Some(d);
      assert NextDate(d) == Some(Date(e.year, e.month, 1));
    } else if e.year > MinYear {
      var d := Date(e.year - 1, 12, 31);
      assert PrevDate(e) == Some(d);
      assert NextDate(d) == Some(Date(e.year, 1, 1));
    }
  }

  /** No valid date lies strictly between a date and the next one. */
  lemma NothingBetween(d: Day, x: Day)
    requires NextDate(d).Some?
    ensures !(Before(d, x) && Before(x, NextDate(d).value))
  {
  }

  /** `date.min`, 0001-01-01: the first day Python can represent. */
  const FirstDay: Day := Date(MinYear, 1, 1)

  /** Every representable day lies between `date.min` and `date.max` in ordinal terms. */
  lemma OrdinalBounds(d: Day)
    ensures Ordinal(FirstDay) <= Ordinal(d) <= Ordinal(LastDay)
  {
    OrdinalAtMostLast(d);
    OrdinalAtLeastFirst(d);
  }

  lemma {:induction false} OrdinalAtMostLast(d: Day)
    decreases MaxYear - d.year, 12 - d.month, 31 - d.day
    ensures Ordinal(d) <= Ordinal(LastDay)
  {
    match NextDate(d)
    case None =>
    case Some(e) => OrdinalAtMostLast(e);
  }

  lemma {:induction false} OrdinalAtLeastFirst(d: Day)
    decreases d.year, d.month, d.day
    ensures Ordinal(FirstDay) <= Ordinal(d)
  {
    match PrevDate(d)
    case None =>
    case Some(e) => OrdinalAtLeastFirst(e);
  }

  /**
   * Python's `d + timedelta(days=n)`: None, for OverflowError, exactly when the
   * ordinal `n` days away falls outside `date.min`..`date.max`.
   */
  function AddDays(d: Day, n: int): (r: Option<Day>)
    decreases if n < 0 then -n else n
    ensures r.None? <==> Ordinal(d) + n < Ordinal(FirstDay) || Ordinal(d) + n > Ordinal(LastDay)
    ensures r.Some? ==> Ordinal(r.value) == Ordinal(d) + n
    ensures r.Some? && n > 0 ==> Before(d, r.value)
    ensures r.Some? && n < 0 ==> Before(r.value, d)
  {
    if n == 0 then OrdinalBounds(d); Some(d)
    else if n > 0 then
      match NextDate(d)
      case None => None
      case Some(e) =>
        var r := AddDays(e, n - 1);
        if r.Some? && n > 1 then BeforeTransitive(d, e, r.value); r else r
    else
      match PrevDate(d)
      case None => None
      case Some(e) =>
        var r := AddDays(e, n + 1);
        if r.Some? && n < -1 then BeforeTransitive(r.value, e, d); r else r
  }

  lemma BeforeTransitive(a: Date, b: Date, c: Date)
    requires Before(a, b) && Before(b, c)
    ensures Before(a, c)
  {
  }

  /**
   * The `n` consecutive dates starting at `d` (`d + timedelta(days=i)` for `i` in
   * `range(n)`), or None when one of them overflows.
   */
  function DaysFrom(d: Day, n: nat): (r: Option<seq<Day>>)
    decreases n
    ensures r.Some? ==> |r.value| == n
    ensures r.Some? && n > 0 ==> r.value[0] == d
    ensures r.Some? ==> forall i, j :: 0 <= i < j < n ==> Before(r.value[i], r.value[j])
    ensures r.Some? ==> forall i :: 0 <= i < n ==> Ordinal(r.value[i]) == Ordinal(d) + i
    ensures r.None? ==> n > 1 && Ordinal(d) + n - 1 > Ordinal(LastDay)
  {
    if n == 0 then Some([])
    else if n == 1 then Some([d])
    else
      match NextDate(d)
      case None => None
      case Some(e) =>
        match DaysFrom(e, n - 1)
        case None => None
        case Some(rest) => Some([d] + rest)
  }

  // ---------------------------------------------------------------- times of day

  const SecondsPerDay := 86400

  /** A `datetime.time` with whole seconds: seconds since midnight. */
  type TimeOfDay = t: int | 0 <= t < SecondsPerDay

  function Hour(t: TimeOfDay): (h: int)
    ensures 0 <= h < 24
  {
    t / 3600
  }

  function Minute(t: TimeOfDay): (m: int)
    ensures 0 <= m < 60
  {
    t % 3600 / 60
  }

  function Second(t: TimeOfDay): (s: int)
    ensures 0 <= s < 60
  {
    t % 60
  }

  /** `time(h, m, s)`. */
  function Clock(h: int, m: int, s: int): (t: TimeOfDay)
    requires 0 <= h < 24 && 0 <= m < 60 && 0 <= s < 60
    ensures Hour(t) == h && Minute(t) == m && Second(t) == s
  {
    var t := h * 3600 + m * 60 + s;
    assert t / 3600 == h && t % 3600 == m * 60 + s;
    assert t % 60 == s && (m * 60 + s) / 60 == m;
    t
  }

  /** A time is determined by its hour, minute and second fields. */
  lemma ClockOfFields(t: TimeOfDay)
    ensures Clock(Hour(t), Minute(t), Second(t)) == t
  {
    assert t == (t / 3600) * 3600 + t % 3600;
    assert t % 3600 == (t % 3600 / 60) * 60 + t % 3600 % 60;
    assert t % 3600 % 60 == t % 60;
  }

  /** The time truncated to the minute, as `strptime(strftime(t, '%H:%M'), '%H:%M')` gives it back. */
  function ToMinute(t: TimeOfDay): (r: TimeOfDay)
    ensures r <= t < r + 60
    ensures Second(r) == 0 && Hour(r) == Hour(t) && Minute(r) == Minute(t)
  {
    Clock(Hour(t), Minute(t), 0)
  }

  /** `datetime.now()` to the second: the clock is a parameter of every operation that reads it. */
  datatype Instant = Instant(date: Day, time: TimeOfDay)
}
