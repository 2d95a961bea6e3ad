/** Gregorian calendar arithmetic: the leap-year rule and month lengths of the
    age calculator's form, and a day count of the proleptic Gregorian calendar
    that serves as the reference against which dates are compared and ages
    are measured. */
module DateMath {

  /** A calendar date. Months are numbered 1..12; nothing is enforced here,
      since the form's fields are free integers until they are validated. */
  datatype Date = Date(year: int, month: int, day: int)

  /** The Gregorian leap-year rule. The source tests `year % k === 0`;
      a remainder is zero under truncating and Euclidean division alike. */
  function IsLeapYear(year: int): (leap: bool)
    ensures year % 4 != 0 ==> !leap
    ensures year % 100 != 0 ==> (leap <==> year % 4 == 0)
    ensures year % 100 == 0 ==> (leap <==> year % 400 == 0)
  {
    (year % 4 == 0 && year % 100 != 0) || year % 400 == 0
  }

  /** Length of a month. The rule is total: any month number other than
      2, 4, 6, 9 and 11 gets 31 days, exactly as the source's conditional. */
  function DaysInMonth(year: int, month: int): (n: int)
    ensures 28 <= n <= 31
    ensures n == 29 <==> month == 2 && IsLeapYear(year)
    ensures n == 28 <==> month == 2 && !IsLeapYear(year)
    ensures n == 30 <==> month in {4, 6, 9, 11}
    ensures n == 31 <==> month != 2 && month !in {4, 6, 9, 11}
  {
    if month == 2 then (if IsLeapYear(year) then 29 else 28)
    else if month in {4, 6, 9, 11} then 30
    else 31
  }

  /** A real calendar date: a month 1..12 and a day that month has. */
  predicate ValidDate(d: Date)
  {
    1 <= d.month <= 12 && 1 <= d.day <= DaysInMonth(d.year, d.month)
  }

  /** `a` is on or before `b`, comparing year, then month, then day. */
  predicate NotAfter(a: Date, b: Date)
  {
    a.year < b.year
    || (a.year == b.year && a.month < b.month)
    || (a.year == b.year && a.month == b.month && a.day <= b.day)
  }

  // ---------------------------------------------------------------------
  // Reference calendar: a day number for every date.

  /** Days from 1 January of year 1 to 1 January of `year` (negative before
      year 1), by the closed form of the 400-year Gregorian cycle. */
  function DaysBeforeYear(year: int): int
  {
    var y := year - 1;
    365 * y + y / 4 - y / 100 + y / 400
  }

  /** Days from 1 January to the first of `month`, from the cumulative table
      of a common year plus the leap day once February is over. */
  function DaysBeforeMonth(year: int, month: int): int
    requires 1 <= month <= 12
  {
    [0, 31, 59, 90, 120, 151, 181, 212, 243, 273, 304, 334][month - 1]
    + (if month > 2 && IsLeapYear(year) then 1 else 0)
  }

  /** Months counted from January of year 0: month index `k` is month
      `k % 12 + 1` of year `k / 12`. */
  function MonthIndex(d: Date): int
  {
    d.year * 12 + d.month - 1
  }

  /** Length of the month with index `k`. */
  function LengthOfMonth(k: int): int
  {
    DaysInMonth(k / 12, k % 12 + 1)
  }

  /** Day number of the first day of the month with index `k`. */
  function FirstOfMonth(k: int): int
  {
    DaysBeforeYear(k / 12) + DaysBeforeMonth(k / 12, k % 12 + 1)
  }

  /** Day number of a date, counting days past the end of its month on into
      the following months (as a JavaScript `Date` does). */
  function DayNumber(d: Date): int
  {
    FirstOfMonth(MonthIndex(d)) + d.day - 1
  }

  // ---------------------------------------------------------------------
  // The leap-year rule and the month lengths agree with the reference.

  /** A year has 366 days exactly when the leap-year rule says so. */
  lemma YearLength(year: int)
    ensures DaysBeforeYear(year + 1) - DaysBeforeYear(year)
            == if IsLeapYear(year) then 366 else 365
  {
    var y := year - 1;
    MultipleStep(y, 4);
    MultipleStep(y, 100);
    MultipleStep(y, 400);
    if year % 400 == 0 {
      assert year == 100 * (4 * (year / 400)) && year == 4 * (100 * (year / 400));
    } else if year % 100 == 0 {
      assert year == 4 * (25 * (year / 100));
    }
  }

  /** Stepping from `y` to `y + 1` adds one to `y / c` exactly when `y + 1`
      is a multiple of `c`, for the three divisors of the leap-year rule. */
  lemma MultipleStep(y: int, c: int)
    requires c == 4 || c == 100 || c == 400
    ensures (y + 1) / c == if (y + 1) % c == 0 then y / c + 1 else y / c
  {
  }

  /** The twelve month lengths fill the year: the first of each month is the
      first of the month before it plus that month's length. */
  lemma NextMonth(k: int)
    ensures FirstOfMonth(k + 1) == FirstOfMonth(k) + LengthOfMonth(k)
  {
    var y, m := k / 12, k % 12 + 1;
    if m == 12 {
      assert (k + 1) / 12 == y + 1 && (k + 1) % 12 == 0;
      YearLength(y);
    } else {
      assert (k + 1) / 12 == y && (k + 1) % 12 + 1 == m + 1;
    }
  }

  /** A month index names the year and month it was built from. */
  lemma MonthIndexOf(d: Date)
    requires 1 <= d.month <= 12
    ensures MonthIndex(d) / 12 == d.year && MonthIndex(d) % 12 + 1 == d.month
    ensures LengthOfMonth(MonthIndex(d)) == DaysInMonth(d.year, d.month)
  {
  }

  /** Day numbers of month starts never decrease. */
  lemma {:induction false} FirstOfMonthGrows(j: int, k: int)
    requires j <= k
    ensures FirstOfMonth(j) <= FirstOfMonth(k)
    decreases k - j
  {
    if j < k {
      NextMonth(j);
      FirstOfMonthGrows(j + 1, k);
    }
  }

  /** Month indices order months as year, then month, does. */
  lemma MonthIndexOrder(a: Date, b: Date)
    requires 1 <= a.month <= 12 && 1 <= b.month <= 12
    ensures MonthIndex(a) < MonthIndex(b)
            <==> a.year < b.year || (a.year == b.year && a.month < b.month)
    ensures MonthIndex(a) == MonthIndex(b) <==> a.year == b.year && a.month == b.month
  {
  }

  /** A real date lies within its month. */
  lemma WithinMonth(d: Date)
    requires ValidDate(d)
    ensures FirstOfMonth(MonthIndex(d)) <= DayNumber(d) < FirstOfMonth(MonthIndex(d) + 1)
  {
    MonthIndexOf(d);
    NextMonth(MonthIndex(d));
  }

  /** A real date in an earlier month has the smaller day number. */
  lemma EarlierMonth(a: Date, b: Date)
    requires ValidDate(a) && ValidDate(b) && MonthIndex(a) < MonthIndex(b)
    ensures DayNumber(a) < DayNumber(b)
  {
    WithinMonth(a);
    WithinMonth(b);
    FirstOfMonthGrows(MonthIndex(a) + 1, MonthIndex(b));
  }

  /** For real dates, comparing year, month and day in turn orders them as
      their day numbers do, i.e. as time does. */
  lemma DateOrder(a: Date, b: Date)
    requires ValidDate(a) && ValidDate(b)
    ensures NotAfter(a, b) <==> DayNumber(a) <= DayNumber(b)
    ensures a == b <==> DayNumber(a) == DayNumber(b)
  {
    MonthIndexOrder(a, b);
    if MonthIndex(a) < MonthIndex(b) {
      EarlierMonth(a, b);
    } else if MonthIndex(b) < MonthIndex(a) {
      EarlierMonth(b, a);
    }
  }

  // ---------------------------------------------------------------------
  // The dates a JavaScript `Date` constructor builds from year, month and day.

  /** The year `new Date(year, …)` stands for: 0..99 mean 1900..1999. */
  function FullYear(year: int): int
  {
    if 0 <= year <= 99 then 1900 + year else year
  }

  /** The month before the month of `d`, on its first day. */
  function MonthBefore(d: Date): (r: Date)
    requires 1 <= d.month <= 12
    ensures 1 <= r.month <= 12 && MonthIndex(r) == MonthIndex(d) - 1
  {
    if d.month == 1 then Date(d.year - 1, 12, 1) else Date(d.year, d.month - 1, 1)
  }

  /** The month after the month of `d`, on its first day. */
  function MonthAfter(d: Date): (r: Date)
    requires 1 <= d.month <= 12
    ensures 1 <= r.month <= 12 && MonthIndex(r) == MonthIndex(d) + 1
  {
    if d.month == 12 then Date(d.year + 1, 1, 1) else Date(d.year, d.month + 1, 1)
  }

  /** Day `x + length` of a month is day `x` of the month after it. */
  lemma MonthCarry(a: Date, b: Date, x: int)
    requires 1 <= a.month <= 12 && MonthIndex(b) == MonthIndex(a) + 1
    ensures DayNumber(Date(a.year, a.month, x + DaysInMonth(a.year, a.month)))
            == DayNumber(Date(b.year, b.month, x))
  {
    MonthIndexOf(a);
    NextMonth(MonthIndex(a));
  }

  /** Moves a day that lies outside its month into the month before or
      after, one month at a time, until it fits. The result is the one real
      date with the same day number. */
  function NormaliseDay(d: Date): (r: Date)
    requires 1 <= d.month <= 12
    ensures ValidDate(r)
    ensures DayNumber(r) == DayNumber(d)
    decreases if d.day < 1 then 33 - d.day else d.day
  {
    if d.day < 1 then
      var before := MonthBefore(d);
      MonthCarry(before, d, d.day);
      NormaliseDay(Date(before.year, before.month, d.day + DaysInMonth(before.year, before.month)))
    else if d.day > DaysInMonth(d.year, d.month) then
      var after := MonthAfter(d);
      var rest := d.day - DaysInMonth(d.year, d.month);
      MonthCarry(d, after, rest);
      NormaliseDay(Date(after.year, after.month, rest))
    else
      d
  }

  /** The date `new Date(year, month - 1, day)` denotes: the year mapped by
      `FullYear`, then the month and the day carried over into the
      neighbouring years and months as far as they exceed their range. */
  function JsDate(year: int, month: int, day: int): (r: Date)
    ensures ValidDate(r)
    ensures DayNumber(r) == DayNumber(Date(FullYear(year), month, day))
  {
    var k := FullYear(year) * 12 + month - 1;
    assert MonthIndex(Date(k / 12, k % 12 + 1, day)) == k;
    NormaliseDay(Date(k / 12, k % 12 + 1, day))
  }

  /** Only the real date with that day number satisfies `JsDate`'s contract. */
  lemma JsDateUnique(year: int, month: int, day: int, r: Date)
    requires ValidDate(r) && DayNumber(r) == DayNumber(Date(FullYear(year), month, day))
    ensures r == JsDate(year, month, day)
  {
    DateOrder(r, JsDate(year, month, day));
  }

  /** A real date from year 100 on is built unchanged. */
  lemma JsDateOfRealDate(d: Date)
    requires ValidDate(d) && !(0 <= d.year <= 99)
    ensures JsDate(d.year, d.month, d.day) == d
  {
    JsDateUnique(d.year, d.month, d.day, d);
  }

  /** `new Date(year, month - 1, day) <= today`, compared as JavaScript
      compares dates: by the day numbers, days past a month's end counting
      on into the next. */
  predicate JsNotAfter(year: int, month: int, day: int, today: Date)
  {
    DayNumber(Date(FullYear(year), month, day)) <= DayNumber(today)
  }

  /** Comparing day numbers is comparing the built date with `today`. */
  lemma JsNotAfterIff(year: int, month: int, day: int, today: Date)
    requires ValidDate(today)
    ensures JsNotAfter(year, month, day, today) <==> NotAfter(JsDate(year, month, day), today)
  {
    DateOrder(JsDate(year, month, day), today);
  }

  /** Examples of the leap-year rule and the month lengths. */
  lemma LeapYearExamples()
    ensures IsLeapYear(2000) && IsLeapYear(1996) && IsLeapYear(2024)
    ensures !IsLeapYear(1900) && !IsLeapYear(2001) && !IsLeapYear(2023)
    ensures DaysInMonth(2024, 2) == 29 && DaysInMonth(2023, 2) == 28
    ensures DaysInMonth(2024, 4) == 30 && DaysInMonth(2024, 1) == 31
  {
  }
}
