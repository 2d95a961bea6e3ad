/** The age slice of the application state: three birth-date inputs, three
    calculated results, the setters that overwrite one input each, and the
    calculation that overwrites all three results from the inputs and a
    reference date. */
module AgeSlice {
  import opened DateMath

  /** A form or result field: the unset marker (`'--'` or the empty text)
      or an integer. */
  datatype Field = Unset | Value(value: int)

  /** Years, months and days, as inputs (a birth date) or as a result. */
  datatype Fields = Fields(years: Field, months: Field, days: Field)

  /** An age in whole years, whole months beyond them, and days. */
  datatype Age = Age(years: int, months: int, days: int)

  /** The date `n` months after `d`, keeping its day (which may then lie past
      the end of the new month). */
  function AddMonths(d: Date, n: int): (r: Date)
    ensures 1 <= r.month <= 12 && r.day == d.day
    ensures MonthIndex(r) == MonthIndex(d) + n
  {
    var k := MonthIndex(d) + n;
    Date(k / 12, k % 12 + 1, d.day)
  }

  /** Whole months from `birth` to `today`: a month counts once its
      day-of-month has been reached. */
  function WholeMonths(birth: Date, today: Date): int
  {
    MonthIndex(today) - MonthIndex(birth) - (if today.day < birth.day then 1 else 0)
  }

  /** The age of someone born on `birth`, on `today`: the whole months split
      into years and months, and the days from the last monthly anniversary
      (the birth day in the month reached) to `today`. */
  function AgeOn(birth: Date, today: Date): Age
  {
    var n := WholeMonths(birth, today);
    Age(n / 12, n % 12, DayNumber(today) - DayNumber(AddMonths(birth, n)))
  }

  /** Length of the month before `today`'s month: day 0 of a month is the
      last day of the month before, December of the previous year for
      January. */
  function PreviousMonthLength(today: Date): (n: int)
    ensures 28 <= n <= 31
    ensures 1 <= today.month <= 12 ==> n == LengthOfMonth(MonthIndex(today) - 1)
  {
    if today.month == 1 then DaysInMonth(today.year - 1, 12)
    else DaysInMonth(today.year, today.month - 1)
  }

  /** Day 0 of `today`'s month, as `new Date(year, monthIndex, 0)` builds
      it, is the last day of the month before: its day is that month's
      length. */
  lemma DayZeroIsPreviousMonthEnd(today: Date)
    requires ValidDate(today) && !(0 <= today.year <= 99)
    ensures JsDate(today.year, today.month, 0)
            == var before := MonthBefore(today);
               Date(before.year, before.month, PreviousMonthLength(today))
  {
    var before := MonthBefore(today);
    MonthCarry(before, today, 0);
    JsDateUnique(today.year, today.month, 0, Date(before.year, before.month, PreviousMonthLength(today)));
  }

  /** What the calculation yields for the given inputs: all unset when any
      input is unset, otherwise the age on `today` of the date a JavaScript
      `Date` builds from the inputs. */
  function AgeFields(birth: Fields, today: Date): Fields
  {
    if birth.years.Unset? || birth.months.Unset? || birth.days.Unset? then
      Fields(Unset, Unset, Unset)
    else
      var age := AgeOn(JsDate(birth.years.value, birth.months.value, birth.days.value), today);
      Fields(Value(age.years), Value(age.months), Value(age.days))
  }

  // ---------------------------------------------------------------------
  // What the age is.

  /** Without a borrow the days are the difference of the days of month;
      with one, the length of the month before `today`'s is added. */
  lemma AgeOnDays(birth: Date, today: Date)
    requires 1 <= today.month <= 12
    ensures AgeOn(birth, today).days
            == today.day - birth.day + (if today.day < birth.day then PreviousMonthLength(today) else 0)
  {
    var n := WholeMonths(birth, today);
    var kt := MonthIndex(today);
    assert MonthIndex(AddMonths(birth, n)) == kt - (if today.day < birth.day then 1 else 0);
    if today.day < birth.day {
      NextMonth(kt - 1);
      var before := if today.month == 1 then Date(today.year - 1, 12, 1)
                    else Date(today.year, today.month - 1, 1);
      assert MonthIndex(before) == kt - 1;
      MonthIndexOf(before);
    }
  }

  /** An age is determined by its whole months, split with months 0..11,
      and the days from the last anniversary. */
  lemma AgeOnFrom(birth: Date, today: Date, years: int, months: int, days: int)
    requires 1 <= today.month <= 12
    requires 12 * years + months == WholeMonths(birth, today) && 0 <= months < 12
    requires days == today.day - birth.day
                     + (if today.day < birth.day then PreviousMonthLength(today) else 0)
    ensures AgeOn(birth, today) == Age(years, months, days)
  {
    AgeOnDays(birth, today);
  }

  /** The calculation never borrows more days than a month holds: the days
      are at most 30, and they are negative exactly when the birth day lies
      beyond the end of the month before `today`'s plus `today`'s day. */
  lemma AgeOnDayBounds(birth: Date, today: Date)
    requires ValidDate(today) && 1 <= birth.day
    ensures AgeOn(birth, today).days <= 30
    ensures AgeOn(birth, today).days >= 0 <==> birth.day <= PreviousMonthLength(today) + today.day
  {
    AgeOnDays(birth, today);
  }

  /** On or before `today`, the age in years is not negative. */
  lemma AgeOnNotNegative(birth: Date, today: Date)
    requires 1 <= birth.month <= 12 && 1 <= today.month <= 12
    requires NotAfter(birth, today)
    ensures WholeMonths(birth, today) >= 0 && AgeOn(birth, today).years >= 0
  {
    MonthIndexOrder(birth, today);
  }

  /** On the birth date itself the age is zero. */
  lemma AgeOnSameDate(d: Date)
    requires 1 <= d.month <= 12
    ensures AgeOn(d, d) == Age(0, 0, 0)
  {
    MonthIndexOf(d);
    assert AddMonths(d, 0) == d;
  }

  /** The last monthly anniversary falls in `today`'s month when the birth
      day has been reached, and in the month before otherwise. */
  lemma LastAnniversary(birth: Date, today: Date)
    requires 1 <= today.month <= 12
    ensures AddMonths(birth, WholeMonths(birth, today))
            == if today.day >= birth.day then Date(today.year, today.month, birth.day)
               else if today.month == 1 then Date(today.year - 1, 12, birth.day)
               else Date(today.year, today.month - 1, birth.day)
  {
    var last := AddMonths(birth, WholeMonths(birth, today));
    var expected := if today.day >= birth.day then Date(today.year, today.month, birth.day)
                    else if today.month == 1 then Date(today.year - 1, 12, birth.day)
                    else Date(today.year, today.month - 1, birth.day);
    assert MonthIndex(expected) == MonthIndex(last);
    MonthIndexOf(expected);
  }

  /** Consecutive monthly anniversaries lie one month length apart. */
  lemma AnniversaryStep(d: Date, n: int)
    ensures var a := AddMonths(d, n);
            DayNumber(AddMonths(d, n + 1)) == DayNumber(a) + DaysInMonth(a.year, a.month)
  {
    var a := AddMonths(d, n);
    NextMonth(MonthIndex(a));
    MonthIndexOf(a);
  }

  /** When the birth day fits the month of the last anniversary, that
      anniversary is a real date, and the age is the whole months up to it
      followed by the days from it, fewer than its month has. */
  lemma AgeOnAnniversary(birth: Date, today: Date)
    requires ValidDate(birth) && ValidDate(today)
    requires today.day >= birth.day || birth.day <= PreviousMonthLength(today)
    ensures var last := AddMonths(birth, WholeMonths(birth, today));
            && ValidDate(last)
            && DayNumber(last) + AgeOn(birth, today).days == DayNumber(today)
            && 0 <= AgeOn(birth, today).days < DaysInMonth(last.year, last.month)
  {
    AgeOnDays(birth, today);
    LastAnniversary(birth, today);
  }

  /** Under the same condition, the last anniversary is on or before
      `today`. */
  lemma AnniversaryNotAfter(birth: Date, today: Date)
    requires ValidDate(birth) && ValidDate(today)
    requires today.day >= birth.day || birth.day <= PreviousMonthLength(today)
    ensures NotAfter(AddMonths(birth, WholeMonths(birth, today)), today)
  {
    AgeOnAnniversary(birth, today);
    DateOrder(AddMonths(birth, WholeMonths(birth, today)), today);
  }

  /** Under the same condition, the anniversary after the last one is later
      than `today`: the whole months are the most that fit. */
  lemma NextAnniversaryAfter(birth: Date, today: Date)
    requires ValidDate(birth) && ValidDate(today)
    requires today.day >= birth.day || birth.day <= PreviousMonthLength(today)
    ensures DayNumber(today) < DayNumber(AddMonths(birth, WholeMonths(birth, today) + 1))
  {
    AgeOnAnniversary(birth, today);
    AnniversaryStep(birth, WholeMonths(birth, today));
  }

  /** The worked examples: born 2023-06-15 is 0 years, 6 months and 17 days
      old on 2024-01-01; born 2000-01-01 is 24 years old that day. */
  lemma WorkedExamples()
    ensures AgeOn(Date(2023, 6, 15), Date(2024, 1, 1)) == Age(0, 6, 17)
    ensures AgeOn(Date(2000, 1, 1), Date(2024, 1, 1)) == Age(24, 0, 0)
  {
    AgeOnDays(Date(2023, 6, 15), Date(2024, 1, 1));
    AgeOnDays(Date(2000, 1, 1), Date(2024, 1, 1));
  }

  /** A single day borrow does not always suffice: born on 31 January, one is
      0 years, 1 month and -2 days old on 1 March of a common year. */
  lemma DayBorrowFallsShort()
    ensures AgeOn(Date(2023, 1, 31), Date(2023, 3, 1)) == Age(0, 1, -2)
  {
    AgeOnDays(Date(2023, 1, 31), Date(2023, 3, 1));
  }

  /** A day past the end of its month is carried over before the age is
      taken: in a common year 30 February is built as 2 March, so on 1 April
      the age is 0 years, 0 months and 30 days. */
  lemma RolledOverBirthDate(year: int)
    requires year >= 100 && !IsLeapYear(year)
    ensures AgeFields(Fields(Value(year), Value(2), Value(30)), Date(year, 4, 1))
            == Fields(Value(0), Value(0), Value(30))
  {
    assert JsDate(year, 2, 30) == Date(year, 3, 2) by {
      MonthCarry(Date(year, 2, 1), Date(year, 3, 1), 2);
      JsDateUnique(year, 2, 30, Date(year, 3, 2));
    }
    assert AgeOn(Date(year, 3, 2), Date(year, 4, 1)) == Age(0, 0, 30) by {
      AgeOnFrom(Date(year, 3, 2), Date(year, 4, 1), 0, 0, 30);
    }
  }

  // ---------------------------------------------------------------------
  // The calculation.

  /** Builds the birth date as a JavaScript `Date` does, subtracts its year,
      month and day from those of `today`, then
      borrows at most once from the months (the length of the month before
      `today`'s) and at most once from the years (12 months). */
  method CalculateAgeUtil(years: Field, months: Field, days: Field, today: Date)
    returns (age: Fields)
    requires ValidDate(today)
    ensures age == AgeFields(Fields(years, months, days), today)
  {
    if years.Unset? || months.Unset? || days.Unset? {
      return Fields(Unset, Unset, Unset);
    }
    var birth := JsDate(years.value, months.value, days.value);

    var ageYears := today.year - birth.year;
    var ageMonths := today.month - birth.month;
    var ageDays := today.day - birth.day;

    if ageDays < 0 {
      ageMonths := ageMonths - 1;
      ageDays := ageDays + PreviousMonthLength(today);
    }

    if ageMonths < 0 {
      ageYears := ageYears - 1;
      ageMonths := ageMonths + 12;
    }

    AgeOnFrom(birth, today, ageYears, ageMonths, ageDays);
    return Fields(Value(ageYears), Value(ageMonths), Value(ageDays));
  }

  /** The slice's state. */
  class AgeState {
    var years: Field
    var months: Field
    var days: Field
    var calculatedYears: Field
    var calculatedMonths: Field
    var calculatedDays: Field

    /** The three birth-date inputs. */
    function Inputs(): Fields
      reads this
    {
      Fields(years, months, days)
    }

    /** The three calculated results. */
    function Calculated(): Fields
      reads this
    {
      Fields(calculatedYears, calculatedMonths, calculatedDays)
    }

    /** The initial state: all six fields unset. */
    constructor ()
      ensures Inputs() == Fields(Unset, Unset, Unset)
      ensures Calculated() == Fields(Unset, Unset, Unset)
    {
      years, months, days := Unset, Unset, Unset;
      calculatedYears, calculatedMonths, calculatedDays := Unset, Unset, Unset;
    }

    method SetYears(value: Field)
      modifies this
      ensures Inputs() == old(Inputs()).(years := value)
      ensures Calculated() == old(Calculated())
    {
      years := value;
    }

    method SetMonths(value: Field)
      modifies this
      ensures Inputs() == old(Inputs()).(months := value)
      ensures Calculated() == old(Calculated())
    {
      months := value;
    }

    method SetDays(value: Field)
      modifies this
      ensures Inputs() == old(Inputs()).(days := value)
      ensures Calculated() == old(Calculated())
    {
      days := value;
    }

    /** Overwrites all three results from the inputs; the inputs stay. */
    method CalculateAge(today: Date)
      requires ValidDate(today)
      modifies this
      ensures Inputs() == old(Inputs())
      ensures Calculated() == AgeFields(Inputs(), today)
    {
      var age := CalculateAgeUtil(years, months, days, today);
      calculatedYears := age.years;
      calculatedMonths := age.months;
      calculatedDays := age.days;
    }
  }
}
