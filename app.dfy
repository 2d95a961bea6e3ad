/** The age calculator's form: validation of the birth-date fields against a
    reference date, routing of field edits to the slice, and submission,
    which calculates the age only when validation succeeds. */
module App {
  import opened DateMath
  import opened AgeSlice

  datatype Option<T> = None | Some(value: T)

  /** The keys of the error map: one per field, and one for the date. */
  datatype ErrorKey = YearsField | MonthsField | DaysField | DateField

  const Required := "This field is required"
  const InvalidYear := "Invalid year"
  const InvalidMonth := "Must be a valid month"
  const InvalidDay := "Must be a valid day"
  const InvalidDayForMonth := "Invalid day for the given month"
  const NotInPast := "Must be in the past"

  /** The error of the `years` field, if any. */
  function YearsError(years: Field): Option<string>
  {
    match years
    case Unset => Some(Required)
    case Value(y) => if y < 0 then Some(InvalidYear) else None
  }

  /** The error of the `months` field, if any. */
  function MonthsError(months: Field): Option<string>
  {
    match months
    case Unset => Some(Required)
    case Value(m) => if m < 1 || m > 12 then Some(InvalidMonth) else None
  }

  /** The error of the `days` field, if any, given the length of the birth
      month (`None` when no month is given). */
  function DaysError(days: Field, monthLength: Option<int>): Option<string>
  {
    match days
    case Unset => Some(Required)
    case Value(d) =>
      if d < 1 || d > 31 then Some(InvalidDay)
      else if monthLength.Some? && d > monthLength.value then Some(InvalidDayForMonth)
      else None
  }

  /** The error of the date as a whole: set, and after `today` once a
      JavaScript `Date` is built from it. */
  function DateError(birth: Fields, today: Date): Option<string>
  {
    if birth.years.Value? && birth.months.Value? && birth.days.Value?
       && !JsNotAfter(birth.years.value, birth.months.value, birth.days.value, today)
    then Some(NotInPast)
    else None
  }

  /** `errors` with `key` set to the error, if there is one. */
  function Note(errors: map<ErrorKey, string>, key: ErrorKey, error: Option<string>): map<ErrorKey, string>
  {
    if error.Some? then errors[key := error.value] else errors
  }

  /** The error map, with the given length of the birth month. */
  function ErrorsWith(birth: Fields, today: Date, monthLength: Option<int>): map<ErrorKey, string>
  {
    var errors := Note(map[], YearsField, YearsError(birth.years));
    var errors := Note(errors, MonthsField, MonthsError(birth.months));
    var errors := Note(errors, DaysField, DaysError(birth.days, monthLength));
    Note(errors, DateField, DateError(birth, today))
  }

  /** The year the leap-year rule is applied to: an unset year is a common
      year, as the `'--'` marker's remainders are not numbers. */
  function YearForRule(years: Field): int
  {
    if years.Value? then years.value else 1
  }

  /** The length of the birth month, by the integer month-length rule. */
  function BirthMonthLength(birth: Fields): Option<int>
  {
    if birth.months.Unset? then None
    else Some(DaysInMonth(YearForRule(birth.years), birth.months.value))
  }

  /** The errors of a birth date on `today`: each field gets at most one
      error, "required" for an unset field and a range error otherwise, and
      `date` an error when the whole date is set and after `today`. */
  function ValidationErrors(birth: Fields, today: Date): (errors: map<ErrorKey, string>)
    ensures YearsField in errors <==> birth.years.Unset? || birth.years.value < 0
    ensures YearsField in errors ==> errors[YearsField] == if birth.years.Unset? then Required else InvalidYear
    ensures MonthsField in errors <==> birth.months.Unset? || !(1 <= birth.months.value <= 12)
    ensures MonthsField in errors ==> errors[MonthsField] == if birth.months.Unset? then Required else InvalidMonth
    ensures DaysField in errors <==>
              || birth.days.Unset?
              || !(1 <= birth.days.value <= 31)
              || (birth.months.Value?
                  && birth.days.value > DaysInMonth(YearForRule(birth.years), birth.months.value))
    ensures DaysField in errors ==>
              errors[DaysField] == if birth.days.Unset? then Required
                                else if !(1 <= birth.days.value <= 31) then InvalidDay
                                else InvalidDayForMonth
    ensures DateField in errors <==>
              && birth.years.Value? && birth.months.Value? && birth.days.Value?
              && !JsNotAfter(birth.years.value, birth.months.value, birth.days.value, today)
    ensures DateField in errors ==> errors[DateField] == NotInPast
  {
    ErrorsWith(birth, today, BirthMonthLength(birth))
  }

  /** Validation succeeds exactly for a set, real birth date with a year not
      below zero whose JavaScript `Date` is on or before `today`. */
  lemma ValidationSucceedsIff(birth: Fields, today: Date)
    ensures ValidationErrors(birth, today) == map[]
            <==> && birth.years.Value? && birth.months.Value? && birth.days.Value?
                 && birth.years.value >= 0
                 && ValidDate(Date(birth.years.value, birth.months.value, birth.days.value))
                 && JsNotAfter(birth.years.value, birth.months.value, birth.days.value, today)
  {
    var errors := ValidationErrors(birth, today);
    if errors.Keys == {} {
      assert errors == map[];
    } else {
      var k :| k in errors;
    }
  }

  /** A birth date that passes validation gets an age in whole years not
      below zero, months 0..11 and at most 30 days. */
  lemma ValidatedAge(birth: Fields, today: Date)
    requires ValidDate(today)
    requires ValidationErrors(birth, today) == map[]
    ensures var age := AgeFields(birth, today);
            && age.years.Value? && age.months.Value? && age.days.Value?
            && age.years.value >= 0
            && 0 <= age.months.value <= 11
            && age.days.value <= 30
  {
    ValidationSucceedsIff(birth, today);
    var d := JsDate(birth.years.value, birth.months.value, birth.days.value);
    JsNotAfterIff(birth.years.value, birth.months.value, birth.days.value, today);
    AgeOnNotNegative(d, today);
    AgeOnDayBounds(d, today);
  }

  /** Examples of the error map, on 2025-06-01. */
  lemma ValidationExamples()
    ensures ValidationErrors(Fields(Unset, Value(6), Value(15)), Date(2025, 6, 1))
            == map[YearsField := Required]
    ensures ValidationErrors(Fields(Value(2024), Value(13), Value(1)), Date(2025, 6, 1))
            == map[MonthsField := InvalidMonth]
    ensures ValidationErrors(Fields(Value(2023), Value(2), Value(30)), Date(2025, 6, 1))
            == map[DaysField := InvalidDayForMonth]
    ensures ValidationErrors(Fields(Value(2999), Value(1), Value(1)), Date(2025, 6, 1))
            == map[DateField := NotInPast]
    ensures ValidationErrors(Fields(Value(2024), Value(1), Value(1)), Date(2025, 6, 1)) == map[]
  {
    var today := Date(2025, 6, 1);
    assert JsNotAfter(2024, 13, 1, today) by {
      DateOrder(Date(2025, 1, 1), today);
    }
    assert JsNotAfter(2023, 2, 30, today) by {
      MonthCarry(Date(2023, 2, 1), Date(2023, 3, 1), 2);
      DateOrder(Date(2023, 3, 2), today);
    }
    assert !JsNotAfter(2999, 1, 1, today) by {
      DateOrder(Date(2999, 1, 1), today);
    }
    assert JsNotAfter(2024, 1, 1, today) by {
      DateOrder(Date(2024, 1, 1), today);
    }
  }

  /** Validation does not rule out a negative day count: on 1 March of any
      year, 31 January of that year passes validation and its age has
      negative days, as the day borrow covers only February. */
  lemma ValidatedNegativeDays(year: int)
    requires year >= 100
    ensures exists birth: Fields ::
              && ValidationErrors(birth, Date(year, 3, 1)) == map[]
              && AgeFields(birth, Date(year, 3, 1)).days.Value?
              && AgeFields(birth, Date(year, 3, 1)).days.value < 0
  {
    var birth := Fields(Value(year), Value(1), Value(31));
    JsDateOfRealDate(Date(year, 1, 31));
    DateOrder(Date(year, 1, 31), Date(year, 3, 1));
    AgeOnDays(Date(year, 1, 31), Date(year, 3, 1));
    assert ValidationErrors(birth, Date(year, 3, 1)) == map[];
    assert AgeFields(birth, Date(year, 3, 1)).days.value < 0;
  }

  // ---------------------------------------------------------------------
  // The month-length check as written.

  /** A JavaScript value as the month-length rule receives its month: a
      number, or the text of an input field holding the digits of `n`. */
  datatype JsValue = Number(n: int) | NumericText(n: int)

  /** The month-length rule with the strict equality of its source: text is
      never equal to a number, so only a numeric month selects February or a
      30-day month. The year only meets `%`, which converts text. */
  function DaysInMonthJs(year: int, month: JsValue): (n: int)
    ensures month.Number? ==> n == DaysInMonth(year, month.n)
    ensures month.NumericText? ==> n == 31
  {
    if month == Number(2) then (if IsLeapYear(year) then 29 else 28)
    else if month in [Number(4), Number(6), Number(9), Number(11)] then 30
    else 31
  }

  /** The birth-month length as the form computes it from its text fields. */
  function TextMonthLength(birth: Fields): Option<int>
  {
    if birth.months.Unset? then None
    else Some(DaysInMonthJs(YearForRule(birth.years), NumericText(birth.months.value)))
  }

  /** The error map as the form computes it from its text fields: the
      month-length rule sees text, so a day in 1..31 is never reported for
      its month; every other key is as with the integer rule. */
  function ValidationErrorsAsWritten(birth: Fields, today: Date): (errors: map<ErrorKey, string>)
    ensures DaysField in errors <==> birth.days.Unset? || !(1 <= birth.days.value <= 31)
    ensures DaysField in errors ==> errors[DaysField] == if birth.days.Unset? then Required else InvalidDay
    ensures errors - {DaysField} == ValidationErrors(birth, today) - {DaysField}
  {
    ErrorsWith(birth, today, TextMonthLength(birth))
  }

  /** With text fields 30 February 2023 passes validation, while the integer
      rule rejects it; 30 February 2026 is built as 2 March and, on 1 March
      2026, gets only the date error. */
  lemma AsWrittenAcceptsFebruary30()
    ensures ValidationErrorsAsWritten(Fields(Value(2023), Value(2), Value(30)), Date(2024, 1, 1)) == map[]
    ensures ValidationErrors(Fields(Value(2023), Value(2), Value(30)), Date(2024, 1, 1))
            == map[DaysField := InvalidDayForMonth]
    ensures ValidationErrorsAsWritten(Fields(Value(2026), Value(2), Value(30)), Date(2026, 3, 1))
            == map[DateField := NotInPast]
  {
    assert JsNotAfter(2023, 2, 30, Date(2024, 1, 1)) by {
      MonthCarry(Date(2023, 2, 1), Date(2023, 3, 1), 2);
      DateOrder(Date(2023, 3, 2), Date(2024, 1, 1));
    }
    assert !JsNotAfter(2026, 2, 30, Date(2026, 3, 1)) by {
      MonthCarry(Date(2026, 2, 1), Date(2026, 3, 1), 2);
      DateOrder(Date(2026, 3, 2), Date(2026, 3, 1));
    }
  }



  /** The finding holds on every reference date from year 101 on: some
      birth date passes the validation as written although its day lies
      beyond the end of its month, which the integer rule reports. */
  lemma AsWrittenAcceptsImpossibleDay(today: Date)
    requires ValidDate(today) && today.year >= 101
    ensures exists birth: Fields ::
              && ValidationErrorsAsWritten(birth, today) == map[]
              && ValidationErrors(birth, today) == map[DaysField := InvalidDayForMonth]
  {
    var year := today.year - 1;
    var rest := 30 - DaysInMonth(year, 2);
    MonthCarry(Date(year, 2, 1), Date(year, 3, 1), rest);
    DateOrder(Date(year, 3, rest), today);
    var birth := Fields(Value(year), Value(2), Value(30));
    assert ValidationErrorsAsWritten(birth, today) == map[];
    assert ValidationErrors(birth, today) == map[DaysField := InvalidDayForMonth];
  }

  // ---------------------------------------------------------------------
  // The form.

  /** The form: its error map, and the slice it reads and dispatches to. */
  class AgeCalculator {
    var errors: map<ErrorKey, string>
    const store: AgeState

    /** A fresh form over a slice in its initial state. */
    constructor ()
      ensures fresh(store)
      ensures store.Inputs() == Fields(Unset, Unset, Unset)
      ensures store.Calculated() == Fields(Unset, Unset, Unset)
      ensures errors == map[]
    {
      store := new AgeState();
      errors := map[];
    }

    /** Routes an edit to the setter of the field it names; other names
        change nothing. */
    method HandleInputChange(name: string, value: Field)
      modifies store
      ensures store.Inputs()
              == if name == "years" then old(store.Inputs()).(years := value)
                 else if name == "months" then old(store.Inputs()).(months := value)
                 else if name == "days" then old(store.Inputs()).(days := value)
                 else old(store.Inputs())
      ensures store.Calculated() == old(store.Calculated())
    {
      if name == "years" {
        store.SetYears(value);
      } else if name == "months" {
        store.SetMonths(value);
      } else if name == "days" {
        store.SetDays(value);
      }
    }

    /** Builds the error map field by field, stores it, and tells whether it
        is empty. */
    method ValidateInputs(today: Date) returns (valid: bool)
      modifies this
      ensures errors == ValidationErrors(store.Inputs(), today)
      ensures valid <==> errors == map[]
    {
      var years, months, days := store.years, store.months, store.days;
      ghost var birth := Fields(years, months, days);
      var newErrors: map<ErrorKey, string> := map[];

      if years.Unset? {
        newErrors := newErrors[YearsField := Required];
      } else if years.value < 0 {
        newErrors := newErrors[YearsField := InvalidYear];
      }
      ghost var stage := Note(map[], YearsField, YearsError(years));
      assert newErrors == stage;

      if months.Unset? {
        newErrors := newErrors[MonthsField := Required];
      } else if months.value < 1 || months.value > 12 {
        newErrors := newErrors[MonthsField := InvalidMonth];
      }
      stage := Note(stage, MonthsField, MonthsError(months));
      assert newErrors == stage;

      if days.Unset? {
        newErrors := newErrors[DaysField := Required];
      } else if days.value < 1 || days.value > 31 {
        newErrors := newErrors[DaysField := InvalidDay];
      } else if months.Value? && days.value > DaysInMonth(YearForRule(years), months.value) {
        newErrors := newErrors[DaysField := InvalidDayForMonth];
      }
      ghost var monthLength := BirthMonthLength(birth);
      stage := Note(stage, DaysField, DaysError(days, monthLength));
      assert newErrors == stage;

      if years.Value? && months.Value? && days.Value?
         && !JsNotAfter(years.value, months.value, days.value, today)
      {
        newErrors := newErrors[DateField := NotInPast];
      }

      stage := Note(stage, DateField, DateError(birth, today));
      assert newErrors == stage;
      errors := newErrors;
      valid := newErrors == map[];
    }

    /** Validates, and calculates the age only when there is no error; on an
        error the previous results stay. */
    method HandleSubmit(today: Date)
      requires ValidDate(today)
      modifies this, store
      ensures store.Inputs() == old(store.Inputs())
      ensures errors == ValidationErrors(store.Inputs(), today)
      ensures errors == map[] ==> store.Calculated() == AgeFields(store.Inputs(), today)
      ensures errors != map[] ==> store.Calculated() == old(store.Calculated())
    {
      var valid := ValidateInputs(today);
      if valid {
        ValidationSucceedsIff(store.Inputs(), today);
        store.CalculateAge(today);
      }
    }
  }
}
