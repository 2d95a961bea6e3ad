# Age calculator: calendar arithmetic, birth-date validation and the age slice

This project models the logic of a browser age calculator. A form collects a
birth date as three fields (day, month, year). On submission it validates them
against today's date and, when they pass, calculates the age in years, months
and days, which an application-state slice stores for display.

- `DateMath` (date_math.dfy): the Gregorian leap-year rule and month lengths
  of the form. It also holds a proleptic Gregorian day count (`DayNumber`),
  the reference against which the rule, the month lengths, the date ordering
  and the age are checked. `JsDate` is the date that the JavaScript
  constructor `new Date(year, month - 1, day)` builds: years 0..99 stand for
  1900..1999, and a month or day out of range carries into the neighbouring
  months. `JsNotAfter` compares such a date with today by day numbers, as
  JavaScript compares dates.
- `AgeSlice` (age_slice.dfy): the slice. A field is `Unset` or an integer.
  `AgeState` is a class with the three inputs and the three calculated
  results. It has the three setters and the calculation. `CalculateAgeUtil`
  is the age computation: it builds the birth date with `JsDate`, subtracts
  the two dates and does at most one day
  borrow and one month borrow. It is proved equal to `AgeOn`, an independent
  definition of the age. `AgeOn` is the whole months, split into years and
  months 0..11, plus the days from the last monthly anniversary.
- `App` (app.dfy): the form. `ValidationErrors` is the error map, keyed
  `years`, `months`, `days` and `date`. `AgeCalculator` is the form itself:
  - `HandleInputChange` routes a field edit to its setter;
  - `ValidateInputs` fills the error map step by step and stores it;
  - `HandleSubmit` calculates the age only when the map is empty.

The clock is a parameter: every operation that reads "now" takes the
reference date `today`.

The day borrow adds the length of the month before today's month. That one
borrow is not always enough. Born 31 January, one is 0 years, 1 month and
-2 days old on 1 March of a common year (`AgeSlice.DayBorrowFallsShort`).
The model keeps this behaviour, and validation does not exclude it
(`App.ValidatedNegativeDays`). `AgeOnDayBounds` gives the exact condition for
non-negative days. `AgeOnAnniversary`, `AnniversaryNotAfter` and
`NextAnniversaryAfter` show that the result is a true "anniversary plus days"
age whenever that condition holds.

The month-length rule is modelled with integer months, as evidently intended
(see Findings). In the source it receives the month as text and returns 31
for every month, so a day past the end of its month, such as 30 February,
passes validation and reaches the calculation, which carries it into the
next month (`AgeSlice.RolledOverBirthDate`).

## Model

| member | source | states |
|---|---|---|
| `DateMath.IsLeapYear` | src/App.jsx:7-9 | a year not divisible by 4 is common; outside the century years a year is leap iff divisible by 4; a century year is leap iff divisible by 400 |
| `DateMath.DaysInMonth` | src/App.jsx:11-19 | always 28..31; 29 iff February of a leap year, 28 iff February otherwise, 30 iff April, June, September or November, 31 for every other month number |
| `DateMath.YearLength` | src/App.jsx:7-9 | the leap-year rule (divisible by 4 and not by 100, or by 400) picks exactly the years that the 400-year Gregorian day count gives 366 days |
| `DateMath.NextMonth` | src/App.jsx:11-19 | the month lengths chain the months of the day count: each month starts where the previous one ends, across the year boundary too |
| `DateMath.DateOrder` | src/App.jsx:70 | for real dates, comparing year, then month, then day orders them as their day numbers (time) do; equal dates have equal day numbers |
| `DateMath.NormaliseDay` | src/App.jsx:48 | a day outside its month is carried into the months before or after until it fits: the result is a real date with the same day number |
| `DateMath.JsDate` | src/App.jsx:48 | `new Date(year, month - 1, day)` is a real date whose day number is that of year (0..99 read as 1900..1999), month and day counted on past the ends of years and months |
| `DateMath.JsDateUnique` | src/App.jsx:48 | any real date with that day number is the built date, so the built date is determined |
| `DateMath.JsDateOfRealDate` | src/reducers/AgeSlice.jsx:6 | a real date with a year outside 0..99 is built unchanged |
| `DateMath.JsNotAfterIff` | src/App.jsx:70 | against a real reference date, comparing day numbers is the same as comparing the built date with year, month and day |
| `DateMath.LeapYearExamples` | src/App.jsx:7-19 | 2000, 1996 and 2024 are leap years; 1900, 2001 and 2023 are not; February 2024 has 29 days, February 2023 has 28, April 30, January 31 |
| `AgeSlice.PreviousMonthLength` | src/reducers/AgeSlice.jsx:15 | 28..31, and the length of the month whose index is one less than today's (December of the previous year for January) |
| `AgeSlice.DayZeroIsPreviousMonthEnd` | src/reducers/AgeSlice.jsx:15 | `new Date(year, monthIndex, 0)` is the last day of the month before today's, so its day is `PreviousMonthLength(today)` |
| `AgeSlice.AgeOnDays` | src/reducers/AgeSlice.jsx:11-16 | if today's day is at least the birth day, days = today's day - birth day; otherwise the length of the month before today's month (December of the previous year for January) is added |
| `AgeSlice.AgeOnDayBounds` | src/reducers/AgeSlice.jsx:11-16 | days are at most 30, and are non-negative iff the birth day is at most the previous month's length plus today's day |
| `AgeSlice.AgeOnNotNegative` | src/reducers/AgeSlice.jsx:9-23 | for a birth date on or before today, the whole months and the years are non-negative |
| `AgeSlice.AgeOnSameDate` | src/reducers/AgeSlice.jsx:9-23 | on the birth date itself the age is 0 years, 0 months, 0 days |
| `AgeSlice.LastAnniversary` | src/reducers/AgeSlice.jsx:10-15 | the last monthly anniversary lies in today's month once the birth day is reached, otherwise in the month before (December of the previous year for January) |
| `AgeSlice.AgeOnAnniversary` | src/reducers/AgeSlice.jsx:9-23 | when the birth day fits the month of the last anniversary, that anniversary is a real date, it plus the days is today, and the days are 0 or more and fewer than its month has |
| `AgeSlice.AnniversaryNotAfter` | src/reducers/AgeSlice.jsx:9-23 | under the same condition, the last anniversary is on or before today |
| `AgeSlice.NextAnniversaryAfter` | src/reducers/AgeSlice.jsx:9-23 | under the same condition, the anniversary one month later is after today, so the whole months (years*12+months in `AgeOn`) are the largest count whose anniversary has been reached |
| `AgeSlice.WorkedExamples` | src/reducers/AgeSlice.jsx:9-23 | born 2023-06-15 gives (0, 6, 17) on 2024-01-01; born 2000-01-01 gives (24, 0, 0) |
| `AgeSlice.DayBorrowFallsShort` | src/reducers/AgeSlice.jsx:13-16 | born 2023-01-31 gives (0, 1, -2) on 2023-03-01: one day borrow does not cover every case |
| `AgeSlice.RolledOverBirthDate` | src/reducers/AgeSlice.jsx:6-23 | in any common year from 100 on, the inputs 30 February are built as 2 March, so on 1 April the result is 0 years, 0 months, 30 days |
| `AgeSlice.CalculateAgeUtil` | src/reducers/AgeSlice.jsx:3-24 | all three results unset if any input is unset; otherwise, for any integers, the borrow algorithm on the date `new Date` builds yields exactly `AgeOn` of that date: months 0..11, years*12+months the whole months, days from the last anniversary |
| `AgeSlice.AgeState.constructor` | src/reducers/AgeSlice.jsx:28-35 | the initial state has all six fields unset |
| `AgeSlice.AgeState.SetYears` | src/reducers/AgeSlice.jsx:37-39 | overwrites the years input only; the other inputs and all results are unchanged |
| `AgeSlice.AgeState.SetMonths` | src/reducers/AgeSlice.jsx:40-42 | overwrites the months input only; the other inputs and all results are unchanged |
| `AgeSlice.AgeState.SetDays` | src/reducers/AgeSlice.jsx:43-45 | overwrites the days input only; the other inputs and all results are unchanged |
| `AgeSlice.AgeState.CalculateAge` | src/reducers/AgeSlice.jsx:46-52 | overwrites all three results together with the calculation on the current inputs, whatever they hold; the inputs are unchanged |
| `App.ValidationErrors` | src/App.jsx:44-72 | keys only years, months, days, date, each with one message. An unset field gets exactly "This field is required". Set fields get the range errors: year < 0, month outside 1..12, day outside 1..31. "Invalid day for the given month" only for a day in 1..31 beyond the month's length. "Must be in the past" iff all three are set and the date `new Date` builds from them is after today |
| `App.ValidationSucceedsIff` | src/App.jsx:48-76 | the map is empty iff all fields are set, the year is non-negative, month and day form a real date, and the date `new Date` builds is on or before today |
| `App.ValidatedAge` | src/App.jsx:79-84 | a validated birth date gets a set age with years >= 0, months 0..11 and days <= 30 |
| `App.ValidationExamples` | src/App.jsx:48-72 | examples: unset year gives only the required error; month 13 (built as January of the next year) gives only the month error; 2023-02-30 gives the day-for-month error; year 2999 gives the date error; a past date gives none |
| `App.ValidatedNegativeDays` | src/reducers/AgeSlice.jsx:11-16 | on 1 March of any year from 100 on, some birth date (31 January of that year) passes validation and still gets a negative day count |
| `App.DaysInMonthJs` | src/App.jsx:11-19 | the month-length rule with strict equality: on a numeric month it agrees with `DaysInMonth`; on a month given as text it is 31 |
| `App.ValidationErrorsAsWritten` | src/App.jsx:44-72 | the error map as written: the days key only for an unset day or one outside 1..31, never "Invalid day for the given month"; every other key and message as in `ValidationErrors` |
| `App.AsWrittenAcceptsFebruary30` | src/App.jsx:62-70 | as written, 2023-02-30 passes validation on 2024-01-01 while the integer rule rejects it; 2026-02-30 is built as 2 March and on 2026-03-01 gets only "Must be in the past" |
| `App.AsWrittenAcceptsImpossibleDay` | src/App.jsx:62-68 | on every real reference date from year 101 on, some birth date (30 February of the year before) passes the validation as written while the integer rule reports exactly "Invalid day for the given month" for it |
| `App.AgeCalculator.constructor` | src/App.jsx:21-30 | a fresh form: empty error map, slice in its initial state |
| `App.AgeCalculator.HandleInputChange` | src/App.jsx:32-42 | an edit named years, months or days overwrites that input only; any other name changes nothing; results unchanged |
| `App.AgeCalculator.ValidateInputs` | src/App.jsx:44-77 | stores the error map of the current inputs and returns true iff it is empty |
| `App.AgeCalculator.HandleSubmit` | src/App.jsx:79-84 | validates; with no error the results become the age on today, otherwise they keep their previous values; the inputs never change |

## Findings

| source | as written | input that shows it | evidently intended | confidence | as-written member | corrected member |
|---|---|---|---|---|---|---|
| src/App.jsx:11-19 | `daysInMonth` tests the month with `===` against the numbers 2, 4, 6, 9 and 11. The month reaches it as input text (src/App.jsx:33-40), so it returns 31 for every month, and the check at src/App.jsx:66-67 never fires | years "2023", months "2", days "30" | reject a day beyond the length of its month, such as 30 February | high; not executed | `App.AsWrittenAcceptsImpossibleDay` | `App.ValidationErrors` |

## Left out

- Rendering, styling, the icon import and the display placeholders (src/App.jsx:86-157): presentation only.
- React and Redux plumbing: `useState`, `useSelector`, `useDispatch`, the `createSlice` mechanics, and the store configuration (src/store/Store.jsx, which holds no logic).
- The wall clock: `new Date()` becomes the parameter `today`, a date without a time of day. A birth date equal to today is accepted, as in the source, where midnight of today is not after the current instant.
- The event object and `e.preventDefault()`: browser plumbing. A field edit is modelled as the field name and its value.
- Text fields: inputs are modelled as `Unset` or an integer. The browser's parsing of the text is left out, and so are fractional inputs such as "1.5". `'--'` and the empty text are both `Unset`.
- `App.ValidationErrors`: an unset year counts as a common year in the day-for-month check, as `'--'` does in the source. The empty text would count as year 0, a leap year. This only changes the message of a validation that already fails.
- `App.ValidationErrors`: an empty text field counts as `Unset`, so the model never sets the `date` key for it. The source passes the empty text to `new Date`, which reads it as 0 (year 1900, month -1 or day 0), and may then set the `date` key. This happens only when that field already has "This field is required", so the verdict is the same.
- `App.ValidationErrors`: JavaScript's limit on dates is not modelled. A set birth date after 275760-09-13 (the last day a `Date` can hold, give or take a day by time zone) is an invalid `Date` in the source: it compares as neither before nor after today, so the source reports no "Must be in the past" and validation passes. The model treats every year alike and reports the date error.
- `App.ValidationSucceedsIff`: for the same reason, the source's validation also succeeds for a real date after 275760-09-13, which the model's condition excludes.
- `App.AgeCalculator.HandleSubmit`: for such a date the source goes on to calculate and stores NaN in all three results. The model keeps the previous results, as its validation fails; NaN is not modelled.
- `AgeSlice.CalculateAgeUtil`: the source tests only for `'--'`. Given the empty text, it would build the date from 0 (year 1900, month -1 or day 0) and compute an age; the model, where the empty text is `Unset`, returns all three results unset. The form never reaches this case, as validation reports the empty text as required first.
