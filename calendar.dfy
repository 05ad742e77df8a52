/** Dates and times as the booking form receives them.
    A date is its proleptic-Gregorian ordinal (1 is 0001-01-01, the largest
    is 9999-12-31), as Python's `date.toordinal()` gives it; a time is the
    number of minutes since midnight. */
module Calendar {

  /** Ordinal of 9999-12-31, Python's `date.max`. */
  const MaxOrdinal := 3652059

  type Date = d: int | 1 <= d <= MaxOrdinal witness 1

  const MinutesPerDay := 24 * 60

  type Time = t: int | 0 <= t < MinutesPerDay

  /** Day of the week, Monday = 0 .. Sunday = 6, as `date.weekday()`. */
  type Weekday = d: int | 0 <= d < 7

  const Monday: Weekday := 0
  const Sunday: Weekday := 6

  /** `date.weekday()`: 0001-01-01 was a Monday. */
  function DayOfWeek(d: Date): Weekday
  {
    (d - 1) % 7
  }

  /** The weekday advances by one from each date to the next, and Sunday is
      followed by Monday. */
  lemma NextDayOfWeek(d: Date)
    requires d < MaxOrdinal
    ensures DayOfWeek(d + 1) == if DayOfWeek(d) == Sunday then Monday else DayOfWeek(d) + 1
  {
  }

  /** Dates seven days apart fall on the same weekday. */
  lemma {:induction false} WeekLater(d: Date, weeks: nat)
    requires d + 7 * weeks <= MaxOrdinal
    ensures DayOfWeek(d + 7 * weeks) == DayOfWeek(d)
  {
    if weeks > 0 {
      WeekLater(d, weeks - 1);
      assert d + 7 * weeks == (d + 7 * (weeks - 1)) + 7;
    }
  }

  /** Minutes-of-day for a clock time. */
  function ClockTime(hour: int, minute: int): (t: Time)
    requires 0 <= hour < 24 && 0 <= minute < 60
    ensures t / 60 == hour && t % 60 == minute
  {
    hour * 60 + minute
  }
}
