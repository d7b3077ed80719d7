/** The week-of-month arithmetic of the weekly report mail. Weeks start on Monday;
    a date is given by its day of the month and the weekday of the month's first day. */
module SendMail {

  /** The day numbers a date can have. */
  predicate IsDay(day: int) {
    1 <= day <= 31
  }

  /** Python's `date.weekday()` values: Monday is 0, Sunday is 6. */
  predicate IsWeekday(w: int) {
    0 <= w <= 6
  }

  /** The weekday of day `day` of a month whose first day falls on weekday `domFirst`. */
  function Weekday(day: int, domFirst: int): (w: int)
    requires IsDay(day) && IsWeekday(domFirst)
    ensures IsWeekday(w)
    ensures day == 1 ==> w == domFirst
  {
    (domFirst + day - 1) % 7
  }

  /** `get_week_of_month`: `(day + dom_first - 1) // 7 + 1`. The operands are
      non-negative, so Python's floor division and Dafny's division agree. */
  function WeekOfMonth(day: int, domFirst: int): (w: int)
    requires IsDay(day) && IsWeekday(domFirst)
    ensures 1 <= w <= 6
    ensures day == 1 ==> w == 1
  {
    (day + domFirst - 1) / 7 + 1
  }

  /** A later day is never in an earlier week. */
  lemma WeekOfMonthMonotone(d1: int, d2: int, domFirst: int)
    requires IsDay(d1) && IsDay(d2) && IsWeekday(domFirst) && d1 <= d2
    ensures WeekOfMonth(d1, domFirst) <= WeekOfMonth(d2, domFirst)
  {
  }

  /** From one day to the next the week number rises by one exactly when the
      next day is a Monday, and otherwise stays the same. */
  lemma WeekOfMonthStep(day: int, domFirst: int)
    requires IsDay(day) && IsDay(day + 1) && IsWeekday(domFirst)
    ensures WeekOfMonth(day + 1, domFirst)
            == WeekOfMonth(day, domFirst) + (if Weekday(day + 1, domFirst) == 0 then 1 else 0)
    ensures Weekday(day + 1, domFirst) == 0 <==> (domFirst + day) % 7 == 0
  {
  }

  /** Every day before the month's first Monday is in week 1. */
  lemma FirstWeek(day: int, domFirst: int)
    requires IsDay(day) && IsWeekday(domFirst) && day <= 7 - domFirst
    ensures WeekOfMonth(day, domFirst) == 1
  {
  }

  /** The number of Mondays among days 2 .. day of the month. */
  function MondaysAfterFirst(day: int, domFirst: int): (n: nat)
    requires IsDay(day) && IsWeekday(domFirst)
    ensures n < day
  {
    if day == 1 then 0
    else MondaysAfterFirst(day - 1, domFirst) + (if Weekday(day, domFirst) == 0 then 1 else 0)
  }

  /** The formula agrees with counting: the week number of a day is one more than
      the number of Mondays that begin a new week between the 1st and that day. */
  lemma {:induction false} WeekOfMonthCountsMondays(day: int, domFirst: int)
    requires IsDay(day) && IsWeekday(domFirst)
    ensures WeekOfMonth(day, domFirst) == 1 + MondaysAfterFirst(day, domFirst)
  {
    if day > 1 {
      WeekOfMonthCountsMondays(day - 1, domFirst);
      WeekOfMonthStep(day - 1, domFirst);
    }
  }

  /** The sixth week is reached: day 31 of a month that starts on a Sunday. */
  lemma SixthWeekReached()
    ensures WeekOfMonth(31, 6) == 6
  {
  }
}
