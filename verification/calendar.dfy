/** Calendar dates as integer day numbers, so that date arithmetic is plain
    integer arithmetic and "today" can be passed in as a parameter. */
module Calendar {

  /** A date, counted in days from an arbitrary epoch. */
  type Day = int

  const DaysPerWeek: int := 7

  /** The date `weeks` whole weeks after `d` (a `timedelta(weeks=…)` added to a date). */
  function AddWeeks(d: Day, weeks: int): Day {
    d + weeks * DaysPerWeek
  }
}
