/** The constant, ordered catalogue of holiday rules. */
module HolidayRepository {
  import opened Dates
  import opened Domain

  /** Independence Day on July 4, observed on the closest weekday, then
      Labor Day on the first Monday of September, which sets no observance
      and so keeps the builder's default of false. */
  const Holidays: seq<Holiday> := [
    FixedDay(JULY, 4, true),
    NthWeekday(SEPTEMBER, MONDAY, 1, false)
  ]
}
