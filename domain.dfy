/** The records of the pricing engine: a tool, the charge policy of a tool
    type, and the two kinds of holiday rule. */
module Domain {
  import opened Dates

  datatype Option<T> = None | Some(value: T)

  /** A tool of the catalogue; only its type takes part in pricing. */
  datatype Tool = Tool(code: string, toolType: string, brand: string)

  /** The charge policy of one tool type: the daily rate in cents and
      whether weekdays, weekend days and holidays are billed. */
  datatype Charge = Charge(
    toolType: string,
    dailyChargeCents: int,
    isChargedOnWeekday: bool,
    isChargedOnWeekend: bool,
    isChargedOnHoliday: bool)

  /** A holiday rule. A fixed-day rule names the same month and day every
      year; an nth-weekday rule names, say, the first Monday of September.
      Either may ask to be observed on the closest weekday when it falls on
      a weekend. */
  datatype Holiday =
    | FixedDay(month: Month, dayOfMonth: int, observedOnClosestWeekday: bool)
    | NthWeekday(month: Month, dayOfWeek: DayOfWeek, nthOfMonth: int, observedOnClosestWeekday: bool)
}
