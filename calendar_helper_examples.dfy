/** The day counts the calendar helper's own test suite expects, derived
    from the model. A test policy bills at rate 0 and only its three flags
    matter. Dates are written as epoch days, each tied to its calendar
    date by a lemma. */
module CalendarHelperExamples {
  import opened Dates
  import opened Domain
  import opened CalendarHelper
  import HolidayRepository

  function Policy(onWeekday: bool, onWeekend: bool, onHoliday: bool): Charge
  {
    Charge("", 0, onWeekday, onWeekend, onHoliday)
  }

  // ---------------------------------------------------------------------
  // The dates involved

  lemma CheckoutDates()
    ensures LocalDateOf(2020, 7, 1) == 18444
    ensures LocalDateOf(2021, 7, 1) == 18809
    ensures LocalDateOf(2021, 7, 4) == 18812
    ensures LocalDateOf(2024, 7, 1) == 19905
    ensures LocalDateOf(2024, 9, 1) == 19967
    ensures LocalDateOf(2024, 12, 1) == 20058
  {
    Dates2020To2021();
    Dates2024();
  }

  lemma Dates2020To2021()
    ensures LocalDateOf(2020, 7, 1) == 18444
    ensures LocalDateOf(2021, 7, 1) == 18809
    ensures LocalDateOf(2021, 7, 4) == 18812
  {
    LocalDateOfFromMarch(2020, 7, 1, 18444);
    LocalDateOfFromMarch(2021, 7, 1, 18809);
    LocalDateOfFromMarch(2021, 7, 4, 18812);
  }

  lemma Dates2024()
    ensures LocalDateOf(2024, 7, 1) == 19905
    ensures LocalDateOf(2024, 9, 1) == 19967
    ensures LocalDateOf(2024, 12, 1) == 20058
  {
    LocalDateOfFromMarch(2024, 7, 1, 19905);
    LocalDateOfFromMarch(2024, 9, 1, 19967);
    LocalDateOfFromMarch(2024, 12, 1, 20058);
  }

  /** The holidays of a year whose July 4 and Labor Day are known. */
  lemma CatalogueYearIs(year: int, july4: EpochDay, observed: EpochDay, laborDayOfMonth: int, laborDay: EpochDay)
    requires july4 == LocalDateOf(year, JULY, 4) && observed == AdjustForWeekendObservance(july4, true)
    requires 1 <= laborDayOfMonth <= 7 && laborDay == LocalDateOf(year, SEPTEMBER, laborDayOfMonth)
    requires DayOfWeekOf(laborDay) == MONDAY
    ensures HolidayDates(HolidayRepository.Holidays, year, year) == {observed, laborDay}
  {
    LaborDayOn(year, laborDayOfMonth);
    forall date
      ensures date in HolidayDates(HolidayRepository.Holidays, year, year) <==> date == observed || date == laborDay
    {
      CatalogueYear(year, date);
    }
  }

  /** 2020: July 4 is a Saturday, observed on Friday July 3; Labor Day is
      September 7. */
  lemma Holidays2020()
    ensures HolidayDates(HolidayRepository.Holidays, 2020, 2020) == {18446, 18512}
  {
    LocalDateOfFromMarch(2020, JULY, 4, 18447);
    LocalDateOfFromMarch(2020, SEPTEMBER, 7, 18512);
    CatalogueYearIs(2020, 18447, 18446, 7, 18512);
  }

  /** 2021: July 4 is a Sunday, observed on Monday July 5; Labor Day is
      September 6. */
  lemma Holidays2021()
    ensures HolidayDates(HolidayRepository.Holidays, 2021, 2021) == {18813, 18876}
  {
    LocalDateOfFromMarch(2021, JULY, 4, 18812);
    LocalDateOfFromMarch(2021, SEPTEMBER, 6, 18876);
    CatalogueYearIs(2021, 18812, 18813, 6, 18876);
  }

  /** 2024: July 4 is a Thursday; Labor Day is September 2. */
  lemma Holidays2024()
    ensures HolidayDates(HolidayRepository.Holidays, 2024, 2024) == {19908, 19968}
  {
    LocalDateOfFromMarch(2024, JULY, 4, 19908);
    LocalDateOfFromMarch(2024, SEPTEMBER, 2, 19968);
    CatalogueYearIs(2024, 19908, 19908, 2, 19968);
  }

  /** 2025: July 4 is a Friday; Labor Day is September 1. */
  lemma Holidays2025()
    ensures HolidayDates(HolidayRepository.Holidays, 2025, 2025) == {20273, 20332}
  {
    LocalDateOfFromMarch(2025, JULY, 4, 20273);
    LocalDateOfFromMarch(2025, SEPTEMBER, 1, 20332);
    CatalogueYearIs(2025, 20273, 20273, 1, 20332);
  }

  /** 2026: July 4 is a Saturday, observed on Friday July 3; Labor Day is
      September 7. */
  lemma Holidays2026()
    ensures HolidayDates(HolidayRepository.Holidays, 2026, 2026) == {20637, 20703}
  {
    LocalDateOfFromMarch(2026, JULY, 4, 20638);
    LocalDateOfFromMarch(2026, SEPTEMBER, 7, 20703);
    CatalogueYearIs(2026, 20638, 20637, 7, 20703);
  }

  // ---------------------------------------------------------------------
  // The expected counts

  /** Billing every kind of day: 1, 7 and 31 days from 2024-12-01. */
  lemma EveryDayBilled()
    ensures ChargeDays(LocalDateOf(2024, 12, 1), 1, Policy(true, true, true)) == 1
    ensures ChargeDays(LocalDateOf(2024, 12, 1), 7, Policy(true, true, true)) == 7
    ensures ChargeDays(LocalDateOf(2024, 12, 1), 31, Policy(true, true, true)) == 31
  {
    var checkout := LocalDateOf(2024, 12, 1);
    ChargeDaysAllBilled(checkout, 1, Policy(true, true, true));
    ChargeDaysAllBilled(checkout, 7, Policy(true, true, true));
    ChargeDaysAllBilled(checkout, 31, Policy(true, true, true));
  }

  /** 31 days after a Sunday are four whole weeks, then Monday to
      Wednesday. */
  lemma ThirtyOneDaysAfterSunday(checkout: EpochDay, charge: Charge)
    requires DayOfWeekOf(checkout) == SUNDAY && charge.isChargedOnHoliday
    ensures ChargeDays(checkout, 31, charge) ==
      (if charge.isChargedOnWeekday then 23 else 0) + (if charge.isChargedOnWeekend then 8 else 0)
  {
    DayOfWeekSucceeds(checkout);
    FiveWeeksFromMonday(checkout + 1, charge, RentalHolidays(checkout, 31));
  }

  lemma FiveWeeksFromMonday(monday: EpochDay, charge: Charge, holidays: set<EpochDay>)
    requires DayOfWeekOf(monday) == MONDAY && charge.isChargedOnHoliday
    ensures CountChargeable(monday, 31, charge, holidays) ==
      (if charge.isChargedOnWeekday then 23 else 0) + (if charge.isChargedOnWeekend then 8 else 0)
  {
    CountSplit(monday, 28, 3, charge, holidays);
    CountWeeks(monday, 4, charge, holidays);
    assert CountChargeable(monday, 28, charge, holidays) ==
      (if charge.isChargedOnWeekday then 20 else 0) + (if charge.isChargedOnWeekend then 8 else 0);
    WeeksLater(monday, 4);
    assert DayOfWeekOf(monday + 28) == MONDAY;
    MondayToWednesday(monday + 28, charge, holidays);
  }

  lemma MondayToWednesday(monday: EpochDay, charge: Charge, holidays: set<EpochDay>)
    requires DayOfWeekOf(monday) == MONDAY && charge.isChargedOnHoliday
    ensures CountChargeable(monday, 3, charge, holidays) == if charge.isChargedOnWeekday then 3 else 0
  {
    DayOfWeekSucceeds(monday);
    DayOfWeekSucceeds(monday + 1);
  }

  /** 31 days from Sunday 2024-12-01: 23 weekdays, 8 weekend days. */
  lemma DecemberWeeks()
    ensures ChargeDays(LocalDateOf(2024, 12, 1), 31, Policy(true, false, true)) == 23
    ensures ChargeDays(LocalDateOf(2024, 12, 1), 31, Policy(false, true, true)) == 8
    ensures ChargeDays(LocalDateOf(2024, 12, 1), 31, Policy(false, false, true)) == 0
  {
    CheckoutDates();
    assert DayOfWeekOf(20058) == SUNDAY;
    ThirtyOneDaysAfterSunday(20058, Policy(true, false, true));
    ThirtyOneDaysAfterSunday(20058, Policy(false, true, true));
    ChargeDaysNoneBilled(20058, 31, Policy(false, false, true));
  }

  /** The seven days after 2024-09-01 start with Labor Day, Monday
      2024-09-02, and end with a weekend. */
  lemma LaborDayWeek()
    ensures ChargeDays(LocalDateOf(2024, 9, 1), 7, Policy(true, true, false)) == 6
    ensures ChargeDays(LocalDateOf(2024, 9, 1), 7, Policy(true, false, false)) == 4
    ensures ChargeDays(LocalDateOf(2024, 9, 1), 7, Policy(false, true, false)) == 2
  {
    CheckoutDates();
    SameYear(2024, 9, 1, 19967, 8, 19974);
    Holidays2024();
    RentalHolidaysAre(19967, 7, 2024, 2024, {19908, 19968});
    LaborDayWeekCounts({19908, 19968});
  }

  lemma LaborDayWeekCounts(holidays: set<EpochDay>)
    requires holidays == {19908, 19968}
    ensures CountChargeable(19968, 7, Policy(true, true, false), holidays) == 6
    ensures CountChargeable(19968, 7, Policy(true, false, false), holidays) == 4
    ensures CountChargeable(19968, 7, Policy(false, true, false), holidays) == 2
  {
  }

  /** Independence Day 2020 is observed on Friday 2020-07-03, inside the
      three days after 2020-07-01. */
  lemma ObservedOnFriday()
    ensures ChargeDays(LocalDateOf(2020, 7, 1), 3, Policy(true, true, false)) == 2
  {
    CheckoutDates();
    SameYear(2020, 7, 1, 18444, 4, 18447);
    Holidays2020();
    RentalHolidaysAre(18444, 3, 2020, 2020, {18446, 18512});
    WithoutHolidaysCounts(18445, 3, {18446, 18512}, 2);
  }

  /** Independence Day 2021 is observed on Monday 2021-07-05, inside both
      the three days after 2021-07-04 and the seven days after
      2021-07-01. */
  lemma ObservedOnMonday()
    ensures ChargeDays(LocalDateOf(2021, 7, 4), 3, Policy(true, true, false)) == 2
    ensures ChargeDays(LocalDateOf(2021, 7, 1), 7, Policy(true, true, false)) == 6
  {
    CheckoutDates();
    SameYear(2021, 7, 4, 18812, 7, 18815);
    SameYear(2021, 7, 1, 18809, 8, 18816);
    Holidays2021();
    RentalHolidaysAre(18812, 3, 2021, 2021, {18813, 18876});
    RentalHolidaysAre(18809, 7, 2021, 2021, {18813, 18876});
    WithoutHolidaysCounts(18813, 3, {18813, 18876}, 2);
    WithoutHolidaysCounts(18810, 7, {18813, 18876}, 6);
  }

  /** Two dates of one month, from March on, are in that month's year. */
  lemma SameYear(year: int, month: int, day1: int, date1: EpochDay, day2: int, date2: EpochDay)
    requires 3 <= month <= 12 && 1 <= day1 <= day2 <= DaysInMonth(year, month)
    requires date1 == (year / 400) * 146097 + YearStart(year % 400) + (153 * (month - 3) + 2) / 5 + day1 - 1 - 719468
    requires date2 == date1 + (day2 - day1)
    ensures YearOf(date1) == year && YearOf(date2) == year
  {
    LocalDateOfFromMarch(year, month, day1, date1);
    LocalDateOfFromMarch(year, month, day2, date2);
    LocalDateOfFields(date1, year, month, day1);
    LocalDateOfFields(date2, year, month, day2);
  }

  /** A short window billing all but holidays, counted day by day. */
  lemma WithoutHolidaysCounts(first: EpochDay, days: int, holidays: set<EpochDay>, expected: int)
    requires (first, days, holidays, expected) in
      {(18445, 3, {18446, 18512}, 2), (18813, 3, {18813, 18876}, 2), (18810, 7, {18813, 18876}, 6)}
    ensures CountChargeable(first, days, Policy(true, true, false), holidays) == expected
  {
  }

  /** 400 and 760 days from 2024-07-01, billing all but holidays: the first
      window holds three holidays, the second five. */
  lemma LongRentals()
    ensures ChargeDays(LocalDateOf(2024, 7, 1), 400, Policy(true, true, false)) == 397
    ensures ChargeDays(LocalDateOf(2024, 7, 1), 760, Policy(true, true, false)) == 755
  {
    Dates2024();
    LongRentalHolidays();
    ChargeDaysWithoutHolidays(19905, 400, Policy(true, true, false));
    ChargeDaysWithoutHolidays(19905, 760, Policy(true, true, false));
    HolidaysInWindow400(Window(19906, 400));
    HolidaysInWindow760(Window(19906, 760));
  }

  lemma RentalHolidaysAre(checkout: EpochDay, days: int, fromYear: int, toYear: int, holidays: set<EpochDay>)
    requires YearOf(checkout) == fromYear && YearOf(checkout + days) == toYear
    requires HolidayDates(HolidayRepository.Holidays, fromYear, toYear) == holidays
    ensures RentalHolidays(checkout, days) == holidays
  {
  }

  lemma Year2024()
    ensures YearOf(19905) == 2024
  {
    LocalDateOfFields(LocalDateOf(2024, 7, 1), 2024, 7, 1);
    Dates2024();
  }

  lemma Year2025()
    ensures YearOf(20305) == 2025
  {
    LocalDateOfFields(LocalDateOf(2025, 8, 5), 2025, 8, 5);
    August2025();
  }

  lemma August2025()
    ensures LocalDateOf(2025, 8, 5) == 20305
  {
    LocalDateOfFromMarch(2025, 8, 5, 20305);
  }

  lemma Year2026()
    ensures YearOf(20665) == 2026
  {
    LocalDateOfFields(LocalDateOf(2026, 7, 31), 2026, 7, 31);
    July2026();
  }

  lemma July2026()
    ensures LocalDateOf(2026, 7, 31) == 20665
  {
    LocalDateOfFromMarch(2026, 7, 31, 20665);
  }

  /** The holidays of consecutive years, one year added at a time. */
  lemma AddYear(fromYear: int, toYear: int, before: set<EpochDay>, last: set<EpochDay>)
    requires fromYear < toYear
    requires HolidayDates(HolidayRepository.Holidays, fromYear, toYear - 1) == before
    requires HolidayDates(HolidayRepository.Holidays, toYear, toYear) == last
    ensures HolidayDates(HolidayRepository.Holidays, fromYear, toYear) == before + last
  {
    HolidayDatesLastYear(HolidayRepository.Holidays, fromYear, toYear);
  }

  lemma LongRentalHolidays()
    ensures RentalHolidays(19905, 400) == {19908, 19968, 20273, 20332}
    ensures RentalHolidays(19905, 760) == {19908, 19968, 20273, 20332, 20637, 20703}
  {
    Holidays2024();
    Holidays2025();
    Holidays2026();
    AddYear(2024, 2025, {19908, 19968}, {20273, 20332});
    AddYear(2024, 2026, {19908, 19968, 20273, 20332}, {20637, 20703});
    Year2024();
    Year2025();
    Year2026();
    RentalHolidaysAre(19905, 400, 2024, 2025, {19908, 19968, 20273, 20332});
    RentalHolidaysAre(19905, 760, 2024, 2026, {19908, 19968, 20273, 20332, 20637, 20703});
  }

  lemma HolidaysInWindow400(window: set<EpochDay>)
    requires forall date :: date in window <==> 19906 <= date < 20306
    ensures |{19908, 19968, 20273, 20332} * window| == 3
  {
    assert {19908, 19968, 20273, 20332} * window == {19908, 19968, 20273};
  }

  lemma HolidaysInWindow760(window: set<EpochDay>)
    requires forall date :: date in window <==> 19906 <= date < 20666
    ensures |{19908, 19968, 20273, 20332, 20637, 20703} * window| == 5
  {
    assert {19908, 19968, 20273, 20332, 20637, 20703} * window == {19908, 19968, 20273, 20332, 20637};
  }
}
