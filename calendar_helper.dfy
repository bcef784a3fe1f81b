/** The chargeable-day engine: resolving holiday rules to dates, and
    counting the days of a rental that its charge policy bills. */
module CalendarHelper {
  import opened Dates
  import opened Domain
  import HolidayRepository

  predicate IsWeekend(day: DayOfWeek)
  {
    day == SATURDAY || day == SUNDAY
  }

  predicate IsWeekday(day: DayOfWeek)
  {
    !IsWeekend(day)
  }

  // ---------------------------------------------------------------------
  // Holiday resolution

  /** Moves a holiday that falls on a weekend to the closest weekday when
      its rule asks for it: Saturday to the Friday before, Sunday to the
      Monday after. */
  function AdjustForWeekendObservance(date: EpochDay, observedOnClosestWeekday: bool): (r: EpochDay)
    ensures !observedOnClosestWeekday ==> r == date
    ensures observedOnClosestWeekday ==> IsWeekday(DayOfWeekOf(r))
    ensures IsWeekday(DayOfWeekOf(date)) ==> r == date
    ensures IsWeekend(DayOfWeekOf(date)) && observedOnClosestWeekday ==>
      (DayOfWeekOf(date) == SATURDAY ==> r == date - 1 && DayOfWeekOf(r) == FRIDAY) &&
      (DayOfWeekOf(date) == SUNDAY ==> r == date + 1 && DayOfWeekOf(r) == MONDAY)
  {
    if observedOnClosestWeekday then
      if DayOfWeekOf(date) == SATURDAY then date - 1
      else if DayOfWeekOf(date) == SUNDAY then date + 1
      else date
    else date
  }

  /** Adjusting an adjusted date changes nothing. */
  lemma AdjustIsIdempotent(date: EpochDay, observedOnClosestWeekday: bool)
    ensures var once := AdjustForWeekendObservance(date, observedOnClosestWeekday);
      AdjustForWeekendObservance(once, observedOnClosestWeekday) == once
  {
  }

  /** The number of days from the 1st of a month to the first day with the
      wanted day of the week, as (target - first + 7) % 7. */
  function WeekdayOffset(first: EpochDay, target: DayOfWeek): (k: int)
    ensures 0 <= k <= 6
    ensures DayOfWeekOf(first + k) == target
    ensures forall date :: first <= date < first + k ==> DayOfWeekOf(date) != target
  {
    WeekdayOffsetFinds(first, target);
    // target - DayOfWeekOf(first) lies in -6..6, so the dividend is
    // positive and Java's remainder agrees with Dafny's.
    var weekdayOffset := target - DayOfWeekOf(first);
    (weekdayOffset + 7) % 7
  }

  lemma WeekdayOffsetFinds(first: EpochDay, target: DayOfWeek)
    ensures var k := (target - DayOfWeekOf(first) + 7) % 7;
      && DayOfWeekOf(first + k) == target
      && forall date :: first <= date < first + k ==> DayOfWeekOf(date) != target
  {
    var w := (first + 3) % 7;
    var weeks := (first + 3) / 7;
    assert first + 3 == 7 * weeks + w;
    var k := (target - DayOfWeekOf(first) + 7) % 7;
    if target - 1 >= w {
      assert k == target - 1 - w;
      assert first + k + 3 == 7 * weeks + (target - 1);
    } else {
      assert k == target - 1 - w + 7;
      assert first + k + 3 == 7 * (weeks + 1) + (target - 1);
    }
    forall date | first <= date < first + k
      ensures DayOfWeekOf(date) != target
    {
      var j := date - first;
      if w + j < 7 {
        assert date + 3 == 7 * weeks + (w + j);
      } else {
        assert date + 3 == 7 * (weeks + 1) + (w + j - 7);
      }
    }
  }

  /** The date an nth-weekday rule computes for a year, before the check
      that it is still in the rule's month: the first matching weekday of
      the month, plus 7 * (nth - 1) days. */
  function NthWeekdayCandidate(year: int, month: Month, dayOfWeek: DayOfWeek, nthOfMonth: int): EpochDay
  {
    var first := LocalDateOf(year, month, 1);
    first + WeekdayOffset(first, dayOfWeek) + 7 * (nthOfMonth - 1)
  }

  /** A fixed-day rule can be resolved in a year only when its day exists
      in that year (LocalDate.of throws otherwise). */
  predicate ResolvableIn(h: Holiday, year: int)
  {
    h.FixedDay? ==> ValidCivil(Civil(year, h.month, h.dayOfMonth))
  }

  /** The holiday date of one rule in one year, after the observance shift,
      or None when an nth-weekday rule has no nth such weekday that month.
      The candidate must lie in the rule's month of that same year. */
  function ResolveHoliday(h: Holiday, year: int): (r: Option<EpochDay>)
    requires ResolvableIn(h, year)
    ensures h.FixedDay? ==> r == Some(AdjustForWeekendObservance(
      LocalDateOf(year, h.month, h.dayOfMonth), h.observedOnClosestWeekday))
  {
    match h
    case FixedDay(month, dayOfMonth, observed) =>
      Some(AdjustForWeekendObservance(LocalDateOf(year, month, dayOfMonth), observed))
    case NthWeekday(month, dayOfWeek, nthOfMonth, observed) =>
      var date := NthWeekdayCandidate(year, month, dayOfWeek, nthOfMonth);
      if YearOf(date) == year && MonthOf(date) == month then
        Some(AdjustForWeekendObservance(date, observed))
      else
        None
  }

  /** The same, with the month test as the source writes it: it compares
      the month only, so a candidate in the same month of another year is
      kept. */
  function ResolveHolidayAsWritten(h: Holiday, year: int): (r: Option<EpochDay>)
    requires ResolvableIn(h, year)
    ensures h.FixedDay? ==> r == ResolveHoliday(h, year)
  {
    match h
    case FixedDay(month, dayOfMonth, observed) =>
      Some(AdjustForWeekendObservance(LocalDateOf(year, month, dayOfMonth), observed))
    case NthWeekday(month, dayOfWeek, nthOfMonth, observed) =>
      var date := NthWeekdayCandidate(year, month, dayOfWeek, nthOfMonth);
      if MonthOf(date) == month then
        Some(AdjustForWeekendObservance(date, observed))
      else
        None
  }

  /** The candidate of an nth-weekday rule has the rule's day of the week. */
  lemma CandidateDayOfWeek(year: int, month: Month, dayOfWeek: DayOfWeek, nthOfMonth: int)
    ensures DayOfWeekOf(NthWeekdayCandidate(year, month, dayOfWeek, nthOfMonth)) == dayOfWeek
  {
    var first := LocalDateOf(year, month, 1);
    var offset := WeekdayOffset(first, dayOfWeek);
    WeeksLater(first + offset, nthOfMonth - 1);
  }

  /** An nth-weekday rule yields a date in a year exactly when that month
      has an nth such weekday, and the date is the candidate shifted for
      observance. */
  lemma NthWeekdayResolvesIff(month: Month, dayOfWeek: DayOfWeek, nthOfMonth: int, observed: bool, year: int)
    ensures var r := ResolveHoliday(NthWeekday(month, dayOfWeek, nthOfMonth, observed), year);
      var date := NthWeekdayCandidate(year, month, dayOfWeek, nthOfMonth);
      && (r.Some? <==> 1 <= nthOfMonth && date - LocalDateOf(year, month, 1) < DaysInMonth(year, month))
      && (r.Some? ==> r.value == AdjustForWeekendObservance(date, observed))
  {
    var first := LocalDateOf(year, month, 1);
    var date := NthWeekdayCandidate(year, month, dayOfWeek, nthOfMonth);
    InMonthIff(year, month, date - first);
  }

  /** The candidate of the nth-weekday rule is the nth day with that day of
      the week counted from the 1st of the month. */
  lemma CandidateIsNth(year: int, month: Month, dayOfWeek: DayOfWeek, nthOfMonth: int)
    requires 1 <= nthOfMonth
    ensures var first := LocalDateOf(year, month, 1);
      var date := NthWeekdayCandidate(year, month, dayOfWeek, nthOfMonth);
      Occurrences(first, date - first + 1, dayOfWeek) == nthOfMonth
  {
    NthOccurrence(LocalDateOf(year, month, 1), dayOfWeek, nthOfMonth);
  }

  lemma WeeksLater(date: EpochDay, weeks: int)
    ensures DayOfWeekOf(date + 7 * weeks) == DayOfWeekOf(date)
  {
  }

  /** The number of days among the `days` days from `first` on that fall
      on the given day of the week. */
  function Occurrences(first: EpochDay, days: int, dayOfWeek: DayOfWeek): int
    decreases days
  {
    if days <= 0 then 0
    else Occurrences(first, days - 1, dayOfWeek) + Hit(first + days - 1, dayOfWeek)
  }

  function Hit(date: EpochDay, dayOfWeek: DayOfWeek): int
  {
    if DayOfWeekOf(date) == dayOfWeek then 1 else 0
  }

  /** Seven consecutive days hold each day of the week once. */
  lemma WeekHasEachDay(d: EpochDay, dayOfWeek: DayOfWeek)
    ensures Hit(d, dayOfWeek) + Hit(d + 1, dayOfWeek) + Hit(d + 2, dayOfWeek) + Hit(d + 3, dayOfWeek)
      + Hit(d + 4, dayOfWeek) + Hit(d + 5, dayOfWeek) + Hit(d + 6, dayOfWeek) == 1
  {
    var w, weeks := (d + 3) % 7, (d + 3) / 7;
    assert d + 3 == 7 * weeks + w;
    var i := (dayOfWeek - 1 - w + 7) % 7;
    forall date | d <= date < d + 7
      ensures Hit(date, dayOfWeek) == if date == d + i then 1 else 0
    {
      var j := date - d;
      if w + j < 7 {
        assert d + j + 3 == 7 * weeks + (w + j);
      } else {
        assert d + j + 3 == 7 * (weeks + 1) + (w + j - 7);
      }
    }
  }

  lemma {:induction false} OccurrencesWeekLater(first: EpochDay, days: int, dayOfWeek: DayOfWeek)
    requires days >= 0
    ensures Occurrences(first, days + 7, dayOfWeek) == Occurrences(first, days, dayOfWeek) + 1
  {
    var d := first + days;
    WeekHasEachDay(d, dayOfWeek);
    assert Occurrences(first, days + 1, dayOfWeek) == Occurrences(first, days, dayOfWeek) + Hit(d, dayOfWeek);
    assert Occurrences(first, days + 2, dayOfWeek) == Occurrences(first, days + 1, dayOfWeek) + Hit(d + 1, dayOfWeek);
    assert Occurrences(first, days + 3, dayOfWeek) == Occurrences(first, days + 2, dayOfWeek) + Hit(d + 2, dayOfWeek);
    assert Occurrences(first, days + 4, dayOfWeek) == Occurrences(first, days + 3, dayOfWeek) + Hit(d + 3, dayOfWeek);
    assert Occurrences(first, days + 5, dayOfWeek) == Occurrences(first, days + 4, dayOfWeek) + Hit(d + 4, dayOfWeek);
    assert Occurrences(first, days + 6, dayOfWeek) == Occurrences(first, days + 5, dayOfWeek) + Hit(d + 5, dayOfWeek);
    assert Occurrences(first, days + 7, dayOfWeek) == Occurrences(first, days + 6, dayOfWeek) + Hit(d + 6, dayOfWeek);
  }

  lemma {:induction false} NthOccurrence(first: EpochDay, dayOfWeek: DayOfWeek, n: int)
    requires n >= 1
    ensures var offset := WeekdayOffset(first, dayOfWeek);
      Occurrences(first, offset + 7 * (n - 1) + 1, dayOfWeek) == n
  {
    var offset := WeekdayOffset(first, dayOfWeek);
    if n == 1 {
      NoneBefore(first, offset, dayOfWeek);
    } else {
      NthOccurrence(first, dayOfWeek, n - 1);
      OccurrencesWeekLater(first, offset + 7 * (n - 2) + 1, dayOfWeek);
    }
  }

  lemma {:induction false} NoneBefore(first: EpochDay, k: int, dayOfWeek: DayOfWeek)
    requires 0 <= k
    requires forall date :: first <= date < first + k ==> DayOfWeekOf(date) != dayOfWeek
    ensures Occurrences(first, k, dayOfWeek) == 0
  {
    if k > 0 {
      NoneBefore(first, k - 1, dayOfWeek);
    }
  }

  // ---------------------------------------------------------------------
  // The holiday set

  function OptionToSet(o: Option<EpochDay>): set<EpochDay>
  {
    if o.Some? then {o.value} else {}
  }

  /** A rule can be resolved in every year of the range. */
  predicate RuleResolvableOver(h: Holiday, fromYear: int, toYear: int)
  {
    forall year :: fromYear <= year <= toYear ==> ResolvableIn(h, year)
  }

  /** Every rule can be resolved in every year of the range. */
  predicate ResolvableOver(rules: seq<Holiday>, fromYear: int, toYear: int)
  {
    forall i :: 0 <= i < |rules| ==> RuleResolvableOver(rules[i], fromYear, toYear)
  }

  /** The dates one rule yields over the years fromYear..toYear. */
  function RuleDates(h: Holiday, fromYear: int, toYear: int): set<EpochDay>
    requires RuleResolvableOver(h, fromYear, toYear)
  {
    set year | fromYear <= year <= toYear && ResolveHoliday(h, year).Some? :: ResolveHoliday(h, year).value
  }

  /** The dates all the rules yield over the years fromYear..toYear. */
  function HolidayDates(rules: seq<Holiday>, fromYear: int, toYear: int): set<EpochDay>
    requires ResolvableOver(rules, fromYear, toYear)
    decreases |rules|
  {
    if rules == [] then {}
    else
      var last := |rules| - 1;
      assert ResolvableOver(rules[..last], fromYear, toYear) by {
        assert forall i :: 0 <= i < last ==> rules[..last][i] == rules[i];
      }
      HolidayDates(rules[..last], fromYear, toYear) + RuleDates(rules[last], fromYear, toYear)
  }

  /** One more rule adds that rule's dates. */
  lemma HolidayDatesExtend(rules: seq<Holiday>, i: int, fromYear: int, toYear: int)
    requires 0 <= i < |rules| && ResolvableOver(rules, fromYear, toYear)
    ensures ResolvableOver(rules[..i], fromYear, toYear) && ResolvableOver(rules[..i + 1], fromYear, toYear)
    ensures HolidayDates(rules[..i + 1], fromYear, toYear) == HolidayDates(rules[..i], fromYear, toYear) + RuleDates(rules[i], fromYear, toYear)
  {
    assert forall j :: 0 <= j < i ==> rules[..i][j] == rules[j];
    assert forall j :: 0 <= j <= i ==> rules[..i + 1][j] == rules[j];
    assert rules[..i + 1][..i] == rules[..i];
  }

  /** One more year of a rule adds the dates of that year. */
  lemma RuleDatesSplit(h: Holiday, fromYear: int, toYear: int)
    requires fromYear <= toYear && RuleResolvableOver(h, fromYear, toYear)
    ensures RuleDates(h, fromYear, toYear) == RuleDates(h, fromYear, toYear - 1) + RuleDates(h, toYear, toYear)
  {
  }

  /** The switch on the rule's kind for one year, step by step: a fixed
      day is built directly; for an nth weekday the 1st of the month is
      moved forward to the first wanted weekday, then by whole weeks, and
      kept only when it is still in the rule's year and month. This is the
      corrected test: CalendarHelper.java:93 compares the month alone (see
      ResolveHolidayAsWritten). The date found (if any) is the rule's date
      in that year. */
  method ResolveHolidayIn(holiday: Holiday, year: int) returns (resolved: Option<EpochDay>)
    requires ResolvableIn(holiday, year)
    ensures OptionToSet(resolved) == RuleDates(holiday, year, year)
  {
    match holiday {
      case FixedDay(month, dayOfMonth, observed) =>
        resolved := Some(AdjustForWeekendObservance(LocalDateOf(year, month, dayOfMonth), observed));
      case NthWeekday(month, dayOfWeek, nthOfMonth, observed) =>
        var date := LocalDateOf(year, month, 1);
        var weekdayOffset := dayOfWeek - DayOfWeekOf(date);
        date := date + (weekdayOffset + 7) % 7;
        date := date + 7 * (nthOfMonth - 1);
        assert date == NthWeekdayCandidate(year, month, dayOfWeek, nthOfMonth);
        if YearOf(date) == year && MonthOf(date) == month {
          resolved := Some(AdjustForWeekendObservance(date, observed));
        } else {
          resolved := None;
        }
    }
    YearDates(holiday, year, resolved);
  }

  /** The dates a rule yields in a single year are those of its resolution. */
  lemma YearDates(h: Holiday, year: int, resolved: Option<EpochDay>)
    requires ResolvableIn(h, year) && resolved == ResolveHoliday(h, year)
    ensures OptionToSet(resolved) == RuleDates(h, year, year)
  {
    if resolved.Some? {
      assert resolved.value in RuleDates(h, year, year);
    }
  }

  /** The body of the loop over the rules: adds the dates of one rule in
      every year from startYear to endYear to the set. */
  method AddRuleDates(holiday: Holiday, startYear: int, endYear: int, holidayDates: set<EpochDay>)
    returns (result: set<EpochDay>)
    requires RuleResolvableOver(holiday, startYear, endYear)
    ensures result == holidayDates + RuleDates(holiday, startYear, endYear)
  {
    result := holidayDates;
    var year := startYear;
    while year <= endYear
      invariant startYear <= year <= (if startYear <= endYear then endYear + 1 else startYear)
      invariant result == holidayDates + RuleDates(holiday, startYear, year - 1)
    {
      var resolved := ResolveHolidayIn(holiday, year);
      RuleDatesSplit(holiday, startYear, year);
      if resolved.Some? {
        result := result + {resolved.value};
      }
      year := year + 1;
    }
  }

  /** The holiday set of a rental: every rule resolved in every year from
      the checkout year to the year of the due date, collected into one
      set. */
  method DetermineHolidays(checkoutDate: EpochDay, rentalDays: int) returns (holidayDates: set<EpochDay>)
    ensures holidayDates == RentalHolidays(checkoutDate, rentalDays)
  {
    var rules := HolidayRepository.Holidays;
    var startYear := YearOf(checkoutDate);
    var endYear := YearOf(checkoutDate + rentalDays);
    CatalogueResolvable(startYear, endYear);
    holidayDates := {};
    var i := 0;
    while i < |rules|
      invariant 0 <= i <= |rules|
      invariant ResolvableOver(rules[..i], startYear, endYear)
      invariant holidayDates == HolidayDates(rules[..i], startYear, endYear)
    {
      HolidayDatesExtend(rules, i, startYear, endYear);
      holidayDates := AddRuleDates(rules[i], startYear, endYear, holidayDates);
      i := i + 1;
    }
    assert rules[..|rules|] == rules;
  }

  // ---------------------------------------------------------------------
  // Counting chargeable days

  /** A day is not billed when it is a weekend day and weekends are free,
      a weekday and weekdays are free, or a holiday and holidays are free. */
  predicate IsExcluded(date: EpochDay, charge: Charge, holidays: set<EpochDay>)
  {
    || (IsWeekend(DayOfWeekOf(date)) && !charge.isChargedOnWeekend)
    || (IsWeekday(DayOfWeekOf(date)) && !charge.isChargedOnWeekday)
    || (date in holidays && !charge.isChargedOnHoliday)
  }

  /** Whether the counter bills one date, as 0 or 1. */
  function Billed(date: EpochDay, charge: Charge, holidays: set<EpochDay>): int
  {
    if IsExcluded(date, charge, holidays) then 0 else 1
  }

  /** The number of billed days among the `days` days from `first` on. */
  function CountChargeable(first: EpochDay, days: int, charge: Charge, holidays: set<EpochDay>): (n: int)
    ensures 0 <= n <= (if days <= 0 then 0 else days)
    decreases days
  {
    if days <= 0 then 0
    else Billed(first, charge, holidays) + CountChargeable(first + 1, days - 1, charge, holidays)
  }

  /** The holiday set the counter consults for a rental. */
  function RentalHolidays(checkoutDate: EpochDay, rentalDays: int): set<EpochDay>
  {
    var fromYear, toYear := YearOf(checkoutDate), YearOf(checkoutDate + rentalDays);
    CatalogueResolvable(fromYear, toYear);
    HolidayDates(HolidayRepository.Holidays, fromYear, toYear)
  }

  /** The number of billed days of a rental: the rentalDays days after the
      checkout date, the due date included and the checkout date not. */
  function ChargeDays(checkoutDate: EpochDay, rentalDays: int, charge: Charge): (n: int)
    ensures 0 <= n <= (if rentalDays <= 0 then 0 else rentalDays)
  {
    CountChargeable(checkoutDate + 1, rentalDays, charge, RentalHolidays(checkoutDate, rentalDays))
  }

  /** Walks the rental day by day and counts the days the policy bills. */
  method CalculateChargeDays(checkoutDate: EpochDay, rentalDays: int, charge: Charge) returns (chargeDays: int)
    ensures chargeDays == ChargeDays(checkoutDate, rentalDays, charge)
  {
    var holidays := DetermineHolidays(checkoutDate, rentalDays);
    ghost var total := CountChargeable(checkoutDate + 1, rentalDays, charge, holidays);
    assert total == ChargeDays(checkoutDate, rentalDays, charge);
    var date := checkoutDate + 1;
    chargeDays := 0;
    var remaining := rentalDays;
    while remaining > 0
      invariant chargeDays + CountChargeable(date, remaining, charge, holidays) == total
    {
      if !IsExcluded(date, charge, holidays) {
        chargeDays := chargeDays + 1;
      }
      date := date + 1;
      remaining := remaining - 1;
    }
  }

  /** The `days` dates from `first` on. */
  function Window(first: EpochDay, days: int): (w: set<EpochDay>)
    ensures forall date :: date in w <==> first <= date < first + days
    decreases days
  {
    if days <= 0 then {} else Window(first, days - 1) + {first + days - 1}
  }

  /** The dates the counter bills, as a set: the dates of the window that
      none of the three exclusions applies to. */
  function BilledDates(first: EpochDay, days: int, charge: Charge, holidays: set<EpochDay>): set<EpochDay>
  {
    set date | date in Window(first, days) && !IsExcluded(date, charge, holidays)
  }

  /** The count is the number of dates of the window that are billed. */
  lemma {:induction false} CountIsBilledDates(first: EpochDay, days: int, charge: Charge, holidays: set<EpochDay>)
    ensures CountChargeable(first, days, charge, holidays) == |BilledDates(first, days, charge, holidays)|
    decreases days
  {
    if days <= 0 {
      assert BilledDates(first, days, charge, holidays) == {};
    } else {
      CountIsBilledDates(first + 1, days - 1, charge, holidays);
      BilledDatesStep(first, days, charge, holidays);
    }
  }

  /** The billed dates of a window are its first date, when billed, and the
      billed dates of the rest. */
  lemma BilledDatesStep(first: EpochDay, days: int, charge: Charge, holidays: set<EpochDay>)
    requires days > 0
    ensures first !in BilledDates(first + 1, days - 1, charge, holidays)
    ensures BilledDates(first, days, charge, holidays) ==
      (if IsExcluded(first, charge, holidays) then {} else {first}) + BilledDates(first + 1, days - 1, charge, holidays)
  {
    var rest := BilledDates(first + 1, days - 1, charge, holidays);
    if IsExcluded(first, charge, holidays) {
      assert BilledDates(first, days, charge, holidays) == rest;
    } else {
      assert BilledDates(first, days, charge, holidays) == {first} + rest;
    }
  }

  /** Counting a window in two parts gives the sum of the parts. */
  lemma {:induction false} CountSplit(first: EpochDay, a: int, b: int, charge: Charge, holidays: set<EpochDay>)
    requires 0 <= a && 0 <= b
    ensures CountChargeable(first, a + b, charge, holidays) ==
      CountChargeable(first, a, charge, holidays) + CountChargeable(first + a, b, charge, holidays)
    decreases a
  {
    if a > 0 {
      CountSplit(first + 1, a - 1, b, charge, holidays);
    }
  }

  /** A policy that bills every kind of day bills every day of the window. */
  lemma {:induction false} CountAllBilled(first: EpochDay, days: int, charge: Charge, holidays: set<EpochDay>)
    requires charge.isChargedOnWeekday && charge.isChargedOnWeekend && charge.isChargedOnHoliday
    ensures CountChargeable(first, days, charge, holidays) == if days <= 0 then 0 else days
    decreases days
  {
    if days > 0 {
      CountAllBilled(first + 1, days - 1, charge, holidays);
    }
  }

  /** A policy that bills neither weekdays nor weekend days bills nothing,
      whatever it says about holidays: every day is one or the other. */
  lemma {:induction false} CountNoneBilled(first: EpochDay, days: int, charge: Charge, holidays: set<EpochDay>)
    requires !charge.isChargedOnWeekday && !charge.isChargedOnWeekend
    ensures CountChargeable(first, days, charge, holidays) == 0
    decreases days
  {
    if days > 0 {
      CountNoneBilled(first + 1, days - 1, charge, holidays);
    }
  }

  /** When holidays are billed, seven consecutive days bill five weekdays
      and two weekend days, each when its kind is billed. */
  lemma CountWeek(first: EpochDay, charge: Charge, holidays: set<EpochDay>)
    requires charge.isChargedOnHoliday
    ensures CountChargeable(first, 7, charge, holidays) ==
      (if charge.isChargedOnWeekday then 5 else 0) + (if charge.isChargedOnWeekend then 2 else 0)
  {
    CountSevenDays(first, charge, holidays);
    DaysOfWeekFrom(first);
  }

  lemma CountSevenDays(first: EpochDay, charge: Charge, holidays: set<EpochDay>)
    ensures CountChargeable(first, 7, charge, holidays) ==
      Billed(first, charge, holidays) + Billed(first + 1, charge, holidays) + Billed(first + 2, charge, holidays)
      + Billed(first + 3, charge, holidays) + Billed(first + 4, charge, holidays)
      + Billed(first + 5, charge, holidays) + Billed(first + 6, charge, holidays)
  {
    assert CountChargeable(first + 6, 1, charge, holidays) == Billed(first + 6, charge, holidays);
    assert CountChargeable(first + 5, 2, charge, holidays) == Billed(first + 5, charge, holidays) + CountChargeable(first + 6, 1, charge, holidays);
    assert CountChargeable(first + 4, 3, charge, holidays) == Billed(first + 4, charge, holidays) + CountChargeable(first + 5, 2, charge, holidays);
    assert CountChargeable(first + 3, 4, charge, holidays) == Billed(first + 3, charge, holidays) + CountChargeable(first + 4, 3, charge, holidays);
    assert CountChargeable(first + 2, 5, charge, holidays) == Billed(first + 2, charge, holidays) + CountChargeable(first + 3, 4, charge, holidays);
    assert CountChargeable(first + 1, 6, charge, holidays) == Billed(first + 1, charge, holidays) + CountChargeable(first + 2, 5, charge, holidays);
  }

  /** The seven days from `first` run through the week from its day. */
  lemma DaysOfWeekFrom(first: EpochDay)
    ensures var w := (first + 3) % 7;
      && DayOfWeekOf(first) == w + 1
      && DayOfWeekOf(first + 1) == (w + 1) % 7 + 1
      && DayOfWeekOf(first + 2) == (w + 2) % 7 + 1
      && DayOfWeekOf(first + 3) == (w + 3) % 7 + 1
      && DayOfWeekOf(first + 4) == (w + 4) % 7 + 1
      && DayOfWeekOf(first + 5) == (w + 5) % 7 + 1
      && DayOfWeekOf(first + 6) == (w + 6) % 7 + 1
  {
    var w, weeks := (first + 3) % 7, (first + 3) / 7;
    assert first + 3 == 7 * weeks + w;
    forall date | first <= date < first + 7
      ensures DayOfWeekOf(date) == (w + (date - first)) % 7 + 1
    {
      var j := date - first;
      if w + j < 7 {
        assert first + j + 3 == 7 * weeks + (w + j);
      } else {
        assert first + j + 3 == 7 * (weeks + 1) + (w + j - 7);
      }
    }
  }

  /** Whole weeks bill five weekdays and two weekend days each. */
  lemma {:induction false} CountWeeks(first: EpochDay, weeks: nat, charge: Charge, holidays: set<EpochDay>)
    requires charge.isChargedOnHoliday
    ensures CountChargeable(first, 7 * weeks, charge, holidays) ==
      weeks * ((if charge.isChargedOnWeekday then 5 else 0) + (if charge.isChargedOnWeekend then 2 else 0))
  {
    if weeks > 0 {
      CountWeeks(first, weeks - 1, charge, holidays);
      CountSplit(first, 7 * (weeks - 1), 7, charge, holidays);
      CountWeek(first + 7 * (weeks - 1), charge, holidays);
    }
  }

  /** A policy that bills weekdays and weekend days but not holidays bills
      every day of the window except its holidays. */
  lemma CountWithoutHolidays(first: EpochDay, days: nat, charge: Charge, holidays: set<EpochDay>)
    requires charge.isChargedOnWeekday && charge.isChargedOnWeekend && !charge.isChargedOnHoliday
    ensures CountChargeable(first, days, charge, holidays) ==
      days - |holidays * Window(first, days)|
  {
    var window := Window(first, days);
    var inWindow := holidays * Window(first, days);
    CountIsBilledDates(first, days, charge, holidays);
    assert BilledDates(first, days, charge, holidays) == window - inWindow;
    assert inWindow <= window;
    WindowSize(first, days);
  }

  lemma {:induction false} WindowSize(first: EpochDay, days: nat)
    ensures |Window(first, days)| == days
  {
    if days > 0 {
      WindowSize(first, days - 1);
    }
  }

  /** With every kind of day billed, every day of the rental is billed. */
  lemma ChargeDaysAllBilled(checkoutDate: EpochDay, rentalDays: int, charge: Charge)
    requires charge.isChargedOnWeekday && charge.isChargedOnWeekend && charge.isChargedOnHoliday
    ensures ChargeDays(checkoutDate, rentalDays, charge) == if rentalDays <= 0 then 0 else rentalDays
  {
    CountAllBilled(checkoutDate + 1, rentalDays, charge, RentalHolidays(checkoutDate, rentalDays));
  }

  /** With neither weekdays nor weekend days billed, nothing is billed. */
  lemma ChargeDaysNoneBilled(checkoutDate: EpochDay, rentalDays: int, charge: Charge)
    requires !charge.isChargedOnWeekday && !charge.isChargedOnWeekend
    ensures ChargeDays(checkoutDate, rentalDays, charge) == 0
  {
    CountNoneBilled(checkoutDate + 1, rentalDays, charge, RentalHolidays(checkoutDate, rentalDays));
  }

  /** With only holidays free, the rental bills its days less the holidays
      among them. */
  lemma ChargeDaysWithoutHolidays(checkoutDate: EpochDay, rentalDays: nat, charge: Charge)
    requires charge.isChargedOnWeekday && charge.isChargedOnWeekend && !charge.isChargedOnHoliday
    ensures ChargeDays(checkoutDate, rentalDays, charge) ==
      rentalDays - |RentalHolidays(checkoutDate, rentalDays) * Window(checkoutDate + 1, rentalDays)|
  {
    CountWithoutHolidays(checkoutDate + 1, rentalDays, charge, RentalHolidays(checkoutDate, rentalDays));
  }

  /** When holidays are billed the holiday set plays no part. */
  lemma {:induction false} CountIgnoresHolidays(first: EpochDay, days: int, charge: Charge, holidays: set<EpochDay>, others: set<EpochDay>)
    requires charge.isChargedOnHoliday
    ensures CountChargeable(first, days, charge, holidays) == CountChargeable(first, days, charge, others)
    decreases days
  {
    if days > 0 {
      CountIgnoresHolidays(first + 1, days - 1, charge, holidays, others);
    }
  }

  // ---------------------------------------------------------------------
  // The catalogue

  /** Every rule of the catalogue resolves in every year: July 4 exists in
      every year. */
  lemma CatalogueResolvable(fromYear: int, toYear: int)
    ensures ResolvableOver(HolidayRepository.Holidays, fromYear, toYear)
  {
  }

  /** Independence Day falls on July 4 of every year, or on the Friday
      before when that is a Saturday, or on the Monday after when it is a
      Sunday; so it is always a weekday. */
  lemma IndependenceDay(year: int)
    ensures var r := ResolveHoliday(HolidayRepository.Holidays[0], year);
      var july4 := LocalDateOf(year, JULY, 4);
      && r.Some?
      && IsWeekday(DayOfWeekOf(r.value))
      && (IsWeekday(DayOfWeekOf(july4)) ==> r.value == july4)
      && (DayOfWeekOf(july4) == SATURDAY ==> r.value == LocalDateOf(year, JULY, 3))
      && (DayOfWeekOf(july4) == SUNDAY ==> r.value == LocalDateOf(year, JULY, 5))
  {
    LaterInMonth(year, JULY, 3, 1);
    LaterInMonth(year, JULY, 4, 1);
  }

  /** Labor Day is the first Monday of September of every year, with no
      shift. */
  lemma LaborDay(year: int)
    ensures var r := ResolveHoliday(HolidayRepository.Holidays[1], year);
      && r.Some?
      && DayOfWeekOf(r.value) == MONDAY
      && YearOf(r.value) == year && MonthOf(r.value) == SEPTEMBER
      && 1 <= DayOfMonthOf(r.value) <= 7
  {
    var first := LocalDateOf(year, SEPTEMBER, 1);
    var k := WeekdayOffset(first, MONDAY);
    NthWeekdayResolvesIff(SEPTEMBER, MONDAY, 1, false, year);
    CandidateDayOfWeek(year, SEPTEMBER, MONDAY, 1);
    LaterInMonth(year, SEPTEMBER, 1, k);
    LocalDateOfFields(LocalDateOf(year, SEPTEMBER, 1 + k), year, SEPTEMBER, 1 + k);
  }

  /** So Labor Day is the date of the month's first seven days that is a
      Monday. */
  lemma LaborDayOn(year: int, day: int)
    requires 1 <= day <= 7 && DayOfWeekOf(LocalDateOf(year, SEPTEMBER, day)) == MONDAY
    ensures ResolveHoliday(HolidayRepository.Holidays[1], year) == Some(LocalDateOf(year, SEPTEMBER, day))
  {
    LaborDay(year);
    var r := ResolveHoliday(HolidayRepository.Holidays[1], year).value;
    DateOfItsFields(r);
    SameWeekdayInWeek(year, SEPTEMBER, DayOfMonthOf(r), day);
  }

  /** Two days of a month less than a week apart that fall on the same day
      of the week are the same day. */
  lemma SameWeekdayInWeek(year: int, month: Month, a: int, b: int)
    requires ValidCivil(Civil(year, month, a)) && ValidCivil(Civil(year, month, b))
    requires -7 < b - a < 7
    requires DayOfWeekOf(LocalDateOf(year, month, a)) == DayOfWeekOf(LocalDateOf(year, month, b))
    ensures a == b
  {
    if a < b {
      LaterInMonth(year, month, a, b - a);
      NotSameWeekday(LocalDateOf(year, month, a), b - a);
    } else if b < a {
      LaterInMonth(year, month, b, a - b);
      NotSameWeekday(LocalDateOf(year, month, b), a - b);
    }
  }

  /** Two dates less than a week apart have different days of the week. */
  lemma NotSameWeekday(date: EpochDay, k: int)
    requires 0 < k < 7
    ensures DayOfWeekOf(date + k) != DayOfWeekOf(date)
  {
    var w, weeks := (date + 3) % 7, (date + 3) / 7;
    assert date + 3 == 7 * weeks + w;
    if w + k < 7 {
      assert date + k + 3 == 7 * weeks + (w + k);
    } else {
      assert date + k + 3 == 7 * (weeks + 1) + (w + k - 7);
    }
  }

  /** The holidays of one year are that year's Independence Day and Labor
      Day. */
  lemma CatalogueYear(year: int, date: EpochDay)
    ensures date in HolidayDates(HolidayRepository.Holidays, year, year) <==>
      Some(date) == ResolveHoliday(HolidayRepository.Holidays[0], year) ||
      Some(date) == ResolveHoliday(HolidayRepository.Holidays[1], year)
  {
    CatalogueRules(year, year);
    RuleDatesOfYear(HolidayRepository.Holidays[0], year, date);
    RuleDatesOfYear(HolidayRepository.Holidays[1], year, date);
  }

  /** The catalogue's holidays are those of its two rules. */
  lemma CatalogueRules(fromYear: int, toYear: int)
    ensures ResolvableOver(HolidayRepository.Holidays, fromYear, toYear)
    ensures HolidayDates(HolidayRepository.Holidays, fromYear, toYear) ==
      RuleDates(HolidayRepository.Holidays[0], fromYear, toYear) + RuleDates(HolidayRepository.Holidays[1], fromYear, toYear)
  {
    var rules := HolidayRepository.Holidays;
    CatalogueResolvable(fromYear, toYear);
    HolidayDatesExtend(rules, 0, fromYear, toYear);
    HolidayDatesExtend(rules, 1, fromYear, toYear);
    assert rules[..0] == [];
    assert rules[..2] == rules;
  }

  /** A rule's dates in one year: the date it resolves to, if any. */
  lemma RuleDatesOfYear(h: Holiday, year: int, date: EpochDay)
    requires ResolvableIn(h, year)
    ensures date in RuleDates(h, year, year) <==> Some(date) == ResolveHoliday(h, year)
  {
    if Some(date) == ResolveHoliday(h, year) {
      assert date in RuleDates(h, year, year);
    }
  }

  /** The holidays of a range of years are those of its first years and of
      its last year. */
  lemma {:induction false} HolidayDatesLastYear(rules: seq<Holiday>, fromYear: int, toYear: int)
    requires fromYear <= toYear && ResolvableOver(rules, fromYear, toYear)
    ensures ResolvableOver(rules, fromYear, toYear - 1) && ResolvableOver(rules, toYear, toYear)
    ensures HolidayDates(rules, fromYear, toYear) == HolidayDates(rules, fromYear, toYear - 1) + HolidayDates(rules, toYear, toYear)
    decreases |rules|
  {
    ResolvableOverLastYear(rules, fromYear, toYear);
    if rules != [] {
      var last := |rules| - 1;
      var prefix := rules[..last];
      ResolvablePrefix(rules, last, fromYear, toYear);
      HolidayDatesLastYear(prefix, fromYear, toYear);
      RuleDatesSplit(rules[last], fromYear, toYear);
      HolidayDatesStep(rules, fromYear, toYear);
      HolidayDatesStep(rules, fromYear, toYear - 1);
      HolidayDatesStep(rules, toYear, toYear);
    }
  }

  /** The last rule's dates are added to those of the rules before it. */
  lemma HolidayDatesStep(rules: seq<Holiday>, fromYear: int, toYear: int)
    requires rules != [] && ResolvableOver(rules, fromYear, toYear)
    ensures ResolvableOver(rules[..|rules| - 1], fromYear, toYear)
    ensures HolidayDates(rules, fromYear, toYear) ==
      HolidayDates(rules[..|rules| - 1], fromYear, toYear) + RuleDates(rules[|rules| - 1], fromYear, toYear)
  {
    ResolvablePrefix(rules, |rules| - 1, fromYear, toYear);
  }

  lemma ResolvablePrefix(rules: seq<Holiday>, n: int, fromYear: int, toYear: int)
    requires 0 <= n <= |rules| && ResolvableOver(rules, fromYear, toYear)
    ensures ResolvableOver(rules[..n], fromYear, toYear)
  {
    assert forall i :: 0 <= i < n ==> rules[..n][i] == rules[i];
  }

  lemma ResolvableOverLastYear(rules: seq<Holiday>, fromYear: int, toYear: int)
    requires fromYear <= toYear && ResolvableOver(rules, fromYear, toYear)
    ensures ResolvableOver(rules, fromYear, toYear - 1) && ResolvableOver(rules, toYear, toYear)
  {
    forall i | 0 <= i < |rules|
      ensures RuleResolvableOver(rules[i], fromYear, toYear - 1) && RuleResolvableOver(rules[i], toYear, toYear)
    {
      assert RuleResolvableOver(rules[i], fromYear, toYear);
    }
  }

  /** Every holiday of the catalogue is a weekday. */
  lemma CatalogueHolidaysAreWeekdays(fromYear: int, toYear: int, date: EpochDay)
    ensures date in HolidayDates(HolidayRepository.Holidays, fromYear, toYear) ==> IsWeekday(DayOfWeekOf(date))
  {
    CatalogueRules(fromYear, toYear);
    if date in HolidayDates(HolidayRepository.Holidays, fromYear, toYear) {
      var i := if date in RuleDates(HolidayRepository.Holidays[0], fromYear, toYear) then 0 else 1;
      var year :| fromYear <= year <= toYear &&
        ResolveHoliday(HolidayRepository.Holidays[i], year).Some? &&
        ResolveHoliday(HolidayRepository.Holidays[i], year).value == date;
      IndependenceDay(year);
      LaborDay(year);
    }
  }

  /** Each catalogue rule resolves, in every year, to a date of that year:
      Independence Day moves at most to July 3 or July 5. */
  lemma CatalogueDateInItsYear(i: int, year: int)
    requires 0 <= i < |HolidayRepository.Holidays|
    ensures var r := ResolveHoliday(HolidayRepository.Holidays[i], year);
      r.Some? && YearOf(r.value) == year
  {
    if i == 0 {
      IndependenceDay(year);
      LocalDateOfFields(LocalDateOf(year, JULY, 3), year, JULY, 3);
      LocalDateOfFields(LocalDateOf(year, JULY, 4), year, JULY, 4);
      LocalDateOfFields(LocalDateOf(year, JULY, 5), year, JULY, 5);
    } else {
      LaborDay(year);
    }
  }

  /** A catalogue rule's dates over a range of years are the dates in that
      range that the rule yields in their own year. */
  lemma CatalogueRuleDatesByYear(i: int, fromYear: int, toYear: int, date: EpochDay)
    requires 0 <= i < |HolidayRepository.Holidays|
    ensures RuleResolvableOver(HolidayRepository.Holidays[i], fromYear, toYear)
    ensures date in RuleDates(HolidayRepository.Holidays[i], fromYear, toYear) <==>
      fromYear <= YearOf(date) <= toYear && Some(date) == ResolveHoliday(HolidayRepository.Holidays[i], YearOf(date))
  {
    var h := HolidayRepository.Holidays[i];
    CatalogueResolvable(fromYear, toYear);
    if date in RuleDates(h, fromYear, toYear) {
      var year :| fromYear <= year <= toYear && ResolveHoliday(h, year).Some? && ResolveHoliday(h, year).value == date;
      CatalogueDateInItsYear(i, year);
    }
    var year := YearOf(date);
    if fromYear <= year <= toYear && Some(date) == ResolveHoliday(h, year) {
      assert date in RuleDates(h, fromYear, toYear);
    }
  }

  /** So a date is a catalogue holiday of a range of years exactly when its
      year is in the range and it is a holiday of its year. */
  lemma CatalogueDatesByYear(fromYear: int, toYear: int, date: EpochDay)
    ensures ResolvableOver(HolidayRepository.Holidays, fromYear, toYear)
    ensures date in HolidayDates(HolidayRepository.Holidays, fromYear, toYear) <==>
      fromYear <= YearOf(date) <= toYear && date in HolidayDates(HolidayRepository.Holidays, YearOf(date), YearOf(date))
  {
    CatalogueRules(fromYear, toYear);
    CatalogueYear(YearOf(date), date);
    CatalogueRuleDatesByYear(0, fromYear, toYear, date);
    CatalogueRuleDatesByYear(1, fromYear, toYear, date);
  }

  /** Widening a range of years keeps the holidays of the years it
      already held. */
  lemma CatalogueDatesAgree(fromYear: int, toYear: int, laterYear: int, date: EpochDay)
    requires fromYear <= YearOf(date) <= toYear <= laterYear
    ensures ResolvableOver(HolidayRepository.Holidays, fromYear, toYear)
    ensures ResolvableOver(HolidayRepository.Holidays, fromYear, laterYear)
    ensures date in HolidayDates(HolidayRepository.Holidays, fromYear, toYear) <==>
      date in HolidayDates(HolidayRepository.Holidays, fromYear, laterYear)
  {
    CatalogueDatesByYear(fromYear, toYear, date);
    CatalogueDatesByYear(fromYear, laterYear, date);
  }

  /** A longer rental sees the same holidays on the days of a shorter one. */
  lemma RentalHolidaysAgree(checkoutDate: EpochDay, n: int, m: int, date: EpochDay)
    requires 0 <= n <= m && checkoutDate < date <= checkoutDate + n
    ensures date in RentalHolidays(checkoutDate, n) <==> date in RentalHolidays(checkoutDate, m)
  {
    YearOfIsMonotone();
    CatalogueDatesAgree(YearOf(checkoutDate), YearOf(checkoutDate + n), YearOf(checkoutDate + m), date);
  }

  /** The count depends only on which days of its own window are holidays. */
  lemma {:induction false} CountLocal(first: EpochDay, days: int, charge: Charge, holidays: set<EpochDay>, others: set<EpochDay>)
    requires forall date :: first <= date < first + days ==> (date in holidays <==> date in others)
    ensures CountChargeable(first, days, charge, holidays) == CountChargeable(first, days, charge, others)
    decreases days
  {
    if days > 0 {
      CountLocal(first + 1, days - 1, charge, holidays, others);
    }
  }

  /** Renting for longer never bills fewer days, and each extra day bills
      at most one more. */
  lemma ChargeDaysMonotone(checkoutDate: EpochDay, n: int, m: int, charge: Charge)
    requires 0 <= n <= m
    ensures ChargeDays(checkoutDate, n, charge) <= ChargeDays(checkoutDate, m, charge) <= ChargeDays(checkoutDate, n, charge) + (m - n)
  {
    var shorter, longer := RentalHolidays(checkoutDate, n), RentalHolidays(checkoutDate, m);
    forall date | checkoutDate + 1 <= date < checkoutDate + 1 + n
      ensures date in shorter <==> date in longer
    {
      RentalHolidaysAgree(checkoutDate, n, m, date);
    }
    CountLonger(checkoutDate + 1, n, m, charge, shorter, longer);
  }

  /** Counting a longer window, whose first days have the same holidays,
      gives at least as many billed days and at most one more per extra
      day. */
  lemma CountLonger(first: EpochDay, n: int, m: int, charge: Charge, shorter: set<EpochDay>, longer: set<EpochDay>)
    requires 0 <= n <= m
    requires forall date :: first <= date < first + n ==> (date in shorter <==> date in longer)
    ensures CountChargeable(first, n, charge, shorter) <= CountChargeable(first, m, charge, longer)
    ensures CountChargeable(first, m, charge, longer) <= CountChargeable(first, n, charge, shorter) + (m - n)
  {
    CountSplit(first, n, m - n, charge, longer);
    assert n + (m - n) == m;
    CountLocal(first, n, charge, shorter, longer);
  }

  // ---------------------------------------------------------------------
  // The month test as written

  /** The 54th Monday counted from 1 January 2024 is 6 January 2025. */
  lemma FiftyFourthMondayOf2024()
    ensures NthWeekdayCandidate(2024, JANUARY, MONDAY, 54) == LocalDateOf(2025, JANUARY, 6)
    ensures YearOf(LocalDateOf(2025, JANUARY, 6)) == 2025 && MonthOf(LocalDateOf(2025, JANUARY, 6)) == JANUARY
  {
    LocalDateOfFields(LocalDateOf(2025, JANUARY, 6), 2025, JANUARY, 6);
    JanuaryDates();
    CandidateFromFirst(2024, JANUARY, MONDAY, 54, 19723);
  }

  lemma JanuaryDates()
    ensures LocalDateOf(2024, JANUARY, 1) == 19723
    ensures LocalDateOf(2025, JANUARY, 6) == 20094
  {
    LocalDateOfBeforeMarch(2024, JANUARY, 1, 19723);
    LocalDateOfBeforeMarch(2025, JANUARY, 6, 20094);
  }

  /** When a month starts on the wanted weekday, its n-th such weekday is
      7 * (n - 1) days after the first. */
  lemma CandidateFromFirst(year: int, month: Month, dayOfWeek: DayOfWeek, n: int, first: EpochDay)
    requires first == LocalDateOf(year, month, 1) && DayOfWeekOf(first) == dayOfWeek
    ensures NthWeekdayCandidate(year, month, dayOfWeek, n) == first + 7 * (n - 1)
  {
  }

  /** With the month test alone, the 54th Monday of January 2024 is kept,
      though it is 6 January 2025. */
  lemma AsWrittenKeepsDateOfAnotherYear()
    ensures ResolveHolidayAsWritten(NthWeekday(JANUARY, MONDAY, 54, false), 2024) == Some(LocalDateOf(2025, JANUARY, 6))
  {
    FiftyFourthMondayOf2024();
  }

  /** The year-and-month test drops it. */
  lemma CorrectedDropsDateOfAnotherYear()
    ensures ResolveHoliday(NthWeekday(JANUARY, MONDAY, 54, false), 2024) == None
  {
    FiftyFourthMondayOf2024();
  }

  /** For the first to the fourth weekday of a month the two tests agree. */
  lemma AsWrittenAgreesForSmallN(h: Holiday, year: int)
    requires ResolvableIn(h, year)
    requires h.NthWeekday? ==> 1 <= h.nthOfMonth <= 4
    ensures ResolveHolidayAsWritten(h, year) == ResolveHoliday(h, year)
  {
    if h.NthWeekday? {
      var first := LocalDateOf(year, h.month, 1);
      var date := NthWeekdayCandidate(year, h.month, h.dayOfWeek, h.nthOfMonth);
      InMonthIff(year, h.month, date - first);
    }
  }

  /** So the catalogue resolves the same way under both tests. */
  lemma CatalogueAsWrittenAgrees(i: int, year: int)
    requires 0 <= i < |HolidayRepository.Holidays|
    ensures ResolveHolidayAsWritten(HolidayRepository.Holidays[i], year) == ResolveHoliday(HolidayRepository.Holidays[i], year)
  {
    AsWrittenAgreesForSmallN(HolidayRepository.Holidays[i], year);
  }
}
