# Tool rental pricing

A model of the pricing core of a small tool-rental checkout. Each tool type has a charge policy: a daily rate in cents and whether weekdays, weekend days and holidays are billed. A rental starts on a checkout date and runs for some number of days. The core counts the billed days after the checkout date, then builds a receipt: the charge before the discount, the discount as a fraction and in cents, and the final charge.

Holidays come from a fixed catalogue of two rules:
- Independence Day, July 4, observed on the closest weekday;
- Labor Day, the first Monday of September.

For a rental, each rule is resolved in every year from the checkout year to the year of the due date.

Modules:

- `Dates`: calendar dates as day numbers (day 0 is 1970-01-01, a Thursday), with conversions to and from year/month/day and the day of the week. It stands in for `java.time.LocalDate`.
- `Domain`: the records (tool, charge policy, the two kinds of holiday rule).
- `ChargeRepository` and `HolidayRepository`: the two constant tables.
- `Decimals`: the part of `java.math.BigDecimal` the receipt uses, namely division by 100 at the preferred scale, multiplication by an integer, and rounding to scale 0 with `HALF_UP`.
- `CalendarHelper`: the holiday resolution and the day counter, with two methods.
  - `DetermineHolidays` runs the source's loops over rules and years.
  - `CalculateChargeDays` runs its loop over the rental's days.
  - The counting is specified by the function `ChargeDays`. Its properties are proved as lemmas.
- `RentalAgreements` and `Receipts`: the agreement and receipt constructors, as functions over values. The source objects are immutable.
- `CalendarHelperExamples` and `ReceiptExamples`: the expected results of the repository's unit tests, proved about the model.

## Model

| member | source | states |
|---|---|---|
| Dates.LocalDateOfFields | src/main/java/example/utils/CalendarHelper.java:78 | the date built from a valid year, month and day has exactly that year, month and day |
| Dates.LocalDateOf | src/main/java/example/utils/CalendarHelper.java:78 | LocalDate.of on a year, month and day that exist; what it builds is stated by LocalDateOfFields and CivilRoundTrip |
| Dates.DayOfWeekOf | src/main/java/example/utils/CalendarHelper.java:40 | getDayOfWeek, Monday as 1 and Sunday as 7; the order of the days of the week is stated by DayOfWeekSucceeds |
| Dates.YearOf | src/main/java/example/utils/CalendarHelper.java:67-73 | getYear of the due date and of the checkout date; LocalDateOfFields and DateOfItsFields state that it is the year LocalDate.of was given, YearOfMonotone that it never decreases |
| Dates.MonthOf | src/main/java/example/utils/CalendarHelper.java:93 | getMonth of the candidate date; LocalDateOfFields and DateOfItsFields state that it is the month LocalDate.of was given, InMonthIff when the 1st plus k days is still in the month |
| Dates.DayOfMonthOf | src/main/java/example/utils/CalendarHelper.java:78-85 | the day-of-month field of the dates LocalDate.of builds; LocalDateOfFields and DateOfItsFields state that it comes back unchanged, LaterInMonth how plusDays moves it |
| Dates.DateOfItsFields | src/main/java/example/utils/CalendarHelper.java:67 | every date's fields form a valid date, and that date is the date itself |
| Dates.DaysRoundTrip | src/main/java/example/utils/CalendarHelper.java:67 | converting a day number to year/month/day and back gives the day number |
| Dates.CivilRoundTrip | src/main/java/example/utils/CalendarHelper.java:78 | converting a valid year/month/day to a day number and back gives the same fields |
| Dates.LaterInMonth | src/main/java/example/utils/CalendarHelper.java:89-92 | within one month, day d + k is k days after day d (plusDays stays in the month) |
| Dates.DayOfWeekSucceeds | src/main/java/example/utils/CalendarHelper.java:47 | the next day has the next day of the week, Sunday wrapping to Monday; 7 days later is the same day of the week |
| Dates.NextDay | src/main/java/example/utils/CalendarHelper.java:47 | the day after a date is the next day of its month, or the 1st of the next month, or January 1 of the next year after December 31 |
| Dates.NextDayYear | src/main/java/example/utils/CalendarHelper.java:47 | plusDays(1) keeps the year or moves to the next one |
| Dates.YearOfMonotone | src/main/java/example/utils/CalendarHelper.java:66-73 | a later date is never in an earlier year, so the years from the checkout's to the due date's cover every day of the rental |
| Dates.InMonthIff | src/main/java/example/utils/CalendarHelper.java:93 | the date k days after the 1st of a month is in that year and month exactly when 0 <= k < the month's length |
| Decimals.DivideBy100 | src/main/java/example/utils/Receipt.java:29 | the quotient keeps the dividend's scale or raises it by at most 2, never ends in a needless zero, and times 10^(raise) gives back the dividend's digits |
| Decimals.DivideBy100IsExact | src/main/java/example/utils/Receipt.java:29 | the quotient equals the dividend divided by 100 as rational numbers |
| Decimals.RoundHalfUp | src/main/java/example/utils/Receipt.java:30 | the result is within half of n / q, ties away from zero, and has n's sign |
| Decimals.RoundHalfUpUnique | src/main/java/example/utils/Receipt.java:30 | any integer meeting the HALF_UP condition is the rounded value |
| Decimals.RoundHalfUpScaled | src/main/java/example/utils/Receipt.java:30 | rounding n*t / q*t equals rounding n / q, whatever the scale |
| Decimals.MultiplyInt | src/main/java/example/utils/Receipt.java:30 | BigDecimal.multiply by an integer, exact at the decimal's scale; the discount it yields is stated by Receipts.Priced |
| Decimals.SetScaleZeroHalfUp | src/main/java/example/utils/Receipt.java:30 | setScale(0, HALF_UP): the integer within half of unscaled / 10^scale, ties away from zero, with the decimal's sign |
| ChargeRepository.CollectByType | src/main/java/example/repository/ChargeRepository.java:22-27 | the map's keys are exactly the policies' types; each value is a listed policy of its key's type |
| ChargeRepository.Charges | src/main/java/example/repository/ChargeRepository.java:22-27 | the table built from the constant list ChargeList has exactly the three keys ladder, chainsaw and jackhammer, and each value is a listed policy of its key's type |
| ChargeRepository.GetCharge | src/main/java/example/repository/ChargeRepository.java:29-31 | a policy is found exactly for the three listed types; a found policy has the asked type and is a listed policy; other types give None (null) |
| ChargeRepository.ChargeTable | src/main/java/example/repository/ChargeRepository.java:23-25 | the ladder bills 199 on weekdays and weekends but not holidays; the chainsaw bills 149 on weekdays and holidays; the jackhammer bills 299 on weekdays only |
| CalendarHelper.AdjustForWeekendObservance | src/main/java/example/utils/CalendarHelper.java:127-139 | without observance the date is unchanged; with it the result is a weekday; a weekday is never moved; a Saturday goes to the Friday before and a Sunday to the Monday after |
| CalendarHelper.AdjustIsIdempotent | src/main/java/example/utils/CalendarHelper.java:127-139 | adjusting an adjusted date changes nothing |
| CalendarHelper.IsWeekend | src/main/java/example/utils/CalendarHelper.java:141-143 | Saturday and Sunday; that a week has two such days is stated by CountWeek |
| CalendarHelper.IsWeekday | src/main/java/example/utils/CalendarHelper.java:145-147 | every day that is not a weekend day; that a week has five is stated by CountWeek |
| CalendarHelper.WeekdayOffset | src/main/java/example/utils/CalendarHelper.java:86-89 | (target - first + 7) % 7 lies in 0..6, lands on the wanted day of the week, and no earlier day from the 1st has it |
| CalendarHelper.ResolveHoliday | src/main/java/example/utils/CalendarHelper.java:74-107 | a fixed-day rule yields LocalDate.of(year, month, day) after the observance shift (the nth-weekday case is the corrected one, see Findings) |
| CalendarHelper.ResolveHolidayAsWritten | src/main/java/example/utils/CalendarHelper.java:84-104 | the month-only test as written; on fixed-day rules it agrees with ResolveHoliday |
| CalendarHelper.NthWeekdayCandidate | src/main/java/example/utils/CalendarHelper.java:85-92 | the 1st of the month moved to the wanted weekday, then nth - 1 weeks on; CandidateDayOfWeek and CandidateIsNth state that it is the nth such weekday |
| CalendarHelper.NthWeekdayResolvesIff | src/main/java/example/utils/CalendarHelper.java:84-104 | an nth-weekday rule yields a date exactly when nth >= 1 and the candidate falls within the month's days; the date is the candidate after the observance shift |
| CalendarHelper.CandidateDayOfWeek | src/main/java/example/utils/CalendarHelper.java:85-92 | the candidate falls on the rule's day of the week |
| CalendarHelper.CandidateIsNth | src/main/java/example/utils/CalendarHelper.java:85-92 | counting from the 1st of the month, the candidate is the nth day with that day of the week |
| CalendarHelper.ResolveHolidayIn | src/main/java/example/utils/CalendarHelper.java:74-107 | the switch on the rule kind, step by step, with the corrected year-and-month test in place of line 93's month-only test (see Findings): the date it finds (or none) is the set of the rule's dates in that one year |
| CalendarHelper.AddRuleDates | src/main/java/example/utils/CalendarHelper.java:73-109 | the year loop adds to the set exactly the rule's dates from the start year to the end year |
| CalendarHelper.DetermineHolidays | src/main/java/example/utils/CalendarHelper.java:62-113 | the result is RentalHolidays: every catalogue rule's dates in every year from the checkout year to the due date's year |
| CalendarHelper.HolidayDatesExtend | src/main/java/example/utils/CalendarHelper.java:72 | one more rule in the forEach adds exactly that rule's dates |
| CalendarHelper.RuleDatesSplit | src/main/java/example/utils/CalendarHelper.java:73 | one more year adds exactly that year's date of the rule |
| CalendarHelper.RuleDatesOfYear | src/main/java/example/utils/CalendarHelper.java:73 | a rule's dates in one year are the date it resolves to, if any |
| CalendarHelper.HolidayDatesLastYear | src/main/java/example/utils/CalendarHelper.java:72-110 | the holidays of years from..to are those of from..to-1 together with those of year to |
| CalendarHelper.RuleDates | src/main/java/example/utils/CalendarHelper.java:73-109 | the set the year loop builds for one rule: its resolved dates in the years from..to; RuleDatesOfYear, RuleDatesSplit and AddRuleDates state what it holds |
| CalendarHelper.HolidayDates | src/main/java/example/utils/CalendarHelper.java:72-110 | the set the forEach builds over all rules; HolidayDatesExtend, HolidayDatesLastYear and CatalogueRules state what it holds |
| CalendarHelper.RentalHolidays | src/main/java/example/utils/CalendarHelper.java:62-73 | the holidays for a rental: every catalogue rule in every year from the checkout's year to the due date's; DetermineHolidays computes it and RentalHolidaysAgree relates two rental lengths |
| CalendarHelper.IsExcluded | src/main/java/example/utils/CalendarHelper.java:40-42 | the three exclusions: a free weekend day, a free weekday or a free holiday; CountIsBilledDates states that the count is the number of days none applies to |
| CalendarHelper.CountChargeable | src/main/java/example/utils/CalendarHelper.java:38-50 | the count of billed days in a window lies between 0 and the window's length |
| CalendarHelper.ChargeDays | src/main/java/example/utils/CalendarHelper.java:27-51 | a rental bills between 0 and rentalDays days (0 when rentalDays <= 0) |
| CalendarHelper.CalculateChargeDays | src/main/java/example/utils/CalendarHelper.java:27-51 | the loop counts exactly ChargeDays: the days after checkout, due date included, that no exclusion applies to |
| CalendarHelper.Window | src/main/java/example/utils/CalendarHelper.java:33-48 | the dates the loop visits are exactly first..first+days-1 |
| CalendarHelper.WindowSize | src/main/java/example/utils/CalendarHelper.java:33-48 | the loop visits rentalDays distinct dates |
| CalendarHelper.CountIsBilledDates | src/main/java/example/utils/CalendarHelper.java:38-50 | the count equals the number of dates in the window that none of the three exclusions applies to |
| CalendarHelper.BilledDatesStep | src/main/java/example/utils/CalendarHelper.java:38-50 | the billed dates of a window are its first day, if billed, plus the billed dates of the rest, which exclude the first day |
| CalendarHelper.CountSplit | src/main/java/example/utils/CalendarHelper.java:38-50 | counting a window in two consecutive parts gives the sum of the parts |
| CalendarHelper.CountAllBilled | src/main/java/example/utils/CalendarHelper.java:40-46 | a policy billing every kind of day bills every day of the window |
| CalendarHelper.CountNoneBilled | src/main/java/example/utils/CalendarHelper.java:40-46 | a policy billing neither weekdays nor weekend days bills nothing, holidays included |
| CalendarHelper.CountWeek | src/main/java/example/utils/CalendarHelper.java:40-46 | with holidays billed, any 7 consecutive days bill 5 weekdays and 2 weekend days, each when its kind is billed |
| CalendarHelper.CountWeeks | src/main/java/example/utils/CalendarHelper.java:38-50 | with holidays billed, w whole weeks bill w times the weekly count |
| CalendarHelper.CountWithoutHolidays | src/main/java/example/utils/CalendarHelper.java:40-46 | billing all but holidays bills the window's length less the holidays inside it |
| CalendarHelper.CountIgnoresHolidays | src/main/java/example/utils/CalendarHelper.java:42 | when holidays are billed, the holiday set does not matter |
| CalendarHelper.CountLocal | src/main/java/example/utils/CalendarHelper.java:42 | the count depends only on which days inside its own window are holidays |
| CalendarHelper.CountLonger | src/main/java/example/utils/CalendarHelper.java:38-50 | a longer window with the same holidays on its first days bills at least as many days, and at most one more per extra day |
| CalendarHelper.ChargeDaysAllBilled | src/main/java/example/utils/CalendarHelper.java:27-51 | a rental with every kind of day billed bills all rentalDays days |
| CalendarHelper.ChargeDaysNoneBilled | src/main/java/example/utils/CalendarHelper.java:27-51 | a rental with neither weekdays nor weekends billed bills 0 days |
| CalendarHelper.ChargeDaysWithoutHolidays | src/main/java/example/utils/CalendarHelper.java:27-51 | a rental billing all but holidays bills rentalDays less the catalogue holidays between checkout+1 and the due date |
| CalendarHelper.ChargeDaysMonotone | src/main/java/example/utils/CalendarHelper.java:27-51 | renting for longer from the same checkout never bills fewer days, and each extra day bills at most one more |
| CalendarHelper.RentalHolidaysAgree | src/main/java/example/utils/CalendarHelper.java:62-113 | on the days of a shorter rental, a longer rental from the same checkout has the same holidays |
| CalendarHelper.CatalogueResolvable | src/main/java/example/repository/HolidayRepository.java:28-31 | every catalogue rule resolves in every year: July 4 always exists, so LocalDate.of never throws |
| CalendarHelper.IndependenceDay | src/main/java/example/repository/HolidayRepository.java:29 | every year has an Independence Day and it is a weekday: July 4 itself, or July 3 when July 4 is a Saturday, or July 5 when it is a Sunday |
| CalendarHelper.LaborDay | src/main/java/example/repository/HolidayRepository.java:30 | every year has a Labor Day: a Monday in September of that year, among its first seven days |
| CalendarHelper.LaborDayOn | src/main/java/example/repository/HolidayRepository.java:30 | Labor Day is the one day among September 1-7 that is a Monday |
| CalendarHelper.CatalogueRules | src/main/java/example/repository/HolidayRepository.java:28-31 | the holidays of the constant list Holidays over a range of years are exactly the dates of its two rules |
| CalendarHelper.CatalogueYear | src/main/java/example/repository/HolidayRepository.java:28-31 | a date is a holiday of one year exactly when it is that year's Independence Day or Labor Day |
| CalendarHelper.CatalogueHolidaysAreWeekdays | src/main/java/example/repository/HolidayRepository.java:28-31 | every catalogue holiday is a weekday |
| CalendarHelper.CatalogueDateInItsYear | src/main/java/example/repository/HolidayRepository.java:28-31 | each catalogue rule resolves in every year to a date of that same year: Independence Day moves only to July 3 or July 5 |
| CalendarHelper.CatalogueRuleDatesByYear | src/main/java/example/utils/CalendarHelper.java:73-109 | a catalogue rule's dates over a range of years are the dates whose year is in the range and which the rule yields in that year |
| CalendarHelper.CatalogueDatesByYear | src/main/java/example/utils/CalendarHelper.java:72-110 | a date is a catalogue holiday of a range of years exactly when its year is in the range and it is a holiday of that year |
| CalendarHelper.CatalogueDatesAgree | src/main/java/example/utils/CalendarHelper.java:66-73 | ending the range of years later keeps, and adds nothing to, the holidays of the years already in it |
| CalendarHelper.FiftyFourthMondayOf2024 | src/main/java/example/utils/CalendarHelper.java:85-92 | the candidate for the 54th Monday of January 2024 is 2025-01-06, in January of 2025 |
| CalendarHelper.AsWrittenKeepsDateOfAnotherYear | src/main/java/example/utils/CalendarHelper.java:93 | the month-only test keeps 2025-01-06 as the 54th Monday of January 2024 |
| CalendarHelper.CorrectedDropsDateOfAnotherYear | src/main/java/example/utils/CalendarHelper.java:93 | the year-and-month test yields no date for that rule |
| CalendarHelper.AsWrittenAgreesForSmallN | src/main/java/example/utils/CalendarHelper.java:93 | for fixed days and the first to fourth weekday of a month, the two tests agree |
| CalendarHelper.CatalogueAsWrittenAgrees | src/main/java/example/repository/HolidayRepository.java:28-31 | the catalogue resolves the same under both tests |
| CalendarHelperExamples.Holidays2020 | src/test/java/example/utils/CalendarHelperTest.java:110-117 | 2020's holidays are Friday July 3 (July 4 is a Saturday) and September 7 |
| CalendarHelperExamples.Holidays2021 | src/test/java/example/utils/CalendarHelperTest.java:119-135 | 2021's holidays are Monday July 5 (July 4 is a Sunday) and September 6 |
| CalendarHelperExamples.Holidays2024 | src/test/java/example/utils/CalendarHelperTest.java:92-108 | 2024's holidays are July 4 and September 2 |
| CalendarHelperExamples.EveryDayBilled | src/test/java/example/utils/CalendarHelperTest.java:11-36 | from 2024-12-01, billing every kind of day bills 1, 7 and 31 days for 1, 7 and 31 days |
| CalendarHelperExamples.ThirtyOneDaysAfterSunday | src/test/java/example/utils/CalendarHelperTest.java:38-63 | with holidays billed, 31 days after any Sunday bill 23 weekdays and 8 weekend days, each when its kind is billed |
| CalendarHelperExamples.DecemberWeeks | src/test/java/example/utils/CalendarHelperTest.java:38-63 | 31 days from 2024-12-01 bill 23 without weekends, 8 without weekdays, 0 without either |
| CalendarHelperExamples.LaborDayWeek | src/test/java/example/utils/CalendarHelperTest.java:65-108 | the 7 days from 2024-09-01 bill 6 of 7 days without holidays, 4 also without weekends, 2 also without weekdays; the middle lines (74-90) are LongRentals |
| CalendarHelperExamples.ObservedOnFriday | src/test/java/example/utils/CalendarHelperTest.java:110-117 | 3 days from 2020-07-01 bill 2 days: the observed Friday July 3 is free |
| CalendarHelperExamples.ObservedOnMonday | src/test/java/example/utils/CalendarHelperTest.java:119-135 | 3 days from 2021-07-04 bill 2 and 7 days from 2021-07-01 bill 6: the observed Monday July 5 is free |
| CalendarHelperExamples.LongRentalHolidays | src/test/java/example/utils/CalendarHelperTest.java:74-90 | the holiday sets for 400 and 760 days from 2024-07-01 cover 2024-2025 and 2024-2026 |
| CalendarHelperExamples.LongRentals | src/test/java/example/utils/CalendarHelperTest.java:74-90 | 400 days from 2024-07-01 bill 397 and 760 days bill 755, billing all but holidays |
| RentalAgreements.NewRentalAgreement | src/main/java/example/domain/RentalAgreement.java:29-39 | the agreement keeps its four arguments and has a policy exactly when the tool's type is in the table; that policy is the table's policy for that type |
| RentalAgreements.DueDate | src/main/java/example/domain/RentalAgreement.java:41-43 | the due date is after checkout exactly when at least one day is rented, and the billed window from the day after checkout is exactly the days after checkout up to and including the due date |
| RentalAgreements.DailyRentalChargeInCents | src/main/java/example/domain/RentalAgreement.java:45-47 | the rate of the agreement's policy, which must exist; AgreementRates states the rate for each tool type |
| RentalAgreements.CheckoutAccepts | src/main/java/example/service/CheckoutService.java:83-94 | the checkout's checks: at least one rental day and a discount in [0, 100); Receipts.ReceiptBounds states what an accepted agreement's receipt satisfies |
| RentalAgreements.AgreementRates | src/main/java/example/domain/RentalAgreement.java:45-47 | a new agreement's daily rate is 199, 149 or 299 for a ladder, chainsaw or jackhammer |
| Receipts.NewReceipt | src/main/java/example/utils/Receipt.java:26-32 | the billed days are between 0 and rentalDays; the pre-discount charge is days times the rate; final plus discount is the pre-discount charge |
| Receipts.Priced | src/main/java/example/utils/Receipt.java:28-31 | the pre-discount charge is days times the rate; the fraction is exactly percent / 100; the discount is percent% of the pre-discount charge rounded half up to a cent, whatever scale the division chose; final plus discount is the pre-discount charge |
| Receipts.ReceiptDaysAreBilledDates | src/main/java/example/utils/Receipt.java:27 | the receipt's days are the number of dates from checkout+1 to the due date that the policy bills |
| Receipts.DiscountBounds | src/main/java/example/utils/Receipt.java:28-31 | with a non-negative rate and a discount in [0, 100), the discount and the final charge both lie between 0 and the pre-discount charge |
| Receipts.ReceiptBounds | src/main/java/example/utils/Receipt.java:26-32 | the same for the receipt of an agreement the checkout accepts |
| Receipts.ZeroDiscount | src/main/java/example/utils/Receipt.java:29-31 | a zero percentage gives a zero fraction at the percentage's scale, no discount, and final equal to the pre-discount charge |
| ReceiptExamples.LadderDays | src/test/java/example/utils/ReceiptTest.java:17-69 | a ladder checked out 2024-07-01 bills 1 of 1 day, and 10 of 11 days because July 4 is free |
| ReceiptExamples.ReceiptForOneDayNoDiscount | src/test/java/example/utils/ReceiptTest.java:17-33 | 1 day at 0%: 1 day, 199, fraction 0, discount 0, final 199 |
| ReceiptExamples.ReceiptForOneDayOnePercentDiscount | src/test/java/example/utils/ReceiptTest.java:35-51 | 1 day at 1%: 1 day, 199, fraction 0.01, discount 2, final 197 |
| ReceiptExamples.ReceiptForElevenDaysTenPercentDiscount | src/test/java/example/utils/ReceiptTest.java:53-69 | 11 days at 10%: 10 days, 1990, fraction 0.1, discount 199, final 1791 |

## Left out

- `CheckoutService` (argument parsing, date formatting, error messages, the printing of the agreement) is not part of this model. Its checks on the rental days and the discount are kept as the predicate `CheckoutAccepts`.
- `ReceiptPrinterService`, `ToolRepository`, the Lombok builders and getters, and `Constants.java` are not part of this model. The three tool-type names are written as three distinct strings; only their distinctness matters.
- The calendar is a day-number model of `java.time.LocalDate`. Its range limits (years beyond ±999 999 999) and `long` overflow in `plusDays` are not modelled.
- Java `int` arithmetic is modelled with unbounded integers. The overflow of `chargeDays * dailyRate` and of `rentalDays` near 2^31 is not modelled.
- `LocalDate.of` throws on a day that does not exist, for example a fixed rule for February 30. This is the precondition `ResolvableIn`. The catalogue meets it in every year, as `CatalogueResolvable` shows.
- The `default` branch that throws on an unknown holiday type cannot be reached: the datatype has exactly the two kinds.
- `Collectors.toMap` throws on a repeated tool type. This is the precondition `DistinctTypes`, which the table meets.
- `RentalAgreement.getDailyRentalChargeInCents` throws a null-pointer exception when there is no policy. This is a precondition of `DailyRentalChargeInCents` and of `NewReceipt`.
- `BigDecimal` is modelled only as far as the receipt uses it. The discount percentage is any decimal of non-negative scale; negative scales and precision contexts are not modelled.
- `Receipts.NewReceipt` counts the billed days with `ChargeDays`, the function that the method `CalculateChargeDays` is proved equal to. A function cannot call a method. An agreement with no policy at all fails in the source: on the counter's first day when rentalDays >= 1, or at src/main/java/example/utils/Receipt.java:28 when rentalDays <= 0. Here it is a precondition.
- `CalendarHelper.ResolveHolidayIn` is specified by the rule's dates in one year, the set `RuleDates(h, year, year)`, rather than by an `Option`.
- The source builds the holiday set in a `HashSet`. The model uses a mathematical set, so iteration order plays no part.
- The switch on the holiday type sits inside a lambda passed to `forEach`. The model writes it as a loop over the list's indices, and the visiting order is the list's order.

## Findings

| source | as written | input that shows it | evidently intended | confidence | as-written member | corrected member |
|---|---|---|---|---|---|---|
| src/main/java/example/utils/CalendarHelper.java:93 | an nth-weekday candidate is kept when its month equals the rule's month, whatever its year | the rule "54th Monday of January" resolved for 2024: the candidate 2025-01-06 is in January, so it is added to the holidays of a rental in 2024 | keep the candidate only when it lies in the rule's month of the year being resolved, so a rule with no nth weekday that month yields no date | not executed | CalendarHelper.ResolveHolidayAsWritten, CalendarHelper.AsWrittenKeepsDateOfAnotherYear | CalendarHelper.ResolveHoliday, CalendarHelper.CorrectedDropsDateOfAnotherYear, CalendarHelper.NthWeekdayResolvesIff |

The rest of the model uses the corrected `ResolveHoliday`. The two tests agree for fixed days and for the first to fourth weekday of any month (`AsWrittenAgreesForSmallN`). So the catalogue's holidays, and every count above, are the same under both (`CatalogueAsWrittenAgrees`).
