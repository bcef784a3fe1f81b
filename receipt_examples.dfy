/** The receipts the receipt's own test suite expects: a ladder checked out
    on Monday 2024-07-01 for one day with no discount and with 1 percent,
    and for eleven days with 10 percent. */
module ReceiptExamples {
  import opened Dates
  import opened Domain
  import opened Decimals
  import opened ChargeRepository
  import opened RentalAgreements
  import opened Receipts
  import CalendarHelper
  import CalendarHelperExamples

  const Ladder: Tool := Tool("FN2187", LADDER, "brand")

  const LadderCharge: Charge := Charge(LADDER, 199, true, true, false)

  lemma LadderAgreement(rentalDays: int, checkoutDate: EpochDay, discountPercentage: Decimal)
    ensures NewRentalAgreement(Ladder, rentalDays, checkoutDate, discountPercentage) ==
      RentalAgreement(Ladder, rentalDays, checkoutDate, Some(LadderCharge), discountPercentage)
  {
    ChargeTable();
  }

  lemma July2Year()
    ensures YearOf(19906) == 2024
  {
    LocalDateOfFields(LocalDateOf(2024, 7, 2), 2024, 7, 2);
    July2();
  }

  lemma July2()
    ensures LocalDateOf(2024, 7, 2) == 19906
  {
    LocalDateOfFromMarch(2024, 7, 2, 19906);
  }

  lemma July12Year()
    ensures YearOf(19916) == 2024
  {
    LocalDateOfFields(LocalDateOf(2024, 7, 12), 2024, 7, 12);
    July12();
  }

  lemma July12()
    ensures LocalDateOf(2024, 7, 12) == 19916
  {
    LocalDateOfFromMarch(2024, 7, 12, 19916);
  }

  /** No discount: the fraction is 0 and nothing is taken off. */
  lemma PriceWithoutDiscount()
    ensures Priced(1, 199, FromInt(0)) == Receipt(1, 199, Decimal(0, 0), 0, 199)
  {
    assert DivideBy100(Decimal(0, 0)) == Decimal(0, 0);
    assert RoundHalfUp(0, 1) == 0;
  }

  /** 1.99 cents round to 2. */
  lemma PriceAtOnePercent()
    ensures Priced(1, 199, FromInt(1)) == Receipt(1, 199, Decimal(1, 2), 2, 197)
  {
    assert DivideBy100(Decimal(1, 0)) == Decimal(1, 2);
    assert Pow10(2) == 100 by {
      assert Pow10(1) == 10;
    }
    assert RoundHalfUp(199, 100) == 2;
  }

  /** 199.0 cents stay 199. */
  lemma PriceAtTenPercent()
    ensures Priced(10, 199, FromInt(10)) == Receipt(10, 1990, Decimal(1, 1), 199, 1791)
  {
    assert DivideBy100(Decimal(10, 0)) == Decimal(1, 1);
    assert Pow10(1) == 10;
    assert RoundHalfUp(1990, 10) == 199;
  }

  /** One day from 2024-07-01 bills Tuesday 2024-07-02; eleven days bill
      all but Independence Day, Thursday 2024-07-04. */
  lemma LadderDays()
    ensures CalendarHelper.ChargeDays(19905, 1, LadderCharge) == 1
    ensures CalendarHelper.ChargeDays(19905, 11, LadderCharge) == 10
  {
    July2Year();
    July12Year();
    CalendarHelperExamples.Year2024();
    CalendarHelperExamples.Holidays2024();
    CalendarHelperExamples.RentalHolidaysAre(19905, 1, 2024, 2024, {19908, 19968});
    CalendarHelperExamples.RentalHolidaysAre(19905, 11, 2024, 2024, {19908, 19968});
    CalendarHelper.ChargeDaysWithoutHolidays(19905, 1, LadderCharge);
    CalendarHelper.ChargeDaysWithoutHolidays(19905, 11, LadderCharge);
    HolidaysInEarlyJuly(CalendarHelper.Window(19906, 1), CalendarHelper.Window(19906, 11));
  }

  lemma HolidaysInEarlyJuly(oneDay: set<EpochDay>, elevenDays: set<EpochDay>)
    requires forall date :: date in oneDay <==> 19906 <= date < 19907
    requires forall date :: date in elevenDays <==> 19906 <= date < 19917
    ensures |{19908, 19968} * oneDay| == 0 && |{19908, 19968} * elevenDays| == 1
  {
    assert {19908, 19968} * oneDay == {};
    assert {19908, 19968} * elevenDays == {19908};
  }

  lemma ReceiptForOneDayNoDiscount()
    ensures NewReceipt(NewRentalAgreement(Ladder, 1, LocalDateOf(2024, 7, 1), FromInt(0))) ==
      Receipt(1, 199, Decimal(0, 0), 0, 199)
  {
    CalendarHelperExamples.Dates2024();
    LadderAgreement(1, 19905, FromInt(0));
    LadderDays();
    ReceiptOfBilledDays(NewRentalAgreement(Ladder, 1, 19905, FromInt(0)), 1);
    PriceWithoutDiscount();
  }

  /** 1 percent is the fraction 0.01, and 1.99 cents round to 2. */
  lemma ReceiptForOneDayOnePercentDiscount()
    ensures NewReceipt(NewRentalAgreement(Ladder, 1, LocalDateOf(2024, 7, 1), FromInt(1))) ==
      Receipt(1, 199, Decimal(1, 2), 2, 197)
  {
    CalendarHelperExamples.Dates2024();
    LadderAgreement(1, 19905, FromInt(1));
    LadderDays();
    ReceiptOfBilledDays(NewRentalAgreement(Ladder, 1, 19905, FromInt(1)), 1);
    PriceAtOnePercent();
  }

  /** 10 percent is the fraction 0.1, and 199.0 cents stay 199. */
  lemma ReceiptForElevenDaysTenPercentDiscount()
    ensures NewReceipt(NewRentalAgreement(Ladder, 11, LocalDateOf(2024, 7, 1), FromInt(10))) ==
      Receipt(10, 1990, Decimal(1, 1), 199, 1791)
  {
    CalendarHelperExamples.Dates2024();
    LadderAgreement(11, 19905, FromInt(10));
    LadderDays();
    ReceiptOfBilledDays(NewRentalAgreement(Ladder, 11, 19905, FromInt(10)), 10);
    PriceAtTenPercent();
  }
}
