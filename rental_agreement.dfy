/** A rental agreement: the tool, the number of days, the checkout date and
    the discount, with the charge policy looked up by the tool's type. */
module RentalAgreements {
  import opened Dates
  import opened Domain
  import opened Decimals
  import ChargeRepository
  import CalendarHelper

  /** The agreement's final fields. The policy is None when the tool's type
      has no entry in the charge table (the source stores null). */
  datatype RentalAgreement = RentalAgreement(
    tool: Tool,
    rentalDays: int,
    checkOutDate: EpochDay,
    charge: Option<Charge>,
    discountPercentage: Decimal)

  /** The arguments a checkout accepts before it builds an agreement: at
      least one rental day and a discount of at least 0 and below 100
      percent. */
  predicate CheckoutAccepts(rentalDays: int, discountPercentage: Decimal)
  {
    && rentalDays >= 1
    && 0 <= discountPercentage.unscaled < 100 * Pow10(discountPercentage.scale)
  }

  /** The constructor: it keeps its four arguments and looks up the policy of
      the tool's type. */
  function NewRentalAgreement(tool: Tool, rentalDays: int, checkoutDate: EpochDay, discountPercentage: Decimal): (a: RentalAgreement)
    ensures a.tool == tool && a.rentalDays == rentalDays
    ensures a.checkOutDate == checkoutDate && a.discountPercentage == discountPercentage
    ensures a.charge.Some? <==> tool.toolType in {ChargeRepository.LADDER, ChargeRepository.CHAINSAW, ChargeRepository.JACKHAMMER}
    ensures a.charge.Some? ==> a.charge.value.toolType == tool.toolType && a.charge.value in ChargeRepository.ChargeList
  {
    RentalAgreement(tool, rentalDays, checkoutDate, ChargeRepository.GetCharge(tool.toolType), discountPercentage)
  }

  /** The date the tool is due back: rentalDays days after checkout. It is
      after the checkout date exactly when at least one day is rented, and
      the days the rental bills, from the day after checkout on, are exactly
      those after checkout up to and including the due date. */
  function DueDate(a: RentalAgreement): (d: EpochDay)
    ensures d - a.checkOutDate == a.rentalDays
    ensures d > a.checkOutDate <==> a.rentalDays >= 1
    ensures var billable := CalendarHelper.Window(a.checkOutDate + 1, a.rentalDays);
      forall date :: date in billable <==> a.checkOutDate < date <= d
  {
    a.checkOutDate + a.rentalDays
  }

  /** The daily rate of the agreement's policy. Reading it without a policy
      fails in the source, hence the precondition. */
  function DailyRentalChargeInCents(a: RentalAgreement): (cents: int)
    requires a.charge.Some?
  {
    a.charge.value.dailyChargeCents
  }

  /** The rate of a new agreement is the charge table's rate for the tool's
      type. */
  lemma AgreementRates(tool: Tool, rentalDays: int, checkoutDate: EpochDay, discountPercentage: Decimal)
    ensures var a := NewRentalAgreement(tool, rentalDays, checkoutDate, discountPercentage);
      && (tool.toolType == ChargeRepository.LADDER ==> a.charge.Some? && DailyRentalChargeInCents(a) == 199)
      && (tool.toolType == ChargeRepository.CHAINSAW ==> a.charge.Some? && DailyRentalChargeInCents(a) == 149)
      && (tool.toolType == ChargeRepository.JACKHAMMER ==> a.charge.Some? && DailyRentalChargeInCents(a) == 299)
  {
    ChargeRepository.ChargeTable();
  }
}
