/** The receipt of a rental agreement: the billed days, the charge before
    the discount, the discount as a fraction and in cents, and the final
    charge. */
module Receipts {
  import opened Decimals
  import opened RentalAgreements
  import CalendarHelper

  /** The five final fields. Cent amounts are integers: the discount is
      rounded to scale 0 and the final charge is an integer less an integer
      at scale 0. */
  datatype Receipt = Receipt(
    chargeDays: int,
    preDiscountChargeCents: int,
    discountPercentAsDecimal: Decimal,
    discountCents: int,
    finalChargeCents: int)

  /** The constructor. The billed days are those the calendar helper counts
      for the agreement's dates and policy; the amounts follow from them. */
  function NewReceipt(a: RentalAgreement): (r: Receipt)
    requires a.charge.Some?
    ensures 0 <= r.chargeDays <= (if a.rentalDays <= 0 then 0 else a.rentalDays)
    ensures r.preDiscountChargeCents == r.chargeDays * a.charge.value.dailyChargeCents
    ensures r.finalChargeCents + r.discountCents == r.preDiscountChargeCents
  {
    var chargeDays := CalendarHelper.ChargeDays(a.checkOutDate, a.rentalDays, a.charge.value);
    Priced(chargeDays, DailyRentalChargeInCents(a), a.discountPercentage)
  }

  /** The amounts of a receipt for a number of billed days, a daily rate and
      a discount percentage. The fraction is exactly the percentage divided
      by 100, and the discount is the percentage of the pre-discount charge
      rounded to the nearest cent, halves up, whatever scale the division
      chose. */
  function Priced(chargeDays: int, dailyRentalChargeInCents: int, discountPercentage: Decimal): (r: Receipt)
    ensures r.chargeDays == chargeDays
    ensures r.preDiscountChargeCents == chargeDays * dailyRentalChargeInCents
    ensures 100 * r.discountPercentAsDecimal.unscaled * Pow10(discountPercentage.scale)
         == discountPercentage.unscaled * Pow10(r.discountPercentAsDecimal.scale)
    ensures r.discountCents == RoundHalfUp(discountPercentage.unscaled * r.preDiscountChargeCents,
                                           100 * Pow10(discountPercentage.scale))
    ensures r.finalChargeCents + r.discountCents == r.preDiscountChargeCents
  {
    var preDiscountChargeCents := chargeDays * dailyRentalChargeInCents;
    var discountPercentAsDecimal := DivideBy100(discountPercentage);
    var discountCents := SetScaleZeroHalfUp(MultiplyInt(discountPercentAsDecimal, preDiscountChargeCents));
    var q, t := Pow10(discountPercentAsDecimal.scale), 100 * Pow10(discountPercentage.scale);
    DivideBy100IsExact(discountPercentage);
    assert discountPercentAsDecimal.unscaled * t == discountPercentage.unscaled * q;
    BothTimes(discountPercentAsDecimal.unscaled, t, discountPercentage.unscaled, q, preDiscountChargeCents);
    SameRatio(discountPercentAsDecimal.unscaled * preDiscountChargeCents, q,
              discountPercentage.unscaled * preDiscountChargeCents, t);
    Receipt(chargeDays, preDiscountChargeCents, discountPercentAsDecimal, discountCents,
            preDiscountChargeCents - discountCents)
  }

  /** The billed days are the dates after checkout up to the due date that
      the policy bills. */
  lemma ReceiptDaysAreBilledDates(a: RentalAgreement)
    requires a.charge.Some?
    ensures NewReceipt(a).chargeDays ==
      |CalendarHelper.BilledDates(a.checkOutDate + 1, a.rentalDays, a.charge.value,
                                  CalendarHelper.RentalHolidays(a.checkOutDate, a.rentalDays))|
  {
    assert NewReceipt(a).chargeDays == CalendarHelper.ChargeDays(a.checkOutDate, a.rentalDays, a.charge.value);
    CalendarHelper.CountIsBilledDates(a.checkOutDate + 1, a.rentalDays, a.charge.value,
                                      CalendarHelper.RentalHolidays(a.checkOutDate, a.rentalDays));
  }

  /** a * b == c * d carries over to a multiple of a and of c. */
  lemma BothTimes(a: int, b: int, c: int, d: int, k: int)
    requires a * b == c * d
    ensures (a * k) * b == (c * k) * d
  {
    assert (a * k) * b == (a * b) * k;
    assert (c * k) * d == (c * d) * k;
  }

  /** Fractions that are equal round alike. */
  lemma SameRatio(n: int, q: int, m: int, t: int)
    requires q > 0 && t > 0 && n * t == m * q
    ensures RoundHalfUp(n, q) == RoundHalfUp(m, t)
  {
    RoundHalfUpScaled(n, q, t);
    RoundHalfUpScaled(m, t, q);
    assert q * t == t * q;
  }

  /** For a discount the checkout accepts and a rate that is not negative,
      the discount lies between zero and the pre-discount charge, so the
      final charge is not negative and at most the pre-discount charge. */
  lemma DiscountBounds(chargeDays: nat, rate: int, p: Decimal)
    requires rate >= 0 && 0 <= p.unscaled < 100 * Pow10(p.scale)
    ensures var r := Priced(chargeDays, rate, p);
      && 0 <= r.discountCents <= r.preDiscountChargeCents
      && 0 <= r.finalChargeCents <= r.preDiscountChargeCents
  {
    RoundedShareAtMostWhole(p.unscaled, chargeDays * rate, 100 * Pow10(p.scale));
  }

  /** So an accepted agreement with a rate that is not negative gets a
      receipt whose final charge is between zero and the pre-discount
      charge. */
  lemma ReceiptBounds(a: RentalAgreement)
    requires a.charge.Some? && a.charge.value.dailyChargeCents >= 0
    requires CheckoutAccepts(a.rentalDays, a.discountPercentage)
    ensures 0 <= NewReceipt(a).discountCents <= NewReceipt(a).preDiscountChargeCents
    ensures 0 <= NewReceipt(a).finalChargeCents <= NewReceipt(a).preDiscountChargeCents
  {
    var chargeDays := CalendarHelper.ChargeDays(a.checkOutDate, a.rentalDays, a.charge.value);
    DiscountBounds(chargeDays, a.charge.value.dailyChargeCents, a.discountPercentage);
  }

  /** Rounding a share p / t of a whole w, with 0 <= p < t, gives at most
      the whole and no less than zero. */
  lemma RoundedShareAtMostWhole(p: int, w: int, t: int)
    requires 0 <= p < t && w >= 0
    ensures 0 <= RoundHalfUp(p * w, t) <= w
  {
    var d := RoundHalfUp(p * w, t);
    MulMonotone(p, t, w);
    assert 2 * d * t - t < 2 * w * t + t;
    AtMostByHalves(d, w, t);
  }

  /** d * t < w * t + t, doubled, means d <= w. */
  lemma AtMostByHalves(d: int, w: int, t: int)
    requires t > 0 && 2 * d * t - t < 2 * w * t + t
    ensures d <= w
  {
    assert 2 * t * (d - w) < 2 * t;
    if d - w >= 1 {
      MulMonotone(1, d - w, 2 * t);
    }
  }

  lemma MulMonotone(a: int, b: int, c: int)
    requires a <= b && c >= 0
    ensures a * c <= b * c
  {
  }

  /** A zero discount leaves the charge as it is. */
  lemma ZeroDiscount(chargeDays: int, rate: int, p: Decimal)
    requires p.unscaled == 0
    ensures var r := Priced(chargeDays, rate, p);
      && r.discountPercentAsDecimal == Decimal(0, p.scale)
      && r.discountCents == 0
      && r.finalChargeCents == r.preDiscountChargeCents
  {
  }

  /** The receipt of an agreement is priced from its billed days, its
      policy's rate and its discount. */
  lemma ReceiptOfBilledDays(a: RentalAgreement, chargeDays: int)
    requires a.charge.Some?
    requires CalendarHelper.ChargeDays(a.checkOutDate, a.rentalDays, a.charge.value) == chargeDays
    ensures NewReceipt(a) == Priced(chargeDays, a.charge.value.dailyChargeCents, a.discountPercentage)
  {
  }
}
