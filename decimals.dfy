/** Exact decimal numbers in the manner of java.math.BigDecimal: an unscaled
    integer and a scale, standing for unscaled / 10^scale. Only what the
    receipt uses is modelled: division by 100, multiplication by an integer
    and rounding to an integer with ties away from zero. */
module Decimals {

  /** unscaled / 10^scale. Two decimals are equal only when both parts are,
      as with BigDecimal.equals (so 0.1 and 0.10 differ). */
  datatype Decimal = Decimal(unscaled: int, scale: nat)

  function Pow10(n: nat): (r: nat)
    ensures r >= 1
  {
    if n == 0 then 1 else 10 * Pow10(n - 1)
  }

  /** BigDecimal.valueOf(long): an integer at scale 0. */
  function FromInt(n: int): Decimal
  {
    Decimal(n, 0)
  }

  /** d / 100 as BigDecimal.divide(BigDecimal.valueOf(100)) returns it: the
      exact quotient at the preferred scale d.scale, or, when that cannot
      hold it exactly, at the smallest larger scale that can. */
  function DivideBy100(d: Decimal): (r: Decimal)
    ensures d.scale <= r.scale <= d.scale + 2
    ensures r.unscaled * Pow10(d.scale + 2 - r.scale) == d.unscaled
    ensures r.scale > d.scale ==> r.unscaled % 10 != 0
  {
    if d.unscaled % 100 == 0 then Decimal(d.unscaled / 100, d.scale)
    else if d.unscaled % 10 == 0 then Decimal(d.unscaled / 10, d.scale + 1)
    else Decimal(d.unscaled, d.scale + 2)
  }

  /** The quotient is d / 100 exactly: r = d / 100 as rationals. */
  lemma DivideBy100IsExact(d: Decimal)
    ensures 100 * DivideBy100(d).unscaled * Pow10(d.scale) == d.unscaled * Pow10(DivideBy100(d).scale)
  {
    var r := DivideBy100(d);
    var p := Pow10(d.scale);
    assert Pow10(d.scale + 1) == 10 * p;
    assert Pow10(d.scale + 2) == 100 * p;
    if r.scale == d.scale {
      assert d.unscaled == 100 * r.unscaled;
    } else if r.scale == d.scale + 1 {
      assert d.unscaled == 10 * r.unscaled;
      assert d.unscaled * Pow10(r.scale) == (10 * r.unscaled) * (10 * p);
    } else {
      assert d.unscaled == r.unscaled;
    }
  }

  /** d * n as BigDecimal.multiply returns it: the exact product at scale
      d.scale. */
  function MultiplyInt(d: Decimal, n: int): Decimal
  {
    Decimal(d.unscaled * n, d.scale)
  }

  /** n / q rounded to an integer, ties away from zero (RoundingMode.HALF_UP). */
  function RoundHalfUp(n: int, q: int): (r: int)
    requires q > 0
    ensures n >= 0 ==> r >= 0 && 2 * r * q - q <= 2 * n < 2 * r * q + q
    ensures n < 0 ==> r <= 0 && 2 * r * q - q < 2 * n <= 2 * r * q + q
  {
    if n >= 0 then (2 * n + q) / (2 * q) else -((2 * -n + q) / (2 * q))
  }

  /** d.setScale(0, RoundingMode.HALF_UP): the nearest integer, halves
      rounded away from zero. */
  function SetScaleZeroHalfUp(d: Decimal): (r: int)
    ensures var q := Pow10(d.scale);
      d.unscaled >= 0 ==> r >= 0 && 2 * r * q - q <= 2 * d.unscaled < 2 * r * q + q
    ensures var q := Pow10(d.scale);
      d.unscaled < 0 ==> r <= 0 && 2 * r * q - q < 2 * d.unscaled <= 2 * r * q + q
  {
    RoundHalfUp(d.unscaled, Pow10(d.scale))
  }

  /** The rounding condition fixes the result: no other integer is as near,
      with ties broken away from zero. */
  lemma RoundHalfUpUnique(n: int, q: int, r: int)
    requires q > 0
    requires n >= 0 ==> 2 * r * q - q <= 2 * n < 2 * r * q + q
    requires n < 0 ==> 2 * r * q - q < 2 * n <= 2 * r * q + q
    ensures r == RoundHalfUp(n, q)
  {
    var s := RoundHalfUp(n, q);
    DoubleProduct(r, q);
    DoubleProduct(s, q);
    var rq, sq := r * q, s * q;
    assert rq - sq < q && sq - rq < q;
    WithinOne(r, s, q);
  }

  lemma DoubleProduct(a: int, q: int)
    ensures 2 * a * q == 2 * (a * q)
  {
  }

  /** Two multiples of q less than q apart are the same multiple. */
  lemma WithinOne(a: int, b: int, q: int)
    requires q > 0 && a * q - b * q < q && b * q - a * q < q
    ensures a == b
  {
    MulDiff(a, b, q);
    if a > b {
      MulAtLeast(a - b, q);
    } else if b > a {
      MulAtLeast(b - a, q);
    }
  }

  lemma MulAtLeast(k: int, q: int)
    requires k >= 1 && q > 0
    ensures k * q >= q
  {
  }

  lemma MulDiff(a: int, b: int, q: int)
    ensures (a - b) * q == a * q - b * q
    ensures (b - a) * q == b * q - a * q
  {
  }

  /** Rounding n / q does not depend on how the fraction is written. */
  lemma RoundHalfUpScaled(n: int, q: int, t: int)
    requires q > 0 && t > 0
    ensures RoundHalfUp(n * t, q * t) == RoundHalfUp(n, q)
  {
    var r := RoundHalfUp(n * t, q * t);
    assert 2 * r * (q * t) == (2 * r * q) * t;
    assert 2 * (n * t) == (2 * n) * t;
    assert q * t == q * t;
    if n >= 0 {
      assert n * t >= 0;
      assert 2 * r * q - q <= 2 * n < 2 * r * q + q by {
        assert (2 * r * q - q) * t <= (2 * n) * t < (2 * r * q + q) * t;
        MulCancel(2 * r * q - q, 2 * n, t);
        MulCancelStrict(2 * n, 2 * r * q + q, t);
      }
    } else {
      assert n * t < 0;
      assert 2 * r * q - q < 2 * n <= 2 * r * q + q by {
        assert (2 * r * q - q) * t < (2 * n) * t <= (2 * r * q + q) * t;
        MulCancelStrict(2 * r * q - q, 2 * n, t);
        MulCancel(2 * n, 2 * r * q + q, t);
      }
    }
    RoundHalfUpUnique(n, q, r);
  }

  lemma MulCancel(a: int, b: int, t: int)
    requires t > 0 && a * t <= b * t
    ensures a <= b
  {
  }

  lemma MulCancelStrict(a: int, b: int, t: int)
    requires t > 0 && a * t < b * t
    ensures a < b
  {
  }
}
