/**
  Decimal arithmetic of the sensor code. Temperatures are kept in hundredths
  of a degree Fahrenheit and percentages in hundredths of a percent, which is
  what `round(x, 2)` produces; the rounding is done on the exact rational
  value, to the nearest integer with ties to even.
*/
module Rounding {

  /** `n / d` rounded to the nearest integer, ties to the even neighbour. */
  function RoundHalfEven(n: int, d: int): (r: int)
    requires d > 0
    ensures 2 * (n - r * d) <= d && 2 * (r * d - n) <= d
    ensures 2 * (n - r * d) == d || 2 * (r * d - n) == d ==> r % 2 == 0
  {
    var q := n / d;
    var m := n % d;
    assert n == q * d + m;
    assert (q + 1) * d == q * d + d;
    if 2 * m < d then q
    else if 2 * m > d then q + 1
    else if q % 2 == 0 then q
    else q + 1
  }

  /** The nearest-ties-to-even integer is unique: the contract above determines the result. */
  lemma RoundHalfEvenUnique(n: int, d: int, r: int)
    requires d > 0
    requires 2 * (n - r * d) <= d && 2 * (r * d - n) <= d
    requires 2 * (n - r * d) == d || 2 * (r * d - n) == d ==> r % 2 == 0
    ensures r == RoundHalfEven(n, d)
  {
    var r0 := RoundHalfEven(n, d);
    if r < r0 {
      NearestApart(n, d, r, r0);
      assert false;
    } else if r0 < r {
      NearestApart(n, d, r0, r);
      assert false;
    }
  }

  /** Two distinct integers within half of `n / d` are neighbours, each exactly half away. */
  lemma NearestApart(n: int, d: int, lo: int, hi: int)
    requires d > 0 && lo < hi
    requires 2 * (n - lo * d) <= d && 2 * (hi * d - n) <= d
    ensures hi == lo + 1
    ensures 2 * (n - lo * d) == d && 2 * (hi * d - n) == d
  {
    var k := hi - lo;
    Distrib(hi, lo, d);
    MulMono(1, k, d);
    if k >= 2 {
      MulMono(2, k, d);
    }
  }

  lemma Distrib(x: int, y: int, d: int)
    ensures x * d - y * d == (x - y) * d
  {
  }

  lemma MulMono(a: int, b: int, d: int)
    requires a <= b && d > 0
    ensures a * d <= b * d
  {
  }

  /** Rounding is monotone in the numerator. */
  lemma RoundHalfEvenMonotone(n1: int, n2: int, d: int)
    requires d > 0 && n1 <= n2
    ensures RoundHalfEven(n1, d) <= RoundHalfEven(n2, d)
  {
    var r1 := RoundHalfEven(n1, d);
    var r2 := RoundHalfEven(n2, d);
    if r2 < r1 {
      NearestApart(n1, d, r2, r1);
      assert false;
    }
  }

  /** Exact quotients are returned unchanged. */
  lemma RoundHalfEvenExact(k: int, d: int)
    requires d > 0
    ensures RoundHalfEven(k * d, d) == k
  {
    RoundHalfEvenUnique(k * d, d, k);
  }

  /** The converter's formula, `float(milliC) / 1000.0 * 9.0 / 5.0 + 32.0`, on exact reals. */
  function ExactFahrenheit(milliC: int): real {
    (milliC as real / 1000.0) * 9.0 / 5.0 + 32.0
  }

  /** Degrees Celsius back from degrees Fahrenheit, in thousandths. */
  function MilliCelsiusOf(f: real): real {
    (f - 32.0) * 5.0 / 9.0 * 1000.0
  }

  /** The unrounded formula is affine with a non-zero slope, so it can be solved back for the Celsius reading. */
  lemma CelsiusRoundTrip(milliC: int)
    ensures MilliCelsiusOf(ExactFahrenheit(milliC)) == milliC as real
  {
  }

  /** Hundredths of a degree Fahrenheit: `round(convert(milliC), 2)` scaled by 100. */
  function CentiFahrenheit(milliC: int): (r: int)
    ensures 2.0 * (r as real - 100.0 * ExactFahrenheit(milliC)) <= 1.0
    ensures 2.0 * (100.0 * ExactFahrenheit(milliC) - r as real) <= 1.0
  {
    var r := RoundHalfEven(9 * milliC + 160000, 50);
    assert 100.0 * ExactFahrenheit(milliC) == (9 * milliC + 160000) as real / 50.0;
    assert (r * 50) as real == r as real * 50.0;
    r
  }

  /** A higher Celsius reading never gives a lower Fahrenheit value. */
  lemma CentiFahrenheitMonotone(m1: int, m2: int)
    requires m1 <= m2
    ensures CentiFahrenheit(m1) <= CentiFahrenheit(m2)
  {
    RoundHalfEvenMonotone(9 * m1 + 160000, 9 * m2 + 160000, 50);
  }

  /** Whole multiples of 50 milli-degrees Celsius convert without rounding. */
  lemma CentiFahrenheitExact(k: int)
    ensures CentiFahrenheit(50 * k) == 9 * k + 3200
  {
    assert 9 * (50 * k) + 160000 == (9 * k + 3200) * 50;
    RoundHalfEvenExact(9 * k + 3200, 50);
  }

  /** The recorded value is not invertible: rounding to hundredths merges neighbouring milli-degree readings. */
  lemma RoundingMergesReadings()
    ensures CentiFahrenheit(0) == CentiFahrenheit(1) == 3200
  {
    CentiFahrenheitExact(0);
    RoundHalfEvenUnique(9 * 1 + 160000, 50, 3200);
  }

  /** Freezing, room temperature and -5 degrees Celsius. */
  lemma ConversionExamples()
    ensures CentiFahrenheit(0) == 3200
    ensures CentiFahrenheit(20000) == 6800
    ensures CentiFahrenheit(-5000) == 2300
  {
    CentiFahrenheitExact(0);
    CentiFahrenheitExact(400);
    CentiFahrenheitExact(-100);
  }

  /** `round(count / total * 100, 2)` in hundredths of a percent. */
  function PercentHundredths(count: nat, total: nat): (r: int)
    requires total > 0
    ensures 2 * (r * total - count * 10000) <= total
    ensures 2 * (count * 10000 - r * total) <= total
    ensures count <= total ==> 0 <= r <= 10000
  {
    var r := RoundHalfEven(count * 10000, total);
    assert count <= total ==> 0 <= r <= 10000 by {
      RoundHalfEvenMonotone(0, count * 10000, total);
      RoundHalfEvenExact(0, total);
      if count <= total {
        assert count * 10000 <= 10000 * total;
        RoundHalfEvenMonotone(count * 10000, 10000 * total, total);
        RoundHalfEvenExact(10000, total);
      }
    }
    r
  }
}
