/** The tolerance comparison and the `half` helper of the Delaunay program.
    Floating-point values are modelled as reals; the two characteristics of
    the floating-point type that the comparison reads (its machine epsilon
    and its smallest positive normal value) are the fields of `Limits`. */
module Numeric {

  /** `std::numeric_limits<T>::epsilon()` and `std::numeric_limits<T>::min()`. */
  datatype Limits = Limits(epsilon: real, smallest: real)

  /** Both characteristics of a floating-point type are positive. */
  predicate ValidLimits(lim: Limits) {
    lim.epsilon > 0.0 && lim.smallest > 0.0
  }

  function Abs(x: real): (r: real)
    ensures r >= 0.0
    ensures r == x || r == -x
  {
    if x < 0.0 then -x else x
  }

  /** The ulp tolerance used when the caller gives none. */
  const DefaultUlp: int := 2

  /** `almost_equal(x, y, ulp)`: the difference is within `ulp` epsilons of
      the magnitude of the sum, or below the smallest normal value. */
  function AlmostEqual(lim: Limits, x: real, y: real, ulp: int): (r: bool)
    ensures Abs(x - y) < lim.smallest ==> r
    ensures x == y && lim.smallest > 0.0 ==> r
  {
    Abs(x - y) <= lim.epsilon * Abs(x + y) * (ulp as real) || Abs(x - y) < lim.smallest
  }

  /** At the default tolerance a difference of up to two epsilons of the
      magnitude of the sum is accepted, and larger ones only below the
      smallest normal value. */
  lemma AlmostEqualDefault(lim: Limits, x: real, y: real)
    ensures AlmostEqual(lim, x, y, DefaultUlp) <==>
            Abs(x - y) <= 2.0 * lim.epsilon * Abs(x + y) || Abs(x - y) < lim.smallest
  {
    assert lim.epsilon * Abs(x + y) * (DefaultUlp as real) == 2.0 * lim.epsilon * Abs(x + y);
  }

  /** The comparison does not depend on the order of its arguments. */
  lemma AlmostEqualSymmetric(lim: Limits, x: real, y: real, ulp: int)
    ensures AlmostEqual(lim, x, y, ulp) == AlmostEqual(lim, y, x, ulp)
  {
    assert Abs(x - y) == Abs(y - x);
    assert x + y == y + x;
  }

  /** Every value is almost equal to itself, whatever the tolerance. */
  lemma AlmostEqualReflexive(lim: Limits, x: real, ulp: int)
    requires ValidLimits(lim)
    ensures AlmostEqual(lim, x, x, ulp)
  {
  }

  /** Raising the ulp tolerance never turns a match into a mismatch. */
  lemma AlmostEqualMonotone(lim: Limits, x: real, y: real, ulp: int, ulp': int)
    requires lim.epsilon >= 0.0
    requires ulp <= ulp'
    requires AlmostEqual(lim, x, y, ulp)
    ensures AlmostEqual(lim, x, y, ulp')
  {
    var m := lim.epsilon * Abs(x + y);
    assert m >= 0.0 by {
      assert lim.epsilon >= 0.0 && Abs(x + y) >= 0.0;
    }
    assert m * (ulp as real) <= m * (ulp' as real) by {
      assert m * (ulp' as real) - m * (ulp as real) == m * ((ulp' - ulp) as real);
    }
  }

  /** `half` for `float` and `double`: multiplication by one half. */
  function Half(x: real): (r: real)
    ensures r + r == x
    ensures x >= 0.0 ==> 0.0 <= r <= x
  {
    0.5 * x
  }

  /** The midpoint `half(lo + hi)` of an interval lies inside it. */
  lemma HalfOfSumBetween(lo: real, hi: real)
    requires lo <= hi
    ensures lo <= Half(lo + hi) <= hi
    ensures Half(lo + hi) - lo == hi - Half(lo + hi)
  {
  }
}
