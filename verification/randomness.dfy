/** The app's only source of randomness: `randomInRange`, built on one value of
    `Math.random()`. */
module Randomness {

  /** A rational number num / den. */
  datatype Fraction = Fraction(num: nat, den: nat)

  /** One value returned by `Math.random()`: a number in [0, 1). */
  type Random = u: Fraction | u.num < u.den witness Fraction(0, 1)

  /** `Math.floor(Math.random() * (max - min + 1)) + min`, computed exactly on the
      rational u. Dafny's division by a positive divisor rounds down, as
      `Math.floor` does, also when max < min makes the product negative. */
  function RandomInRange(min: int, max: int, u: Random): (r: int)
    ensures min <= max ==> min <= r <= max
  {
    var n := max - min + 1;
    if min <= max then
      ScaledFractionBelow(u, n);
      (u.num * n) / u.den + min
    else
      (u.num * n) / u.den + min
  }

  /** floor(u * n) lies in [0, n) for u in [0, 1). */
  lemma ScaledFractionBelow(u: Random, n: nat)
    requires n >= 1
    ensures 0 <= (u.num * n) / u.den < n
  {
    var a := u.num * n;
    var q := a / u.den;
    assert a == q * u.den + a % u.den;
    MulLess(u.num, u.den, n);
    if q >= n {
      MulMonotone(n, q, u.den);
    }
  }

  lemma MulLess(a: nat, b: nat, n: nat)
    requires a < b && n >= 1
    ensures a * n < b * n
  {
    MulMonotone(a + 1, b, n);
  }

  lemma {:induction false} MulMonotone(a: nat, b: nat, c: nat)
    requires a <= b
    ensures a * c <= b * c
  {
    if c > 0 {
      MulMonotone(a, b, c - 1);
      assert a * c == a * (c - 1) + a;
      assert b * c == b * (c - 1) + b;
    }
  }

  lemma DivOfMultiple(k: nat, n: nat)
    requires n >= 1
    ensures (k * n) / n == k
  {
    var a := k * n;
    var q := a / n;
    assert a == q * n + a % n;
    if q > k {
      MulMonotone(k + 1, q, n);
    } else if q < k {
      MulMonotone(q + 1, k, n);
    }
  }

  /** Every integer of a non-empty range is the outcome of some `Math.random()` value. */
  lemma RandomInRangeReachesEveryValue(min: int, max: int, v: int)
    requires min <= v <= max
    ensures exists u: Random :: RandomInRange(min, max, u) == v
  {
    var n := max - min + 1;
    var u: Random := Fraction(v - min, n);
    DivOfMultiple(u.num, n);
    assert RandomInRange(min, max, u) == v;
  }
}
