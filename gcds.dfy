/** `gcd` of operations.js: Euclid's algorithm with JavaScript's `%`. */
module Gcds {
  import opened Divisibility

  function Abs(x: int): nat {
    if x < 0 then -x else x
  }

  /** JavaScript's `a % b` on integers with `b != 0`: the remainder of the
      division truncated toward zero, so it takes the sign of `a`. */
  function JsRemainder(a: int, b: int): (r: int)
    requires b != 0
    ensures Abs(r) < Abs(b)
    ensures 0 <= a ==> 0 <= r
    ensures a <= 0 ==> r <= 0
    ensures Divides(b, a - r)
  {
    TruncatedRemainder(a, b);
    if 0 <= a then a % b else -((-a) % b)
  }

  /** Both branches of `JsRemainder` are below `|b|` in magnitude and differ
      from `a` by a multiple of `b`. */
  lemma TruncatedRemainder(a: int, b: int)
    requires b != 0
    ensures 0 <= a ==> Abs(a % b) < Abs(b) && 0 <= a % b && Divides(b, a - a % b)
    ensures a < 0 ==> Abs(-((-a) % b)) < Abs(b) && Divides(b, a + (-a) % b)
  {
    if 0 <= a {
      assert a - a % b == b * (a / b);
      MultipleIsDivisible(b, a / b);
    } else {
      assert -a == b * ((-a) / b) + (-a) % b;
      assert a + (-a) % b == b * (-((-a) / b));
      MultipleIsDivisible(b, -((-a) / b));
    }
  }

  /** `gcd(a, b)`: `a` when `b` is zero, otherwise `gcd(b, a % b)`. On
      non-negative arguments the result is non-negative. */
  function Gcd(a: int, b: int): (g: int)
    ensures 0 <= a && 0 <= b ==> 0 <= g
    decreases Abs(b)
  {
    if b == 0 then a else Gcd(b, JsRemainder(a, b))
  }

  /** The result divides both arguments. */
  lemma {:induction false} GcdDividesBoth(a: int, b: int)
    ensures Divides(Gcd(a, b), a) && Divides(Gcd(a, b), b)
    decreases Abs(b)
  {
    if b == 0 {
      MultipleIsDivisible(a, 1);
    } else {
      var r := JsRemainder(a, b);
      var g := Gcd(b, r);
      GcdDividesBoth(b, r);
      DividesTransitive(g, b, a - r);
      DividesLinear(g, a - r, r, 1);
    }
  }

  /** Every common divisor of the arguments divides the result. */
  lemma {:induction false} GcdGreatest(a: int, b: int, d: int)
    requires Divides(d, a) && Divides(d, b)
    ensures Divides(d, Gcd(a, b))
    decreases Abs(b)
  {
    if b != 0 {
      var r := JsRemainder(a, b);
      DividesLinear(d, b, a, -((a - r) / b));
      assert r == b * (-((a - r) / b)) + a by {
        QuotientTimesDivisor(b, a - r);
      }
      GcdGreatest(b, r, d);
    }
  }

  /** For non-negative arguments, not both zero, the result is the greatest
      common divisor: a positive common divisor no smaller than any other. */
  lemma GcdIsGreatestCommonDivisor(a: int, b: int, d: int)
    requires 0 <= a && 0 <= b && (a != 0 || b != 0)
    requires 1 <= d && Divides(d, a) && Divides(d, b)
    ensures 1 <= Gcd(a, b) && d <= Gcd(a, b)
  {
    var g := Gcd(a, b);
    GcdDividesBoth(a, b);
    GcdGreatest(a, b, d);
    DivisorIsNoLarger(d, g);
  }

  /** `gcd(48, 18) = 6` and `gcd(7, 0) = 7`; with JavaScript's signed `%`,
      `gcd(-4, 6) = 2` while `gcd(-4, 0) = -4` keeps the sign of `a`. */
  lemma GcdExamples()
    ensures Gcd(48, 18) == 6
    ensures Gcd(7, 0) == 7
    ensures Gcd(-4, 6) == 2
    ensures Gcd(-4, 0) == -4
  {
    assert Gcd(6, 0) == 6;
    assert Gcd(12, 6) == 6;
    assert Gcd(18, 12) == 6;
    assert Gcd(2, 0) == 2;
    assert Gcd(-4, 2) == 2;
    assert Gcd(6, -4) == 2;
  }
}
