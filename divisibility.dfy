/** Divisibility and primality over the integers, shared by the factorisation
    and the greatest-common-divisor routines. */
module Divisibility {

  /** `d` divides `x`: `x` is a whole multiple of `d` (the only multiple of 0 is 0). */
  predicate Divides(d: int, x: int) {
    if d == 0 then x == 0 else x % d == 0
  }

  /** `p` is at least 2 and no number strictly between 1 and `p` divides it. */
  predicate IsPrime(p: int) {
    2 <= p && forall k :: 2 <= k < p ==> !Divides(k, p)
  }

  /** A non-zero multiple of `d` is at least as large as `d` in magnitude. */
  lemma {:induction false} MultipleMagnitude(d: int, t: int)
    requires t != 0
    ensures 0 <= d ==> d * t >= d || d * t <= -d
    ensures d < 0 ==> d * t <= d || d * t >= -d
  {
    if t > 0 {
      if d >= 0 { assert d * (t - 1) >= 0; } else { assert d * (t - 1) <= 0; }
      assert d * t == d + d * (t - 1);
    } else {
      if d >= 0 { assert d * (-t - 1) >= 0; } else { assert d * (-t - 1) <= 0; }
      assert d * t == -d - d * (-t - 1);
    }
  }

  /** `d` divides every multiple of itself. */
  lemma MultipleIsDivisible(d: int, j: int)
    ensures Divides(d, d * j)
  {
    if d != 0 {
      var x := d * j;
      var q, r := x / d, x % d;
      assert x == d * q + r;
      assert d * (j - q) == r by {
        assert d * j - d * q == d * (j - q);
      }
      if j - q != 0 {
        MultipleMagnitude(d, j - q);
        assert false;
      }
    }
  }

  /** A value that `d` divides is `d` times its quotient by `d`. */
  lemma QuotientTimesDivisor(d: int, x: int)
    requires d != 0 && Divides(d, x)
    ensures x == d * (x / d)
  {
  }

  /** Dividing a positive multiple of `d >= 2` by `d` leaves a smaller positive value. */
  lemma QuotientShrinks(d: int, x: int)
    requires 2 <= d && 1 <= x && Divides(d, x)
    ensures 1 <= x / d < x
  {
    QuotientTimesDivisor(d, x);
    var q := x / d;
    assert x == q + (d - 1) * q;
    assert (d - 1) * q >= 1;
  }

  /** A divisor of `d` divides every multiple of `d`. */
  lemma {:induction false} DividesMultiple(k: int, d: int, j: int)
    requires Divides(k, d)
    ensures Divides(k, d * j)
  {
    if k == 0 {
    } else {
      var i := d / k;
      assert d == k * i;
      assert d * j == k * (i * j);
      MultipleIsDivisible(k, i * j);
    }
  }

  /** Divisibility is transitive. */
  lemma {:induction false} DividesTransitive(a: int, b: int, c: int)
    requires Divides(a, b) && Divides(b, c)
    ensures Divides(a, c)
  {
    if b == 0 {
      assert c == 0;
      if a != 0 { MultipleIsDivisible(a, 0); }
    } else {
      assert c == b * (c / b);
      DividesMultiple(a, b, c / b);
    }
  }

  /** A common divisor of `x` and `y` divides `x * q + y`. */
  lemma {:induction false} DividesLinear(d: int, x: int, y: int, q: int)
    requires Divides(d, x) && Divides(d, y)
    ensures Divides(d, x * q + y)
  {
    if d != 0 {
      var i, j := x / d, y / d;
      assert x == d * i && y == d * j;
      assert x * q + y == d * (i * q + j);
      MultipleIsDivisible(d, i * q + j);
    }
  }

  /** A positive divisor of a positive number is no larger than it. */
  lemma DivisorIsNoLarger(d: int, x: int)
    requires 1 <= d && 1 <= x && Divides(d, x)
    ensures d <= x
  {
    QuotientTimesDivisor(d, x);
    var q := x / d;
    assert x == d + d * (q - 1);
    assert d * (q - 1) >= 0;
  }

  /** No number from 2 up divides 1. */
  lemma NothingAboveOneDividesOne(d: int)
    requires 2 <= d
    ensures !Divides(d, 1)
  {
  }

  /** The core of Euclid's lemma, by descent on `a`: a prime that divides
      `a * b` with `0 < a < p` divides `b`. */
  lemma {:induction false} EuclidBelowPrime(p: int, a: int, b: int)
    requires IsPrime(p) && 1 <= a < p && Divides(p, a * b)
    ensures Divides(p, b)
    decreases a
  {
    if a != 1 {
      var q, r := p / a, p % a;
      assert p == a * q + r;
      assert !Divides(a, p);
      MultipleIsDivisible(p, b);
      DividesLinear(p, a * b, p * b, -q);
      assert (a * b) * (-q) + p * b == r * b by {
        assert p * b == (a * q + r) * b == (a * b) * q + r * b;
      }
      EuclidBelowPrime(p, r, b);
    }
  }

  /** Euclid's lemma: a prime that divides a product divides one of its factors. */
  lemma Euclid(p: int, a: int, b: int)
    requires IsPrime(p) && Divides(p, a * b)
    ensures Divides(p, a) || Divides(p, b)
  {
    if !Divides(p, a) {
      var q, r := a / p, a % p;
      assert a == p * q + r && 1 <= r < p;
      MultipleIsDivisible(p, q * b);
      DividesLinear(p, p * (q * b), a * b, -1);
      assert p * (q * b) * (-1) + a * b == r * b by {
        assert a * b == (p * q + r) * b == p * (q * b) + r * b;
      }
      EuclidBelowPrime(p, r, b);
    }
  }

  /** A common non-zero factor cancels from a divisibility. */
  lemma CancelFactor(c: int, d: int, x: int)
    requires c != 0 && Divides(c * d, c * x)
    ensures Divides(d, x)
  {
    if d == 0 {
      assert c * x == 0;
    } else {
      var k := (c * x) / (c * d);
      QuotientTimesDivisor(c * d, c * x);
      assert c * x == c * (d * k);
      assert c * (x - d * k) == 0;
      assert x == d * k;
      MultipleIsDivisible(d, k);
    }
  }
}
