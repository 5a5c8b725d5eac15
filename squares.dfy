/** `isPerfectSquare` of operations.js, as the exact integer test it stands for:
    the square root of `n` equals its own floor. */
module Squares {

  function Square(k: nat): nat {
    k * k
  }

  /** Squaring is monotonic on the naturals. */
  lemma SquareMonotonic(j: nat, k: nat)
    requires j <= k
    ensures Square(j) <= Square(k)
  {
    assert j * j <= j * k <= k * k;
  }

  /** `Math.floor(Math.sqrt(n))` on exact arithmetic: the largest `r` with
      `r * r <= n`, found from the root of `n / 4`. */
  function FloorSqrt(n: nat): (r: nat)
    ensures Square(r) <= n < Square(r + 1)
  {
    if n < 2 then n
    else
      var s := FloorSqrt(n / 4);
      DoubledRoot(n, s);
      NextRoot(n, 2 * s)
  }

  /** `r + 1` when its square still fits under `n`, otherwise `r`. */
  function NextRoot(n: nat, r: nat): nat {
    if Square(r + 1) <= n then r + 1 else r
  }

  /** From the root `s` of `n / 4`, the root of `n` is `2 * s` or `2 * s + 1`. */
  lemma DoubledRoot(n: nat, s: nat)
    requires Square(s) <= n / 4 < Square(s + 1)
    ensures Square(NextRoot(n, 2 * s)) <= n < Square(NextRoot(n, 2 * s) + 1)
  {
    assert Square(2 * s) == 4 * Square(s);
    assert Square(2 * s + 2) == 4 * Square(s + 1);
    assert 4 * (n / 4) <= n <= 4 * (n / 4) + 3;
    var r := 2 * s;
    assert r + 1 + 1 == 2 * s + 2;
  }

  /** `isPerfectSquare(n)`: a negative `n` has no real root (`Math.sqrt` gives
      NaN, which never equals its floor); otherwise the root is whole exactly
      when its floor squared gives `n` back. */
  function IsPerfectSquare(n: int): (b: bool)
    ensures b <==> exists k: nat :: Square(k) == n
  {
    if n < 0 then false
    else
      var r := FloorSqrt(n);
      NoSquareBetween(n, r);
      Square(r) == n
  }

  /** When `r * r <= n < (r + 1) * (r + 1)`, a square equal to `n` can only be `r * r`. */
  lemma NoSquareBetween(n: nat, r: nat)
    requires Square(r) <= n < Square(r + 1)
    ensures (exists k: nat :: Square(k) == n) <==> Square(r) == n
  {
    if exists k: nat :: Square(k) == n {
      var k: nat :| Square(k) == n;
      if k < r + 1 {
        SquareMonotonic(k, r);
      } else {
        SquareMonotonic(r + 1, k);
      }
    }
  }

  /** `isPerfectSquare(16)` holds, `isPerfectSquare(15)` does not, and 1 is a square. */
  lemma IsPerfectSquareExamples()
    ensures IsPerfectSquare(16)
    ensures !IsPerfectSquare(15)
    ensures IsPerfectSquare(1)
    ensures !IsPerfectSquare(6)
  {
    assert Square(4) == 16;
    assert Square(1) == 1;
    NoSquareBetween(15, 3);
    NoSquareBetween(6, 2);
  }
}
