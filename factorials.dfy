/** `factorial` of operations.js, on exact integers. */
module Factorials {
  import opened Outcomes
  import opened Divisibility

  /** `factorial(n)`: a negative `n` is rejected; otherwise `0! = 1` and
      `n! = n * (n - 1)!` (the inner call cannot fail, as `n - 1 >= 0`). */
  function Factorial(n: int): (r: Result<nat>)
    ensures r.Failure? <==> n < 0
    ensures r.Failure? ==> r.error == NegativeFactorial
    ensures r.Success? ==> 1 <= r.value && n <= r.value
    decreases if n < 0 then 0 else n
  {
    if n < 0 then Failure(NegativeFactorial)
    else if n == 0 then Success(1)
    else Success(n * Factorial(n - 1).value)
  }

  /** The product `lo * (lo + 1) * ... * hi`, built from the low end; 1 when `lo > hi`. */
  function RangeProduct(lo: int, hi: int): int
    decreases hi - lo
  {
    if lo > hi then 1 else lo * RangeProduct(lo + 1, hi)
  }

  /** A range product splits off its top factor. */
  lemma {:induction false} RangeProductTop(lo: int, hi: int)
    requires lo <= hi
    ensures RangeProduct(lo, hi) == RangeProduct(lo, hi - 1) * hi
    decreases hi - lo
  {
    if lo < hi {
      RangeProductTop(lo + 1, hi);
      calc {
        RangeProduct(lo, hi);
        lo * RangeProduct(lo + 1, hi);
        lo * (RangeProduct(lo + 1, hi - 1) * hi);
        (lo * RangeProduct(lo + 1, hi - 1)) * hi;
        RangeProduct(lo, hi - 1) * hi;
      }
    }
  }

  /** For `n >= 0`, `factorial(n)` is the product `1 * 2 * ... * n`. */
  lemma {:induction false} FactorialIsRangeProduct(n: int)
    requires 0 <= n
    ensures Factorial(n) == Success(RangeProduct(1, n))
  {
    if n > 0 {
      FactorialIsRangeProduct(n - 1);
      RangeProductTop(1, n);
      var below := RangeProduct(1, n - 1);
      assert Factorial(n).value == n * below;
      assert RangeProduct(1, n) == below * n;
    }
  }

  /** Every `k` from 1 to `n` divides `factorial(n)`. */
  lemma {:induction false} FactorialDivisibleBelow(n: int, k: int)
    requires 1 <= k <= n
    ensures Divides(k, Factorial(n).value)
  {
    var f := Factorial(n - 1).value;
    assert Factorial(n).value == n * f;
    if k == n {
      MultipleIsDivisible(n, f);
    } else {
      FactorialDivisibleBelow(n - 1, k);
      DividesMultiple(k, f, n);
      assert f * n == n * f;
    }
  }

  /** `0! = 1`, `5! = 120`, `6! = 720`, and a negative argument is rejected. */
  lemma FactorialExamples()
    ensures Factorial(0) == Success(1)
    ensures Factorial(5) == Success(120)
    ensures Factorial(6) == Success(720)
    ensures Factorial(-1) == Failure(NegativeFactorial)
  {
    assert Factorial(1) == Success(1);
    assert Factorial(2) == Success(2);
    assert Factorial(3) == Success(6);
    assert Factorial(4) == Success(24);
    assert Factorial(5) == Success(120);
  }
}
