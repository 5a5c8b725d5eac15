# MathMate number routines in Dafny

MathMate is a single web page: the user types a positive integer, presses
"calculate", and the page shows its prime factorisation, the number rebuilt
from that factorisation (labelled "LCM"), its factorial, its digit sum and
whether it is a perfect square. This project models the integer routines
behind those results, all in `operations.js`, and proves what they compute:

- `primeFactorization` (trial division into a map from prime to exponent) and
  `calculateLCM` (the product of `p^e` over such a map) are imperative in the
  source: a dictionary and two counters updated in nested `while` loops, and an
  accumulator updated in a `for ... in` loop. They are modelled as methods with
  loop invariants over a `map<nat, nat>` (`factorization.dfy`).
- `factorial` and `gcd` are recursive definitions, `sumOfDigits` is a
  split/reduce expression over the decimal text, and `isPerfectSquare` is a
  single comparison. They are modelled as functions, with lemmas about them
  (`factorials.dfy`, `gcds.dfy`, `digit_sums.dfy`, `squares.dfy`).
- `outcomes.dfy` turns each `throw new Error(...)` into a `Failure` value with
  the source's message. `divisibility.dfy` holds divisibility, primality and
  Euclid's lemma, which the factorisation and the gcd use.
  `unique_factorization.dfy` proves that the factor map is unique.

JavaScript numbers are modelled as unbounded integers (`int`, `nat`), and only
integer inputs are modelled. The source works with 64-bit floating point, so it
is exact only up to 2^53. The model describes what the routines compute when no
precision is lost.

Two points about the code itself:

- `sumOfDigits` of a negative `n` is `NaN`, because `parseInt("-", 10)` is
  `NaN`. Only non-negative `n` is modelled.
- `calculateLCM`, despite its name, only multiplies the entries of one factor
  map back together. The model states exactly that.

## Model

| member | source | states |
|---|---|---|
| `Outcomes.Error.Message` | operations.js:8 | The text of each thrown error: "Input must be a positive integer." here, and "Factorial is not defined for negative numbers." at operations.js:47. |
| `Outcomes.MessageIdentifiesError` | operations.js:47 | The two messages are equal only for the same error, so the message of a caught error tells which check rejected the input. |
| `Factorization.PrimeFactorization` | operations.js:6-23 | Fails with "Input must be a positive integer." exactly when `n < 1`. Otherwise every key of the returned map is a prime, every exponent is at least 1, and the product of `p^e` over the map is `n`. The ghost `history` of every state `factors` passes through starts at the empty map and ends at the result. Each step raises the exponent of a divisor no smaller than any key already present. `n = 1` gives the empty map. |
| `Factorization.ExtendAscending` | operations.js:14-19 | Raising the exponent of a divisor that is at least every present key extends a run of ascending updates. The divisor only grows, which is why keys are first inserted in increasing order. |
| `Factorization.FirstDivisorIsPrime` | operations.js:14-16 | A divisor that goes into the remaining value, when no number from 2 up to it does, is prime. So only primes become keys. |
| `Factorization.DivideOutOnce` | operations.js:15-18 | One pass of the inner loop keeps `product(factors) * remaining == n`. The remaining value strictly decreases and stays at least 1. Numbers below the divisor still do not divide it. |
| `Factorization.NextDivisor` | operations.js:19 | After `divisor++`, no number from 2 up to the old divisor divides the remaining value. A remaining value above 1 is at least the new divisor, which is why the outer loop terminates. |
| `Factorization.Increment` | operations.js:16 | The update `factors[divisor] = (factors[divisor] \|\| 0) + 1`: it raises the exponent of `d` by one, starting from 0 when `d` is absent. `ProductIncrement` proves that it multiplies the product of the map by `d`. `ExtendAscending` proves that the step is ascending when `d` is at least every key. |
| `Factorization.ProductIncrement` | operations.js:16 | Raising the exponent of `p` by one, starting from 0 when `p` is absent, multiplies the product of the map by `p`. |
| `Factorization.Pow` | operations.js:34 | `Math.pow(p, e)` on exact integers. It is at least 1 for a base of at least 1, and at least `p` for a base of at least 2 and `e >= 1`. |
| `Factorization.ProductRemove` | operations.js:33-35 | The product over a map does not depend on the order its entries are visited in. Any entry can be multiplied in first. |
| `Factorization.LeastExists` | operations.js:33 | A non-empty set of keys has a least element. This is the key a `for ... in` loop over integer keys visits next. |
| `Factorization.AccumulateEntry` | operations.js:34 | Multiplying one entry's `p^e` into the accumulator and removing the entry keeps `accumulator * product(pending)` unchanged. |
| `Factorization.CalculateLCM` | operations.js:30-38 | Starting from 1 and visiting the keys in increasing order, the result is the product of `p^e` over the whole map. The empty map gives 1. |
| `Factorization.FactorMapProduct` | operations.js:31-35 | A map of primes with positive exponents multiplies to at least 1, and to exactly 1 only when the map is empty. |
| `Factorization.FactorDividesProduct` | operations.js:33-35 | Every key with a positive exponent divides the product of the map. |
| `Factorization.FactorizeThenMultiply` | operations.js:144-145 | `calculateLCM(primeFactorization(n))` is `n` for every integer `n >= 1`. It fails with the factorisation's error exactly when `n < 1`. |
| `UniqueFactorization.PrimeNotDividingProduct` | operations.js:14-20 | A prime that is not a key of a factor map does not divide its product. So the keys of the returned map are exactly the primes dividing `n`. |
| `UniqueFactorization.ExactPower` | operations.js:15-18 | The exponent of each key is exact: `p^e` divides the product of the map and `p^(e+1)` does not. |
| `UniqueFactorization.FactorMapUnique` | operations.js:6-23 | Two maps of primes to positive exponents with the same product are equal. So the map `primeFactorization(n)` returns is the unique prime factorisation of `n`. |
| `UniqueFactorization.FactorMapOfSix` | operations.js:6-23 | The only map of primes to positive exponents whose product is 6 is `{2: 1, 3: 1}`. |
| `UniqueFactorization.FactorizeSix` | operations.js:144-145 | For input 6, `primeFactorization` returns `{2: 1, 3: 1}` and `calculateLCM` of it returns 6. |
| `Factorials.Factorial` | operations.js:45-50 | Fails with "Factorial is not defined for negative numbers." exactly when `n < 0`. Otherwise the result is at least 1 and at least `n`. |
| `Factorials.FactorialIsRangeProduct` | operations.js:49 | For `n >= 0`, `n * (n-1)!` computed from the top equals the product `1 * 2 * ... * n` built from the bottom. |
| `Factorials.RangeProductTop` | operations.js:49 | The product `lo * ... * hi` is the product `lo * ... * (hi - 1)` times `hi`. This is the step that links it to the recursion of `factorial`. |
| `Factorials.FactorialDivisibleBelow` | operations.js:45-50 | Every `k` with `1 <= k <= n` divides `n!`. |
| `Factorials.FactorialExamples` | operations.js:45-50 | `0! = 1`, `5! = 120` and `6! = 720`. `factorial(-1)` fails. |
| `Gcds.JsRemainder` | operations.js:108 | JavaScript's `a % b`: smaller than `b` in magnitude, with the sign of `a`, and `a` minus it is a multiple of `b`. |
| `Gcds.TruncatedRemainder` | operations.js:108 | Both sign cases of the truncated remainder are below the divisor in magnitude and differ from the dividend by a multiple of the divisor. |
| `Gcds.Gcd` | operations.js:104-109 | Euclid's recursion on JavaScript's `%` terminates for all integers, since the remainder shrinks in magnitude. The result is non-negative when both arguments are. |
| `Gcds.GcdDividesBoth` | operations.js:104-109 | The result divides both arguments, for all integers, including zero and negative ones. |
| `Gcds.GcdGreatest` | operations.js:104-109 | Every common divisor of the arguments divides the result. |
| `Gcds.GcdIsGreatestCommonDivisor` | operations.js:104-109 | For non-negative arguments that are not both zero, the result is positive and at least any positive common divisor. So it is the greatest common divisor. |
| `Gcds.GcdExamples` | operations.js:104-109 | `gcd(48, 18) = 6` and `gcd(7, 0) = 7`. With JavaScript's signed `%`, `gcd(-4, 6) = 2`, and `gcd(-4, 0) = -4` keeps the sign. |
| `DigitSums.DecimalString` | operations.js:117 | `String(n)` of a non-negative integer is non-empty, all decimal digits, with no leading zero. |
| `DigitSums.DecimalStringRoundTrip` | operations.js:117 | Reading the decimal text of `n` back as a number gives `n`. |
| `DigitSums.ParseDigit` | operations.js:119 | `parseInt(c, 10)` of a digit character is a value below 10 whose digit character is `c`. |
| `DigitSums.ReduceDigits` | operations.js:118-119 | `.split("").reduce((sum, digit) => sum + parseInt(digit, 10), acc)`: the result is at least `acc` and at most `acc` plus 9 per character. |
| `DigitSums.ReduceDigitsAppend` | operations.js:118-119 | The left-to-right `reduce` over one more trailing character adds that character's digit value. |
| `DigitSums.SumOfDigits` | operations.js:116-120 | `sumOfDigits(n)` for `n >= 0` equals the arithmetic digit sum. It is at most `n` and leaves the same remainder modulo 9 as `n`. |
| `DigitSums.DecimalFoldIsDigitSum` | operations.js:117-119 | The left fold of `parseInt` over the characters of `String(n)` equals the arithmetic digit sum, the last digit plus the digit sum of `n / 10`. |
| `DigitSums.DigitSumAtMost` | operations.js:116-120 | The digit sum of `n` is at most `n`. |
| `DigitSums.DigitSumModNine` | operations.js:116-120 | The digit sum of `n` leaves the same remainder modulo 9 as `n`. |
| `DigitSums.SumOfDigitsExamples` | operations.js:116-120 | `sumOfDigits(0) = 0` and `sumOfDigits(12345) = 15`. |
| `Squares.FloorSqrt` | operations.js:128-129 | `Math.floor(Math.sqrt(n))` on exact arithmetic: the `r` with `r*r <= n < (r+1)*(r+1)`. |
| `Squares.DoubledRoot` | operations.js:128 | From the floor root `s` of `n / 4`, the floor root of `n` is `2s`, or `2s + 1` when its square still fits. |
| `Squares.IsPerfectSquare` | operations.js:127-130 | True exactly when some natural `k` has `k * k == n`. Negative `n` gives false, as `NaN` never equals its floor. |
| `Squares.NoSquareBetween` | operations.js:129 | Between `r*r` and `(r+1)*(r+1)` the only square is `r*r`. So comparing the root with its floor decides squareness. |
| `Squares.IsPerfectSquareExamples` | operations.js:127-130 | 16 and 1 are perfect squares. 15 and 6 are not. |

## Left out

- The click handler and DOM wiring (operations.js:132-163) are not modelled. This includes input validation by `alert`, `JSON.stringify` rendering and writing results into the page. They are presentation, not computation.
- `displayFactorialResult` (operations.js:68-96) is not modelled. It chooses between plain and abbreviated output with `fact > threshold` and wires the show/hide toggle, both presentation.
- `formatToScientificNotation` (operations.js:57-61) is not modelled. It depends on floating-point `Math.log10`, `Math.pow` and `toFixed` rounding.
- Floating-point precision is not modelled. `factorial` exceeds 2^53 from 19 on, `Math.pow` in `calculateLCM` rounds, and `String(n)` switches to exponent notation from 10^21. The model is exact throughout.
- Non-integer inputs are not modelled. For `primeFactorization(2.5)` the outer loop never ends, and `factorial` of a fraction recurses past 0 to a negative value and throws. `sumOfDigits` of a negative, fractional or exponent-notation number is `NaN`.
- `Squares.IsPerfectSquare`: the source compares a floating-point `Math.sqrt` with its floor, which can misclassify large inputs. The model is the exact integer test that comparison stands for.
- `Factorization.CalculateLCM`: keys are naturals. In the source the keys are the object's property names, which `parseInt` reads back, and any other object is not modelled.
- Deep recursion in `factorial` and `gcd` can exhaust the JavaScript call stack. This is not modelled.
