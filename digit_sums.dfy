/** `sumOfDigits` of operations.js: convert the number to its decimal text,
    split it into characters and add up `parseInt` of each, left to right. */
module DigitSums {

  predicate IsDigit(c: char) {
    '0' <= c <= '9'
  }

  predicate AllDigits(s: string) {
    forall i :: 0 <= i < |s| ==> IsDigit(s[i])
  }

  /** The character of a decimal digit `d < 10`. */
  function DigitChar(d: nat): (c: char)
    requires d < 10
    ensures IsDigit(c)
  {
    ('0' as int + d) as char
  }

  /** `parseInt(c, 10)` of a single decimal digit character. */
  function ParseDigit(c: char): (d: nat)
    requires IsDigit(c)
    ensures d < 10 && DigitChar(d) == c
  {
    c as int - '0' as int
  }

  /** `String(n)` for a non-negative integer `n`: its decimal digits, most
      significant first, with no leading zero. */
  function DecimalString(n: nat): (s: string)
    ensures 1 <= |s| && AllDigits(s)
    ensures 1 < |s| ==> s[0] != '0'
  {
    if n < 10 then [DigitChar(n)] else DecimalString(n / 10) + [DigitChar(n % 10)]
  }

  /** Reads decimal text back into a number, most significant digit first. */
  function ParseDecimal(s: string): nat
    requires AllDigits(s)
  {
    if s == [] then 0 else 10 * ParseDecimal(s[..|s| - 1]) + ParseDigit(s[|s| - 1])
  }

  /** The decimal text of `n` reads back as `n`. */
  lemma {:induction false} DecimalStringRoundTrip(n: nat)
    ensures ParseDecimal(DecimalString(n)) == n
  {
    var s := DecimalString(n);
    if n < 10 {
      assert s[..0] == [];
    } else {
      DecimalStringRoundTrip(n / 10);
      assert s[..|s| - 1] == DecimalString(n / 10);
    }
  }

  /** `s.split("").reduce((sum, digit) => sum + parseInt(digit, 10), acc)`. */
  function ReduceDigits(s: string, acc: int): (r: int)
    requires AllDigits(s)
    ensures acc <= r <= acc + 9 * |s|
  {
    if s == [] then acc else ReduceDigits(s[1..], acc + ParseDigit(s[0]))
  }

  /** `sumOfDigits(n)` for a non-negative integer `n`: the arithmetic digit
      sum, which is at most `n` and leaves the same remainder modulo 9. */
  function SumOfDigits(n: nat): (r: nat)
    ensures r == DigitSum(n)
    ensures r <= n && r % 9 == n % 9
  {
    DecimalFoldIsDigitSum(n);
    DigitSumAtMost(n);
    DigitSumModNine(n);
    ReduceDigits(DecimalString(n), 0)
  }

  /** The digit sum by arithmetic: the last digit plus the digit sum of the rest. */
  function DigitSum(n: nat): nat {
    if n == 0 then 0 else n % 10 + DigitSum(n / 10)
  }

  /** Folding one more character onto the end adds its digit value. */
  lemma {:induction false} ReduceDigitsAppend(s: string, c: char, acc: int)
    requires AllDigits(s) && IsDigit(c)
    ensures ReduceDigits(s + [c], acc) == ReduceDigits(s, acc) + ParseDigit(c)
    decreases |s|
  {
    if s == [] {
      assert ReduceDigits([c], acc) == ReduceDigits([], acc + ParseDigit(c));
    } else {
      assert (s + [c])[1..] == s[1..] + [c];
      ReduceDigitsAppend(s[1..], c, acc + ParseDigit(s[0]));
    }
  }

  /** The fold over the decimal text computes the arithmetic digit sum. */
  lemma {:induction false} DecimalFoldIsDigitSum(n: nat)
    ensures ReduceDigits(DecimalString(n), 0) == DigitSum(n)
  {
    if n < 10 {
      assert ReduceDigits([DigitChar(n)], 0) == ReduceDigits([], ParseDigit(DigitChar(n)));
      if n != 0 {
        assert DigitSum(n) == n % 10 + DigitSum(n / 10);
      }
    } else {
      DecimalFoldIsDigitSum(n / 10);
      ReduceDigitsAppend(DecimalString(n / 10), DigitChar(n % 10), 0);
    }
  }

  /** The digit sum is never larger than the number. */
  lemma {:induction false} DigitSumAtMost(n: nat)
    ensures DigitSum(n) <= n
  {
    if n != 0 {
      DigitSumAtMost(n / 10);
    }
  }

  /** Casting out nines: the digit sum leaves the same remainder modulo 9 as the number. */
  lemma {:induction false} DigitSumModNine(n: nat)
    ensures DigitSum(n) % 9 == n % 9
  {
    if n != 0 {
      var q, d := n / 10, n % 10;
      DigitSumModNine(q);
      assert DigitSum(n) == DigitSum(q) + d;
      SameRemainderAfterAdding(DigitSum(q), q, d);
      assert n == 9 * q + (q + d);
      MultipleOfNineAdded(q, q + d);
    }
  }

  lemma SameRemainderAfterAdding(x: int, y: int, d: int)
    requires x % 9 == y % 9
    ensures (x + d) % 9 == (y + d) % 9
  {
  }

  lemma MultipleOfNineAdded(q: int, x: int)
    ensures (9 * q + x) % 9 == x % 9
  {
  }

  /** `sumOfDigits(0) = 0` and `sumOfDigits(12345) = 15`. */
  lemma SumOfDigitsExamples()
    ensures SumOfDigits(0) == 0
    ensures SumOfDigits(12345) == 15
  {
    assert DigitSum(0) == 0;
    assert DigitSum(1) == 1 + DigitSum(0);
    assert DigitSum(12) == 2 + DigitSum(1);
    assert DigitSum(123) == 3 + DigitSum(12);
    assert DigitSum(1234) == 4 + DigitSum(123);
    assert DigitSum(12345) == 5 + DigitSum(1234);
  }
}
