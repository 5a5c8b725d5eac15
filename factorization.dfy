/** `primeFactorization` and `calculateLCM` of operations.js: trial division into
    a map from prime to exponent, and the product that rebuilds a number from
    such a map. JavaScript numbers are modelled as unbounded integers. */
module Factorization {
  import opened Outcomes
  import opened Divisibility

  /** `b` raised to the power `e`, the exact value of `Math.pow(b, e)`. */
  function Pow(b: nat, e: nat): (r: nat)
    ensures 1 <= b ==> 1 <= r
    ensures 2 <= b && 1 <= e ==> b <= r
  {
    if e == 0 then 1 else b * Pow(b, e - 1)
  }

  /** A factor map: every key is a prime and every exponent is at least 1. */
  predicate IsFactorMap(m: map<nat, nat>) {
    forall p :: p in m ==> IsPrime(p) && 1 <= m[p]
  }

  /** The product of `p^e` over all entries `p := e` of `m`; 1 for the empty map. */
  ghost function Product(m: map<nat, nat>): nat
    decreases |m|
  {
    if m == map[] then 1
    else
      var p :| p in m;
      assert |m - {p}| < |m| by { assert (m - {p}).Keys == m.Keys - {p}; }
      Pow(p, m[p]) * Product(m - {p})
  }

  lemma MulLeftCommutes(a: int, b: int, x: int)
    ensures a * (b * x) == b * (a * x)
  {
  }

  /** The product does not depend on the order the entries are taken in:
      any entry can be split off first. */
  lemma {:induction false} ProductRemove(m: map<nat, nat>, p: nat)
    requires p in m
    ensures Product(m) == Pow(p, m[p]) * Product(m - {p})
    decreases |m|
  {
    assert |m - {p}| < |m| by { assert (m - {p}).Keys == m.Keys - {p}; }
    var q :| q in m && Product(m) == Pow(q, m[q]) * Product(m - {q});
    if q != p {
      assert |m - {q}| < |m| by { assert (m - {q}).Keys == m.Keys - {q}; }
      ProductRemove(m - {q}, p);
      ProductRemove(m - {p}, q);
      var a, b := Pow(q, m[q]), Pow(p, m[p]);
      var x := Product(m - {q} - {p});
      assert m - {q} - {p} == m - {p} - {q};
      assert Product(m - {q}) == b * x;
      assert Product(m - {p}) == a * x;
      MulLeftCommutes(a, b, x);
    }
  }

  lemma MulRegroup(a: int, b: int, c: int)
    ensures (a * b) * c == a * (b * c) == (b * c) * a
  {
  }

  /** `m` with the exponent of `d` raised by one, starting from 0 when `d` is
      absent: the update `factors[divisor] = (factors[divisor] || 0) + 1`. */
  function Increment(m: map<nat, nat>, d: nat): map<nat, nat> {
    m[d := (if d in m then m[d] else 0) + 1]
  }

  /** Raising the exponent of `p` by one (from 0 when `p` is absent)
      multiplies the product by `p`: the update `factors[divisor]` undergoes. */
  lemma ProductIncrement(m: map<nat, nat>, p: nat)
    ensures Product(Increment(m, p)) == Product(m) * p
  {
    var e := if p in m then m[p] else 0;
    var m' := Increment(m, p);
    assert p in m' && m'[p] == e + 1;
    ProductRemove(m', p);
    assert m' - {p} == m - {p};
    var y := Product(m - {p});
    if p in m {
      ProductRemove(m, p);
    } else {
      assert m - {p} == m;
    }
    assert Product(m) == Pow(p, e) * y;
    assert Product(m') == (p * Pow(p, e)) * y;
    MulRegroup(p, Pow(p, e), y);
  }

  lemma AtLeastTwoTimesPositive(a: int, b: int)
    requires 2 <= a && 1 <= b
    ensures 2 <= a * b
  {
  }

  /** A factor map multiplies to at least 1, and to 1 only when it is empty. */
  lemma {:induction false} FactorMapProduct(m: map<nat, nat>)
    requires IsFactorMap(m)
    ensures 1 <= Product(m)
    ensures Product(m) == 1 <==> m == map[]
    decreases |m|
  {
    if m != map[] {
      var p :| p in m;
      ProductRemove(m, p);
      assert |m - {p}| < |m| by { assert (m - {p}).Keys == m.Keys - {p}; }
      FactorMapProduct(m - {p});
      AtLeastTwoTimesPositive(Pow(p, m[p]), Product(m - {p}));
    }
  }

  /** Every key with a positive exponent divides the product. */
  lemma FactorDividesProduct(m: map<nat, nat>, p: nat)
    requires p in m && 1 <= m[p]
    ensures Divides(p, Product(m))
  {
    ProductRemove(m, p);
    var a, y := Pow(p, m[p] - 1), Product(m - {p});
    assert Product(m) == (p * a) * y;
    MulRegroup(p, a, y);
    MultipleIsDivisible(p, a * y);
  }

  /** `m'` is `m` with the exponent of some `d` raised, where `d` is no smaller
      than any key `m` already has. */
  ghost predicate IsAscendingStep(m: map<nat, nat>, m': map<nat, nat>) {
    exists d: nat :: (forall k :: k in m ==> k <= d) && m' == Increment(m, d)
  }

  /** The successive states of a factor map under trial division: it starts
      empty and every update is an ascending step, so keys are first inserted
      in increasing order. */
  ghost predicate AscendingUpdates(history: seq<map<nat, nat>>) {
    1 <= |history| && history[0] == map[] &&
    forall i :: 0 <= i < |history| - 1 ==> IsAscendingStep(history[i], history[i + 1])
  }

  /** Raising the exponent of a divisor no smaller than any present key extends
      a run of ascending updates. */
  lemma ExtendAscending(history: seq<map<nat, nat>>, last: map<nat, nat>, d: nat)
    requires AscendingUpdates(history) && history[|history| - 1] == last
    requires forall k :: k in last ==> k <= d
    ensures AscendingUpdates(history + [Increment(last, d)])
  {
    var extended := history + [Increment(last, d)];
    forall i | 0 <= i < |extended| - 1 ensures IsAscendingStep(extended[i], extended[i + 1]) {
      if i < |history| - 1 {
        assert extended[i] == history[i] && extended[i + 1] == history[i + 1];
      } else {
        assert extended[i] == last && extended[i + 1] == Increment(last, d);
      }
    }
  }

  /** The first number from 2 up that goes into `remaining` is prime: any
      smaller divisor of it would go into `remaining` too. */
  lemma FirstDivisorIsPrime(remaining: nat, divisor: nat)
    requires 2 <= divisor && Divides(divisor, remaining)
    requires forall k :: 2 <= k < divisor ==> !Divides(k, remaining)
    ensures IsPrime(divisor)
  {
    forall k | 2 <= k < divisor ensures !Divides(k, divisor) {
      if Divides(k, divisor) {
        DividesTransitive(k, divisor, remaining);
      }
    }
  }

  /** One pass of the inner trial-division loop: moving one factor `divisor`
      from `remaining` into `factors` keeps the product equal to `n` and keeps
      the numbers below `divisor` from dividing what remains. */
  lemma DivideOutOnce(factors: map<nat, nat>, remaining: nat, divisor: nat, n: int)
    requires 2 <= divisor && 1 <= remaining && Divides(divisor, remaining)
    requires Product(factors) * remaining == n
    requires forall k :: 2 <= k < divisor ==> !Divides(k, remaining)
    ensures 1 <= remaining / divisor < remaining
    ensures Product(Increment(factors, divisor))
              * (remaining / divisor) == n
    ensures forall k :: 2 <= k < divisor ==> !Divides(k, remaining / divisor)
  {
    var quotient := remaining / divisor;
    QuotientTimesDivisor(divisor, remaining);
    QuotientShrinks(divisor, remaining);
    ProductIncrement(factors, divisor);
    MulRegroup(Product(factors), divisor, quotient);
    forall k | 2 <= k < divisor ensures !Divides(k, quotient) {
      if Divides(k, quotient) {
        DividesMultiple(k, quotient, divisor);
      }
    }
  }

  /** Once `divisor` no longer goes into `remaining`, no number from 2 up to
      `divisor` does; a `remaining` above 1 is then larger than `divisor`,
      since it divides itself. */
  lemma NextDivisor(remaining: nat, divisor: nat)
    requires 2 <= divisor && 1 <= remaining && remaining % divisor != 0
    requires forall k :: 2 <= k < divisor ==> !Divides(k, remaining)
    ensures forall k :: 2 <= k < divisor + 1 ==> !Divides(k, remaining)
    ensures 1 < remaining ==> divisor + 1 <= remaining
  {
    if 1 < remaining && remaining < divisor + 1 {
      assert Divides(remaining, remaining);
    }
  }

  /** Trial division: divide out 2, 3, 4, ... in turn, counting how often each
      divisor goes into the remaining value, until the remaining value is 1.
      `history` records every state `factors` passes through. */
  method PrimeFactorization(n: int) returns (r: Result<map<nat, nat>>, ghost history: seq<map<nat, nat>>)
    ensures r.Failure? <==> n < 1
    ensures r.Failure? ==> r.error == NotPositiveInteger
    ensures r.Success? ==> IsFactorMap(r.value) && Product(r.value) == n
    ensures r.Success? ==> AscendingUpdates(history) && history[|history| - 1] == r.value
    ensures n == 1 ==> r == Success(map[])
  {
    if n < 1 {
      return Failure(NotPositiveInteger), [];
    }
    var factors: map<nat, nat> := map[];
    var remaining: nat := n;
    var divisor: nat := 2;
    history := [map[]];
    while remaining > 1
      invariant 2 <= divisor
      invariant 1 <= remaining
      invariant 1 < remaining ==> divisor <= remaining
      invariant Product(factors) * remaining == n
      invariant IsFactorMap(factors)
      invariant forall k :: 2 <= k < divisor ==> !Divides(k, remaining)
      invariant AscendingUpdates(history) && history[|history| - 1] == factors
      invariant forall k :: k in factors ==> k <= divisor
      decreases remaining - divisor
    {
      while remaining % divisor == 0
        invariant 1 <= remaining
        invariant Product(factors) * remaining == n
        invariant IsFactorMap(factors)
        invariant forall k :: 2 <= k < divisor ==> !Divides(k, remaining)
        invariant AscendingUpdates(history) && history[|history| - 1] == factors
        invariant forall k :: k in factors ==> k <= divisor
        decreases remaining
      {
        FirstDivisorIsPrime(remaining, divisor);
        DivideOutOnce(factors, remaining, divisor, n);
        ExtendAscending(history, factors, divisor);
        factors := Increment(factors, divisor);
        history := history + [factors];
        var quotient := remaining / divisor;
        remaining := quotient;
      }
      NextDivisor(remaining, divisor);
      divisor := divisor + 1;
    }
    FactorMapProduct(factors);
    return Success(factors), history;
  }

  /** `p` is the least element of `s`. */
  predicate IsLeast(p: nat, s: set<nat>) {
    p in s && forall q :: q in s ==> p <= q
  }

  /** Every non-empty set of naturals has a least element. */
  lemma {:induction false} LeastExists(s: set<nat>)
    requires s != {}
    ensures exists p :: IsLeast(p, s)
    decreases |s|
  {
    var x :| x in s;
    if s == {x} {
      assert IsLeast(x, s);
    } else {
      LeastExists(s - {x});
      var y :| IsLeast(y, s - {x});
      var least := if x < y then x else y;
      forall q | q in s ensures least <= q {
        if q != x {
          assert q in s - {x};
        }
      }
      assert IsLeast(least, s);
    }
  }

  /** Moving the entry of `p` out of `pending` and into the accumulated
      product `acc` leaves `acc * Product(pending)` unchanged. */
  lemma AccumulateEntry(acc: nat, pending: map<nat, nat>, p: nat)
    requires p in pending
    ensures (acc * Pow(p, pending[p])) * Product(pending - {p}) == acc * Product(pending)
  {
    ProductRemove(pending, p);
    MulRegroup(acc, Pow(p, pending[p]), Product(pending - {p}));
  }

  /** Multiply `p^e` over the entries of `factors`. A JavaScript `for ... in`
      loop visits integer keys in increasing order; so does this one. */
  method CalculateLCM(factors: map<nat, nat>) returns (lcm: nat)
    ensures lcm == Product(factors)
  {
    lcm := 1;
    var pending := factors;
    while pending != map[]
      invariant lcm * Product(pending) == Product(factors)
      decreases pending
    {
      LeastExists(pending.Keys);
      var prime :| IsLeast(prime, pending.Keys);
      AccumulateEntry(lcm, pending, prime);
      lcm := lcm * Pow(prime, pending[prime]);
      pending := pending - {prime};
    }
    assert Product(pending) == 1;
  }

  /** The page computes `calculateLCM(primeFactorization(n))`: for every
      integer `n >= 1` that gives back `n` itself, and `n < 1` is rejected. */
  method FactorizeThenMultiply(n: int) returns (r: Result<nat>)
    ensures r.Failure? <==> n < 1
    ensures r.Failure? ==> r.error == NotPositiveInteger
    ensures r.Success? ==> r.value == n
  {
    var factors, _ := PrimeFactorization(n);
    match factors
    case Failure(e) =>
      r := Failure(e);
    case Success(m) =>
      var lcm := CalculateLCM(m);
      r := Success(lcm);
  }
}
