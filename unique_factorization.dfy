/** The map `primeFactorization` returns is the only one it could be: a map
    from primes to positive exponents is determined by its product. So the
    contract of `Factorization.PrimeFactorization` fixes its result. */
module UniqueFactorization {
  import opened Outcomes
  import opened Divisibility
  import opened Factorization

  /** Two different primes do not divide each other. */
  lemma DistinctPrimes(p: nat, q: nat)
    requires IsPrime(p) && IsPrime(q) && p != q
    ensures !Divides(p, q)
  {
    if q < p {
      assert q % p == q;
    }
  }

  /** `Pow(p, e + k)` splits into `Pow(p, e) * Pow(p, k)`. */
  lemma {:induction false} PowAdd(p: nat, e: nat, k: nat)
    ensures Pow(p, e + k) == Pow(p, e) * Pow(p, k)
    decreases k
  {
    if k > 0 {
      PowAdd(p, e, k - 1);
      assert Pow(p, e + k) == p * Pow(p, e + (k - 1));
      MulLeftCommutes(p, Pow(p, e), Pow(p, k - 1));
    }
  }

  /** A smaller power of `p` divides a larger one. */
  lemma PowDividesPow(p: nat, e: nat, f: nat)
    requires e <= f
    ensures Divides(Pow(p, e), Pow(p, f))
  {
    PowAdd(p, e, f - e);
    MultipleIsDivisible(Pow(p, e), Pow(p, f - e));
  }

  /** A prime other than `q` divides no power of `q`. */
  lemma {:induction false} PrimeNotDividingOtherPower(p: nat, q: nat, e: nat)
    requires IsPrime(p) && IsPrime(q) && p != q
    ensures !Divides(p, Pow(q, e))
  {
    if e == 0 {
      NothingAboveOneDividesOne(p);
    } else {
      PrimeNotDividingOtherPower(p, q, e - 1);
      DistinctPrimes(p, q);
      if Divides(p, Pow(q, e)) {
        Euclid(p, q, Pow(q, e - 1));
        assert false;
      }
    }
  }

  /** A prime that is not a key of a factor map does not divide its product. */
  lemma {:induction false} PrimeNotDividingProduct(p: nat, m: map<nat, nat>)
    requires IsPrime(p) && IsFactorMap(m) && p !in m
    ensures !Divides(p, Product(m))
    decreases |m|
  {
    if m == map[] {
      NothingAboveOneDividesOne(p);
    } else {
      var q :| q in m;
      ProductRemove(m, q);
      assert |m - {q}| < |m| by { assert (m - {q}).Keys == m.Keys - {q}; }
      PrimeNotDividingProduct(p, m - {q});
      PrimeNotDividingOtherPower(p, q, m[q]);
      if Divides(p, Product(m)) {
        Euclid(p, Pow(q, m[q]), Product(m - {q}));
        assert false;
      }
    }
  }

  /** The exponent of a key is exact: `p^e` divides the product and `p^(e+1)` does not. */
  lemma ExactPower(m: map<nat, nat>, p: nat)
    requires IsFactorMap(m) && p in m
    ensures Divides(Pow(p, m[p]), Product(m))
    ensures !Divides(Pow(p, m[p] + 1), Product(m))
  {
    ProductRemove(m, p);
    var c, rest := Pow(p, m[p]), Product(m - {p});
    MultipleIsDivisible(c, rest);
    PrimeNotDividingProduct(p, m - {p});
    assert Pow(p, m[p] + 1) == c * p;
    if Divides(c * p, c * rest) {
      CancelFactor(c, p, rest);
      assert false;
    }
  }

  /** A key of one factor map is a key of any other with the same product,
      with the same exponent. */
  lemma SameEntry(m1: map<nat, nat>, m2: map<nat, nat>, p: nat)
    requires IsFactorMap(m1) && IsFactorMap(m2) && Product(m1) == Product(m2)
    requires p in m1
    ensures p in m2 && m2[p] == m1[p]
  {
    FactorDividesProduct(m1, p);
    if p !in m2 {
      PrimeNotDividingProduct(p, m2);
      assert false;
    }
    var n := Product(m1);
    ExactPower(m1, p);
    ExactPower(m2, p);
    if m1[p] < m2[p] {
      PowDividesPow(p, m1[p] + 1, m2[p]);
      DividesTransitive(Pow(p, m1[p] + 1), Pow(p, m2[p]), n);
      assert false;
    }
    if m2[p] < m1[p] {
      PowDividesPow(p, m2[p] + 1, m1[p]);
      DividesTransitive(Pow(p, m2[p] + 1), Pow(p, m1[p]), n);
      assert false;
    }
  }

  /** Two factor maps with the same product are the same map. */
  lemma FactorMapUnique(m1: map<nat, nat>, m2: map<nat, nat>)
    requires IsFactorMap(m1) && IsFactorMap(m2) && Product(m1) == Product(m2)
    ensures m1 == m2
  {
    forall p | p in m1 ensures p in m2 && m2[p] == m1[p] {
      SameEntry(m1, m2, p);
    }
    forall p | p in m2 ensures p in m1 {
      SameEntry(m2, m1, p);
    }
    assert m1.Keys == m2.Keys;
  }

  /** The only factor map of 6 is `{2: 1, 3: 1}`. */
  lemma FactorMapOfSix(m: map<nat, nat>)
    requires IsFactorMap(m) && Product(m) == 6
    ensures m == map[2 := 1, 3 := 1]
  {
    var six: map<nat, nat> := map[2 := 1, 3 := 1];
    assert IsPrime(2) && IsPrime(3);
    assert IsFactorMap(six);
    ProductRemove(six, 2);
    assert six - {2} == map[3 := 1];
    ProductRemove(map[3 := 1], 3);
    assert map[3 := 1] - {3} == map[];
    assert Product(six) == 6;
    FactorMapUnique(m, six);
  }

  /** Entering 6 on the page: the factorisation is `{2: 1, 3: 1}` and the
      number rebuilt from it is 6. */
  method FactorizeSix() returns (factors: Result<map<nat, nat>>, lcm: nat)
    ensures factors == Success(map[2 := 1, 3 := 1])
    ensures lcm == 6
  {
    ghost var history;
    factors, history := PrimeFactorization(6);
    FactorMapOfSix(factors.value);
    lcm := CalculateLCM(factors.value);
  }
}
