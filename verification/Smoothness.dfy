/** The factor base and trial division over it (working.cpp, generatePrimes and factorize_Qx). */
module Smoothness {
  import opened NumberTheory

  // -1 followed by distinct primes.
  ghost predicate IsFactorBase(base: seq<int>) {
    && |base| >= 1 && base[0] == -1
    && (forall i :: 1 <= i < |base| ==> IsPrime(base[i]))
    && (forall i, j :: 1 <= i < j < |base| ==> base[i] != base[j])
  }

  // The product of base[i] raised to e[i], for i from lo up.
  ghost function Product(base: seq<int>, e: seq<nat>, lo: nat): int
    requires lo <= |base| == |e|
    decreases |base| - lo
  {
    if lo == |base| then 1 else Pow(base[lo], e[lo]) * Product(base, e, lo + 1)
  }

  // e writes Q over the base, with the sign as an exponent 0 or 1 of -1.
  ghost predicate Factors(base: seq<int>, e: seq<nat>, Q: int) {
    && |e| == |base| >= 1
    && e[0] <= 1
    && Product(base, e, 0) == Q
  }

  // ----- products of primes

  lemma {:induction false} ProductPositive(base: seq<int>, e: seq<nat>, lo: nat)
    requires IsFactorBase(base) && 1 <= lo <= |base| == |e|
    ensures Product(base, e, lo) > 0
    decreases |base| - lo
  {
    if lo < |base| {
      PowPositive(base[lo], e[lo]);
      ProductPositive(base, e, lo + 1);
      assert Pow(base[lo], e[lo]) * Product(base, e, lo + 1) > 0;
    }
  }

  lemma ProductNotZero(base: seq<int>, e: seq<nat>)
    requires IsFactorBase(base) && |e| == |base| && e[0] <= 1
    ensures Product(base, e, 0) != 0
  {
    ProductPositive(base, e, 1);
    assert Pow(-1, 0) == 1;
    assert Pow(-1, 1) == -1;
  }

  // A prime outside the rest of the base divides no product over it.
  lemma {:induction false} PrimeNotInProduct(base: seq<int>, e: seq<nat>, p: nat, lo: nat)
    requires IsFactorBase(base) && 1 <= lo <= |base| == |e|
    requires IsPrime(p) && forall i :: lo <= i < |base| ==> base[i] != p
    ensures !Divides(p, Product(base, e, lo))
    decreases |base| - lo
  {
    if lo < |base| {
      PowPositive(base[lo], e[lo]);
      ProductPositive(base, e, lo + 1);
      PrimeNotInProduct(base, e, p, lo + 1);
      if Divides(p, Product(base, e, lo)) {
        if Divides(p, Pow(base[lo], e[lo])) {
          PrimeDividesPower(p, base[lo], e[lo]);
        } else {
          EuclidsLemma(p, Pow(base[lo], e[lo]), Product(base, e, lo + 1));
        }
      }
    }
  }

  // The exponent of p in a number, and what remains, are unique.
  lemma {:induction false} ValuationUnique(p: nat, c: nat, q: int, f: nat, t: int)
    requires p >= 2 && !Divides(p, q) && !Divides(p, t)
    requires Pow(p, c) * q == Pow(p, f) * t
    ensures c == f && q == t
    decreases c
  {
    if c > 0 && f > 0 {
      PowStep(p, c, q);
      PowStep(p, f, t);
      CancelFactor(p, Pow(p, c - 1) * q, Pow(p, f - 1) * t);
      ValuationUnique(p, c - 1, q, f - 1, t);
    } else if c > 0 {
      PowStep(p, c, q);
      assert false;
    } else if f > 0 {
      PowStep(p, f, t);
      assert false;
    }
  }

  lemma PowStep(p: nat, c: nat, q: int)
    requires p > 0 && c > 0
    ensures Pow(p, c) * q == p * (Pow(p, c - 1) * q)
    ensures Divides(p, Pow(p, c) * q)
  {
    var r := Pow(p, c - 1);
    assert (p * r) * q == p * (r * q);
    MultipleDivides(p, r * q);
  }

  lemma CancelFactor(p: nat, a: int, b: int)
    requires p > 0 && p * a == p * b
    ensures a == b
  {
    MultipleDivides(p, a);
    MultipleDivides(p, b);
  }

  // ----- trial division

  // What the loop over the base knows at entry i: x holds the exponents found, q what is left of Q.
  ghost predicate Dividing(base: seq<int>, Q: int, x: seq<nat>, q: int, i: nat) {
    && 1 <= i <= |base| == |x| && x[0] <= 1 && q > 0
    && (forall k :: i <= k < |x| ==> x[k] == 0)
    && (forall e: seq<nat> {:trigger Factors(base, e, Q)} :: |e| == |base| && e[0] <= 1 ==>
          (Factors(base, e, Q) <==> (e[..i] == x[..i] && Product(base, e, i) == q)))
  }

  lemma DividingStart(base: seq<int>, Q: int, x: seq<nat>, q: int)
    requires IsFactorBase(base) && Q != 0 && |x| == |base|
    requires forall k :: 1 <= k < |x| ==> x[k] == 0
    requires x[0] == (if Q < 0 then 1 else 0) && q == (if Q < 0 then -Q else Q)
    ensures Dividing(base, Q, x, q, 1)
  {
    forall e: seq<nat> | |e| == |base| && e[0] <= 1
      ensures Factors(base, e, Q) <==> (e[..1] == x[..1] && Product(base, e, 1) == q)
    {
      ProductPositive(base, e, 1);
      assert Pow(-1, 0) == 1;
      assert Pow(-1, 1) == -1;
      assert Product(base, e, 0) == (if e[0] == 0 then Product(base, e, 1) else -Product(base, e, 1));
      assert e[..1] == [e[0]] && x[..1] == [x[0]];
    }
  }

  // Entry i is settled once what is left is no longer divisible by base[i].
  lemma DividingStep(base: seq<int>, Q: int, x: seq<nat>, q: int, i: nat, c: nat, q': int)
    requires IsFactorBase(base) && Dividing(base, Q, x, q, i) && i < |base|
    requires q == Pow(base[i], c) * q' && q' > 0 && !Divides(base[i], q')
    ensures Dividing(base, Q, x[i := c], q', i + 1)
  {
    var x' := x[i := c];
    forall e: seq<nat> | |e| == |base| && e[0] <= 1
      ensures Factors(base, e, Q) <==> (e[..i + 1] == x'[..i + 1] && Product(base, e, i + 1) == q')
    {
      PrimeNotInProduct(base, e, base[i], i + 1);
      assert e[..i + 1] == e[..i] + [e[i]] && x'[..i + 1] == x[..i] + [c];
      if Product(base, e, i) == q {
        ValuationUnique(base[i], c, q', e[i], Product(base, e, i + 1));
      }
    }
  }

  /** Returns the exponent vector of Qx over the factor base, or the empty vector when there is none.
      The vector is unique, so membership of the smooth numbers and the vector itself are both exact. */
  method FactorizeQx(Q: int, factor_base: seq<int>) returns (exponents: seq<nat>)
    requires IsFactorBase(factor_base)
    ensures forall e: seq<nat> {:trigger Factors(factor_base, e, Q)} ::
              Factors(factor_base, e, Q) <==> exponents != [] && e == exponents
  {
    var Qx := Q;
    exponents := seq(|factor_base|, i => 0);
    hide Product, Factors, IsFactorBase;
    FactorBaseFacts(factor_base);
    if Qx == 0 {
      ZeroHasNone(factor_base);
      return [];
    }
    if Qx < 0 {
      exponents := exponents[0 := 1];
      Qx := -Qx;
    }
    DividingStart(factor_base, Q, exponents, Qx);
    for i := 1 to |factor_base|
      invariant Dividing(factor_base, Q, exponents, Qx, i)
    {
      var p := factor_base[i];
      ghost var before, q := exponents, Qx;
      assert before[i := 0] == before;
      while Qx % p == 0
        invariant Qx > 0 && |exponents| == |factor_base|
        invariant exponents == before[i := exponents[i]]
        invariant q == Pow(p, exponents[i]) * Qx
        decreases Qx
      {
        var rest := Qx / p;
        assert Qx == p * rest;
        assert Pow(p, exponents[i]) * (p * rest) == Pow(p, exponents[i] + 1) * rest;
        exponents := exponents[i := exponents[i] + 1];
        Qx := rest;
      }
      DividingStep(factor_base, Q, before, q, i, exponents[i], Qx);
    }
    DividingEnd(factor_base, Q, exponents, Qx);
    if Qx != 1 {
      exponents := [];
    }
  }

  lemma ZeroHasNone(base: seq<int>)
    requires IsFactorBase(base)
    ensures forall e: seq<nat> {:trigger Factors(base, e, 0)} :: !Factors(base, e, 0)
  {
    forall e: seq<nat> | |e| == |base| && e[0] <= 1
      ensures Product(base, e, 0) != 0
    {
      ProductNotZero(base, e);
    }
  }

  lemma FactorBaseFacts(base: seq<int>)
    requires IsFactorBase(base)
    ensures |base| >= 1 && forall i :: 1 <= i < |base| ==> base[i] >= 2
  {
  }

  lemma DividingEnd(base: seq<int>, Q: int, x: seq<nat>, q: int)
    requires Dividing(base, Q, x, q, |base|)
    ensures forall e: seq<nat> {:trigger Factors(base, e, Q)} :: Factors(base, e, Q) <==> q == 1 && e == x
  {
    assert x[..|x|] == x;
    forall e: seq<nat>
      ensures Factors(base, e, Q) <==> q == 1 && e == x
    {
      if |e| == |base| && e[0] <= 1 {
        assert e[..|base|] == e;
      }
    }
  }

  // ----- sieve of Eratosthenes

  // No number from 2 up to but excluding p, other than k itself, divides k.
  predicate Unmarked(k: nat, p: nat) {
    k >= 2 && forall d :: 2 <= d < p && d < k ==> k % d != 0
  }

  // The floor of a square root, as the standard library computes it on this range.
  method FloorSqrt(limit: nat) returns (s: nat)
    ensures s * s <= limit < (s + 1) * (s + 1)
  {
    s := 0;
    while (s + 1) * (s + 1) <= limit
      invariant s * s <= limit
      decreases limit - s
    {
      s := s + 1;
    }
  }

  method GeneratePrimes(limit: nat) returns (primes: seq<int>)
    requires limit >= 1
    ensures forall v :: v in primes <==> IsPrime(v) && v <= limit
    ensures forall i, j :: 0 <= i < j < |primes| ==> primes[i] < primes[j]
  {
    var is_prime := new bool[limit + 1](i => true);
    is_prime[0], is_prime[1] := false, false;
    var sqrt_limit := FloorSqrt(limit);
    var p := 2;
    while p <= sqrt_limit
      invariant p >= 2
      invariant forall k :: 0 <= k <= limit ==> is_prime[k] == Unmarked(k, p)
      decreases sqrt_limit - p
    {
      if is_prime[p] {
        MarkMultiples(is_prime, p);
      } else {
        CompositeMarksNothing(p, limit);
      }
      p := p + 1;
    }
    forall k | 0 <= k <= limit
      ensures is_prime[k] == IsPrime(k)
    {
      UnmarkedIsPrime(k, p, limit, sqrt_limit);
    }
    primes := [];
    for q := 2 to limit + 1
      invariant forall v :: v in primes <==> IsPrime(v) && v < q
      invariant forall i :: 0 <= i < |primes| ==> primes[i] < q
      invariant forall i, j :: 0 <= i < j < |primes| ==> primes[i] < primes[j]
    {
      if is_prime[q] {
        primes := primes + [q];
      }
    }
  }

  // k is a proper multiple of p below the bound.
  predicate Struck(k: nat, p: nat, bound: nat) {
    2 <= p < k < bound && Divides(p, k)
  }

  method MarkMultiples(is_prime: array<bool>, p: nat)
    requires 2 <= p
    requires forall k :: 0 <= k < is_prime.Length ==> is_prime[k] == Unmarked(k, p)
    modifies is_prime
    ensures forall k :: 0 <= k < is_prime.Length ==> is_prime[k] == Unmarked(k, p + 1)
  {
    var n := is_prime.Length;
    forall k | 0 <= k < n
      ensures is_prime[k] == (Unmarked(k, p) && !Struck(k, p, p * p))
    {
      StruckAtStart(k, p);
    }
    var multiple := p * p;
    ghost var t := p;
    while multiple < n
      invariant t >= p && multiple == t * p
      invariant forall k :: 0 <= k < n ==> is_prime[k] == (Unmarked(k, p) && !Struck(k, p, multiple))
      decreases n - multiple
    {
      is_prime[multiple] := false;
      forall k | 0 <= k < n
        ensures Struck(k, p, multiple + p) == (Struck(k, p, multiple) || k == multiple)
      {
        StruckNext(k, p, t);
      }
      multiple := multiple + p;
      t := t + 1;
    }
    forall k | 0 <= k < n
      ensures is_prime[k] == Unmarked(k, p + 1)
    {
      StruckAtEnd(k, p, multiple);
    }
  }

  lemma StruckAtStart(k: nat, p: nat)
    requires 2 <= p
    ensures Struck(k, p, p * p) ==> !Unmarked(k, p)
  {
    if Struck(k, p, p * p) {
      SmallMultipleIsMarked(p, k);
    }
  }

  lemma StruckNext(k: nat, p: nat, t: nat)
    requires 2 <= p <= t
    ensures Struck(k, p, t * p + p) == (Struck(k, p, t * p) || k == t * p)
  {
    MultipleDivides(p, t);
    TimesMonotone(p, 2, t);
    if Struck(k, p, t * p + p) && k > t * p {
      DivisionUnique(k, p, t, k - t * p);
      assert false;
    }
  }

  lemma StruckAtEnd(k: nat, p: nat, bound: nat)
    requires 2 <= p && k < bound
    ensures Unmarked(k, p + 1) == (Unmarked(k, p) && !Struck(k, p, bound))
  {
  }

  // A number already marked divides only numbers already marked.
  lemma CompositeMarksNothing(p: nat, limit: nat)
    requires p >= 2 && !Unmarked(p, p)
    ensures forall k: nat :: Unmarked(k, p) == Unmarked(k, p + 1)
  {
    var d :| 2 <= d < p && p % d == 0;
    forall k: nat | k > p && k % p == 0
      ensures !Unmarked(k, p)
    {
      DividesTransitive(d, p, k);
    }
  }

  lemma UnmarkedIsPrime(k: nat, p: nat, limit: nat, s: nat)
    requires k <= limit < (s + 1) * (s + 1) && p > s
    ensures Unmarked(k, p) == IsPrime(k)
  {
    if Unmarked(k, p) {
      forall d | 2 <= d < k
        ensures k % d != 0
      {
        if k % d == 0 {
          var c := SmallDivisor(k, d, s);
          assert false;
        }
      }
    }
  }

  // Of a divisor and its cofactor, one does not exceed the square root.
  lemma SmallDivisor(k: nat, d: nat, s: nat) returns (c: nat)
    requires 2 <= d < k < (s + 1) * (s + 1) && k % d == 0
    ensures 2 <= c <= s && c < k && k % c == 0
  {
    var q := k / d;
    assert k == d * q;
    MultipleDivides(q, d);
    if q >= s + 1 && d >= s + 1 {
      TimesMonotone(d, s + 1, q);
      TimesMonotone(s + 1, s + 1, d);
      assert false;
    }
    if q <= 1 {
      TimesMonotone(d, q, 1);
      assert false;
    }
    TimesMonotone(q, 2, d);
    c := if q <= s then q else d;
  }

  lemma SmallMultipleIsMarked(p: nat, k: nat)
    requires 2 <= p < k < p * p && k % p == 0
    ensures !Unmarked(k, p)
  {
    var t := k / p;
    assert k == p * t;
    MultipleDivides(t, p);
    if t >= p {
      TimesMonotone(p, p, t);
      assert false;
    }
    if t <= 1 {
      TimesMonotone(p, t, 1);
      assert false;
    }
    TimesMonotone(t, 2, p);
  }
}
