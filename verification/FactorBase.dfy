/** The factor base (working.cpp, main, steps 2 to 4): the primes that the numbers (x + m)^2 - n can have. */
module FactorBase {
  import opened NumberTheory
  import opened Smoothness
  import opened Residues

  function Qx(x: int, m: int, n: int): int {
    (x + m) * (x + m) - n
  }

  ghost predicate Smooth(base: seq<int>, Q: int) {
    exists e: seq<nat> :: Factors(base, e, Q)
  }

  // p is a prime up to the limit, does not divide n, and n is a square modulo p.
  ghost predicate Wanted(p: int, n: nat, prime_limit: nat) {
    IsPrime(p) && p <= prime_limit && n % p != 0 && IsResidue(n, p)
  }

  ghost predicate BaseOf(base: seq<int>, n: nat, prime_limit: nat) {
    && IsFactorBase(base)
    && (forall i, j :: 0 <= i < j < |base| ==> base[i] < base[j])
    && forall v :: v in base <==> v == -1 || Wanted(v, n, prime_limit)
  }

  function LegendreSymbol(a: nat, p: nat): int
    requires p >= 2
  {
    if a % p == 0 then 0
    else
      var result := Pow(a % p, (p - 1) / 2) % p;
      if result == 1 then 1 else if result == p - 1 then -1 else 0
  }

  /** What the source says that its Legendre symbol returns holds for every prime; 2, where 1 is -1, included. */
  lemma LegendreExactly(a: nat, p: nat)
    requires IsPrime(p)
    ensures LegendreSymbol(a, p) == 0 <==> Divides(p, a)
    ensures LegendreSymbol(a, p) == 1 <==> !Divides(p, a) && IsResidue(a, p)
    ensures LegendreSymbol(a, p) == -1 <==> !IsResidue(a, p)
  {
    hide IsResidue, Pow;
    if Divides(p, a) {
      ZeroIsSquare(a, p);
    } else {
      EulersCriterion(a, p);
    }
  }

  lemma ZeroIsSquare(a: int, p: nat)
    requires p > 0 && Divides(p, a)
    ensures IsResidue(a, p)
  {
    DividesSum(p, a, a);
    var zero: nat := 0;
    assert zero * zero == 0;
    assert Congruent(zero * zero, a, p);
  }

  method BuildFactorBase(n: nat, prime_limit: nat) returns (factor_base: seq<int>)
    requires prime_limit >= 1
    ensures BaseOf(factor_base, n, prime_limit)
  {
    hide IsPrime, IsResidue;
    var primes := GeneratePrimes(prime_limit);
    factor_base := [-1];
    PrimesPositive(primes, prime_limit);
    for i := 0 to |primes|
      invariant |factor_base| >= 1 && factor_base[0] == -1
      invariant forall k :: 1 <= k < |factor_base| ==> factor_base[k] in primes[..i]
      invariant forall k, l :: 0 <= k < l < |factor_base| ==> factor_base[k] < factor_base[l]
      invariant forall v :: v in factor_base <==> v == -1 || (v in primes[..i] && Wanted(v, n, prime_limit))
    {
      var p := primes[i];
      assert p in primes;
      assert forall k :: 0 <= k < i ==> primes[k] < p;
      assert primes[..i + 1] == primes[..i] + [p];
      LegendreExactly(n, p);
      if n % p != 0 && LegendreSymbol(n, p) == 1 {
        factor_base := factor_base + [p];
      }
    }
    assert primes[..|primes|] == primes;
  }

  lemma PrimesPositive(primes: seq<int>, limit: nat)
    requires forall v :: v in primes <==> IsPrime(v) && v <= limit
    ensures forall v :: v in primes ==> v >= 2
  {
  }

  // ----- what the base is for

  // A prime that divides some Q(x) has n as a square, so it is wanted unless it divides n or passes the limit.
  lemma DividesQx(p: nat, x: int, m: nat, n: nat)
    requires IsPrime(p) && Divides(p, Qx(x, m, n))
    ensures IsResidue(n, p)
  {
    var z := if x + m >= 0 then x + m else -(x + m);
    assert z * z == (x + m) * (x + m);
    assert Congruent(z * z, n, p);
  }

  // q divides evenly into entries of the base only.
  ghost predicate OnlyFrom(base: seq<int>, q: int) {
    forall p: nat :: IsPrime(p) && Divides(p, q) ==> p in base
  }

  lemma {:induction false} ProductOfZeros(base: seq<int>, e: seq<nat>, lo: nat)
    requires lo <= |base| == |e| && forall i :: lo <= i < |e| ==> e[i] == 0
    ensures Product(base, e, lo) == 1
    decreases |base| - lo
  {
    if lo < |base| {
      ProductOfZeros(base, e, lo + 1);
    }
  }

  // One more factor base[i].
  lemma {:induction false} ProductOneMore(base: seq<int>, e: seq<nat>, i: nat, lo: nat)
    requires lo <= |base| == |e| && i < |base|
    ensures Product(base, e[i := e[i] + 1], lo) ==
            if lo <= i then base[i] * Product(base, e, lo) else Product(base, e, lo)
    decreases |base| - lo
  {
    if lo < |base| {
      ProductOneMore(base, e, i, lo + 1);
      var rest := Product(base, e, lo + 1);
      if i == lo {
        assert (base[i] * Pow(base[i], e[i])) * rest == base[i] * (Pow(base[i], e[i]) * rest);
      } else if lo < i {
        assert Pow(base[lo], e[lo]) * (base[i] * rest) == base[i] * (Pow(base[lo], e[lo]) * rest);
      }
    }
  }

  // The least divisor above 1 is prime.
  lemma {:induction false} SomePrime(q: nat, d: nat) returns (p: nat)
    requires 2 <= d <= q && forall c :: 2 <= c < d ==> !Divides(c, q)
    ensures IsPrime(p) && Divides(p, q)
    decreases q - d
  {
    if Divides(d, q) {
      p := d;
      forall c: nat | 2 <= c < d
        ensures d % c != 0
      {
        if Divides(c, d) {
          DividesTransitive(c, d, q);
        }
      }
    } else {
      p := SomePrime(q, d + 1);
    }
  }

  lemma {:induction false} WriteOver(base: seq<int>, q: nat) returns (e: seq<nat>)
    requires IsFactorBase(base) && q > 0 && OnlyFrom(base, q)
    ensures |e| == |base| && e[0] == 0 && Product(base, e, 1) == q
  {
    if q == 1 {
      e := seq(|base|, i => 0);
      ProductOfZeros(base, e, 1);
    } else {
      var p := SomePrime(q, 2);
      assert p in base;
      var i :| 0 <= i < |base| && base[i] == p;
      var r := q / p;
      assert q == p * r;
      Quotient(base, q, p, r);
      var f := WriteOver(base, r);
      ProductOneMore(base, f, i, 1);
      e := f[i := f[i] + 1];
    }
  }

  lemma Quotient(base: seq<int>, q: nat, p: nat, r: nat)
    requires OnlyFrom(base, q) && q == p * r && p >= 2 && q > 0
    ensures 0 < r < q && OnlyFrom(base, r)
  {
    if r >= q {
      TimesMonotone(r, 2, p);
    }
    forall d: nat | IsPrime(d) && Divides(d, r)
      ensures d in base
    {
      DividesTimes(d, r, p);
    }
  }

  lemma SmoothIff(base: seq<int>, Q: int)
    requires IsFactorBase(base)
    ensures Smooth(base, Q) <==> Q != 0 && OnlyFrom(base, Q)
  {
    if e: seq<nat> :| Factors(base, e, Q) {
      ProductNotZero(base, e);
      forall p: nat | IsPrime(p) && Divides(p, Q)
        ensures p in base
      {
        if p !in base {
          NotInWhole(base, e, p);
        }
      }
    }
    if Q != 0 && OnlyFrom(base, Q) {
      var q: nat := if Q < 0 then -Q else Q;
      forall p: nat | IsPrime(p) && Divides(p, q)
        ensures p in base
      {
        DividesSum(p, q, q);
      }
      var f := WriteOver(base, q);
      var e := f[0 := if Q < 0 then 1 else 0];
      SameRest(base, f, e, 1);
      assert Pow(-1, 0) == 1 && Pow(-1, 1) == -1;
      assert Factors(base, e, Q);
    }
  }

  lemma {:induction false} SameRest(base: seq<int>, e: seq<nat>, f: seq<nat>, lo: nat)
    requires lo <= |base| == |e| == |f| && e[lo..] == f[lo..]
    ensures Product(base, e, lo) == Product(base, f, lo)
    decreases |base| - lo
  {
    if lo < |base| {
      assert e[lo] == e[lo..][0] && f[lo] == f[lo..][0] && e[lo + 1..] == e[lo..][1..] && f[lo + 1..] == f[lo..][1..];
      SameRest(base, e, f, lo + 1);
    }
  }

  lemma NotInWhole(base: seq<int>, e: seq<nat>, p: nat)
    requires IsFactorBase(base) && |e| == |base| && e[0] <= 1 && IsPrime(p) && p !in base
    ensures !Divides(p, Product(base, e, 0))
  {
    PrimeNotInProduct(base, e, p, 1);
    assert Pow(-1, 0) == 1 && Pow(-1, 1) == -1;
    if Divides(p, Product(base, e, 0)) {
      DividesSum(p, Product(base, e, 0), Product(base, e, 0));
    }
  }

  /** The point of the Legendre test: leaving out the primes it refuses loses no x. Over the base, Q(x) is smooth
      exactly when it is not 0 and all its prime factors are within the limit and none of them divides n. */
  lemma SmoothExactly(base: seq<int>, n: nat, prime_limit: nat, x: int, m: nat)
    requires BaseOf(base, n, prime_limit)
    ensures Smooth(base, Qx(x, m, n)) <==>
            && Qx(x, m, n) != 0
            && forall p: nat :: IsPrime(p) && Divides(p, Qx(x, m, n)) ==> p <= prime_limit && !Divides(p, n)
  {
    var Q := Qx(x, m, n);
    SmoothIff(base, Q);
    forall p: nat | IsPrime(p) && Divides(p, Q)
      ensures p in base <==> p <= prime_limit && !Divides(p, n)
    {
      DividesQx(p, x, m, n);
    }
  }
}
