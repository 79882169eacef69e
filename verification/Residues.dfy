/** Squares modulo a prime: what the power in legendreSymbol (working.cpp) says about them. The proof pairs each number
    below p with the one it makes n with, so that the product of all of them is a power of n; Wilson's theorem is the
    case n = 1. */
module Residues {
  import opened NumberTheory

  // n is a square modulo p.
  ghost predicate IsResidue(n: int, p: nat)
    requires p > 0
  {
    exists x: nat :: Congruent(x * x, n, p)
  }

  // ----- numbers below p

  lemma PrimeOf(p: nat, a: int, b: int)
    requires IsPrime(p) && Divides(p, a * b)
    ensures Divides(p, a) || Divides(p, b)
  {
    var x, y := if a >= 0 then a else -a, if b >= 0 then b else -b;
    assert x * y == a * b || x * y == -(a * b);
    DividesSum(p, a * b, a * b);
    if !Divides(p, x) {
      EuclidsLemma(p, x, y);
      DividesSum(p, y, y);
    } else {
      DividesSum(p, x, x);
    }
  }

  lemma SmallDivides(p: nat, a: int)
    requires p > 0 && Divides(p, a) && -(p as int) < a < p
    ensures a == 0
  {
    assert a == p * (a / p);
    if a / p >= 1 {
      TimesMonotone(p, 1, a / p);
    } else if a / p <= -1 {
      TimesMonotone(p, a / p, -1);
    }
  }

  predicate Below(p: nat, a: int) {
    1 <= a < p
  }

  lemma BelowNotDivided(p: nat, a: int)
    requires Below(p, a)
    ensures !Divides(p, a)
  {
    if Divides(p, a) {
      SmallDivides(p, a);
    }
  }

  // What a makes n with is unique.
  lemma OnePartner(p: nat, a: int, b: int, c: int, n: int)
    requires IsPrime(p) && Below(p, a) && Below(p, b) && Below(p, c)
    requires Congruent(a * b, n, p) && Congruent(a * c, n, p)
    ensures b == c
  {
    DividesSum(p, a * b - n, a * c - n);
    assert (a * b - n) - (a * c - n) == a * (b - c);
    PrimeOf(p, a, b - c);
    BelowNotDivided(p, a);
    SmallDivides(p, b - c);
  }

  lemma PrimeCoprime(p: nat, a: nat)
    requires IsPrime(p) && Below(p, a)
    ensures Gcd(a, p) == 1
  {
    GcdDivides(a, p);
    var g := Gcd(a, p);
    DivisorAtMost(g, a);
    DivisorAtMost(g, p);
  }

  // A multiple taken off changes nothing modulo p.
  lemma ModCongruent(a: int, p: nat)
    requires p > 0
    ensures Congruent(a % p, a, p) && Congruent(a, a % p, p)
  {
    assert a % p - a == p * (-(a / p)) && a - a % p == p * (a / p);
    MultipleDivides(p, -(a / p));
    MultipleDivides(p, a / p);
  }

  lemma CongruentSame(a: int, p: nat)
    requires p > 0
    ensures Congruent(a, a, p)
  {
    MultipleDivides(p, 0);
  }

  lemma NotDividedBoth(a: int, b: int, p: nat)
    requires p > 0 && Congruent(a, b, p)
    ensures Divides(p, a) <==> Divides(p, b)
  {
    if Divides(p, a) {
      DividesSum(p, a, a - b);
    } else if Divides(p, b) {
      DividesSum(p, a - b, b);
    }
  }

  lemma InverseTimes(a: int, u: int, v: int, n: int, p: int)
    requires u * a + v * p == 1
    ensures a * (u * n) - n == p * (-(v * n))
  {
    assert a * (u * n) == (u * a) * n == (1 - v * p) * n == n - p * (v * n);
  }

  lemma Partner(p: nat, a: nat, n: int) returns (b: nat)
    requires IsPrime(p) && Below(p, a) && !Divides(p, n)
    ensures Below(p, b) && Congruent(a * b, n, p)
  {
    hide Divides, Congruent, IsPrime, Gcd;
    PrimeCoprime(p, a);
    var u, v := Bezout(a, p);
    b := (u * n) % p;
    ModCongruent(u * n, p);
    CongruentSame(a, p);
    CongruentMultiply(a, a, b, u * n, p);
    InverseTimes(a, u, v, n, p);
    MultipleDivides(p, -(v * n));
    CongruentFrom(a * (u * n), n, p);
    CongruentTransitive(a * b, a * (u * n), n, p);
    NotDividedBoth(a * b, n, p);
    if b == 0 {
      MultipleDivides(p, 0);
    }
  }

  lemma CongruentFrom(a: int, b: int, p: nat)
    requires p > 0 && Divides(p, a - b)
    ensures Congruent(a, b, p)
  {
  }

  // ----- products

  function Prod(s: set<nat>, m: nat): int {
    if m == 0 then 1 else Prod(s, m - 1) * (if m in s then m else 1)
  }

  lemma {:induction false} ProdOut(s: set<nat>, m: nat, a: nat)
    requires a in s
    ensures Prod(s, m) == Prod(s - {a}, m) * (if 1 <= a <= m then a else 1)
  {
    if m > 0 {
      ProdOut(s, m - 1, a);
      if m != a {
        var k := if m in s then m else 1;
        var b := if 1 <= a <= m - 1 then a else 1;
        assert (Prod(s - {a}, m - 1) * b) * k == (Prod(s - {a}, m - 1) * k) * b;
      }
    }
  }

  lemma {:induction false} ProdNothing(s: set<nat>, m: nat)
    requires s == {}
    ensures Prod(s, m) == 1
  {
    if m > 0 {
      ProdNothing(s, m - 1);
    }
  }

  lemma TimesTwo(r: int, a: int, b: int)
    ensures (r * b) * a == r * (a * b)
  {
  }

  lemma ProdTwoOut(s: set<nat>, p: nat, a: nat, b: nat)
    requires a in s && b in s && a != b && Below(p, a) && Below(p, b)
    ensures Prod(s, p - 1) == Prod(s - {a, b}, p - 1) * (a * b) && |s| == |s - {a, b}| + 2
  {
    hide Prod;
    ProdOut(s, p - 1, a);
    ProdOut(s - {a}, p - 1, b);
    assert s - {a} - {b} == s - {a, b};
    TimesTwo(Prod(s - {a, b}, p - 1), a, b);
  }

  // ----- pairs

  // a makes n with another number of s.
  ghost predicate HasPartner(s: set<nat>, a: nat, n: int, p: nat)
    requires p > 0
  {
    exists b :: b in s && b != a && Congruent(a * b, n, p)
  }

  ghost predicate Paired(s: set<nat>, n: int, p: nat)
    requires p > 0
  {
    forall a :: a in s ==> Below(p, a) && HasPartner(s, a, n, p)
  }

  lemma SomePartner(s: set<nat>, a: nat, n: int, p: nat) returns (b: nat)
    requires p > 0 && HasPartner(s, a, n, p)
    ensures b in s && b != a && Congruent(a * b, n, p)
  {
    b :| b in s && b != a && Congruent(a * b, n, p);
  }

  lemma IsPartner(s: set<nat>, a: nat, b: nat, n: int, p: nat)
    requires p > 0 && b in s && b != a && Congruent(a * b, n, p)
    ensures HasPartner(s, a, n, p)
  {
  }

  lemma Swapped(a: int, b: int, n: int, p: nat)
    requires p > 0 && Congruent(a * b, n, p)
    ensures Congruent(b * a, n, p)
  {
    assert a * b == b * a;
  }

  lemma PartnerStays(s: set<nat>, n: int, p: nat, a: nat, b: nat, c: nat)
    requires IsPrime(p) && Paired(s, n, p) && a in s && b in s && Congruent(a * b, n, p)
    requires c in s && c != a && c != b
    ensures HasPartner(s - {a, b}, c, n, p)
  {
    hide IsPrime, Congruent, HasPartner;
    var d := SomePartner(s, c, n, p);
    Swapped(a, b, n, p);
    Swapped(c, d, n, p);
    if d == a {
      OnePartner(p, a, b, c, n);
    } else if d == b {
      OnePartner(p, b, a, c, n);
    }
    IsPartner(s - {a, b}, c, d, n, p);
  }

  lemma PairedWithout(s: set<nat>, n: int, p: nat, a: nat, b: nat)
    requires IsPrime(p) && Paired(s, n, p) && a in s && b in s && Congruent(a * b, n, p)
    ensures Paired(s - {a, b}, n, p)
  {
    hide IsPrime, Congruent, HasPartner;
    forall c | c in s - {a, b}
      ensures HasPartner(s - {a, b}, c, n, p)
    {
      PartnerStays(s, n, p, a, b, c);
    }
  }

  lemma PowStep(n: int, k: nat)
    ensures Pow(n, k + 1) == Pow(n, k) * n
  {
  }

  lemma PrimePositive(p: nat)
    requires IsPrime(p)
    ensures p >= 2
  {
  }

  lemma SomePair(s: set<nat>, n: int, p: nat, a: nat) returns (b: nat)
    requires p > 0 && Paired(s, n, p) && a in s
    ensures b in s && b != a && Below(p, a) && Below(p, b) && Congruent(a * b, n, p)
  {
    b := SomePartner(s, a, n, p);
  }

  lemma MorePairs(r: int, t: int, n: int, j: nat, p: nat)
    requires p > 0 && Congruent(r, Pow(n, j), p) && Congruent(t, n, p)
    ensures Congruent(r * t, Pow(n, j + 1), p)
  {
    CongruentMultiply(r, Pow(n, j), t, n, p);
    PowStep(n, j);
  }

  lemma {:induction false} PairProduct(s: set<nat>, n: int, p: nat) returns (k: nat)
    requires IsPrime(p) && Paired(s, n, p)
    ensures |s| == 2 * k && Congruent(Prod(s, p - 1), Pow(n, k), p)
    decreases |s|
  {
    hide IsPrime, Congruent, Prod, Pow, Paired;
    PrimePositive(p);
    if s == {} {
      k := 0;
      ProdNothing(s, p - 1);
      PowNone(n);
      CongruentSame(1, p);
    } else {
      var a :| a in s;
      var b := SomePair(s, n, p, a);
      PairedWithout(s, n, p, a, b);
      ProdTwoOut(s, p, a, b);
      var j := PairProduct(s - {a, b}, n, p);
      k := j + 1;
      MorePairs(Prod(s - {a, b}, p - 1), a * b, n, j, p);
    }
  }

  lemma PowNone(n: int)
    ensures Pow(n, 0) == 1
  {
  }

  // ----- Wilson's theorem

  function All(p: nat): (s: set<nat>)
    ensures forall a :: a in s <==> Below(p, a)
  {
    set a: nat | a < p && Below(p, a)
  }

  lemma {:induction false} AllCount(p: nat)
    requires p >= 1
    ensures |All(p)| == p - 1
  {
    if p == 1 {
      assert All(p) == {};
    } else {
      AllCount(p - 1);
      assert All(p) == All(p - 1) + {p - 1};
    }
  }

  // Only x and p - x have the square of x.
  lemma TwoRoots(p: nat, a: int, x: int, n: int)
    requires IsPrime(p) && Below(p, a) && Below(p, x) && Congruent(a * a, n, p) && Congruent(x * x, n, p)
    ensures a == x || a == p - x
  {
    DividesSum(p, a * a - n, x * x - n);
    assert (a * a - n) - (x * x - n) == (a - x) * (a + x);
    PrimeOf(p, a - x, a + x);
    if Divides(p, a - x) {
      SmallDivides(p, a - x);
    } else {
      MultipleDivides(p, 1);
      DividesSum(p, a + x, p);
      SmallDivides(p, a + x - p);
    }
  }

  // With x and p - x taken out, the numbers pair up to make x * x.
  lemma RootsOut(p: nat, x: nat, n: int)
    requires IsPrime(p) && Below(p, x) && Congruent(x * x, n, p)
    ensures Congruent((p - x) * (p - x), n, p) && Paired(All(p) - {x, p - x}, n, p)
  {
    var y := p - x;
    assert y * y - n == (x * x - n) + p * (p - 2 * x);
    MultipleDivides(p, p - 2 * x);
    DividesSum(p, x * x - n, p * (p - 2 * x));
    RootNotDivided(p, x, n);
    forall a | a in All(p) - {x, y}
      ensures HasPartner(All(p) - {x, y}, a, n, p)
    {
      var b := Partner(p, a, n);
      if b == a {
        TwoRoots(p, a, x, n);
      }
      assert a * b == b * a;
      if b == x {
        OnePartner(p, x, a, x, n);
      }
      if b == y {
        OnePartner(p, y, a, y, n);
      }
    }
  }

  lemma RootNotDivided(p: nat, x: nat, n: int)
    requires IsPrime(p) && Below(p, x) && Congruent(x * x, n, p)
    ensures !Divides(p, n)
  {
    if Divides(p, n) {
      DividesSum(p, x * x - n, n);
      PrimeOf(p, x, x);
      BelowNotDivided(p, x);
    }
  }

  lemma RootsProduct(p: nat, x: nat, n: int)
    requires p > 0 && Congruent(x * x, n, p)
    ensures Congruent(x * (p - x), -n, p)
  {
    MultipleDivides(p, x);
    DividesSum(p, p * x, x * x - n);
    assert x * (p - x) == p * x - x * x;
  }

  // The product of all numbers below p when n is the square of x.
  lemma ProductOfAll(p: nat, x: nat, n: int) returns (k: nat)
    requires IsPrime(p) && p > 2 && Below(p, x) && Congruent(x * x, n, p)
    ensures p - 1 == 2 * (k + 1) && Congruent(Prod(All(p), p - 1), -Pow(n, k + 1), p)
  {
    hide Divides, Congruent, Pow, Prod, IsPrime;
    var y := p - x;
    if x == y {
      TwiceNotPrime(p, x);
    }
    RootsOut(p, x, n);
    AllCount(p);
    ProdTwoOut(All(p), p, x, y);
    k := PairProduct(All(p) - {x, y}, n, p);
    RootsProduct(p, x, n);
    CongruentMultiply(Prod(All(p) - {x, y}, p - 1), Pow(n, k), x * y, -n, p);
    PowStep(n, k);
    assert Pow(n, k) * (-n) == -Pow(n, k + 1);
  }

  lemma TwiceNotPrime(p: nat, x: nat)
    requires IsPrime(p) && p == 2 * x
    ensures p == 2
  {
    assert p % 2 == 0;
  }

  lemma {:induction false} PowOfOne(k: nat)
    ensures Pow(1, k) == 1
  {
    if k > 0 {
      PowOfOne(k - 1);
    }
  }

  lemma Wilson(p: nat)
    requires IsPrime(p) && p > 2
    ensures Congruent(Prod(All(p), p - 1), -1, p)
  {
    MultipleDivides(p, 0);
    var k := ProductOfAll(p, 1, 1);
    PowOfOne(k + 1);
  }

  // ----- Euler's criterion

  lemma RootBelow(n: int, p: nat) returns (x: nat)
    requires IsPrime(p) && !Divides(p, n) && IsResidue(n, p)
    ensures Below(p, x) && Congruent(x * x, n, p)
  {
    var z: nat :| Congruent(z * z, n, p);
    x := z % p;
    var q := z / p;
    assert z == p * q + x;
    assert z * z == p * (q * z + q * x) + x * x by {
      assert z * z == (p * q + x) * z == p * (q * z) + x * z;
      assert x * z == x * (p * q + x) == p * (q * x) + x * x;
    }
    MultipleDivides(p, q * z + q * x);
    DividesSum(p, z * z - n, p * (q * z + q * x));
    if x == 0 {
      DividesSum(p, x * x - n, 0);
    }
  }

  lemma ResiduePower(n: int, p: nat)
    requires IsPrime(p) && p > 2 && !Divides(p, n) && IsResidue(n, p)
    ensures Congruent(Pow(n, (p - 1) / 2), 1, p)
  {
    hide Divides, Pow, Prod, IsPrime;
    var x := RootBelow(n, p);
    var k := ProductOfAll(p, x, n);
    Wilson(p);
    var all := Prod(All(p), p - 1);
    DividesSum(p, all - (-Pow(n, k + 1)), all - (-1));
    assert (all - (-Pow(n, k + 1))) - (all - (-1)) == Pow(n, k + 1) - 1;
    assert (p - 1) / 2 == k + 1;
  }

  lemma AllPaired(n: int, p: nat)
    requires IsPrime(p) && !Divides(p, n) && !IsResidue(n, p)
    ensures Paired(All(p), n, p)
  {
    hide Divides, Congruent, IsPrime;
    forall a | a in All(p)
      ensures HasPartner(All(p), a, n, p)
    {
      var b := Partner(p, a, n);
      NotOwnPartner(a, b, n, p);
    }
  }

  lemma NotOwnPartner(a: nat, b: nat, n: int, p: nat)
    requires p > 0 && !IsResidue(n, p) && Congruent(a * b, n, p)
    ensures a != b
  {
  }

  lemma NonResiduePower(n: int, p: nat)
    requires IsPrime(p) && p > 2 && !Divides(p, n) && !IsResidue(n, p)
    ensures Congruent(Pow(n, (p - 1) / 2), -1, p)
  {
    hide Divides, Pow, Prod, IsPrime, Paired;
    AllPaired(n, p);
    var k := PairProduct(All(p), n, p);
    AllCount(p);
    Wilson(p);
    var all := Prod(All(p), p - 1);
    DividesSum(p, all - (-1), all - Pow(n, k));
    assert (all - (-1)) - (all - Pow(n, k)) == Pow(n, k) - (-1);
    assert (p - 1) / 2 == k;
  }

  lemma {:induction false} PowCongruent(a: int, b: int, e: nat, p: nat)
    requires p > 0 && Congruent(a, b, p)
    ensures Congruent(Pow(a, e), Pow(b, e), p)
  {
    if e == 0 {
      CongruentSame(1, p);
    } else {
      PowCongruent(a, b, e - 1, p);
      CongruentMultiply(a, b, Pow(a, e - 1), Pow(b, e - 1), p);
    }
  }

  // Every number is a square modulo 2.
  lemma ResidueOfTwo(n: int)
    ensures IsResidue(n, 2)
  {
    var x := n % 2;
    assert x * x == x;
    ModCongruent(n, 2);
  }

  /** Euler's criterion as the program evaluates it: the reduced power is 1 at the squares and p - 1 elsewhere. */
  lemma EulersCriterion(n: int, p: nat)
    requires IsPrime(p) && !Divides(p, n)
    ensures Pow(n % p, (p - 1) / 2) % p == 1 <==> IsResidue(n, p)
    ensures Pow(n % p, (p - 1) / 2) % p == p - 1 <==> p == 2 || !IsResidue(n, p)
  {
    hide Pow, IsResidue;
    var e := (p - 1) / 2;
    if p == 2 {
      ResidueOfTwo(n);
      PowNone(n % p);
    } else {
      var r := Pow(n % p, e);
      ModCongruent(n, p);
      PowCongruent(n % p, n, e, p);
      ModCongruent(r, p);
      CongruentTransitive(r % p, r, Pow(n, e), p);
      if IsResidue(n, p) {
        ResiduePower(n, p);
        CongruentTransitive(r % p, Pow(n, e), 1, p);
        SmallDivides(p, r % p - 1);
      } else {
        NonResiduePower(n, p);
        CongruentTransitive(r % p, Pow(n, e), -1, p);
        RestOfMinusOne(r % p, p);
      }
    }
  }

  lemma RestOfMinusOne(r: int, p: nat)
    requires p > 2 && 0 <= r < p && Congruent(r, -1, p)
    ensures r == p - 1
  {
    MultipleDivides(p, 1);
    DividesSum(p, r - (-1), p);
    SmallDivides(p, r + 1 - p);
  }
}
