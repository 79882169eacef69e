/** The integer facts the quadratic sieve rests on: divisibility, greatest common divisors,
    Euclid's lemma for primes, powers and congruences. */
module NumberTheory {

  predicate Divides(d: nat, a: int)
    requires d > 0
  {
    a % d == 0
  }

  predicate IsPrime(p: int) {
    p >= 2 && forall d :: 2 <= d < p ==> p % d != 0
  }

  ghost predicate Congruent(a: int, b: int, n: nat)
    requires n > 0
  {
    Divides(n, a - b)
  }

  function Pow(b: int, e: nat): int {
    if e == 0 then 1 else b * Pow(b, e - 1)
  }

  // C++ remainder: truncates toward zero, so the sign is the dividend's.
  function TruncMod(a: int, n: nat): int
    requires n > 0
  {
    if a >= 0 then a % n else -((-a) % n)
  }

  function Gcd(a: nat, b: nat): nat
    decreases b
  {
    if b == 0 then a else Gcd(b, a % b)
  }

  // ----- divisibility

  lemma DivisionUnique(a: int, d: int, q: int, r: int)
    requires 0 <= r < d && a == d * q + r
    ensures a / d == q && a % d == r
  {
    var q', r' := a / d, a % d;
    assert a == d * q' + r' && 0 <= r' < d;
    QuotientUnique(d, q, r, q', r');
  }

  lemma QuotientUnique(d: int, q: int, r: int, q': int, r': int)
    requires 0 <= r < d && 0 <= r' < d && d * q + r == d * q' + r'
    ensures q == q' && r == r'
  {
    if q' >= q + 1 {
      TimesMonotone(d, q + 1, q');
    } else if q >= q' + 1 {
      TimesMonotone(d, q' + 1, q);
    }
  }

  lemma TimesMonotone(d: int, x: int, y: int)
    requires d >= 0 && x <= y
    ensures d * x <= d * y
  {
  }

  lemma MultipleDivides(d: nat, k: int)
    requires d > 0
    ensures Divides(d, d * k) && Divides(d, k * d) && (d * k) / d == k
  {
    DivisionUnique(d * k, d, k, 0);
  }

  lemma DividesTimes(d: nat, a: int, k: int)
    requires d > 0 && Divides(d, a)
    ensures Divides(d, a * k) && Divides(d, k * a)
  {
    var q := a / d;
    assert a * k == d * (q * k);
    MultipleDivides(d, q * k);
  }

  lemma DividesSum(d: nat, a: int, b: int)
    requires d > 0 && Divides(d, a) && Divides(d, b)
    ensures Divides(d, a + b) && Divides(d, a - b) && Divides(d, -a)
  {
    var p, q := a / d, b / d;
    assert a + b == d * (p + q) && a - b == d * (p - q) && -a == d * (-p);
    MultipleDivides(d, p + q);
    MultipleDivides(d, p - q);
    MultipleDivides(d, -p);
  }

  lemma DividesTransitive(c: nat, d: nat, a: int)
    requires c > 0 && d > 0 && Divides(c, d) && Divides(d, a)
    ensures Divides(c, a)
  {
    var q := a / d;
    assert a == d * q;
    DividesTimes(c, d, q);
  }

  lemma DivisorAtMost(d: nat, a: nat)
    requires d > 0 && a > 0 && Divides(d, a)
    ensures d <= a
  {
  }

  // ----- greatest common divisors

  lemma {:induction false} GcdDivides(a: nat, b: nat)
    requires a > 0 || b > 0
    ensures Gcd(a, b) > 0 && Divides(Gcd(a, b), a) && Divides(Gcd(a, b), b)
    decreases b
  {
    if b > 0 {
      GcdDivides(b, a % b);
      var g := Gcd(a, b);
      DividesTimes(g, b, a / b);
      assert a == b * (a / b) + a % b;
      DividesSum(g, b * (a / b), a % b);
    }
  }

  lemma {:induction false} Bezout(a: nat, b: nat) returns (u: int, v: int)
    ensures u * a + v * b == Gcd(a, b)
    decreases b
  {
    if b == 0 {
      u, v := 1, 0;
    } else {
      var x, y := Bezout(b, a % b);
      var q := a / b;
      u, v := y, x - y * q;
      assert a % b == a - b * q;
      assert x * b + y * (a - b * q) == y * a + (x - y * q) * b;
    }
  }

  // A number coprime to one factor of a product it divides also divides the other factor.
  lemma CoprimeDivides(n: nat, a: nat, b: int)
    requires n > 0 && Gcd(a, n) == 1 && Divides(n, a * b)
    ensures Divides(n, b)
  {
    var u, v := Bezout(a, n);
    assert b == (u * a + v * n) * b == u * (a * b) + n * (v * b);
    DividesTimes(n, a * b, u);
    MultipleDivides(n, v * b);
    DividesSum(n, u * (a * b), n * (v * b));
  }

  lemma EuclidsLemma(p: nat, a: nat, b: nat)
    requires IsPrime(p) && Divides(p, a * b) && !Divides(p, a)
    ensures Divides(p, b)
  {
    GcdDivides(a, p);
    var g := Gcd(a, p);
    DivisorAtMost(g, p);
    assert g == 1;
    CoprimeDivides(p, a, b);
  }

  lemma {:induction false} PrimeDividesPower(p: nat, q: nat, e: nat)
    requires IsPrime(p) && IsPrime(q) && Pow(q, e) > 0 && Divides(p, Pow(q, e))
    ensures p == q
  {
    if e > 0 {
      if Divides(p, q) {
        DivisorAtMost(p, q);
      } else {
        PowPositive(q, e - 1);
        EuclidsLemma(p, q, Pow(q, e - 1));
        PrimeDividesPower(p, q, e - 1);
      }
    }
  }

  // ----- powers

  lemma {:induction false} PowPositive(b: int, e: nat)
    requires b > 0
    ensures Pow(b, e) > 0
  {
    if e > 0 {
      PowPositive(b, e - 1);
      assert b * Pow(b, e - 1) > 0;
    }
  }

  lemma {:induction false} PowAdd(b: int, e: nat, f: nat)
    ensures Pow(b, e + f) == Pow(b, e) * Pow(b, f)
  {
    if e > 0 {
      PowAdd(b, e - 1, f);
      assert b * (Pow(b, e - 1) * Pow(b, f)) == (b * Pow(b, e - 1)) * Pow(b, f);
    }
  }

  // ----- congruences

  lemma CongruentMultiply(a: int, a': int, b: int, b': int, n: nat)
    requires n > 0 && Congruent(a, a', n) && Congruent(b, b', n)
    ensures Congruent(a * b, a' * b', n)
  {
    DividesTimes(n, a - a', b);
    DividesTimes(n, b - b', a');
    assert (a - a') * b + a' * (b - b') == a * b - a' * b';
    DividesSum(n, (a - a') * b, a' * (b - b'));
  }

  lemma CongruentTransitive(a: int, b: int, c: int, n: nat)
    requires n > 0 && Congruent(a, b, n) && Congruent(b, c, n)
    ensures Congruent(a, c, n) && Congruent(b, a, n)
  {
    DividesSum(n, a - b, b - c);
  }

  lemma TruncModCongruent(a: int, n: nat)
    requires n > 0
    ensures Congruent(TruncMod(a, n), a, n) && -(n as int) < TruncMod(a, n) < n
    ensures a >= 0 ==> 0 <= TruncMod(a, n)
  {
    var x := if a >= 0 then a else -a;
    assert x == n * (x / n) + x % n;
    MultipleDivides(n, x / n);
    MultipleDivides(n, -(x / n));
    assert n * (-(x / n)) == -(n * (x / n));
  }
}
