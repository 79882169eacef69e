/** From dependencies to factors (working.cpp, main, steps 7 to 9): a congruence of squares per
    dependency, and a greatest common divisor that is reported only when it is a proper divisor. */
module Congruence {
  import opened NumberTheory
  import opened Smoothness
  import opened Gf2
  import Elimination

  // Relation j writes (xs[j] + m)^2 - n over the factor base.
  ghost predicate Relations(base: seq<int>, xs: seq<nat>, rels: seq<seq<nat>>, m: int, n: int) {
    && IsFactorBase(base)
    && |xs| == |rels|
    && forall j :: 0 <= j < |rels| ==> Factors(base, rels[j], (xs[j] + m) * (xs[j] + m) - n)
  }

  // ----- products over a selection of relations

  // The exponents of the selected relations below k, added up.
  ghost function Totals(width: nat, dep: Row, rels: seq<seq<nat>>, k: nat): (t: seq<nat>)
    requires k <= |dep| == |rels| && forall j :: 0 <= j < |rels| ==> |rels[j]| == width
    ensures |t| == width
  {
    if k == 0 then seq(width, i => 0)
    else if dep[k - 1] then Add(Totals(width, dep, rels, k - 1), rels[k - 1])
    else Totals(width, dep, rels, k - 1)
  }

  function Add(e: seq<nat>, f: seq<nat>): (s: seq<nat>)
    requires |e| == |f|
    ensures |s| == |e|
  {
    seq(|e|, i requires 0 <= i < |e| => e[i] + f[i])
  }

  function Halves(e: seq<nat>): (h: seq<nat>)
    ensures |h| == |e|
  {
    seq(|e|, i requires 0 <= i < |e| => e[i] / 2)
  }

  ghost function RootProduct(dep: Row, xs: seq<nat>, m: int, k: nat): int
    requires k <= |dep| == |xs|
  {
    if k == 0 then 1
    else if dep[k - 1] then RootProduct(dep, xs, m, k - 1) * (xs[k - 1] + m)
    else RootProduct(dep, xs, m, k - 1)
  }

  lemma {:induction false} ProductAdd(base: seq<int>, e: seq<nat>, f: seq<nat>, lo: nat)
    requires lo <= |base| == |e| == |f|
    ensures Product(base, Add(e, f), lo) == Product(base, e, lo) * Product(base, f, lo)
    decreases |base| - lo
  {
    if lo < |base| {
      ProductAdd(base, e, f, lo + 1);
      PowAdd(base[lo], e[lo], f[lo]);
      Regroup(Pow(base[lo], e[lo]), Pow(base[lo], f[lo]), Product(base, e, lo + 1), Product(base, f, lo + 1));
    }
  }

  lemma Regroup(a: int, b: int, c: int, d: int)
    ensures (a * b) * (c * d) == (a * c) * (b * d)
  {
    calc {
      (a * b) * (c * d);
      a * (b * (c * d));
      a * (c * (b * d));
      (a * c) * (b * d);
    }
  }

  lemma ProductZero(base: seq<int>, lo: nat)
    requires lo <= |base|
    ensures Product(base, seq(|base|, i => 0), lo) == 1
    decreases |base| - lo
  {
    if lo < |base| {
      ProductZero(base, lo + 1);
    }
  }

  // The square of the product of (x + m) agrees mod n with the product of the summed exponents.
  lemma {:induction false} RootSquared(base: seq<int>, xs: seq<nat>, rels: seq<seq<nat>>, m: int, n: nat, dep: Row,
                                       k: nat)
    requires n > 0 && Relations(base, xs, rels, m, n) && k <= |dep| == |rels|
    ensures Congruent(RootProduct(dep, xs, m, k) * RootProduct(dep, xs, m, k),
                      Product(base, Totals(|base|, dep, rels, k), 0), n)
  {
    if k == 0 {
      ProductZero(base, 0);
    } else {
      RootSquared(base, xs, rels, m, n, dep, k - 1);
      if dep[k - 1] {
        var r, z := RootProduct(dep, xs, m, k - 1), xs[k - 1] + m;
        var t := Totals(|base|, dep, rels, k - 1);
        assert Factors(base, rels[k - 1], z * z - n);
        ProductAdd(base, t, rels[k - 1], 0);
        assert Congruent(z * z, z * z - n, n);
        CongruentMultiply(r * r, Product(base, t, 0), z * z, z * z - n, n);
        Regroup(r, r, z, z);
      }
    }
  }

  // The parity of a column sum is the entry of the combined parity rows.
  function Parities(rels: seq<seq<nat>>): Matrix {
    seq(|rels|, j requires 0 <= j < |rels| => seq(|rels[j]|, c requires 0 <= c < |rels[j]| => rels[j][c] % 2 == 1))
  }

  lemma {:induction false} TotalsParity(width: nat, dep: Row, rels: seq<seq<nat>>, c: nat, k: nat)
    requires k <= |dep| == |rels| && forall j :: 0 <= j < |rels| ==> |rels[j]| == width
    requires c < width
    ensures (Totals(width, dep, rels, k)[c] % 2 == 1) == Dot(dep, Parities(rels), c, k)
  {
    if k > 0 {
      TotalsParity(width, dep, rels, c, k - 1);
    }
  }

  lemma {:induction false} HalvesSquared(base: seq<int>, e: seq<nat>, lo: nat)
    requires lo <= |base| == |e| && forall i :: 0 <= i < |e| ==> e[i] % 2 == 0
    ensures Product(base, e, lo) == Product(base, Halves(e), lo) * Product(base, Halves(e), lo)
  {
    assert e == Add(Halves(e), Halves(e));
    ProductAdd(base, Halves(e), Halves(e), lo);
  }

  // ----- the two square roots of one dependency

  ghost predicate Dependency(rels: seq<seq<nat>>, width: nat, dep: Row) {
    && |dep| == |rels| && (forall j :: 0 <= j < |rels| ==> |rels[j]| == width)
    && IsZero(Combine(dep, Parities(rels), width))
  }

  ghost function A(dep: Row, xs: seq<nat>, m: int): int
    requires |dep| == |xs|
  {
    RootProduct(dep, xs, m, |xs|)
  }

  ghost function B(base: seq<int>, dep: Row, rels: seq<seq<nat>>): int
    requires |dep| == |rels| && forall j :: 0 <= j < |rels| ==> |rels[j]| == |base|
  {
    Product(base, Halves(Totals(|base|, dep, rels, |rels|)), 0)
  }

  // For every dependency the exponent sums halve exactly, and the two roots have congruent squares.
  lemma CongruenceOfSquares(base: seq<int>, xs: seq<nat>, rels: seq<seq<nat>>, m: int, n: nat, dep: Row)
    requires n > 0 && Relations(base, xs, rels, m, n) && Dependency(rels, |base|, dep)
    ensures forall c :: 0 <= c < |base| ==> Totals(|base|, dep, rels, |rels|)[c] % 2 == 0
    ensures Congruent(A(dep, xs, m) * A(dep, xs, m), B(base, dep, rels) * B(base, dep, rels), n)
  {
    var t := Totals(|base|, dep, rels, |rels|);
    forall c | 0 <= c < |base|
      ensures t[c] % 2 == 0
    {
      TotalsParity(|base|, dep, rels, c, |rels|);
      assert !Combine(dep, Parities(rels), |base|)[c];
    }
    HalvesSquared(base, t, 0);
    RootSquared(base, xs, rels, m, n, dep, |rels|);
  }

  // The gcd of a - b and n is trivial only when a is congruent to b or to -b; it is n exactly for a = b mod n.
  lemma GcdOfDifference(a: int, b: int, diff: nat, n: nat)
    requires n > 0 && Congruent(a * a, b * b, n) && Congruent(diff, a - b, n)
    ensures Gcd(diff, n) > 0 && Divides(Gcd(diff, n), n)
    ensures Gcd(diff, n) == n <==> Congruent(a, b, n)
    ensures Gcd(diff, n) == 1 ==> Congruent(a, -b, n)
  {
    var g := Gcd(diff, n);
    GcdDivides(diff, n);
    if g == n {
      DividesSum(n, diff, diff - (a - b));
    }
    if Congruent(a, b, n) {
      DividesSum(n, diff - (a - b), a - b);
      assert Divides(n, diff);
      GcdOfMultiple(diff, n);
    }
    if g == 1 {
      DividesTimes(n, diff - (a - b), a + b);
      assert (diff - (a - b)) * (a + b) + (a * a - b * b) == diff * (a + b);
      DividesSum(n, (diff - (a - b)) * (a + b), a * a - b * b);
      CoprimeDivides(n, diff, a + b);
    }
  }

  lemma GcdOfMultiple(d: nat, n: nat)
    requires n > 0 && Divides(n, d)
    ensures Gcd(d, n) == n
  {
    assert Gcd(n, 0) == n;
  }

  // ----- the computation

  method SquareRoots(dep: Row, xs: seq<nat>, rels: seq<seq<nat>>, factor_base: seq<int>, m: nat, n: nat)
    returns (a: int, b: int)
    requires n > 0 && Relations(factor_base, xs, rels, m, n) && |dep| == |rels|
    ensures Congruent(a, A(dep, xs, m), n) && 0 <= a
    ensures Congruent(b, B(factor_base, dep, rels), n) && b <= n
  {
    a, b := 1, 1;
    var width := |factor_base|;
    var total_exponents: seq<nat> := seq(width, i => 0);
    CongruentRefl(1, n);
    for j := 0 to |dep|
      invariant 0 <= a && Congruent(a, RootProduct(dep, xs, m, j), n)
      invariant total_exponents == Totals(width, dep, rels, j)
    {
      if dep[j] {
        var x_plus_m := xs[j] + m;
        CongruentTruncStep(a, RootProduct(dep, xs, m, j), x_plus_m, n);
        a := TruncMod(a * x_plus_m, n);
        total_exponents := SumInto(total_exponents, rels[j]);
      }
    }
    ghost var halves := Halves(total_exponents);
    var k := 0;
    while k < width
      invariant 0 <= k <= width == |total_exponents|
      invariant forall i :: 0 <= i < width ==>
                  total_exponents[i] == if i < k then halves[i] else Totals(width, dep, rels, |rels|)[i]
    {
      total_exponents := total_exponents[k := total_exponents[k] / 2];
      k := k + 1;
    }
    assert total_exponents == halves;
    b := PowerProduct(factor_base, total_exponents, n);
  }

  // The product of the powers, reduced as it goes.
  method PowerProduct(factor_base: seq<int>, exponents: seq<nat>, n: nat) returns (b: int)
    requires n > 0 && |exponents| == |factor_base|
    ensures Congruent(b, Product(factor_base, exponents, 0), n) && b <= n
  {
    b := 1;
    CongruentRefl(1, n);
    var k := 0;
    ghost var done := 1;
    while k < |factor_base|
      invariant 0 <= k <= |factor_base| && b <= n
      invariant Congruent(b, done, n)
      invariant done * Product(factor_base, exponents, k) == Product(factor_base, exponents, 0)
    {
      ghost var power := Pow(factor_base[k], exponents[k]);
      ghost var rest := Product(factor_base, exponents, k + 1);
      assert done * (power * rest) == (done * power) * rest;
      if exponents[k] > 0 {
        var temp_pow := Pow(factor_base[k], exponents[k]);
        CongruentTruncStep(b, done, temp_pow, n);
        b := TruncMod(b * temp_pow, n);
      } else {
        assert power == 1;
      }
      done := done * power;
      k := k + 1;
    }
  }

  method SumInto(total: seq<nat>, row: seq<nat>) returns (sum: seq<nat>)
    requires |total| == |row|
    ensures sum == Add(total, row)
  {
    sum := total;
    for k := 0 to |total|
      invariant |sum| == |total|
      invariant forall i :: 0 <= i < |total| ==> sum[i] == if i < k then total[i] + row[i] else total[i]
    {
      sum := sum[k := sum[k] + row[k]];
    }
  }

  lemma CongruentRefl(a: int, n: nat)
    requires n > 0
    ensures Congruent(a, a, n)
  {
  }

  lemma CongruentTruncStep(a: int, a': int, z: int, n: nat)
    requires n > 0 && Congruent(a, a', n)
    ensures Congruent(TruncMod(a * z, n), a' * z, n)
    ensures TruncMod(a * z, n) < n
    ensures a >= 0 && z >= 0 ==> TruncMod(a * z, n) >= 0
  {
    if a >= 0 && z >= 0 {
      TimesMonotone(a, 0, z);
    }
    CongruentRefl(z, n);
    CongruentMultiply(a, a', z, z, n);
    TruncModCongruent(a * z, n);
    CongruentTransitive(TruncMod(a * z, n), a * z, a' * z, n);
  }

  // Roots of a dependency that are congruent up to sign are no use for factoring.
  ghost predicate Useless(base: seq<int>, xs: seq<nat>, rels: seq<seq<nat>>, m: int, n: nat, dep: Row)
    requires n > 0 && |dep| == |xs| == |rels| && forall j :: 0 <= j < |rels| ==> |rels[j]| == |base|
  {
    || Congruent(A(dep, xs, m), B(base, dep, rels), n)
    || Congruent(A(dep, xs, m), -B(base, dep, rels), n)
  }

  /** One dependency. A reported factor is proper and its complement multiplies back to n;
      nothing is reported only when the two roots are congruent up to sign (or n has no factor to find). */
  method TryDependency(dep: Row, xs: seq<nat>, rels: seq<seq<nat>>, factor_base: seq<int>, m: nat, n: nat)
    returns (found: bool, factor: nat, complement: nat)
    requires n > 0 && Relations(factor_base, xs, rels, m, n) && Dependency(rels, |factor_base|, dep)
    ensures found ==> 1 < factor < n && factor * complement == n
    ensures !found ==> Useless(factor_base, xs, rels, m, n, dep)
  {
    var a, b := SquareRoots(dep, xs, rels, factor_base, m, n);
    var diff := a - b;
    if diff < 0 {
      diff := diff + n;
    }
    var gcd_value := Gcd(diff, n);
    factor, complement := gcd_value, 0;
    DifferenceGcd(dep, xs, rels, factor_base, m, n, a, b, diff);
    if gcd_value > 1 && gcd_value < n {
      complement := n / gcd_value;
      assert n == gcd_value * complement;
      return true, factor, complement;
    }
    found := false;
  }

  lemma DifferenceCongruent(a: int, b: int, a': int, b': int, diff: int, n: nat)
    requires n > 0 && Congruent(a, a', n) && Congruent(b, b', n)
    requires diff == a - b || diff == a - b + n
    ensures Congruent(diff, a' - b', n)
  {
    DividesSum(n, a - a', b - b');
    assert (a - a') - (b - b') == (a - b) - (a' - b');
    DividesSum(n, (a - b) - (a' - b'), diff - (a - b));
  }

  lemma DifferenceGcd(dep: Row, xs: seq<nat>, rels: seq<seq<nat>>, base: seq<int>, m: nat, n: nat, a: int, b: int,
                      diff: nat)
    requires n > 0 && Relations(base, xs, rels, m, n) && Dependency(rels, |base|, dep)
    requires Congruent(a, A(dep, xs, m), n) && Congruent(b, B(base, dep, rels), n)
    requires diff == a - b || diff == a - b + n
    ensures Gcd(diff, n) > 0 && Divides(Gcd(diff, n), n)
    ensures Gcd(diff, n) == 1 || Gcd(diff, n) >= n ==> Useless(base, xs, rels, m, n, dep)
  {
    var a', b' := A(dep, xs, m), B(base, dep, rels);
    CongruenceOfSquares(base, xs, rels, m, n, dep);
    DifferenceCongruent(a, b, a', b', diff, n);
    GcdOfDifference(a', b', diff, n);
    DivisorAtMost(Gcd(diff, n), n);
  }

  /** Steps 7 to 9: reduce the exponents mod 2, find the dependencies, and try each in turn. */
  method FindFactor(xs: seq<nat>, smooth_relations: seq<seq<nat>>, factor_base: seq<int>, m: nat, n: nat)
    returns (found: bool, factor: nat, complement: nat)
    requires n > 0 && Relations(factor_base, xs, smooth_relations, m, n) && |smooth_relations| > 0
    ensures found ==> 1 < factor < n && factor * complement == n
    ensures !found ==>
      forall d :: 0 <= d < |Elimination.Dependencies(Parities(smooth_relations), |factor_base|)| ==>
        var dep := Elimination.Dependencies(Parities(smooth_relations), |factor_base|)[d];
        |dep| == |smooth_relations| && Useless(factor_base, xs, smooth_relations, m, n, dep)
  {
    var matrix_mod2 := Parities(smooth_relations);
    assert Factors(factor_base, smooth_relations[0], (xs[0] + m) * (xs[0] + m) - n);
    var dependencies := Elimination.FindDependencies(matrix_mod2);
    var i := 0;
    while i < |dependencies|
      invariant 0 <= i <= |dependencies|
      invariant forall d :: 0 <= d < i ==>
        |dependencies[d]| == |smooth_relations| &&
        Useless(factor_base, xs, smooth_relations, m, n, dependencies[d])
    {
      found, factor, complement := TryDependency(dependencies[i], xs, smooth_relations, factor_base, m, n);
      if found {
        return;
      }
      i := i + 1;
    }
    found, factor, complement := false, 0, 0;
  }
}
