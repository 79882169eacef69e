/** Sieving split over ranks, the gathers, and the reassembly on the root (working.cpp, main).
    MPI_Gatherv is modelled as the copy it performs: rank i's data lands at displs[i]. */
module Sieving {
  import opened NumberTheory
  import opened Smoothness
  import opened FactorBase
  import Congruence
  import Elimination

  // The smooth x in [lo, hi), in order: what one rank sieving the range alone would find.
  ghost function SmoothXs(base: seq<int>, m: int, n: int, lo: nat, hi: nat): seq<nat>
    requires lo <= hi
  {
    if lo == hi then [] else
      SmoothXs(base, m, n, lo, hi - 1) + if Smooth(base, Qx(hi - 1, m, n)) then [hi - 1] else []
  }

  // rels[i] is the exponent vector of Q at xs[i].
  ghost predicate Vectors(base: seq<int>, m: int, n: int, xs: seq<nat>, rels: seq<seq<nat>>) {
    |rels| == |xs| && forall i :: 0 <= i < |xs| ==> Factors(base, rels[i], Qx(xs[i], m, n))
  }

  lemma {:induction false} SmoothXsSplit(base: seq<int>, m: int, n: int, lo: nat, mid: nat, hi: nat)
    requires lo <= mid <= hi
    ensures SmoothXs(base, m, n, lo, hi) == SmoothXs(base, m, n, lo, mid) + SmoothXs(base, m, n, mid, hi)
    decreases hi
  {
    if mid < hi {
      SmoothXsSplit(base, m, n, lo, mid, hi - 1);
    }
  }

  // ----- splitting the range

  function RangeStart(rank: nat, world_size: nat, x_min: nat, x_max: nat): nat
    requires rank < world_size && x_min <= x_max + 1
  {
    var total_x := x_max - x_min + 1;
    var x_per_process := total_x / world_size;
    var remainder := total_x % world_size;
    if rank < remainder then x_min + rank * (x_per_process + 1)
    else x_min + rank * x_per_process + remainder
  }

  function RangeEnd(rank: nat, world_size: nat, x_min: nat, x_max: nat): int
    requires rank < world_size && x_min <= x_max + 1
  {
    var total_x := x_max - x_min + 1;
    var x_per_process := total_x / world_size;
    var remainder := total_x % world_size;
    var end := if rank < remainder then RangeStart(rank, world_size, x_min, x_max) + x_per_process
               else RangeStart(rank, world_size, x_min, x_max) + x_per_process - 1;
    if end > x_max then x_max else end
  }

  // The ranges follow one another without gap or overlap, from x_min to x_max.
  lemma RangesTile(rank: nat, world_size: nat, x_min: nat, x_max: nat)
    requires rank < world_size && x_min <= x_max + 1
    ensures RangeStart(0, world_size, x_min, x_max) == x_min
    ensures x_min <= RangeStart(rank, world_size, x_min, x_max)
                  <= RangeEnd(rank, world_size, x_min, x_max) + 1 <= x_max + 1
    ensures RangeEnd(rank, world_size, x_min, x_max) + 1 ==
            if rank + 1 < world_size then RangeStart(rank + 1, world_size, x_min, x_max) else x_max + 1
  {
    var total_x := x_max - x_min + 1;
    var q, r := total_x / world_size, total_x % world_size;
    assert total_x == world_size * q + r;
    RankShare(rank, world_size, q);
  }

  lemma RankShare(rank: nat, world_size: nat, q: nat)
    requires rank < world_size
    ensures (rank + 1) * q == rank * q + q && (rank + 1) * (q + 1) == rank * (q + 1) + q + 1
    ensures rank * (q + 1) == rank * q + rank
    ensures (rank + 1) * q <= world_size * q
    ensures rank + 1 == world_size ==> (rank + 1) * q == world_size * q
  {
    TimesMonotone(q, rank + 1, world_size);
    assert q * (rank + 1) == (rank + 1) * q && q * world_size == world_size * q;
  }

  // ----- each rank's sieve

  method SieveRange(start: nat, end: int, m: nat, n: nat, factor_base: seq<int>)
    returns (local_smooth_relations: seq<seq<nat>>, local_smooth_x: seq<nat>)
    requires IsFactorBase(factor_base) && start <= end + 1
    ensures local_smooth_x == SmoothXs(factor_base, m, n, start, end + 1)
    ensures Vectors(factor_base, m, n, local_smooth_x, local_smooth_relations)
  {
    local_smooth_relations, local_smooth_x := [], [];
    for x := start to end + 1
      invariant local_smooth_x == SmoothXs(factor_base, m, n, start, x)
      invariant Vectors(factor_base, m, n, local_smooth_x, local_smooth_relations)
    {
      var exponents := FactorizeQx(Qx(x, m, n), factor_base);
      if exponents != [] {
        assert Factors(factor_base, exponents, Qx(x, m, n));
        local_smooth_relations := local_smooth_relations + [exponents];
        local_smooth_x := local_smooth_x + [x];
      }
    }
  }

  // ----- gathering

  function Concat<T>(parts: seq<seq<T>>, k: nat): seq<T>
    requires k <= |parts|
  {
    if k == 0 then [] else Concat(parts, k - 1) + parts[k - 1]
  }

  // Counts, displacements, then every rank's data copied to its displacement.
  method Gatherv<T(0)>(locals: seq<seq<T>>) returns (all: seq<T>)
    requires |locals| > 0
    ensures all == Concat(locals, |locals|)
  {
    var world_size := |locals|;
    var recv_counts := seq(world_size, i requires 0 <= i < world_size => |locals[i]|);
    var displs := seq(world_size, i => 0);
    var total_recv := recv_counts[0];
    assert Concat(locals, 0) == [];
    for i := 1 to world_size
      invariant |displs| == world_size && displs[0] == 0
      invariant total_recv == |Concat(locals, i)|
      invariant forall j :: 0 <= j < i ==> displs[j] == |Concat(locals, j)|
    {
      displs := displs[i := displs[i - 1] + recv_counts[i - 1]];
      total_recv := total_recv + recv_counts[i];
    }
    var buffer := new T[total_recv];
    for i := 0 to world_size
      invariant buffer.Length == |Concat(locals, world_size)|
      invariant |Concat(locals, i)| <= buffer.Length
      invariant buffer[..|Concat(locals, i)|] == Concat(locals, i)
    {
      ConcatPrefix(locals, i + 1, world_size);
      CopyInto(buffer, displs[i], locals[i]);
    }
    all := buffer[..];
    assert buffer[..] == buffer[..buffer.Length];
  }

  // A received part goes to its displacement.
  method CopyInto<T>(buffer: array<T>, at: nat, part: seq<T>)
    requires at + |part| <= buffer.Length
    modifies buffer
    ensures buffer[..at + |part|] == old(buffer[..at]) + part
  {
    for k := 0 to |part|
      invariant buffer[..at + k] == old(buffer[..at]) + part[..k]
    {
      buffer[at + k] := part[k];
      assert part[..k + 1] == part[..k] + [part[k]];
    }
  }

  lemma {:induction false} ConcatPrefix<T>(parts: seq<seq<T>>, i: nat, k: nat)
    requires i <= k <= |parts|
    ensures |Concat(parts, i)| <= |Concat(parts, k)|
  {
    if i < k {
      ConcatPrefix(parts, i, k - 1);
    }
  }

  // Laying out rows one after another, and reading them back by index.
  lemma {:induction false} FlatLength<T>(rows: seq<seq<T>>, w: nat, k: nat)
    requires k <= |rows| && forall i :: 0 <= i < |rows| ==> |rows[i]| == w
    ensures |Concat(rows, k)| == k * w
  {
    if k > 0 {
      FlatLength(rows, w, k - 1);
      assert k * w == (k - 1) * w + w;
    }
  }

  lemma {:induction false} FlatEntry<T>(rows: seq<seq<T>>, w: nat, k: nat, i: nat, j: nat)
    requires i < k <= |rows| && j < w && forall r :: 0 <= r < |rows| ==> |rows[r]| == w
    ensures 0 <= i * w + j < |Concat(rows, k)|
    ensures Concat(rows, k)[i * w + j] == rows[i][j]
  {
    FlatIndex(i, j, w, k);
    FlatLength(rows, w, k);
    FlatLength(rows, w, k - 1);
    if i < k - 1 {
      FlatEntry(rows, w, k - 1, i, j);
    }
  }

  lemma FlatIndex(i: nat, j: nat, w: nat, k: nat)
    requires i < k && j < w
    ensures 0 <= i * w + j < (i + 1) * w <= k * w
  {
    TimesMonotone(w, i + 1, k);
    assert (i + 1) * w == i * w + w;
    TimesMonotone(w, 0, i);
  }

  method Flatten(rows: seq<seq<nat>>) returns (flat: seq<nat>)
    ensures flat == Concat(rows, |rows|)
  {
    flat := [];
    for k := 0 to |rows|
      invariant flat == Concat(rows, k)
    {
      flat := flat + rows[k];
    }
  }

  method Reshape(flat: seq<nat>, width: nat, ghost rows: seq<seq<nat>>) returns (relations: seq<seq<nat>>)
    requires width > 0 && (forall i :: 0 <= i < |rows| ==> |rows[i]| == width)
    requires flat == Concat(rows, |rows|)
    ensures relations == rows
  {
    FlatLength(rows, width, |rows|);
    DivisionUnique(|flat|, width, |rows|, 0);
    var num_relations := |flat| / width;
    relations := [];
    for i := 0 to num_relations
      invariant relations == rows[..i]
    {
      var row: seq<nat> := [];
      for j := 0 to width
        invariant row == rows[i][..j]
      {
        FlatEntry(rows, width, num_relations, i, j);
        row := row + [flat[i * width + j]];
      }
      assert row == rows[i];
      relations := relations + [row];
    }
  }

  // Flattening rank by rank and gathering is the flattening of all rows.
  lemma ConcatOne<T>(parts: seq<seq<T>>, k: nat)
    requires 0 < k <= |parts|
    ensures Concat(parts, k) == Concat(parts, k - 1) + parts[k - 1]
  {
  }

  lemma {:induction false} ConcatConcat<T>(locals: seq<seq<seq<T>>>, flats: seq<seq<T>>, k: nat)
    requires |flats| == |locals| && k <= |locals|
    requires forall i :: 0 <= i < |locals| ==> flats[i] == Concat(locals[i], |locals[i]|)
    ensures Concat(flats, k) == Concat(Concat(locals, k), |Concat(locals, k)|)
  {
    if k > 0 {
      ConcatConcat(locals, flats, k - 1);
      ConcatAppend(Concat(locals, k - 1), locals[k - 1], |locals[k - 1]|);
      ConcatOne(locals, k);
      ConcatOne(flats, k);
    }
  }

  lemma {:induction false} ConcatAppend<T>(a: seq<seq<T>>, b: seq<seq<T>>, k: nat)
    requires k <= |b|
    ensures Concat(a + b, |a| + k) == Concat(a, |a|) + Concat(b, k)
  {
    if k > 0 {
      ConcatAppend(a, b, k - 1);
    } else {
      ConcatOfPrefix(a, b, |a|);
    }
  }

  lemma {:induction false} ConcatOfPrefix<T>(a: seq<seq<T>>, b: seq<seq<T>>, k: nat)
    requires k <= |a|
    ensures Concat(a + b, k) == Concat(a, k)
  {
    if k > 0 {
      ConcatOfPrefix(a, b, k - 1);
    }
  }

  lemma NothingSieved(base: seq<int>, m: int, n: int, lo: nat)
    ensures Concat<nat>([], 0) == [] && Concat<seq<nat>>([], 0) == [] && SmoothXs(base, m, n, lo, lo) == []
    ensures Vectors(base, m, n, [], [])
  {
  }

  // One more rank, with the part of the range from mid to hi.
  lemma SievedMore(base: seq<int>, m: int, n: int, lo: nat, mid: nat, hi: nat, xs: seq<seq<nat>>,
                   rels: seq<seq<seq<nat>>>, x: seq<nat>, rel: seq<seq<nat>>)
    requires |xs| == |rels| && lo <= mid <= hi && Concat(xs, |xs|) == SmoothXs(base, m, n, lo, mid)
    requires Vectors(base, m, n, Concat(xs, |xs|), Concat(rels, |rels|))
    requires x == SmoothXs(base, m, n, mid, hi) && Vectors(base, m, n, x, rel)
    ensures Concat(xs + [x], |xs| + 1) == SmoothXs(base, m, n, lo, hi)
    ensures Vectors(base, m, n, Concat(xs + [x], |xs| + 1), Concat(rels + [rel], |xs| + 1))
  {
    hide Factors, SmoothXs;
    SmoothXsSplit(base, m, n, lo, mid, hi);
    ConcatOfPrefix(xs, [x], |xs|);
    ConcatOfPrefix(rels, [rel], |rels|);
  }

  lemma VectorsWidth(base: seq<int>, m: int, n: int, xs: seq<nat>, rels: seq<seq<nat>>)
    requires Vectors(base, m, n, xs, rels)
    ensures forall i :: 0 <= i < |rels| ==> |rels[i]| == |base|
  {
  }

  /** The whole of step 5 for any number of ranks: the root ends up with exactly what one rank sieving
      [x_min, x_max] would have, in the same order, each row the exponent vector of its own x. */
  method Sieve(world_size: nat, x_min: nat, x_max: nat, m: nat, n: nat, factor_base: seq<int>)
    returns (all_smooth_x: seq<nat>, smooth_relations: seq<seq<nat>>)
    requires world_size >= 1 && x_min <= x_max + 1 && IsFactorBase(factor_base)
    ensures all_smooth_x == SmoothXs(factor_base, m, n, x_min, x_max + 1)
    ensures Vectors(factor_base, m, n, all_smooth_x, smooth_relations)
  {
    hide RangeStart, RangeEnd, Factors, Smooth, SmoothXs, Vectors, Concat;
    RangesTile(0, world_size, x_min, x_max);
    NothingSieved(factor_base, m, n, x_min);
    var xs: seq<seq<nat>> := [];
    var relations: seq<seq<seq<nat>>> := [];
    var flats: seq<seq<nat>> := [];
    ghost var next := x_min;
    for rank := 0 to world_size
      invariant |xs| == |relations| == |flats| == rank
      invariant next == if rank < world_size then RangeStart(rank, world_size, x_min, x_max) else x_max + 1
      invariant x_min <= next && Concat(xs, rank) == SmoothXs(factor_base, m, n, x_min, next)
      invariant Vectors(factor_base, m, n, Concat(xs, rank), Concat(relations, rank))
      invariant forall i :: 0 <= i < rank ==> flats[i] == Concat(relations[i], |relations[i]|)
    {
      RangesTile(rank, world_size, x_min, x_max);
      var local_x_start := RangeStart(rank, world_size, x_min, x_max);
      var local_x_end := RangeEnd(rank, world_size, x_min, x_max);
      var local_relations, local_x := SieveRange(local_x_start, local_x_end, m, n, factor_base);
      var flat := Flatten(local_relations);
      SievedMore(factor_base, m, n, x_min, local_x_start, local_x_end + 1, xs, relations, local_x, local_relations);
      xs, relations, flats := xs + [local_x], relations + [local_relations], flats + [flat];
      next := local_x_end + 1;
    }
    all_smooth_x := Gatherv(xs);
    var all_exponents_flat := Gatherv(flats);
    ghost var rows := Concat(relations, world_size);
    ConcatConcat(relations, flats, world_size);
    VectorsWidth(factor_base, m, n, all_smooth_x, rows);
    smooth_relations := Reshape(all_exponents_flat, |factor_base|, rows);
  }

  // Every dependency found among the relations has roots that are congruent up to sign.
  ghost predicate AllUseless(base: seq<int>, xs: seq<nat>, rels: seq<seq<nat>>, m: int, n: nat)
    requires n > 0 && Vectors(base, m, n, xs, rels)
  {
    var deps := Elimination.Dependencies(Congruence.Parities(rels), |base|);
    forall d :: 0 <= d < |deps| ==> |deps[d]| == |rels| && Congruence.Useless(base, xs, rels, m, n, deps[d])
  }

  /** The program from end to end, for any limits and any number of ranks: a reported factor of n is proper, and none
      is reported only when no x of the range is smooth or every dependency among the smooth ones is useless. */
  method QuadraticSieve(n: nat, prime_limit: nat, x_min: nat, x_max: nat, world_size: nat)
    returns (found: bool, factor: nat, complement: nat, ghost m: nat, ghost base: seq<int>, ghost rels: seq<seq<nat>>)
    requires n > 0 && prime_limit >= 1 && world_size >= 1 && x_min <= x_max + 1
    ensures found ==> 1 < factor < n && factor * complement == n
    ensures m * m <= n < (m + 1) * (m + 1) && BaseOf(base, n, prime_limit)
    ensures Vectors(base, m, n, SmoothXs(base, m, n, x_min, x_max + 1), rels)
    ensures found ==> rels != []
    ensures !found && rels != [] ==> AllUseless(base, SmoothXs(base, m, n, x_min, x_max + 1), rels, m, n)
  {
    var root := FloorSqrt(n);
    m := root;
    var factor_base := BuildFactorBase(n, prime_limit);
    var xs, smooth_relations := Sieve(world_size, x_min, x_max, root, n, factor_base);
    base, rels := factor_base, smooth_relations;
    if |smooth_relations| == 0 {
      return false, 0, 0, root, base, rels;
    }
    assert Congruence.Relations(factor_base, xs, smooth_relations, root, n);
    found, factor, complement := Congruence.FindFactor(xs, smooth_relations, factor_base, root, n);
  }
}
