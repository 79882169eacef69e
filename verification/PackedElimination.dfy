/** The bit-packed elimination (submit.cpp, findDependenciesOptimized) against the plain one: its row additions
    reach only the tracking columns that fit the blocks of the matrix, and exactly when that matters. */
module PackedElimination {
  import opened Gf2
  import opened Elimination

  // ----- elimination whose tracking additions stop at column h

  function XorLow(a: Row, b: Row, h: nat): (r: Row)
    requires |a| == |b|
    ensures |r| == |a|
  {
    seq(|a|, i requires 0 <= i < |a| => if i < h then a[i] != b[i] else a[i])
  }

  function AddLow(m: Matrix, src: nat, dst: nat, h: nat): Matrix
    requires src < |m| && dst < |m| && |m[src]| == |m[dst]|
  {
    m[dst := XorLow(m[dst], m[src], h)]
  }

  function LowClear(t: Tableau, w: nat, row: nat, c: nat, from: nat, h: nat): (t': Tableau)
    requires Shape(t, w) && row < |t.m| && c < w && from <= |t.m|
    ensures Shape(t', w) && |t'.m| == |t.m| && t'.pivots == t.pivots
    decreases |t.m| - from
  {
    if from == |t.m| then t
    else if from != row && t.m[from][c] then
      LowClear(Tableau(AddRow(t.m, row, from), AddLow(t.id, row, from, h), t.pivots), w, row, c, from + 1, h)
    else LowClear(t, w, row, c, from + 1, h)
  }

  function LowPivotOn(t: Tableau, w: nat, c: nat, p: nat, h: nat): (t': Tableau)
    requires Shape(t, w) && c < w && |t.pivots| <= p < |t.m|
    ensures Shape(t', w) && |t'.m| == |t.m| && t'.pivots == t.pivots + [c]
  {
    var row := |t.pivots|;
    LowClear(Tableau(Swap(t.m, row, p), Swap(t.id, row, p), t.pivots + [c]), w, row, c, 0, h)
  }

  function LowReduce(t: Tableau, w: nat, c: nat, h: nat): (t': Tableau)
    requires Shape(t, w) && c <= w && |t.pivots| <= |t.m|
    ensures Shape(t', w) && |t'.m| == |t.m|
    decreases w - c
  {
    var row := |t.pivots|;
    if c == w || row == |t.m| then t else
    var p := FindPivot(t.m, c, row);
    if p == |t.m| then LowReduce(t, w, c + 1, h) else LowReduce(LowPivotOn(t, w, c, p, h), w, c + 1, h)
  }

  function LowDependencies(input: Matrix, w: nat, h: nat): Matrix
    requires Rectangular(input, w)
  {
    var t := LowReduce(Start(input), w, 0, h);
    ZeroRows(t, |t.m|)
  }

  // ----- how far the two agree

  // What clearing does to the tracking rows.
  lemma {:induction false} ClearIds(t: Tableau, w: nat, row: nat, c: nat, from: nat, r: nat)
    requires Shape(t, w) && row < |t.m| && c < w && from <= |t.m| && r < |t.m|
    ensures Clear(t, w, row, c, from).id[r] ==
            if from <= r && r != row && t.m[r][c] then XorRow(t.id[r], t.id[row]) else t.id[r]
    decreases |t.m| - from
  {
    if from == |t.m| {
    } else if from != row && t.m[from][c] {
      ClearIds(Tableau(AddRow(t.m, row, from), AddRow(t.id, row, from), t.pivots), w, row, c, from + 1, r);
    } else {
      ClearIds(t, w, row, c, from + 1, r);
    }
  }

  lemma {:induction false} LowClearIds(t: Tableau, w: nat, row: nat, c: nat, from: nat, h: nat, r: nat)
    requires Shape(t, w) && row < |t.m| && c < w && from <= |t.m| && r < |t.m|
    ensures LowClear(t, w, row, c, from, h).id[r] ==
            if from <= r && r != row && t.m[r][c] then XorLow(t.id[r], t.id[row], h) else t.id[r]
    decreases |t.m| - from
  {
    if from == |t.m| {
    } else if from != row && t.m[from][c] {
      LowClearIds(Tableau(AddRow(t.m, row, from), AddLow(t.id, row, from, h), t.pivots), w, row, c, from + 1, h, r);
    } else {
      LowClearIds(t, w, row, c, from + 1, h, r);
    }
  }

  // The matrix itself is reduced alike.
  lemma {:induction false} LowClearMatrix(t: Tableau, u: Tableau, w: nat, row: nat, c: nat, from: nat, h: nat)
    requires Shape(t, w) && Shape(u, w) && u.m == t.m && row < |t.m| && c < w && from <= |t.m|
    ensures LowClear(u, w, row, c, from, h).m == Clear(t, w, row, c, from).m
    decreases |t.m| - from
  {
    if from == |t.m| {
    } else if from != row && t.m[from][c] {
      LowClearMatrix(Tableau(AddRow(t.m, row, from), AddRow(t.id, row, from), t.pivots),
        Tableau(AddRow(u.m, row, from), AddLow(u.id, row, from, h), u.pivots), w, row, c, from + 1, h);
    } else {
      LowClearMatrix(t, u, w, row, c, from + 1, h);
    }
  }

  // Column h is the last one: it is still the unit it was at the bottom row, or no row below the pivots has it.
  predicate LastColumn(t: Tableau, u: Tableau, h: nat)
    requires |t.m| == |t.id| == |u.id| == h + 1 && Rectangular(t.id, h + 1) && Rectangular(u.id, h + 1)
  {
    || (|t.pivots| <= h && forall r :: 0 <= r <= h ==> t.id[r][h] == (r == h) && u.id[r][h] == (r == h))
    || (forall r :: |t.pivots| <= r <= h ==> !t.id[r][h] && !u.id[r][h])
  }

  // The plain tableau t and the packed one u.
  predicate Agree(t: Tableau, u: Tableau, w: nat, h: nat) {
    && Shape(t, w) && Shape(u, w) && u.m == t.m && u.pivots == t.pivots && |t.m| <= h + 1
    && (forall r, j :: 0 <= r < |t.m| && 0 <= j < |t.m| && j < h ==> u.id[r][j] == t.id[r][j])
    && (|t.m| == h + 1 ==> LastColumn(t, u, h))
  }

  lemma PivotAgrees(t: Tableau, u: Tableau, w: nat, h: nat, c: nat)
    requires Agree(t, u, w, h) && c < w && |t.pivots| <= |t.m|
    requires var p := FindPivot(t.m, c, |t.pivots|); p < |t.m|
    ensures var p := FindPivot(t.m, c, |t.pivots|);
            Agree(PivotOn(t, w, c, p), LowPivotOn(u, w, c, p, h), w, h)
  {
    var row := |t.pivots|;
    var p := FindPivot(t.m, c, row);
    var s := Tableau(Swap(t.m, row, p), Swap(t.id, row, p), t.pivots + [c]);
    var v := Tableau(Swap(u.m, row, p), Swap(u.id, row, p), u.pivots + [c]);
    hide Clear, LowClear, FindPivot;
    LowClearMatrix(s, v, w, row, c, 0, h);
    var t', u' := PivotOn(t, w, c, p), LowPivotOn(u, w, c, p, h);
    forall r | 0 <= r < |t.m|
      ensures t'.id[r] == if r != row && s.m[r][c] then XorRow(s.id[r], s.id[row]) else s.id[r]
      ensures u'.id[r] == if r != row && s.m[r][c] then XorLow(v.id[r], v.id[row], h) else v.id[r]
    {
      ClearIds(s, w, row, c, 0, r);
      LowClearIds(v, w, row, c, 0, h, r);
    }
    LowColumns(s, v, t', u', w, h, row, c);
    if |t.m| == h + 1 {
      LastColumnKept(t, u, w, h, c);
    }
  }

  lemma LowColumns(s: Tableau, v: Tableau, t': Tableau, u': Tableau, w: nat, h: nat, row: nat, c: nat)
    requires Shape(s, w) && Shape(v, w) && Shape(t', w) && Shape(u', w) && |s.m| == |v.m| == |t'.m| == |u'.m|
    requires row < |s.m| && c < w
    requires forall r, j :: 0 <= r < |s.m| && 0 <= j < |s.m| && j < h ==> v.id[r][j] == s.id[r][j]
    requires forall r :: 0 <= r < |s.m| ==>
        t'.id[r] == if r != row && s.m[r][c] then XorRow(s.id[r], s.id[row]) else s.id[r]
    requires forall r :: 0 <= r < |s.m| ==>
        u'.id[r] == if r != row && s.m[r][c] then XorLow(v.id[r], v.id[row], h) else v.id[r]
    ensures forall r, j :: 0 <= r < |s.m| && 0 <= j < |s.m| && j < h ==> u'.id[r][j] == t'.id[r][j]
  {
    forall r, j | 0 <= r < |s.m| && 0 <= j < |s.m| && j < h
      ensures u'.id[r][j] == t'.id[r][j]
    {
      assert v.id[r][j] == s.id[r][j] && v.id[row][j] == s.id[row][j];
    }
  }

  // The bottom row is the pivot only when no other row below the pivots has a one, so its bit is never added to one.
  lemma LastColumnKept(t: Tableau, u: Tableau, w: nat, h: nat, c: nat)
    requires Agree(t, u, w, h) && c < w && |t.pivots| <= |t.m| == h + 1
    requires var p := FindPivot(t.m, c, |t.pivots|); p < |t.m|
    ensures var p := FindPivot(t.m, c, |t.pivots|);
            LastColumn(PivotOn(t, w, c, p), LowPivotOn(u, w, c, p, h), h)
  {
    var row := |t.pivots|;
    var p := FindPivot(t.m, c, row);
    var s := Tableau(Swap(t.m, row, p), Swap(t.id, row, p), t.pivots + [c]);
    var v := Tableau(Swap(u.m, row, p), Swap(u.id, row, p), u.pivots + [c]);
    var t', u' := PivotOn(t, w, c, p), LowPivotOn(u, w, c, p, h);
    forall r | 0 <= r < |t.m|
      ensures t'.id[r][h] == (if r != row && s.m[r][c] then s.id[r][h] != s.id[row][h] else s.id[r][h])
      ensures u'.id[r][h] == v.id[r][h]
    {
      ClearIds(s, w, row, c, 0, r);
      LowClearIds(v, w, row, c, 0, h, r);
    }
    hide Clear, LowClear, FindPivot;
    if row <= h && t.id[h][h] && p < h {
      assert forall r :: 0 <= r <= h ==> t'.id[r][h] == (r == h);
    }
  }

  lemma {:induction false} ReduceAgrees(t: Tableau, u: Tableau, w: nat, h: nat, c: nat)
    requires Agree(t, u, w, h) && c <= w && |t.pivots| <= |t.m|
    ensures Agree(Reduce(t, w, c), LowReduce(u, w, c, h), w, h)
    decreases w - c
  {
    var row := |t.pivots|;
    if c < w && row < |t.m| {
      var p := FindPivot(t.m, c, row);
      if p == |t.m| {
        ReduceAgrees(t, u, w, h, c + 1);
      } else {
        PivotAgrees(t, u, w, h, c);
        ReduceAgrees(PivotOn(t, w, c, p), LowPivotOn(u, w, c, p, h), w, h, c + 1);
      }
    }
  }

  lemma PivotRowNotZero(t: Tableau, w: nat, r: nat)
    requires Reduced(t, w, w) && r < |t.pivots|
    ensures !IsZero(t.m[r])
  {
    assert t.m[r][t.pivots[r]];
  }

  lemma {:induction false} ZeroRowsAgree(t: Tableau, u: Tableau, w: nat, h: nat, k: nat)
    requires Agree(t, u, w, h) && Reduced(t, w, w) && k <= |t.m|
    ensures ZeroRows(u, k) == ZeroRows(t, k)
  {
    if k > 0 {
      ZeroRowsAgree(t, u, w, h, k - 1);
      if k - 1 < |t.pivots| {
        PivotRowNotZero(t, w, k - 1);
      } else if IsZero(t.m[k - 1]) {
        assert u.id[k - 1] == t.id[k - 1];
      }
    }
  }

  // With at most one row more than there are tracking columns in reach, nothing is lost.
  lemma LowIsPlain(input: Matrix, w: nat, h: nat)
    requires Rectangular(input, w) && |input| <= h + 1
    ensures LowDependencies(input, w, h) == Dependencies(input, w)
  {
    ReduceAgrees(Start(input), Start(input), w, h, 0);
    var t := ReducedTableau(input, w);
    ZeroRowsAgree(t, LowReduce(Start(input), w, 0, h), w, h, |input|);
  }

  // ----- with two rows more, the outcome can be wrong

  // Rows h and h + 1 are the same unit row, all others zero.
  function Twins(n: nat, w: nat, h: nat): Matrix {
    seq(n, r => seq(w, c => c == 0 && (r == h || r == h + 1)))
  }

  lemma FindPivotIs(m: Matrix, c: nat, from: nat, p: nat)
    requires from <= p < |m| && (forall r :: 0 <= r < |m| ==> c < |m[r]|)
    requires m[p][c] && forall r :: from <= r < p ==> !m[r][c]
    ensures FindPivot(m, c, from) == p
  {
  }

  lemma {:induction false} NothingLeft(t: Tableau, w: nat, c: nat, h: nat)
    requires Shape(t, w) && c <= w && |t.pivots| <= |t.m|
    requires forall r, j :: |t.pivots| <= r < |t.m| && c <= j < w ==> !t.m[r][j]
    ensures LowReduce(t, w, c, h) == t
    decreases w - c
  {
    if c < w && |t.pivots| < |t.m| {
      assert FindPivot(t.m, c, |t.pivots|) == |t.m|;
      NothingLeft(t, w, c + 1, h);
    }
  }

  lemma {:induction false} ZeroRowIsReturned(t: Tableau, k: nat, r: nat)
    requires |t.id| == |t.m| && r < k <= |t.m| && IsZero(t.m[r])
    ensures t.id[r] in ZeroRows(t, k)
  {
    if r < k - 1 {
      ZeroRowIsReturned(t, k - 1, r);
    }
  }

  // The packed elimination returns relation h + 1 alone as a dependency, which its exponents are not.
  lemma TwinsGoWrong(n: nat, w: nat, h: nat)
    requires 1 <= h && h + 2 <= n && w >= 1
    ensures var input := Twins(n, w, h);
            && Rectangular(input, w)
            && Unit(n, h + 1) in LowDependencies(input, w, h)
            && !IsZero(Combine(Unit(n, h + 1), input, w))
  {
    var input := Twins(n, w, h);
    hide Combine, LowClear, FindPivot, ZeroRows;
    UnitSelects(input, w, h + 1);
    assert input[h + 1][0];
    var t := Start(input);
    FindPivotIs(input, 0, 0, h);
    var s := Tableau(Swap(input, 0, h), Swap(Units(n), 0, h), [0]);
    var t' := LowPivotOn(t, w, 0, h, h);
    assert t.pivots + [0] == [0];
    assert t' == LowClear(s, w, 0, 0, 0, h);
    TwinsCleared(n, w, h, s, t');
    NothingLeft(t', w, 1, h);
    assert LowReduce(t, w, 0, h) == t';
    ZeroRowIsReturned(t', n, h + 1);
  }

  lemma TwinsCleared(n: nat, w: nat, h: nat, s: Tableau, t': Tableau)
    requires 1 <= h && h + 2 <= n && w >= 1
    requires s == Tableau(Swap(Twins(n, w, h), 0, h), Swap(Units(n), 0, h), [0]) && Shape(s, w)
    requires t' == LowClear(s, w, 0, 0, 0, h)
    ensures t'.id[h + 1] == Unit(n, h + 1) && forall r :: 1 <= r < n ==> IsZero(t'.m[r])
  {
    LowClearIds(s, w, 0, 0, 0, h, h + 1);
    assert t'.id[h + 1] == XorLow(Unit(n, h + 1), Unit(n, h), h) == Unit(n, h + 1);
    LowClearMatrix(s, s, w, 0, 0, 0, h);
    forall r | 1 <= r < n
      ensures IsZero(t'.m[r])
    {
      ClearRows(s, w, 0, 0, 0, r);
    }
  }

  const BITS_PER_BLOCK: nat := 64

  function Blocks(n: nat): nat {
    (n + BITS_PER_BLOCK - 1) / BITS_PER_BLOCK
  }

  function PackedDependencies(input: Matrix, w: nat): Matrix
    requires Rectangular(input, w)
  {
    LowDependencies(input, w, BITS_PER_BLOCK * Blocks(w))
  }

  // ----- running past the tracking rows

  // Some row other than the pivot row has a one in the pivot's column, so a row is added to it.
  predicate AddsFor(m: Matrix, w: nat, row: nat, c: nat)
    requires Rectangular(m, w) && c < w
  {
    exists r :: 0 <= r < |m| && r != row && m[r][c]
  }

  // The reduction of the columns from c on adds some row to another.
  predicate AddsFrom(t: Tableau, w: nat, c: nat, h: nat)
    requires Shape(t, w) && c <= w && |t.pivots| <= |t.m|
    decreases w - c
  {
    var row := |t.pivots|;
    if c == w || row == |t.m| then false else
    var p := FindPivot(t.m, c, row);
    if p == |t.m| then AddsFrom(t, w, c + 1, h)
    else AddsFor(Swap(t.m, row, p), w, row, c) || AddsFrom(LowPivotOn(t, w, c, p, h), w, c + 1, h)
  }

  // Overrun: a row addition reaches past the end of a tracking row, and from there on anything may happen.
  datatype Packing = Overrun | Returned(dependencies: Matrix)

  // A tracking row has as many blocks as n bits need, and a row addition goes through as many as w bits need.
  function PackedOutcome(input: Matrix, w: nat): Packing
    requires Rectangular(input, w)
  {
    if Blocks(w) > Blocks(|input|) && AddsFrom(Start(input), w, 0, BITS_PER_BLOCK * Blocks(w)) then Overrun
    else Returned(PackedDependencies(input, w))
  }

  // No matrix of n rows and w columns makes the packed elimination overrun or return anything but the dependencies.
  ghost predicate RightForAll(n: nat, w: nat) {
    forall input: Matrix | |input| == n && Rectangular(input, w) ::
      PackedOutcome(input, w) == Returned(Dependencies(input, w))
  }

  // A single row is never added to another.
  lemma {:induction false} OneRowAddsNothing(t: Tableau, w: nat, c: nat, h: nat)
    requires Shape(t, w) && c <= w && |t.pivots| <= |t.m| <= 1
    ensures !AddsFrom(t, w, c, h)
    decreases w - c
  {
    var row := |t.pivots|;
    if c < w && row < |t.m| {
      var p := FindPivot(t.m, c, row);
      if p == |t.m| {
        OneRowAddsNothing(t, w, c + 1, h);
      } else {
        OneRowAddsNothing(LowPivotOn(t, w, c, p, h), w, c + 1, h);
      }
    }
  }

  // Every row is the unit of column 0.
  function Same(n: nat, w: nat): Matrix {
    seq(n, r => seq(w, c => c == 0))
  }

  // Two equal rows are enough to run past tracking rows that are shorter than the matrix rows.
  lemma SameRowsOverrun(n: nat, w: nat)
    requires n >= 2 && Blocks(w) > Blocks(n)
    ensures Rectangular(Same(n, w), w) && PackedOutcome(Same(n, w), w) == Overrun
  {
    var input := Same(n, w);
    FindPivotIs(input, 0, 0, 0);
    assert Swap(input, 0, 0)[1][0];
  }

  // Few enough rows for the blocks of a matrix row, and blocks enough in a tracking row; or nothing to add.
  predicate Suits(n: nat, w: nat) {
    n <= 1 || w == 0 || (Blocks(w) <= Blocks(n) && n <= BITS_PER_BLOCK * Blocks(w) + 1)
  }

  lemma SuitedIsRight(input: Matrix, w: nat)
    requires Rectangular(input, w) && Suits(|input|, w)
    ensures PackedOutcome(input, w) == Returned(Dependencies(input, w))
  {
    if w > 0 {
      LowIsPlain(input, w, BITS_PER_BLOCK * Blocks(w));
    }
    if |input| <= 1 {
      OneRowAddsNothing(Start(input), w, 0, BITS_PER_BLOCK * Blocks(w));
    }
  }

  /** The packed elimination runs in bounds and is right for every matrix of n rows and w columns exactly when the
      tracking rows have no fewer blocks than the matrix rows and n is at most one more than the bits of those (or
      there is at most one row, or no column). */
  lemma PackedIsRightExactly(n: nat, w: nat)
    ensures RightForAll(n, w) <==> Suits(n, w)
  {
    if Suits(n, w) {
      forall input: Matrix | |input| == n && Rectangular(input, w)
        ensures PackedOutcome(input, w) == Returned(Dependencies(input, w))
      {
        SuitedIsRight(input, w);
      }
    } else if Blocks(w) > Blocks(n) {
      SameRowsOverrun(n, w);
      assert PackedOutcome(Same(n, w), w) != Returned(Dependencies(Same(n, w), w));
    } else {
      var h := BITS_PER_BLOCK * Blocks(w);
      TwinsGoWrong(n, w, h);
      var input := Twins(n, w, h);
      DependenciesSound(input, w);
      assert PackedOutcome(input, w) != Returned(Dependencies(input, w));
    }
  }
}
