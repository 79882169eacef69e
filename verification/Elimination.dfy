/** Gaussian elimination over GF(2) with a tracking matrix (working.cpp, findDependencies).
    Matrix entries are 0 or 1 in the source; here `true` stands for 1. */
module Elimination {
  import opened Gf2

  // The matrix under reduction, the tracking matrix, and the column of each pivot row found so far.
  datatype Tableau = Tableau(m: Matrix, id: Matrix, pivots: seq<nat>)

  function Start(input: Matrix): Tableau {
    Tableau(input, Units(|input|), [])
  }

  // First row at or below `from` with a one in column c, or |m|.
  function FindPivot(m: Matrix, c: nat, from: nat): (p: nat)
    requires from <= |m|
    requires forall r :: 0 <= r < |m| ==> c < |m[r]|
    ensures from <= p <= |m|
    ensures forall r :: from <= r < p ==> !m[r][c]
    ensures p < |m| ==> m[p][c]
    decreases |m| - from
  {
    if from == |m| || m[from][c] then from else FindPivot(m, c, from + 1)
  }

  // Clear column c from every row at or below `from` other than the pivot row.
  function Clear(t: Tableau, w: nat, row: nat, c: nat, from: nat): (t': Tableau)
    requires Shape(t, w) && row < |t.m| && c < w && from <= |t.m|
    ensures Shape(t', w) && |t'.m| == |t.m| && t'.pivots == t.pivots
    decreases |t.m| - from
  {
    if from == |t.m| then t
    else if from != row && t.m[from][c] then
      Clear(Tableau(AddRow(t.m, row, from), AddRow(t.id, row, from), t.pivots), w, row, c, from + 1)
    else Clear(t, w, row, c, from + 1)
  }

  predicate Shape(t: Tableau, w: nat) {
    && |t.id| == |t.m|
    && Rectangular(t.m, w)
    && Rectangular(t.id, |t.m|)
  }

  // The reduction of the columns from c on, |t.pivots| pivot rows being in place.
  function Reduce(t: Tableau, w: nat, c: nat): (t': Tableau)
    requires Shape(t, w) && c <= w && |t.pivots| <= |t.m|
    ensures Shape(t', w) && |t'.m| == |t.m|
    decreases w - c
  {
    var row := |t.pivots|;
    if c == w || row == |t.m| then t else
    var p := FindPivot(t.m, c, row);
    if p == |t.m| then Reduce(t, w, c + 1) else Reduce(PivotOn(t, w, c, p), w, c + 1)
  }

  // Bring row p up as the next pivot row for column c and clear the column.
  function PivotOn(t: Tableau, w: nat, c: nat, p: nat): (t': Tableau)
    requires Shape(t, w) && c < w && |t.pivots| <= p < |t.m|
    ensures Shape(t', w) && |t'.m| == |t.m| && t'.pivots == t.pivots + [c]
  {
    var row := |t.pivots|;
    Clear(Tableau(Swap(t.m, row, p), Swap(t.id, row, p), t.pivots + [c]), w, row, c, 0)
  }

  // The tracking rows of the zero rows among the first k.
  function ZeroRows(t: Tableau, k: nat): Matrix
    requires |t.id| == |t.m| && k <= |t.m|
  {
    if k == 0 then [] else
      ZeroRows(t, k - 1) + if IsZero(t.m[k - 1]) then [t.id[k - 1]] else []
  }

  function Dependencies(input: Matrix, w: nat): Matrix
    requires Rectangular(input, w)
  {
    var t := Reduce(Start(input), w, 0);
    ZeroRows(t, |t.m|)
  }

  // ----- what the reduction keeps

  // The tracking rows express the current rows in terms of the input's, and are a basis.
  ghost predicate Tracks(t: Tableau, input: Matrix, w: nat) {
    && Shape(t, w) && |t.m| == |input| && Rectangular(input, w)
    && (forall r :: 0 <= r < |t.m| ==> t.m[r] == Combine(t.id[r], input, w))
    && Spans(t.id, |input|) && Independent(t.id, |input|)
  }

  // Pivot columns are unit columns, and below the pivot rows the columns left of c are zero.
  ghost predicate Reduced(t: Tableau, w: nat, c: nat) {
    && Shape(t, w) && c <= w && |t.pivots| <= |t.m| && |t.pivots| <= c
    && (forall k :: 0 <= k < |t.pivots| ==> t.pivots[k] < c)
    && (forall k, r :: 0 <= k < |t.pivots| && 0 <= r < |t.m| ==> t.m[r][t.pivots[k]] == (r == k))
    && (forall r, j :: |t.pivots| <= r < |t.m| && 0 <= j < c ==> !t.m[r][j])
  }

  lemma StartTracks(input: Matrix, w: nat)
    requires Rectangular(input, w)
    ensures Tracks(Start(input), input, w)
  {
    UnitsAreBasis(|input|);
    forall r | 0 <= r < |input|
      ensures input[r] == Combine(Units(|input|)[r], input, w)
    {
      UnitSelects(input, w, r);
    }
  }

  lemma AddRowTracks(t: Tableau, input: Matrix, w: nat, src: nat, dst: nat)
    requires Tracks(t, input, w) && src < |t.m| && dst < |t.m| && src != dst
    ensures Tracks(Tableau(AddRow(t.m, src, dst), AddRow(t.id, src, dst), t.pivots), input, w)
  {
    AddRowKeepsBasis(t.id, |input|, src, dst);
    var row := XorRow(t.id[dst], t.id[src]);
    forall c | 0 <= c < w
      ensures XorRow(t.m[dst], t.m[src])[c] == Combine(row, input, w)[c]
    {
      DotXorLeft(t.id[dst], t.id[src], input, c, |input|);
    }
    assert XorRow(t.m[dst], t.m[src]) == Combine(row, input, w);
  }

  lemma SwapTracks(t: Tableau, input: Matrix, w: nat, i: nat, j: nat, pivots: seq<nat>)
    requires Tracks(t, input, w) && i < |t.m| && j < |t.m|
    ensures Tracks(Tableau(Swap(t.m, i, j), Swap(t.id, i, j), pivots), input, w)
  {
    SwapKeepsBasis(t.id, |input|, i, j);
  }

  lemma {:induction false} ClearTracks(t: Tableau, input: Matrix, w: nat, row: nat, c: nat, from: nat)
    requires Tracks(t, input, w) && row < |t.m| && c < w && from <= |t.m|
    ensures Tracks(Clear(t, w, row, c, from), input, w)
    decreases |t.m| - from
  {
    if from == |t.m| {
    } else if from != row && t.m[from][c] {
      AddRowTracks(t, input, w, row, from);
      ClearTracks(Tableau(AddRow(t.m, row, from), AddRow(t.id, row, from), t.pivots), input, w, row, c, from + 1);
    } else {
      ClearTracks(t, input, w, row, c, from + 1);
    }
  }

  // Clearing adds the pivot row exactly to the rows with a one in the column.
  lemma {:induction false} ClearRows(t: Tableau, w: nat, row: nat, c: nat, from: nat, r: nat)
    requires Shape(t, w) && row < |t.m| && c < w && from <= |t.m| && r < |t.m|
    ensures Clear(t, w, row, c, from).m[r] ==
            if from <= r && r != row && t.m[r][c] then XorRow(t.m[r], t.m[row]) else t.m[r]
    decreases |t.m| - from
  {
    if from == |t.m| {
    } else if from != row && t.m[from][c] {
      ClearRows(Tableau(AddRow(t.m, row, from), AddRow(t.id, row, from), t.pivots), w, row, c, from + 1, r);
    } else {
      ClearRows(t, w, row, c, from + 1, r);
    }
  }

  lemma PivotKeepsReduced(t: Tableau, w: nat, c: nat, p: nat)
    requires Reduced(t, w, c) && c < w && |t.pivots| <= p < |t.m| && t.m[p][c]
    ensures Reduced(PivotOn(t, w, c, p), w, c + 1)
  {
    hide Clear;
    var row := |t.pivots|;
    var s := Tableau(Swap(t.m, row, p), Swap(t.id, row, p), t.pivots + [c]);
    var t' := PivotOn(t, w, c, p);
    forall r | 0 <= r < |t.m|
      ensures t'.m[r] == if r != row && s.m[r][c] then XorRow(s.m[r], s.m[row]) else s.m[r]
    {
      ClearRows(s, w, row, c, 0, r);
    }
  }

  lemma SkipKeepsReduced(t: Tableau, w: nat, c: nat)
    requires Reduced(t, w, c) && c < w && FindPivot(t.m, c, |t.pivots|) == |t.m|
    ensures Reduced(t, w, c + 1)
  {
  }

  // The whole reduction: the outcome tracks the input and is fully reduced.
  lemma {:induction false} ReduceCorrect(t: Tableau, input: Matrix, w: nat, c: nat)
    requires Tracks(t, input, w) && Reduced(t, w, c)
    ensures var t' := Reduce(t, w, c);
            Tracks(t', input, w) && Reduced(t', w, w)
    decreases w - c
  {
    hide Spans, Independent, Combine, Clear;
    var row := |t.pivots|;
    if c == w {
    } else if row == |t.m| {
      assert Reduced(t, w, w);
    } else {
      var p := FindPivot(t.m, c, row);
      if p == |t.m| {
        SkipKeepsReduced(t, w, c);
        ReduceCorrect(t, input, w, c + 1);
      } else {
        SwapTracks(t, input, w, row, p, t.pivots + [c]);
        ClearTracks(Tableau(Swap(t.m, row, p), Swap(t.id, row, p), t.pivots + [c]), input, w, row, c, 0);
        PivotKeepsReduced(t, w, c, p);
        ReduceCorrect(PivotOn(t, w, c, p), input, w, c + 1);
      }
    }
  }

  // The zero rows of a fully reduced tableau are the rows below the pivots.
  lemma {:induction false} ZeroRowsAreTail(t: Tableau, w: nat, k: nat)
    requires Reduced(t, w, w) && k <= |t.m|
    ensures ZeroRows(t, k) == if k <= |t.pivots| then [] else t.id[|t.pivots|..k]
  {
    if k > 0 {
      ZeroRowsAreTail(t, w, k - 1);
      if k <= |t.pivots| {
        assert t.m[k - 1][t.pivots[k - 1]];
      } else {
        assert IsZero(t.m[k - 1]);
      }
    }
  }

  // ----- soundness and completeness of the returned dependencies

  // Each returned selection is non-empty and its rows sum to zero; there is one per row without a pivot.
  lemma DependenciesSound(input: Matrix, w: nat)
    requires Rectangular(input, w)
    ensures var deps := Dependencies(input, w);
            && Rectangular(deps, |input|)
            && |deps| + |Reduce(Start(input), w, 0).pivots| == |input| <= |deps| + w
            && forall d :: 0 <= d < |deps| ==> !IsZero(deps[d]) && IsZero(Combine(deps[d], input, w))
  {
    var t := ReducedTableau(input, w);
    forall r | |t.pivots| <= r < |t.m|
      ensures IsZero(Combine(t.id[r], input, w)) && !IsZero(t.id[r])
    {
      UnitSelects(t.id, |input|, r);
      assert Unit(|t.id|, r)[r];
    }
  }

  // Every selection whose rows sum to zero is, in exactly one way, a combination of the returned ones.
  lemma DependenciesComplete(input: Matrix, w: nat, s: Row)
    requires Rectangular(input, w) && |s| == |input| && IsZero(Combine(s, input, w))
    ensures Rectangular(Dependencies(input, w), |input|)
    ensures Generates(Dependencies(input, w), |input|, s)
  {
    var t := ReducedTableau(input, w);
    assert Generates(t.id, |input|, s);
    var u: Row :| |u| == |t.id| && Combine(u, t.id, |input|) == s;
    CombineAssociates(u, t.id, t.m, input, w);
    forall k | 0 <= k < |t.pivots|
      ensures !u[k]
    {
      DotSingle(u, t.m, t.pivots[k], |t.m|, k);
      assert Combine(u, t.m, w)[t.pivots[k]] == u[k];
    }
    CombineTail(u, t.id, |input|, |t.pivots|);
  }

  lemma DependenciesIndependent(input: Matrix, w: nat)
    requires Rectangular(input, w)
    ensures Rectangular(Dependencies(input, w), |input|)
    ensures Independent(Dependencies(input, w), |input|)
  {
    var t := ReducedTableau(input, w);
    var deps := Dependencies(input, w);
    var d := |t.pivots|;
    forall v: Row | |v| == |deps| && IsZero(Combine(v, deps, |input|))
      ensures IsZero(v)
    {
      var u := Zero(d) + v;
      CombineTail(u, t.id, |input|, d);
      assert u[d..] == v;
      assert IsZero(u);
      assert forall i :: 0 <= i < |v| ==> v[i] == u[d + i];
    }
  }

  lemma ReducedTableau(input: Matrix, w: nat) returns (t: Tableau)
    requires Rectangular(input, w)
    ensures t == Reduce(Start(input), w, 0)
    ensures Tracks(t, input, w) && Reduced(t, w, w)
    ensures Dependencies(input, w) == t.id[|t.pivots|..]
  {
    t := Reduce(Start(input), w, 0);
    StartTracks(input, w);
    ReduceCorrect(Start(input), input, w, 0);
    ZeroRowsAreTail(t, w, |t.m|);
  }

  function Width(input: Matrix): nat {
    if |input| == 0 then 0 else |input[0]|
  }

  // deps is a basis of the selections whose rows sum to zero.
  ghost predicate KernelBasis(deps: Matrix, input: Matrix, w: nat)
    requires Rectangular(input, w)
  {
    && Rectangular(deps, |input|)
    && (forall d :: 0 <= d < |deps| ==> !IsZero(deps[d]) && IsZero(Combine(deps[d], input, w)))
    && Independent(deps, |input|)
    && (forall s: Row {:trigger Generates(deps, |input|, s)} ::
          |s| == |input| && IsZero(Combine(s, input, w)) ==> Generates(deps, |input|, s))
  }

  lemma DependenciesAreKernelBasis(input: Matrix, w: nat)
    requires Rectangular(input, w)
    ensures KernelBasis(Dependencies(input, w), input, w)
    ensures |input| <= |Dependencies(input, w)| + w
  {
    DependenciesSound(input, w);
    DependenciesIndependent(input, w);
    forall s: Row | |s| == |input| && IsZero(Combine(s, input, w))
      ensures Generates(Dependencies(input, w), |input|, s)
    {
      DependenciesComplete(input, w, s);
    }
  }

  // ----- the elimination as the source runs it, in place

  method FindDependencies(matrix_mod2: Matrix) returns (dependencies: Matrix)
    requires Rectangular(matrix_mod2, Width(matrix_mod2))
    ensures dependencies == Dependencies(matrix_mod2, Width(matrix_mod2))
    ensures KernelBasis(dependencies, matrix_mod2, Width(matrix_mod2))
    ensures |matrix_mod2| <= |dependencies| + Width(matrix_mod2)
  {
    hide KernelBasis, Clear;
    DependenciesAreKernelBasis(matrix_mod2, Width(matrix_mod2));
    var num_rows := |matrix_mod2|;
    if num_rows == 0 {
      return [];
    }
    var num_cols := |matrix_mod2[0]|;
    var matrix, identity := matrix_mod2, Units(num_rows);
    ghost var pivots: seq<nat> := [];
    ghost var final := Reduce(Start(matrix_mod2), num_cols, 0);
    var row, col := 0, 0;
    while col < num_cols && row < num_rows
      invariant 0 <= col <= num_cols && row == |pivots| <= num_rows
      invariant |matrix| == num_rows && Shape(Tableau(matrix, identity, pivots), num_cols)
      invariant Reduce(Tableau(matrix, identity, pivots), num_cols, col) == final
    {
      var pivot_row := -1;
      var r := row;
      while r < num_rows
        invariant row <= r <= num_rows && pivot_row == -1
        invariant FindPivot(matrix, col, row) == FindPivot(matrix, col, r)
      {
        if matrix[r][col] {
          pivot_row := r;
          break;
        }
        r := r + 1;
      }
      if pivot_row != -1 {
        if pivot_row != row {
          matrix := Swap(matrix, row, pivot_row);
          identity := Swap(identity, row, pivot_row);
        } else {
          assert Swap(matrix, row, pivot_row) == matrix && Swap(identity, row, pivot_row) == identity;
        }
        pivots := pivots + [col];
        matrix, identity := ClearColumn(matrix, identity, num_cols, row, col, pivots);
        row := row + 1;
      }
      col := col + 1;
    }
    assert final == Tableau(matrix, identity, pivots);
    dependencies := CollectZeroRows(matrix, identity, num_cols, pivots);
  }

  // Eliminate all other ones in the pivot column.
  method ClearColumn(m0: Matrix, id0: Matrix, num_cols: nat, row: nat, col: nat, ghost pivots: seq<nat>)
    returns (matrix: Matrix, identity: Matrix)
    requires Shape(Tableau(m0, id0, pivots), num_cols) && row < |m0| && col < num_cols
    ensures Tableau(matrix, identity, pivots) == Clear(Tableau(m0, id0, pivots), num_cols, row, col, 0)
  {
    matrix, identity := m0, id0;
    for r := 0 to |m0|
      invariant |matrix| == |m0| && Shape(Tableau(matrix, identity, pivots), num_cols)
      invariant Clear(Tableau(matrix, identity, pivots), num_cols, row, col, r)
             == Clear(Tableau(m0, id0, pivots), num_cols, row, col, 0)
    {
      if r != row && matrix[r][col] {
        var sum := XorInto(matrix[r], matrix[row]);
        matrix := matrix[r := sum];
        sum := XorInto(identity[r], identity[row]);
        identity := identity[r := sum];
      }
    }
  }

  method XorInto(target: Row, source: Row) returns (sum: Row)
    requires |target| == |source|
    ensures sum == XorRow(target, source)
  {
    sum := target;
    for c := 0 to |target|
      invariant |sum| == |target|
      invariant forall j :: 0 <= j < |target| ==> sum[j] == if j < c then target[j] != source[j] else target[j]
    {
      sum := sum[c := sum[c] != source[c]];
    }
  }

  method CollectZeroRows(matrix: Matrix, identity: Matrix, num_cols: nat, ghost pivots: seq<nat>)
    returns (dependencies: Matrix)
    requires Shape(Tableau(matrix, identity, pivots), num_cols)
    ensures dependencies == ZeroRows(Tableau(matrix, identity, pivots), |matrix|)
  {
    dependencies := [];
    for r := 0 to |matrix|
      invariant dependencies == ZeroRows(Tableau(matrix, identity, pivots), r)
    {
      var is_zero := true;
      var c := 0;
      while c < num_cols
        invariant 0 <= c <= num_cols && is_zero
        invariant forall j :: 0 <= j < c ==> !matrix[r][j]
      {
        if matrix[r][c] {
          is_zero := false;
          break;
        }
        c := c + 1;
      }
      if is_zero {
        dependencies := dependencies + [identity[r]];
      }
    }
  }
}
