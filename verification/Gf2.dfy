/** Linear algebra over GF(2): rows of bits, their exclusive-or, and selections of rows.
    A selection `t` picks the rows r of a matrix with t[r]; combining them is their exclusive-or. */
module Gf2 {

  type Row = seq<bool>
  type Matrix = seq<Row>

  predicate Rectangular(m: Matrix, w: nat) {
    forall r :: 0 <= r < |m| ==> |m[r]| == w
  }

  predicate IsZero(a: Row) {
    forall i :: 0 <= i < |a| ==> !a[i]
  }

  function Zero(w: nat): Row {
    seq(w, i => false)
  }

  function Unit(n: nat, k: nat): Row {
    seq(n, i => i == k)
  }

  function Units(n: nat): Matrix {
    seq(n, i requires 0 <= i < n => Unit(n, i))
  }

  function XorRow(a: Row, b: Row): Row
    requires |a| == |b|
  {
    seq(|a|, i requires 0 <= i < |a| => a[i] != b[i])
  }

  function Swap<T>(s: seq<T>, i: nat, j: nat): seq<T>
    requires i < |s| && j < |s|
  {
    s[i := s[j]][j := s[i]]
  }

  function AddRow(m: Matrix, src: nat, dst: nat): Matrix
    requires src < |m| && dst < |m| && |m[src]| == |m[dst]|
  {
    m[dst := XorRow(m[dst], m[src])]
  }

  // Entry c of the exclusive-or of the rows below k that t selects.
  ghost function Dot(t: Row, m: Matrix, c: nat, k: nat): bool
    requires k <= |t| == |m|
    requires forall r :: 0 <= r < |m| ==> c < |m[r]|
  {
    if k == 0 then false else Dot(t, m, c, k - 1) != (t[k - 1] && m[k - 1][c])
  }

  // The exclusive-or of the rows of m that t selects.
  ghost function Combine(t: Row, m: Matrix, w: nat): Row
    requires |t| == |m| && Rectangular(m, w)
  {
    seq(w, c requires 0 <= c < w => Dot(t, m, c, |m|))
  }

  // m's rows are linearly independent and generate every row of width w.
  ghost predicate Spans(m: Matrix, w: nat)
    requires Rectangular(m, w)
  {
    forall s: Row {:trigger Generates(m, w, s)} :: |s| == w ==> Generates(m, w, s)
  }

  ghost predicate Generates(m: Matrix, w: nat, s: Row)
    requires Rectangular(m, w)
  {
    exists t: Row {:trigger Combine(t, m, w)} :: |t| == |m| && Combine(t, m, w) == s
  }

  ghost predicate Independent(m: Matrix, w: nat)
    requires Rectangular(m, w)
  {
    forall t: Row {:trigger Combine(t, m, w)} :: |t| == |m| && IsZero(Combine(t, m, w)) ==> IsZero(t)
  }

  lemma {:induction false} DotXorLeft(s: Row, t: Row, m: Matrix, c: nat, k: nat)
    requires k <= |s| == |t| == |m|
    requires forall r :: 0 <= r < |m| ==> c < |m[r]|
    ensures Dot(XorRow(s, t), m, c, k) == (Dot(s, m, c, k) != Dot(t, m, c, k))
  {
    if k > 0 {
      DotXorLeft(s, t, m, c, k - 1);
    }
  }

  lemma {:induction false} DotRowChange(t: Row, m: Matrix, c: nat, k: nat, r: nat, x: Row)
    requires k <= |t| == |m| && r < |m| && c < |x|
    requires forall i :: 0 <= i < |m| ==> c < |m[i]|
    ensures Dot(t, m[r := x], c, k) == (Dot(t, m, c, k) != (k > r && t[r] && x[c] != m[r][c]))
  {
    if k > 0 {
      DotRowChange(t, m, c, k - 1, r, x);
    }
  }

  lemma {:induction false} DotCoefficientChange(t: Row, m: Matrix, c: nat, k: nat, r: nat, v: bool)
    requires k <= |t| == |m| && r < |m|
    requires forall i :: 0 <= i < |m| ==> c < |m[i]|
    ensures Dot(t[r := v], m, c, k) == (Dot(t, m, c, k) != (k > r && v != t[r] && m[r][c]))
  {
    if k > 0 {
      DotCoefficientChange(t, m, c, k - 1, r, v);
    }
  }

  // Selecting nothing below k gives zero.
  lemma {:induction false} DotZero(t: Row, m: Matrix, c: nat, k: nat)
    requires k <= |t| == |m|
    requires forall r :: 0 <= r < |m| ==> c < |m[r]|
    requires forall r :: 0 <= r < k ==> !t[r] || !m[r][c]
    ensures !Dot(t, m, c, k)
  {
    if k > 0 {
      DotZero(t, m, c, k - 1);
    }
  }

  // When only row p has a one in column c, the entry is p's coefficient.
  lemma {:induction false} DotSingle(t: Row, m: Matrix, c: nat, k: nat, p: nat)
    requires p < k <= |t| == |m|
    requires forall r :: 0 <= r < |m| ==> c < |m[r]|
    requires m[p][c] && forall r :: 0 <= r < k && r != p ==> !m[r][c]
    ensures Dot(t, m, c, k) == t[p]
  {
    if k == p + 1 {
      DotZero(t, m, c, p);
    } else {
      DotSingle(t, m, c, k - 1, p);
    }
  }

  lemma DotSwap(t: Row, m: Matrix, c: nat, i: nat, j: nat)
    requires |t| == |m| && i < |m| && j < |m|
    requires forall r :: 0 <= r < |m| ==> c < |m[r]|
    ensures Dot(t, Swap(m, i, j), c, |m|) == Dot(Swap(t, i, j), m, c, |m|)
  {
    DotRowChange(t, m, c, |m|, i, m[j]);
    DotRowChange(t, m[i := m[j]], c, |m|, j, m[i]);
    DotCoefficientChange(t, m, c, |m|, i, t[j]);
    DotCoefficientChange(t[i := t[j]], m, c, |m|, j, t[i]);
  }

  lemma DotAddRow(t: Row, m: Matrix, c: nat, src: nat, dst: nat)
    requires |t| == |m| && src < |m| && dst < |m| && src != dst
    requires |m[src]| == |m[dst]|
    requires forall r :: 0 <= r < |m| ==> c < |m[r]|
    ensures Dot(t, AddRow(m, src, dst), c, |m|) == Dot(t[src := t[src] != t[dst]], m, c, |m|)
  {
    DotRowChange(t, m, c, |m|, dst, XorRow(m[dst], m[src]));
    DotCoefficientChange(t, m, c, |m|, src, t[src] != t[dst]);
  }

  // Combining combinations: if row r of m is the combination of `base` that id[r] selects, then a
  // combination of m is the combination of `base` that the same combination of id selects.
  lemma {:induction false} DotAssociates(t: Row, id: Matrix, m: Matrix, base: Matrix, w: nat, c: nat, k: nat)
    requires k <= |t| == |id| == |m| && c < w
    requires Rectangular(id, |base|) && Rectangular(m, w) && Rectangular(base, w)
    requires forall r :: 0 <= r < |m| ==> m[r] == Combine(id[r], base, w)
    ensures Dot(seq(|base|, j requires 0 <= j < |base| => Dot(t, id, j, k)), base, c, |base|) == Dot(t, m, c, k)
  {
    var part := seq(|base|, j requires 0 <= j < |base| => Dot(t, id, j, k));
    if k == 0 {
      DotZero(part, base, c, |base|);
    } else {
      var prev := seq(|base|, j requires 0 <= j < |base| => Dot(t, id, j, k - 1));
      DotAssociates(t, id, m, base, w, c, k - 1);
      if t[k - 1] {
        assert part == XorRow(prev, id[k - 1]);
        DotXorLeft(prev, id[k - 1], base, c, |base|);
        assert m[k - 1][c] == Dot(id[k - 1], base, c, |base|);
      } else {
        assert part == prev;
      }
    }
  }

  lemma CombineAssociates(t: Row, id: Matrix, m: Matrix, base: Matrix, w: nat)
    requires |t| == |id| == |m|
    requires Rectangular(id, |base|) && Rectangular(m, w) && Rectangular(base, w)
    requires forall r :: 0 <= r < |m| ==> m[r] == Combine(id[r], base, w)
    ensures Combine(Combine(t, id, |base|), base, w) == Combine(t, m, w)
  {
    forall c | 0 <= c < w
      ensures Combine(Combine(t, id, |base|), base, w)[c] == Combine(t, m, w)[c]
    {
      DotAssociates(t, id, m, base, w, c, |t|);
    }
  }

  // Dropping unselected leading rows does not change a combination.
  lemma {:induction false} DotTail(t: Row, m: Matrix, c: nat, d: nat, k: nat)
    requires d <= k <= |t| == |m|
    requires forall r :: 0 <= r < |m| ==> c < |m[r]|
    requires forall r :: 0 <= r < d ==> !t[r]
    ensures Dot(t, m, c, k) == Dot(t[d..], m[d..], c, k - d)
  {
    if k == d {
      DotZero(t, m, c, k);
    } else {
      DotTail(t, m, c, d, k - 1);
    }
  }

  lemma CombineTail(t: Row, m: Matrix, w: nat, d: nat)
    requires d <= |t| == |m| && Rectangular(m, w)
    requires forall r :: 0 <= r < d ==> !t[r]
    ensures Combine(t, m, w) == Combine(t[d..], m[d..], w)
  {
    forall c | 0 <= c < w
      ensures Combine(t, m, w)[c] == Combine(t[d..], m[d..], w)[c]
    {
      DotTail(t, m, c, d, |m|);
    }
  }

  lemma CombineSwap(t: Row, m: Matrix, w: nat, i: nat, j: nat)
    requires |t| == |m| && Rectangular(m, w) && i < |m| && j < |m|
    ensures Rectangular(Swap(m, i, j), w)
    ensures Combine(t, Swap(m, i, j), w) == Combine(Swap(t, i, j), m, w)
  {
    forall c | 0 <= c < w
      ensures Combine(t, Swap(m, i, j), w)[c] == Combine(Swap(t, i, j), m, w)[c]
    {
      DotSwap(t, m, c, i, j);
    }
  }

  lemma CombineAddRow(t: Row, m: Matrix, w: nat, src: nat, dst: nat)
    requires |t| == |m| && Rectangular(m, w) && src < |m| && dst < |m| && src != dst
    ensures Rectangular(AddRow(m, src, dst), w)
    ensures Combine(t, AddRow(m, src, dst), w) == Combine(t[src := t[src] != t[dst]], m, w)
  {
    forall c | 0 <= c < w
      ensures Combine(t, AddRow(m, src, dst), w)[c] == Combine(t[src := t[src] != t[dst]], m, w)[c]
    {
      DotAddRow(t, m, c, src, dst);
    }
  }

  // Exchanging two rows keeps a basis a basis.
  lemma SwapKeepsBasis(m: Matrix, w: nat, i: nat, j: nat)
    requires Rectangular(m, w) && i < |m| && j < |m|
    requires Spans(m, w) && Independent(m, w)
    ensures Rectangular(Swap(m, i, j), w) && Spans(Swap(m, i, j), w) && Independent(Swap(m, i, j), w)
  {
    var m' := Swap(m, i, j);
    assert Rectangular(m', w);
    forall s: Row | |s| == w
      ensures Generates(m', w, s)
    {
      assert Generates(m, w, s);
      var t: Row :| |t| == |m| && Combine(t, m, w) == s;
      CombineSwap(Swap(t, i, j), m, w, i, j);
      assert Swap(Swap(t, i, j), i, j) == t;
    }
    forall t: Row | |t| == |m'| && IsZero(Combine(t, m', w))
      ensures IsZero(t)
    {
      CombineSwap(t, m, w, i, j);
      assert IsZero(Swap(t, i, j));
      assert t == Swap(Swap(t, i, j), i, j);
    }
  }

  // Adding one row to another keeps a basis a basis.
  lemma AddRowKeepsBasis(m: Matrix, w: nat, src: nat, dst: nat)
    requires Rectangular(m, w) && src < |m| && dst < |m| && src != dst
    requires Spans(m, w) && Independent(m, w)
    ensures Rectangular(AddRow(m, src, dst), w)
    ensures Spans(AddRow(m, src, dst), w) && Independent(AddRow(m, src, dst), w)
  {
    var m' := AddRow(m, src, dst);
    assert Rectangular(m', w);
    forall s: Row | |s| == w
      ensures Generates(m', w, s)
    {
      AddRowGenerates(m, w, src, dst, s);
    }
    forall t: Row | |t| == |m'| && IsZero(Combine(t, m', w))
      ensures IsZero(t)
    {
      AddRowSelectsZero(m, w, src, dst, t);
    }
  }

  lemma AddRowGenerates(m: Matrix, w: nat, src: nat, dst: nat, s: Row)
    requires Rectangular(m, w) && src < |m| && dst < |m| && src != dst
    requires Generates(m, w, s)
    ensures Rectangular(AddRow(m, src, dst), w)
    ensures Generates(AddRow(m, src, dst), w, s)
  {
    var t: Row :| |t| == |m| && Combine(t, m, w) == s;
    var t' := t[src := t[src] != t[dst]];
    CombineAddRow(t', m, w, src, dst);
    assert t'[src := t'[src] != t'[dst]] == t;
  }

  lemma AddRowSelectsZero(m: Matrix, w: nat, src: nat, dst: nat, t: Row)
    requires Rectangular(m, w) && src < |m| && dst < |m| && src != dst
    requires Independent(m, w) && |t| == |m|
    requires Rectangular(AddRow(m, src, dst), w) && IsZero(Combine(t, AddRow(m, src, dst), w))
    ensures IsZero(t)
  {
    CombineAddRow(t, m, w, src, dst);
    var t' := t[src := t[src] != t[dst]];
    assert IsZero(t');
    assert !t'[dst] && !t'[src];
    assert forall i :: 0 <= i < |t| && i != src ==> t[i] == t'[i];
  }

  // The unit rows are a basis, and select single rows.
  lemma UnitsAreBasis(n: nat)
    ensures |Units(n)| == n && Rectangular(Units(n), n)
    ensures Spans(Units(n), n) && Independent(Units(n), n)
  {
    forall t: Row | |t| == n
      ensures Combine(t, Units(n), n) == t
    {
      forall c | 0 <= c < n
        ensures Combine(t, Units(n), n)[c] == t[c]
      {
        DotSingle(t, Units(n), c, n, c);
      }
    }
    forall s: Row | |s| == n
      ensures Generates(Units(n), n, s)
    {
      assert Combine(s, Units(n), n) == s;
    }
  }

  lemma UnitSelects(m: Matrix, w: nat, k: nat)
    requires Rectangular(m, w) && k < |m|
    ensures Combine(Unit(|m|, k), m, w) == m[k]
  {
    forall c | 0 <= c < w
      ensures Dot(Unit(|m|, k), m, c, |m|) == m[k][c]
    {
      UnitSelectsEntry(m, c, |m|, k);
    }
  }

  lemma {:induction false} UnitSelectsEntry(m: Matrix, c: nat, n: nat, k: nat)
    requires n <= |m| && k < |m|
    requires forall r :: 0 <= r < |m| ==> c < |m[r]|
    ensures Dot(Unit(|m|, k), m, c, n) == (n > k && m[k][c])
  {
    if n > 0 {
      UnitSelectsEntry(m, c, n - 1, k);
    }
  }
}
