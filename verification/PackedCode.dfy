/** The bit-packed elimination as the source runs it (submit.cpp), on 64-bit blocks. */
module PackedCode {
  import opened Gf2
  import opened Elimination
  import opened Bits64
  import opened PackedElimination

  type Packed = seq<bv64>

  // Column j of a packed row.
  predicate BitAt(r: Packed, j: nat)
    requires j < BITS_PER_BLOCK * |r|
  {
    Bit(r[j / BITS_PER_BLOCK], j % BITS_PER_BLOCK)
  }

  // r holds exactly row, and nothing in the bits past its end.
  ghost predicate Packs(r: Packed, row: Row) {
    && |r| == Blocks(|row|)
    && (forall j {:trigger BitAt(r, j)} :: 0 <= j < BITS_PER_BLOCK * |r| ==> BitAt(r, j) == (j < |row| && row[j]))
  }

  ghost predicate PacksAll(rs: seq<Packed>, rows: Matrix) {
    |rs| == |rows| && forall i {:trigger rs[i]} :: 0 <= i < |rs| ==> Packs(rs[i], rows[i])
  }

  lemma BlockOf(j: nat, n: nat)
    requires j < n
    ensures j / BITS_PER_BLOCK < Blocks(n) && j < BITS_PER_BLOCK * Blocks(n)
  {
  }

  lemma BitPlace(b: nat, k: nat)
    requires k < BITS_PER_BLOCK
    ensures (b * BITS_PER_BLOCK + k) / BITS_PER_BLOCK == b && (b * BITS_PER_BLOCK + k) % BITS_PER_BLOCK == k
  {
  }

  lemma ZeroBits(n: nat, j: nat)
    requires j < BITS_PER_BLOCK * n
    ensures !BitAt(seq(n, i => 0 as bv64), j)
  {
    NoBits(0);
  }

  // Setting a bit.
  lemma BitSet(r: Packed, j: nat, k: nat)
    requires j < BITS_PER_BLOCK * |r| && k < BITS_PER_BLOCK * |r|
    ensures var b := j / BITS_PER_BLOCK;
            BitAt(r[b := r[b] | Mask(j % BITS_PER_BLOCK)], k) == (BitAt(r, k) || k == j)
  {
    hide Mask, Bit;
    BitOr(r[j / BITS_PER_BLOCK], j % BITS_PER_BLOCK, k % BITS_PER_BLOCK);
    assert j == j / BITS_PER_BLOCK * BITS_PER_BLOCK + j % BITS_PER_BLOCK;
    assert k == k / BITS_PER_BLOCK * BITS_PER_BLOCK + k % BITS_PER_BLOCK;
  }

  method PackRow(row: Row) returns (r: Packed)
    ensures Packs(r, row)
  {
    hide Bit, Mask, BitAt;
    var blocks := (|row| + BITS_PER_BLOCK - 1) / BITS_PER_BLOCK;
    r := seq(blocks, i => 0);
    forall k: nat | k < BITS_PER_BLOCK * blocks
      ensures !BitAt(r, k)
    {
      ZeroBits(blocks, k);
    }
    for j := 0 to |row|
      invariant |r| == blocks
      invariant forall k {:trigger BitAt(r, k)} :: 0 <= k < BITS_PER_BLOCK * |r| ==> BitAt(r, k) == (k < j && row[k])
    {
      if row[j] {
        BlockOf(j, |row|);
        ghost var was := r;
        r := r[j / BITS_PER_BLOCK := r[j / BITS_PER_BLOCK] | Mask(j % BITS_PER_BLOCK)];
        forall k: nat | k < BITS_PER_BLOCK * |r|
          ensures BitAt(r, k) == (BitAt(was, k) || k == j)
        {
          BitSet(was, j, k);
        }
      }
    }
  }

  method ConvertToBitPacked(matrix_mod2: Matrix) returns (packed: seq<Packed>)
    ensures PacksAll(packed, matrix_mod2)
  {
    packed := [];
    for i := 0 to |matrix_mod2|
      invariant PacksAll(packed, matrix_mod2[..i])
    {
      var r := PackRow(matrix_mod2[i]);
      packed := packed + [r];
    }
    assert matrix_mod2[..|matrix_mod2|] == matrix_mod2;
  }

  method PackedIdentity(n: nat) returns (identity: seq<Packed>)
    ensures PacksAll(identity, Units(n))
  {
    identity := [];
    for i := 0 to n
      invariant PacksAll(identity, Units(n)[..i])
    {
      var r := PackUnit(n, i);
      identity := identity + [r];
    }
    assert Units(n)[..n] == Units(n);
  }

  method PackUnit(n: nat, i: nat) returns (r: Packed)
    requires i < n
    ensures Packs(r, Unit(n, i))
  {
    hide Bit, Mask, BitAt;
    var blocks := (n + BITS_PER_BLOCK - 1) / BITS_PER_BLOCK;
    r := seq(blocks, k => 0);
    BlockOf(i, n);
    forall k: nat | k < BITS_PER_BLOCK * blocks
      ensures !BitAt(r, k)
    {
      ZeroBits(blocks, k);
    }
    ghost var was := r;
    r := r[i / BITS_PER_BLOCK := r[i / BITS_PER_BLOCK] | Mask(i % BITS_PER_BLOCK)];
    forall k: nat | k < BITS_PER_BLOCK * |r|
      ensures BitAt(r, k) == (BitAt(was, k) || k == i)
    {
      BitSet(was, i, k);
    }
  }

  // Adding the first `blocks` blocks of one row to another adds that many columns, unless the rows end before.
  method XorBlocks(target: Packed, source: Packed, blocks: nat, ghost a: Row, ghost b: Row)
    returns (sum: Packed, inBounds: bool)
    requires |a| == |b| && Packs(target, a) && Packs(source, b)
    ensures inBounds <==> blocks <= |target|
    ensures inBounds ==> Packs(sum, XorLow(a, b, BITS_PER_BLOCK * blocks))
  {
    sum := target;
    for k := 0 to blocks
      invariant |sum| == |target| && k <= |target|
      invariant forall i :: 0 <= i < |target| ==> sum[i] == if i < k then XorWord(target[i], source[i]) else target[i]
    {
      if k >= |sum| {
        return sum, false;
      }
      sum := sum[k := sum[k] ^ source[k]];
    }
    XorPacks(target, source, sum, blocks, a, b);
    inBounds := true;
  }

  lemma XorPacks(target: Packed, source: Packed, sum: Packed, blocks: nat, a: Row, b: Row)
    requires |a| == |b| && Packs(target, a) && Packs(source, b) && blocks <= |target| == |sum|
    requires forall i :: 0 <= i < |target| ==> sum[i] == if i < blocks then XorWord(target[i], source[i]) else target[i]
    ensures Packs(sum, XorLow(a, b, BITS_PER_BLOCK * blocks))
  {
    hide BitAt;
    forall j: nat | j < BITS_PER_BLOCK * |sum|
      ensures BitAt(sum, j) == (j < |a| && XorLow(a, b, BITS_PER_BLOCK * blocks)[j])
    {
      XorBit(target, source, sum, blocks, j);
    }
  }

  lemma XorBit(target: Packed, source: Packed, sum: Packed, blocks: nat, j: nat)
    requires blocks <= |target| == |source| == |sum| && j < BITS_PER_BLOCK * |sum|
    requires forall i :: 0 <= i < |target| ==> sum[i] == if i < blocks then XorWord(target[i], source[i]) else target[i]
    ensures BitAt(sum, j) ==
            if j < BITS_PER_BLOCK * blocks then BitAt(target, j) != BitAt(source, j) else BitAt(target, j)
  {
    hide Bit, XorWord;
    var b := j / BITS_PER_BLOCK;
    BlockBelow(j, blocks);
    BitXor(target[b], source[b], j % BITS_PER_BLOCK);
  }

  lemma BlockBelow(j: nat, blocks: nat)
    ensures j / BITS_PER_BLOCK < blocks <==> j < BITS_PER_BLOCK * blocks
  {
  }

  lemma WholeRow(a: Row, b: Row)
    requires |a| == |b|
    ensures XorLow(a, b, BITS_PER_BLOCK * Blocks(|a|)) == XorRow(a, b)
  {
  }

  // A row is zero when its blocks are.
  lemma ZeroPacks(r: Packed, row: Row)
    requires Packs(r, row)
    ensures IsZero(row) <==> forall b :: 0 <= b < |r| ==> r[b] == 0
  {
    hide Bit;
    if IsZero(row) {
      forall b: nat | b < |r|
        ensures r[b] == 0
      {
        forall k: nat | k < BITS_PER_BLOCK
          ensures !Bit(r[b], k)
        {
          BitPlace(b, k);
          assert !BitAt(r, b * BITS_PER_BLOCK + k);
        }
        NoBits(r[b]);
      }
    }
    if forall b :: 0 <= b < |r| ==> r[b] == 0 {
      forall j: nat | j < |row|
        ensures !row[j]
      {
        BlockOf(j, |row|);
        NoBits(r[j / BITS_PER_BLOCK]);
        assert BitAt(r, j) == row[j];
      }
    }
  }

  method IsZeroRow(r: Packed, blocks: nat, ghost row: Row) returns (zero: bool)
    requires Packs(r, row) && blocks == |r|
    ensures zero == IsZero(row)
  {
    ZeroPacks(r, row);
    zero := true;
    var b := 0;
    while b < blocks
      invariant 0 <= b <= blocks && zero && forall i :: 0 <= i < b ==> r[i] == 0
    {
      if r[b] != 0 {
        return false;
      }
      b := b + 1;
    }
  }

  method Unpack(r: Packed, num_rows: nat, ghost row: Row) returns (dependency: Row)
    requires Packs(r, row) && |row| == num_rows
    ensures dependency == row
  {
    hide Bit;
    dependency := seq(num_rows, i => false);
    for b := 0 to |r|
      invariant |dependency| == num_rows
      invariant forall i :: 0 <= i < num_rows ==> dependency[i] == (i < b * BITS_PER_BLOCK && row[i])
    {
      var bit := 0;
      while bit < BITS_PER_BLOCK
        invariant 0 <= bit <= BITS_PER_BLOCK && |dependency| == num_rows
        invariant forall i :: 0 <= i < num_rows ==> dependency[i] == (i < b * BITS_PER_BLOCK + bit && row[i])
      {
        var idx := b * BITS_PER_BLOCK + bit;
        if idx >= num_rows {
          break;
        }
        BitPlace(b, bit);
        assert BitAt(r, idx) == row[idx];
        if Bit(r[b], bit) {
          dependency := dependency[idx := true];
        }
        bit := bit + 1;
      }
    }
  }

  // ----- the elimination

  ghost predicate Represents(matrix: seq<Packed>, identity: seq<Packed>, t: Tableau, w: nat) {
    Shape(t, w) && PacksAll(matrix, t.m) && PacksAll(identity, t.id)
  }

  lemma SwapPacks(rs: seq<Packed>, rows: Matrix, i: nat, j: nat)
    requires PacksAll(rs, rows) && i < |rs| && j < |rs|
    ensures PacksAll(Swap(rs, i, j), Swap(rows, i, j))
  {
  }

  lemma SwapNothing<T>(s: seq<T>, i: nat)
    requires i < |s|
    ensures Swap(s, i, i) == s
  {
  }

  /** The packed elimination comes out as PackedOutcome says: with the dependencies themselves whenever the numbers
      of rows and columns suit each other. */
  method FindDependenciesOptimized(matrix_mod2: Matrix, factor_base_size: nat) returns (r: Packing)
    requires Rectangular(matrix_mod2, factor_base_size)
    ensures r == PackedOutcome(matrix_mod2, factor_base_size)
    ensures Suits(|matrix_mod2|, factor_base_size) ==>
              r.Returned? && r.dependencies == Dependencies(matrix_mod2, factor_base_size)
              && KernelBasis(r.dependencies, matrix_mod2, factor_base_size)
  {
    hide PacksAll, FindPivot, LowPivotOn, AddsFor;
    var matrix := ConvertToBitPacked(matrix_mod2);
    var num_rows := |matrix|;
    var num_cols := factor_base_size;
    var w := num_cols;
    ghost var h := BITS_PER_BLOCK * Blocks(w);
    if Suits(num_rows, w) {
      SuitedIsRight(matrix_mod2, w);
      DependenciesAreKernelBasis(matrix_mod2, w);
    }
    if num_rows == 0 {
      return Returned([]);
    }
    var identity := PackedIdentity(num_rows);
    ghost var t := Start(matrix_mod2);
    ghost var final := LowReduce(t, w, 0, h);
    ghost var adds := AddsFrom(t, w, 0, h);
    var row, col := 0, 0;
    while col < num_cols && row < num_rows
      invariant 0 <= col <= num_cols && row == |t.pivots| <= num_rows == |t.m|
      invariant Represents(matrix, identity, t, w)
      invariant LowReduce(t, w, col, h) == final
      invariant Blocks(w) > Blocks(num_rows) ==> AddsFrom(t, w, col, h) == adds
    {
      var pivot := FindPackedPivot(matrix, t.m, w, row, col);
      if pivot < num_rows {
        var inBounds;
        matrix, identity, inBounds := PivotStep(matrix, identity, t, w, row, col, pivot);
        if !inBounds {
          return Overrun;
        }
        t := LowPivotOn(t, w, col, pivot, h);
        row := row + 1;
      }
      col := col + 1;
    }
    assert t == final;
    var dependencies := CollectZeroRows(matrix, identity, w, t);
    r := Returned(dependencies);
  }

  method FindPackedPivot(matrix: seq<Packed>, ghost m: Matrix, ghost w: nat, row: nat, col: nat) returns (pivot: nat)
    requires PacksAll(matrix, m) && Rectangular(m, w) && col < w && row <= |m|
    ensures pivot == FindPivot(m, col, row)
  {
    BlockOf(col, w);
    pivot := row;
    while pivot < |matrix|
      invariant row <= pivot <= |matrix| && FindPivot(m, col, row) == FindPivot(m, col, pivot)
    {
      assert BitAt(matrix[pivot], col) == m[pivot][col];
      if Bit(matrix[pivot][col / BITS_PER_BLOCK], col % BITS_PER_BLOCK) {
        break;
      }
      pivot := pivot + 1;
    }
  }

  method PivotStep(m0: seq<Packed>, id0: seq<Packed>, ghost t: Tableau, w: nat, row: nat, col: nat, pivot: nat)
    returns (matrix: seq<Packed>, identity: seq<Packed>, inBounds: bool)
    requires Represents(m0, id0, t, w) && col < w && row == |t.pivots| <= pivot < |t.m|
    ensures !inBounds <==> Blocks(w) > Blocks(|t.m|) && AddsFor(Swap(t.m, row, pivot), w, row, col)
    ensures inBounds ==> Represents(matrix, identity, LowPivotOn(t, w, col, pivot, BITS_PER_BLOCK * Blocks(w)), w)
  {
    hide Packs, Bit, AddsFor;
    matrix, identity := m0, id0;
    SwapPacks(m0, t.m, row, pivot);
    SwapPacks(id0, t.id, row, pivot);
    if pivot != row {
      matrix, identity := Swap(matrix, row, pivot), Swap(identity, row, pivot);
    } else {
      SwapNothing(matrix, row);
      SwapNothing(identity, row);
    }
    ghost var s := Tableau(Swap(t.m, row, pivot), Swap(t.id, row, pivot), t.pivots + [col]);
    matrix, identity, inBounds := ClearPacked(matrix, identity, s, w, row, col);
  }

  method ClearPacked(m0: seq<Packed>, id0: seq<Packed>, ghost t0: Tableau, w: nat, row: nat, col: nat)
    returns (matrix: seq<Packed>, identity: seq<Packed>, inBounds: bool)
    requires Represents(m0, id0, t0, w) && col < w && row < |t0.m|
    ensures !inBounds <==> Blocks(w) > Blocks(|t0.m|) && AddsFor(t0.m, w, row, col)
    ensures inBounds ==> Represents(matrix, identity, LowClear(t0, w, row, col, 0, BITS_PER_BLOCK * Blocks(w)), w)
  {
    matrix, identity := m0, id0;
    ghost var t, h := t0, BITS_PER_BLOCK * Blocks(w);
    BlockOf(col, w);
    for r := 0 to |m0|
      invariant Represents(matrix, identity, t, w) && |t.m| == |t0.m|
      invariant LowClear(t, w, row, col, r, h) == LowClear(t0, w, row, col, 0, h)
      invariant Blocks(w) > Blocks(|t0.m|) ==> t == t0 && forall i :: 0 <= i < r && i != row ==> !t0.m[i][col]
    {
      if r != row {
        assert BitAt(matrix[r], col) == t.m[r][col];
        if Bit(matrix[r][col / BITS_PER_BLOCK], col % BITS_PER_BLOCK) {
          var sum, ok := XorBlocks(matrix[r], matrix[row], Blocks(w), t.m[r], t.m[row]);
          WholeRow(t.m[r], t.m[row]);
          matrix := matrix[r := sum];
          sum, ok := XorBlocks(identity[r], identity[row], Blocks(w), t.id[r], t.id[row]);
          if !ok {
            return matrix, identity, false;
          }
          identity := identity[r := sum];
          t := Tableau(AddRow(t.m, row, r), AddLow(t.id, row, r, h), t.pivots);
        }
      }
    }
    inBounds := true;
  }

  method CollectZeroRows(matrix: seq<Packed>, identity: seq<Packed>, w: nat, ghost t: Tableau)
    returns (dependencies: Matrix)
    requires Represents(matrix, identity, t, w)
    ensures dependencies == ZeroRows(t, |t.m|)
  {
    dependencies := [];
    for r := 0 to |matrix|
      invariant dependencies == ZeroRows(t, r)
    {
      var zero := IsZeroRow(matrix[r], Blocks(w), t.m[r]);
      if zero {
        var dependency := Unpack(identity[r], |matrix|, t.id[r]);
        dependencies := dependencies + [dependency];
      }
    }
  }
}
