/** Single bits of 64-bit words. */
module Bits64 {
  // 1ULL << k
  function Mask(k: nat): bv64
    requires k < 64
  {
    1 << k
  }

  predicate Meets(x: bv64, m: bv64) {
    x & m != 0
  }

  predicate Bit(x: bv64, k: nat)
    requires k < 64
  {
    Meets(x, Mask(k))
  }

  predicate Single(m: bv64) {
    m != 0 && m & (m - 1) == 0
  }

  lemma MaskSingle(k: nat)
    requires k < 64
    ensures Single(Mask(k))
  {
  }

  lemma MaskXor(x: bv64, y: bv64, m: bv64)
    requires Single(m)
    ensures Meets(x ^ y, m) == (Meets(x, m) != Meets(y, m))
  {
  }

  function XorWord(x: bv64, y: bv64): bv64 {
    x ^ y
  }

  lemma BitXor(x: bv64, y: bv64, k: nat)
    requires k < 64
    ensures Bit(XorWord(x, y), k) == (Bit(x, k) != Bit(y, k))
  {
    hide Mask, Meets;
    MaskSingle(k);
    MaskXor(x, y, Mask(k));
  }

  lemma BitOr(x: bv64, k: nat, j: nat)
    requires k < 64 && j < 64
    ensures Bit(x | Mask(k), j) == (Bit(x, j) || j == k)
  {
    hide Mask, Meets;
    MasksMeet(k, j);
    MaskOr(x, Mask(k), Mask(j));
  }

  lemma MasksMeet(k: nat, j: nat)
    requires k < 64 && j < 64
    ensures Meets(Mask(k), Mask(j)) <==> j == k
  {
    hide Mask, Meets, Single, Inside;
    MaskSingle(k);
    MaskSingle(j);
    SinglesMeet(Mask(k), Mask(j));
    if k < j {
      MaskBelow(k, j);
      NotInside(Mask(j));
    } else if j < k {
      MaskBelow(j, k);
      NotInside(Mask(k));
    }
  }

  lemma SinglesMeet(m: bv64, n: bv64)
    requires Single(m) && Single(n)
    ensures Meets(m, n) <==> m == n
  {
  }

  lemma MaskOr(x: bv64, m: bv64, n: bv64)
    ensures Meets(x | m, n) <==> Meets(x, n) || Meets(m, n)
  {
    OrAnd(x, m, n);
    OrZero(x & n, m & n);
  }

  lemma OrAnd(x: bv64, m: bv64, n: bv64)
    ensures (x | m) & n == (x & n) | (m & n)
  {
  }

  lemma OrZero(x: bv64, m: bv64)
    ensures x | m == 0 <==> x == 0 && m == 0
  {
  }

  // x has no bit at m or above.
  predicate Inside(x: bv64, m: bv64) {
    x | (m - 1) == m - 1
  }

  predicate Doubles(m: bv64, n: bv64) {
    n - 1 == m | (m - 1)
  }

  lemma MaskAbove(k: nat)
    requires k < 63
    ensures Doubles(Mask(k), Mask(k + 1))
  {
    hide Mask, Doubles;
    MaskSingle(k);
    MaskTwice(k);
    TwiceDoubles(Mask(k), Mask(k + 1));
  }

  lemma MaskTwice(k: nat)
    requires k < 63
    ensures Mask(k + 1) == Mask(k) << 1
  {
  }

  lemma TwiceDoubles(m: bv64, n: bv64)
    requires Single(m) && n == m << 1
    ensures Doubles(m, n)
  {
  }

  lemma NotInside(m: bv64)
    requires Single(m)
    ensures !Inside(m, m)
  {
  }

  lemma {:induction false} MaskBelow(k: nat, j: nat)
    requires k < j < 64
    ensures Inside(Mask(k), Mask(j))
    decreases j - k
  {
    hide Mask, Inside, Doubles;
    MaskAbove(j - 1);
    if k < j - 1 {
      MaskBelow(k, j - 1);
      InsideMore(Mask(k), Mask(j - 1), Mask(j));
    } else {
      InsideSelf(Mask(k), Mask(j));
    }
  }

  lemma InsideMore(x: bv64, m: bv64, n: bv64)
    requires Inside(x, m) && Doubles(m, n)
    ensures Inside(x, n)
  {
  }

  lemma InsideSelf(m: bv64, n: bv64)
    requires Doubles(m, n)
    ensures Inside(m, n)
  {
  }

  lemma InsideStep(x: bv64, m: bv64, n: bv64)
    requires Single(m) && Doubles(m, n) && Inside(x, n) && !Meets(x, m)
    ensures Inside(x, m)
  {
  }

  lemma InsideTop(x: bv64, m: bv64)
    requires m == 0x8000_0000_0000_0000 && !Meets(x, m)
    ensures Inside(x, m)
  {
  }

  lemma {:induction false} InsideFrom(x: bv64, k: nat)
    requires k < 64 && forall j: nat :: k <= j < 64 ==> !Bit(x, j)
    ensures Inside(x, Mask(k))
    decreases 64 - k
  {
    hide Bit, Inside;
    assert !Bit(x, k);
    if k == 63 {
      InsideLast(x);
    } else {
      InsideFrom(x, k + 1);
      InsideDown(x, k);
    }
  }

  lemma InsideDown(x: bv64, k: nat)
    requires k < 63 && Inside(x, Mask(k + 1)) && !Bit(x, k)
    ensures Inside(x, Mask(k))
  {
    hide Mask, Meets, Inside, Single, Doubles;
    MaskSingle(k);
    MaskAbove(k);
    InsideStep(x, Mask(k), Mask(k + 1));
  }

  lemma InsideLast(x: bv64)
    requires !Bit(x, 63)
    ensures Inside(x, Mask(63))
  {
    hide Mask, Inside;
    TopMask();
    InsideTop(x, Mask(63));
  }

  lemma TopMask()
    ensures Mask(63) == 0x8000_0000_0000_0000
  {
  }

  lemma NoBits(x: bv64)
    ensures x == 0 <==> forall k: nat :: k < 64 ==> !Bit(x, k)
  {
    if forall k: nat :: k < 64 ==> !Bit(x, k) {
      InsideFrom(x, 0);
    }
  }
}
