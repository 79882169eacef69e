/** What the K&R allocator's free list stands for (umalloc.c): blocks of units in ascending address order,
    no two of them overlapping or adjacent. Such a list is determined by the units it holds. */
module FreeList {

  datatype Block = Block(addr: nat, size: nat) {
    function End(): nat {
      addr + size
    }
  }

  predicate Covers(b: Block, u: nat) {
    b.addr <= u < b.End()
  }

  predicate Apart(a: Block, b: Block) {
    a.End() <= b.addr || b.End() <= a.addr
  }

  // Ascending, non-empty, and with a gap between any two.
  predicate Coalesced(l: seq<Block>) {
    && (forall k :: 0 <= k < |l| ==> l[k].size > 0)
    && (forall j, k :: 0 <= j < k < |l| ==> l[j].End() < l[k].addr)
  }

  ghost predicate Holds(l: seq<Block>, u: nat) {
    exists k :: 0 <= k < |l| && Covers(l[k], u)
  }

  // Where a block that touches no block of l belongs: everything before index t lies below it.
  predicate Place(l: seq<Block>, b: Block, t: nat) {
    && t <= |l|
    && (forall k :: 0 <= k < t ==> l[k].End() <= b.addr)
    && (forall k :: t <= k < |l| ==> b.End() <= l[k].addr)
  }

  // Put b in at t, merged with the block above it if they touch.
  function AddAt(l: seq<Block>, b: Block, t: nat): seq<Block>
    requires t <= |l|
  {
    if t < |l| && b.End() == l[t].addr then l[t := Block(b.addr, b.size + l[t].size)]
    else l[..t] + [b] + l[t..]
  }

  // Merge block t with the block below it if they touch.
  function MergeDown(l: seq<Block>, t: nat): seq<Block>
    requires t < |l|
  {
    if t > 0 && l[t - 1].End() == l[t].addr then
      l[..t - 1] + [Block(l[t - 1].addr, l[t - 1].size + l[t].size)] + l[t + 1..]
    else l
  }

  function InsertAt(l: seq<Block>, b: Block, t: nat): seq<Block>
    requires t <= |l|
  {
    MergeDown(AddAt(l, b, t), t)
  }

  // Coalesced but for block t, which may touch the block below it.
  predicate Nearly(l: seq<Block>, t: nat) {
    && t < |l|
    && (forall k :: 0 <= k < |l| ==> l[k].size > 0)
    && (forall j, k :: 0 <= j < k < |l| ==> l[j].End() < l[k].addr || (k == t && j == t - 1 && l[j].End() == l[k].addr))
  }

  // Take n units off the end of block k, or the whole block if that is its size.
  function TakeTail(l: seq<Block>, k: nat, n: nat): seq<Block>
    requires k < |l| && n <= l[k].size
  {
    if l[k].size == n then l[..k] + l[k + 1..] else l[k := Block(l[k].addr, l[k].size - n)]
  }

  function Taken(l: seq<Block>, k: nat, n: nat): Block
    requires k < |l| && n <= l[k].size
  {
    Block(l[k].End() - n, n)
  }

  lemma AddAtIndex(l: seq<Block>, b: Block, t: nat, k: nat)
    requires t <= |l| && k < |AddAt(l, b, t)|
    ensures var up := t < |l| && b.End() == l[t].addr;
            && |AddAt(l, b, t)| == |l| + (if up then 0 else 1)
            && AddAt(l, b, t)[k] == if k == t then Block(b.addr, b.size + if up then l[t].size else 0)
                                    else l[if k < t || up then k else k - 1]
  {
  }

  lemma AddAtNearly(l: seq<Block>, b: Block, t: nat)
    requires Coalesced(l) && Place(l, b, t) && b.size > 0
    ensures Nearly(AddAt(l, b, t), t)
  {
    var r := AddAt(l, b, t);
    hide AddAt;
    AddAtIndex(l, b, t, t);
    forall k | 0 <= k < |r|
      ensures r[k].size > 0
    {
      AddAtIndex(l, b, t, k);
    }
    forall j, k | 0 <= j < k < |r|
      ensures r[j].End() < r[k].addr || (k == t && j == t - 1 && r[j].End() == r[k].addr)
    {
      AddAtIndex(l, b, t, j);
      AddAtIndex(l, b, t, k);
      AddedInOrder(l, b, t, j, k);
    }
  }

  lemma AddedInOrder(l: seq<Block>, b: Block, t: nat, j: nat, k: nat)
    requires Coalesced(l) && Place(l, b, t) && b.size > 0
    requires j < k < |AddAt(l, b, t)|
    ensures var up := t < |l| && b.End() == l[t].addr;
            && (j < t < k ==> l[j].End() < l[if up then k else k - 1].addr)
            && (j < k < t ==> l[j].End() < l[k].addr)
            && (t < j ==> l[if up then j else j - 1].End() < l[if up then k else k - 1].addr)
            && (j < t == k ==> l[j].End() < b.addr || (j == t - 1 && l[j].End() == b.addr))
            && (j == t < k ==> (if up then l[t].End() else b.End()) < l[if up then k else k - 1].addr)
  {
    if j < t - 1 {
      assert l[j].End() < l[t - 1].addr < l[t - 1].End();
    }
    if j == t < k && k > t + 1 {
      assert l[t].End() < l[k - 1].addr || k - 1 == t;
    }
  }

  lemma MergeDownCoalesced(l: seq<Block>, t: nat)
    requires Nearly(l, t)
    ensures Coalesced(MergeDown(l, t))
  {
    var r := MergeDown(l, t);
    if t > 0 && l[t - 1].End() == l[t].addr {
      assert forall k :: 0 <= k < |r| && k != t - 1 ==> r[k] == if k < t - 1 then l[k] else l[k + 1];
    }
  }

  lemma InsertKeepsCoalesced(l: seq<Block>, b: Block, t: nat)
    requires Coalesced(l) && Place(l, b, t) && b.size > 0
    ensures Coalesced(InsertAt(l, b, t))
  {
    AddAtNearly(l, b, t);
    MergeDownCoalesced(AddAt(l, b, t), t);
  }

  lemma AddAtHolds(l: seq<Block>, b: Block, t: nat, u: nat)
    requires t <= |l|
    ensures Holds(AddAt(l, b, t), u) <==> Holds(l, u) || Covers(b, u)
  {
    var r := AddAt(l, b, t);
    var up := t < |l| && b.End() == l[t].addr;
    if Holds(l, u) {
      var k :| 0 <= k < |l| && Covers(l[k], u);
      assert Covers(r[if up || k < t then k else k + 1], u);
    }
    if Covers(b, u) {
      assert Covers(r[t], u);
    }
    if Holds(r, u) {
      var k :| 0 <= k < |r| && Covers(r[k], u);
      if k != t {
        assert r[k] == l[if up || k < t then k else k - 1];
      } else if up && !Covers(b, u) {
        assert Covers(l[t], u);
      }
    }
  }

  lemma MergeDownHolds(l: seq<Block>, t: nat, u: nat)
    requires t < |l|
    ensures Holds(MergeDown(l, t), u) <==> Holds(l, u)
  {
    var r := MergeDown(l, t);
    if t > 0 && l[t - 1].End() == l[t].addr {
      if Holds(l, u) {
        var k :| 0 <= k < |l| && Covers(l[k], u);
        assert Covers(r[if k < t then k else k - 1], u);
      }
      if Holds(r, u) {
        var k :| 0 <= k < |r| && Covers(r[k], u);
        if k != t - 1 {
          assert r[k] == l[if k < t then k else k + 1];
        } else {
          assert Covers(l[t - 1], u) || Covers(l[t], u);
        }
      }
    }
  }

  // The units of the list after an insertion are those it had and those of the block.
  lemma InsertHolds(l: seq<Block>, b: Block, t: nat, u: nat)
    requires t <= |l|
    ensures Holds(InsertAt(l, b, t), u) <==> Holds(l, u) || Covers(b, u)
  {
    AddAtHolds(l, b, t, u);
    MergeDownHolds(AddAt(l, b, t), t, u);
  }

  lemma TakeKeepsCoalesced(l: seq<Block>, k: nat, n: nat)
    requires Coalesced(l) && k < |l| && 0 < n <= l[k].size
    ensures Coalesced(TakeTail(l, k, n))
  {
  }

  // Units leave the list exactly when they are in the block taken.
  lemma TakeHolds(l: seq<Block>, k: nat, n: nat, u: nat)
    requires Coalesced(l) && k < |l| && 0 < n <= l[k].size
    ensures Holds(TakeTail(l, k, n), u) <==> Holds(l, u) && !Covers(Taken(l, k, n), u)
  {
    if Holds(TakeTail(l, k, n), u) {
      RestHeld(l, k, n, u);
    }
    if Holds(l, u) && !Covers(Taken(l, k, n), u) {
      HeldStays(l, k, n, u);
    }
  }

  lemma RestHeld(l: seq<Block>, k: nat, n: nat, u: nat)
    requires Coalesced(l) && k < |l| && 0 < n <= l[k].size && Holds(TakeTail(l, k, n), u)
    ensures Holds(l, u) && !Covers(Taken(l, k, n), u)
  {
    var r := TakeTail(l, k, n);
    var j :| 0 <= j < |r| && Covers(r[j], u);
    var i := if l[k].size == n && j >= k then j + 1 else j;
    assert Covers(l[i], u);
  }

  lemma HeldStays(l: seq<Block>, k: nat, n: nat, u: nat)
    requires k < |l| && 0 < n <= l[k].size && Holds(l, u) && !Covers(Taken(l, k, n), u)
    ensures Holds(TakeTail(l, k, n), u)
  {
    var r := TakeTail(l, k, n);
    var j :| 0 <= j < |l| && Covers(l[j], u);
    assert Covers(r[if l[k].size == n && j > k then j - 1 else j], u);
  }

  // A coalesced list is determined by the units it holds: the order of frees leaves no trace.
  lemma {:induction false} Canonical(a: seq<Block>, b: seq<Block>)
    requires Coalesced(a) && Coalesced(b)
    requires forall u: nat :: Holds(a, u) <==> Holds(b, u)
    ensures a == b
  {
    if a == [] || b == [] {
      if a != [] {
        assert Covers(a[0], a[0].addr);
        assert Holds(a, a[0].addr);
      }
      if b != [] {
        assert Covers(b[0], b[0].addr);
        assert Holds(b, b[0].addr);
      }
    } else {
      FirstBlockAgrees(a, b);
      FirstBlockAgrees(b, a);
      assert a[0] == b[0];
      forall u: nat
        ensures Holds(a[1..], u) <==> Holds(b[1..], u)
      {
        TailHolds(a, u);
        TailHolds(b, u);
      }
      Canonical(a[1..], b[1..]);
      assert a == [a[0]] + a[1..] && b == [b[0]] + b[1..];
    }
  }

  lemma TailHolds(a: seq<Block>, u: nat)
    requires Coalesced(a) && a != []
    ensures Holds(a[1..], u) <==> Holds(a, u) && !Covers(a[0], u)
  {
    if Holds(a[1..], u) {
      var k :| 0 <= k < |a[1..]| && Covers(a[1..][k], u);
      assert Covers(a[k + 1], u);
    }
    if Holds(a, u) && !Covers(a[0], u) {
      var k :| 0 <= k < |a| && Covers(a[k], u);
      assert Covers(a[1..][k - 1], u);
    }
  }

  lemma FirstBlockAgrees(a: seq<Block>, b: seq<Block>)
    requires Coalesced(a) && Coalesced(b) && a != [] && b != []
    requires forall u: nat :: Holds(a, u) <==> Holds(b, u)
    ensures a[0].addr >= b[0].addr && (a[0].addr == b[0].addr ==> a[0].End() <= b[0].End())
  {
    assert Covers(a[0], a[0].addr);
    assert Holds(a, a[0].addr);
    var u := b[0].End();
    forall k | 0 <= k < |b|
      ensures !Covers(b[k], u)
    {
    }
    assert !Holds(b, u);
    assert Covers(a[0], u) ==> Holds(a, u);
  }

  // Giving back what was taken restores the list, whatever the list looked like.
  lemma InsertUndoesTake(l: seq<Block>, k: nat, n: nat, t: nat)
    requires Coalesced(l) && k < |l| && 0 < n <= l[k].size
    requires Place(TakeTail(l, k, n), Taken(l, k, n), t)
    ensures InsertAt(TakeTail(l, k, n), Taken(l, k, n), t) == l
  {
    TakeKeepsCoalesced(l, k, n);
    InsertKeepsCoalesced(TakeTail(l, k, n), Taken(l, k, n), t);
    forall u: nat
      ensures Holds(InsertAt(TakeTail(l, k, n), Taken(l, k, n), t), u) <==> Holds(l, u)
    {
      InsertHolds(TakeTail(l, k, n), Taken(l, k, n), t, u);
      TakeHolds(l, k, n, u);
      if Covers(Taken(l, k, n), u) {
        assert Covers(l[k], u);
      }
    }
    Canonical(InsertAt(TakeTail(l, k, n), Taken(l, k, n), t), l);
  }

  // Freeing two blocks in either order gives the same list.
  lemma InsertCommutes(l: seq<Block>, a: Block, b: Block, ta: nat, tb: nat, ta': nat, tb': nat)
    requires Coalesced(l) && a.size > 0 && b.size > 0
    requires Place(l, a, ta) && Place(InsertAt(l, a, ta), b, tb')
    requires Place(l, b, tb) && Place(InsertAt(l, b, tb), a, ta')
    ensures InsertAt(InsertAt(l, a, ta), b, tb') == InsertAt(InsertAt(l, b, tb), a, ta')
  {
    var x, y := InsertAt(l, a, ta), InsertAt(l, b, tb);
    InsertKeepsCoalesced(l, a, ta);
    InsertKeepsCoalesced(l, b, tb);
    InsertKeepsCoalesced(x, b, tb');
    InsertKeepsCoalesced(y, a, ta');
    forall u: nat
      ensures Holds(InsertAt(x, b, tb'), u) <==> Holds(InsertAt(y, a, ta'), u)
    {
      InsertHolds(l, a, ta, u);
      InsertHolds(l, b, tb, u);
      InsertHolds(x, b, tb', u);
      InsertHolds(y, a, ta', u);
    }
    Canonical(InsertAt(x, b, tb'), InsertAt(y, a, ta'));
  }

  // ----- counting

  function Units(l: seq<Block>): nat {
    if l == [] then 0 else Units(l[..|l| - 1]) + l[|l| - 1].size
  }

  lemma {:induction false} UnitsAppend(a: seq<Block>, b: seq<Block>)
    ensures Units(a + b) == Units(a) + Units(b)
  {
    if b == [] {
      assert a + b == a;
    } else {
      var n := |b| - 1;
      UnitsAppend(a, b[..n]);
      assert (a + b)[..|a + b| - 1] == a + b[..n];
    }
  }

  lemma UnitsSplit(l: seq<Block>, k: nat)
    requires k < |l|
    ensures Units(l) == Units(l[..k]) + l[k].size + Units(l[k + 1..])
  {
    assert l == l[..k] + [l[k]] + l[k + 1..];
    UnitsAppend(l[..k], [l[k]]);
    UnitsAppend(l[..k] + [l[k]], l[k + 1..]);
    assert Units([l[k]]) == l[k].size;
  }

  lemma InsertUnits(l: seq<Block>, b: Block, t: nat)
    requires t <= |l|
    ensures Units(InsertAt(l, b, t)) == Units(l) + b.size
  {
    AddUnits(l, b, t);
    MergeDownUnits(AddAt(l, b, t), t);
  }

  lemma AddUnits(l: seq<Block>, b: Block, t: nat)
    requires t <= |l|
    ensures Units(AddAt(l, b, t)) == Units(l) + b.size
  {
    hide Units;
    var r := AddAt(l, b, t);
    UnitsSplit(r, t);
    assert l[..t] + l[t..] == l;
    UnitsAppend(l[..t], l[t..]);
    if t < |l| && b.End() == l[t].addr {
      UnitsSplit(l, t);
      assert r[..t] == l[..t] && r[t + 1..] == l[t + 1..];
    } else {
      assert r[..t] == l[..t] && r[t + 1..] == l[t..];
    }
  }

  lemma UnitsNone()
    ensures Units([]) == 0
  {
  }

  lemma MergeDownUnits(l: seq<Block>, t: nat)
    requires t < |l|
    ensures Units(MergeDown(l, t)) == Units(l)
  {
    UnitsNone();
    hide Units;
    if t > 0 && l[t - 1].End() == l[t].addr {
      var r := MergeDown(l, t);
      UnitsSplit(r, t - 1);
      UnitsSplit(l, t);
      UnitsSplit(l[..t], t - 1);
      assert l[..t][..t - 1] == l[..t - 1] && l[..t][t..] == [];
      assert r[..t - 1] == l[..t - 1] && r[t..] == l[t + 1..];
    }
  }

  lemma TakeUnits(l: seq<Block>, k: nat, n: nat)
    requires k < |l| && n <= l[k].size
    ensures Units(TakeTail(l, k, n)) == Units(l) - n
  {
    UnitsSplit(l, k);
    if l[k].size == n {
      UnitsAppend(l[..k], l[k + 1..]);
    } else {
      UnitsSplit(TakeTail(l, k, n), k);
    }
  }
}
