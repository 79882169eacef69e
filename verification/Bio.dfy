/** The buffer cache (bio.c) over the in-memory disk (memide.c).
    bcache.buf and the list head bcache.head are one array: entry NBUF is the head, and the
    prev/next pointers are indices into it. A panic is the result `ok == false`. Where acquiresleep would wait, the
    call ends as Waiting, with the buffer referenced; AcquireSleep and ReadIn are the rest of it once woken. */
module Bio {
  import opened Blocks

  const NBUF: nat := 30          // MAXOPBLOCKS * 3
  const ROOTDEV: nat := 1

  datatype Holder = Free | Process(pid: nat)

  // How bget and bread end, or where they stand: asleep on the buffer's lock.
  datatype Got = Locked | Waiting | Panicked

  datatype Buf = Buf(
    valid: bool,                 // B_VALID
    dirty: bool,                 // B_DIRTY
    dev: nat,
    blockno: nat,
    lock: Holder,
    refcnt: nat,
    prev: nat,
    next: nat,
    data: Block)

  // ----- the linked list

  function First(order: seq<nat>): nat {
    if order == [] then NBUF else order[0]
  }

  function Last(order: seq<nat>): nat {
    if order == [] then NBUF else order[|order| - 1]
  }

  function After(order: seq<nat>, k: nat): nat
    requires k < |order|
  {
    if k + 1 < |order| then order[k + 1] else NBUF
  }

  function Before(order: seq<nat>, k: nat): nat
    requires k < |order|
  {
    if k > 0 then order[k - 1] else NBUF
  }

  // From head.next along next, and from head.prev along prev, the buffers are those of `order`.
  ghost predicate Ring(s: seq<Buf>, order: seq<nat>) {
    && |s| == NBUF + 1
    && (forall k :: 0 <= k < |order| ==> order[k] < NBUF)
    && (forall j, k :: 0 <= j < k < |order| ==> order[j] != order[k])
    && s[NBUF].next == First(order) && s[NBUF].prev == Last(order)
    && (forall k {:trigger s[order[k]]} :: 0 <= k < |order| ==> s[order[k]].next == After(order, k))
    && (forall k {:trigger s[order[k]]} :: 0 <= k < |order| ==> s[order[k]].prev == Before(order, k))
  }

  ghost predicate Permutation(order: seq<nat>) {
    |order| == NBUF && forall i: nat :: i < NBUF ==> i in order
  }

  // Take buffer i out of the list.
  function Unlinked(s: seq<Buf>, i: nat): seq<Buf>
    requires |s| == NBUF + 1 && i < NBUF && s[i].next <= NBUF && s[i].prev <= NBUF
  {
    var s1 := s[s[i].next := s[s[i].next].(prev := s[i].prev)];
    s1[s1[i].prev := s1[s1[i].prev].(next := s1[i].next)]
  }

  // Put buffer i right after the head.
  function LinkedFirst(s: seq<Buf>, i: nat): seq<Buf>
    requires |s| == NBUF + 1 && i < NBUF && s[NBUF].next <= NBUF
  {
    var s1 := s[i := s[i].(next := s[NBUF].next, prev := NBUF)];
    var s2 := s1[s1[NBUF].next := s1[s1[NBUF].next].(prev := i)];
    s2[NBUF := s2[NBUF].(next := i)]
  }

  function Without(order: seq<nat>, p: nat): seq<nat>
    requires p < |order|
  {
    order[..p] + order[p + 1..]
  }

  lemma LinksInBounds(s: seq<Buf>, order: seq<nat>, p: nat)
    requires Ring(s, order) && p < |order|
    ensures s[order[p]].next <= NBUF && s[order[p]].prev <= NBUF
    ensures s[NBUF].next <= NBUF && s[NBUF].prev <= NBUF
  {
  }

  lemma LinksInBoundsHead(s: seq<Buf>, order: seq<nat>)
    requires Ring(s, order)
    ensures s[NBUF].next <= NBUF && s[NBUF].prev <= NBUF
  {
  }

  lemma MovedPermutation(order: seq<nat>, p: nat)
    requires Permutation(order) && p < |order|
    ensures Permutation([order[p]] + Without(order, p))
  {
    var moved := [order[p]] + Without(order, p);
    forall i: nat | i < NBUF
      ensures i in moved
    {
      assert i in order;
      var k :| 0 <= k < |order| && order[k] == i;
      assert k < p ==> moved[k + 1] == i;
      assert k > p ==> moved[k] == i;
    }
  }

  lemma UnlinkedRing(s: seq<Buf>, order: seq<nat>, p: nat)
    requires Ring(s, order) && p < |order| && s[order[p]].next <= NBUF && s[order[p]].prev <= NBUF
    ensures Ring(Unlinked(s, order[p]), Without(order, p))
    ensures order[p] !in Without(order, p)
  {
    var i := order[p];
    var nx, pv := s[i].next, s[i].prev;
    var s' := Unlinked(s, i);
    var rest := Without(order, p);
    assert nx != i && pv != i;
    forall x | 0 <= x <= NBUF
      ensures s'[x].next == if x == pv then nx else s[x].next
      ensures s'[x].prev == if x == nx then pv else s[x].prev
    {
    }
    forall k | 0 <= k < |rest|
      ensures rest[k] == order[if k < p then k else k + 1]
    {
    }
    UnlinkedNexts(s, order, p);
    UnlinkedPrevs(s, order, p);
  }

  lemma UnlinkedNexts(s: seq<Buf>, order: seq<nat>, p: nat)
    requires Ring(s, order) && p < |order| && s[order[p]].next <= NBUF && s[order[p]].prev <= NBUF
    ensures var s', rest := Unlinked(s, order[p]), Without(order, p);
            && s'[NBUF].next == First(rest)
            && forall k {:trigger s'[rest[k]]} :: 0 <= k < |rest| ==> s'[rest[k]].next == After(rest, k)
  {
    var s', rest := Unlinked(s, order[p]), Without(order, p);
    forall k | 0 <= k < |rest|
      ensures s'[rest[k]].next == After(rest, k)
    {
      var j := if k < p then k else k + 1;
      assert rest[k] == order[j];
      assert s[order[p]].prev == order[j] <==> j + 1 == p;
    }
  }

  lemma UnlinkedPrevs(s: seq<Buf>, order: seq<nat>, p: nat)
    requires Ring(s, order) && p < |order| && s[order[p]].next <= NBUF && s[order[p]].prev <= NBUF
    ensures var s', rest := Unlinked(s, order[p]), Without(order, p);
            && s'[NBUF].prev == Last(rest)
            && forall k {:trigger s'[rest[k]]} :: 0 <= k < |rest| ==> s'[rest[k]].prev == Before(rest, k)
  {
    var s', rest := Unlinked(s, order[p]), Without(order, p);
    forall k | 0 <= k < |rest|
      ensures s'[rest[k]].prev == Before(rest, k)
    {
      var j := if k < p then k else k + 1;
      assert rest[k] == order[j];
      assert s[order[p]].next == order[j] <==> j == p + 1;
    }
  }

  lemma LinkedFirstRing(s: seq<Buf>, order: seq<nat>, i: nat)
    requires Ring(s, order) && i < NBUF && i !in order
    ensures Ring(LinkedFirst(s, i), [i] + order)
  {
  }

  // Relinking changes nothing but the links.
  predicate SameButLinks(a: Buf, b: Buf) {
    a == b.(prev := a.prev, next := a.next)
  }

  lemma UnlinkedSame(s: seq<Buf>, i: nat)
    requires |s| == NBUF + 1 && i < NBUF && s[i].next <= NBUF && s[i].prev <= NBUF
    ensures var u := Unlinked(s, i);
            |u| == |s| && forall k :: 0 <= k < |s| ==> SameButLinks(u[k], s[k])
  {
  }

  lemma LinkedFirstSame(s: seq<Buf>, i: nat)
    requires |s| == NBUF + 1 && i < NBUF && s[NBUF].next <= NBUF
    ensures var u := LinkedFirst(s, i);
            |u| == |s| && forall k :: 0 <= k < |s| ==> SameButLinks(u[k], s[k])
  {
  }

  // ----- cached contents

  predicate Caches(s: seq<Buf>, i: nat, b: nat) {
    i < NBUF < |s| && s[i].valid && s[i].dev == ROOTDEV && s[i].blockno == b
  }

  // Buffers against the disk. `view` holds, for each block, the contents last read or written through the cache.
  ghost predicate Coherent(s: seq<Buf>, disk: Disk, view: Disk) {
    && |s| == NBUF + 1 && |view| == |disk|
    && (forall i :: 0 <= i < NBUF && s[i].valid ==>
          s[i].dev == ROOTDEV && s[i].blockno < |disk| && s[i].data == view[s[i].blockno])
    && (forall i :: 0 <= i < NBUF && s[i].dirty ==> s[i].valid)
    && (forall i :: 0 <= i < NBUF && s[i].valid && !s[i].dirty && s[i].lock.Free? ==> s[i].data == disk[s[i].blockno])
    && (forall b: nat :: b < |disk| && (forall i: nat :: i < NBUF ==> !Caches(s, i, b)) ==> view[b] == disk[b])
  }

  // At most one buffer per block of the disk.
  ghost predicate UniqueBlocks(s: seq<Buf>) {
    && |s| == NBUF + 1
    && (forall i, j :: 0 <= i < j < NBUF && s[i].dev == ROOTDEV && s[j].dev == ROOTDEV ==> s[i].blockno != s[j].blockno)
    && (forall i :: 0 <= i < NBUF && !s[i].lock.Free? ==> s[i].refcnt > 0)
  }

  // The list is ordered by last release, most recent first.
  ghost predicate ByRelease(order: seq<nat>, stamp: seq<nat>, clock: nat) {
    && |stamp| == NBUF
    && (forall k :: 0 <= k < |order| ==> order[k] < NBUF && stamp[order[k]] < clock)
    && (forall j, k :: 0 <= j < k < |order| ==> stamp[order[j]] > stamp[order[k]])
  }

  predicate IsFor(b: Buf, dev: nat, blockno: nat) {
    b.dev == dev && b.blockno == blockno
  }

  // bget can serve the request: the block is cached, or some buffer may be recycled.
  ghost predicate Available(s: seq<Buf>, dev: nat, blockno: nat) {
    |s| == NBUF + 1 && exists i :: 0 <= i < NBUF && (IsFor(s[i], dev, blockno) || Recyclable(s[i]))
  }

  predicate Recyclable(b: Buf) {
    b.refcnt == 0 && !b.dirty
  }

  // A buffer of the block is held by somebody.
  ghost predicate InUse(s: seq<Buf>, dev: nat, blockno: nat) {
    |s| == NBUF + 1 && exists i :: 0 <= i < NBUF && IsFor(s[i], dev, blockno) && !s[i].lock.Free?
  }

  // Of a disk block there is one buffer; buffers never used all have the identity of the same block of device 0.
  lemma InUseHere(s: seq<Buf>, dev: nat, blockno: nat, b: nat)
    requires UniqueBlocks(s) && b < NBUF && IsFor(s[b], dev, blockno)
    ensures Available(s, dev, blockno)
    ensures !s[b].lock.Free? ==> InUse(s, dev, blockno)
    ensures dev == ROOTDEV && InUse(s, dev, blockno) ==> !s[b].lock.Free?
  {
  }

  // ----- what a change to one buffer keeps

  ghost predicate Consistent(s: seq<Buf>, disk: Disk, view: Disk, order: seq<nat>) {
    Ring(s, order) && Coherent(s, disk, view) && UniqueBlocks(s)
  }

  lemma UpdateKeepsRing(s: seq<Buf>, order: seq<nat>, b: nat, nb: Buf)
    requires Ring(s, order) && b < NBUF && nb.prev == s[b].prev && nb.next == s[b].next
    ensures Ring(s[b := nb], order)
  {
    var s' := s[b := nb];
    assert forall x :: 0 <= x <= NBUF ==> s'[x].prev == s[x].prev && s'[x].next == s[x].next;
  }

  lemma GetKeeps(s: seq<Buf>, disk: Disk, view: Disk, order: seq<nat>, b: nat, nb: Buf)
    requires Consistent(s, disk, view, order) && b < NBUF
    requires nb == s[b].(refcnt := s[b].refcnt + 1)
    ensures Consistent(s[b := nb], disk, view, order)
  {
    UpdateKeepsRing(s, order, b, nb);
    var s' := s[b := nb];
    assert forall i, x :: Caches(s', i, x) == Caches(s, i, x);
  }

  lemma LockKeeps(s: seq<Buf>, disk: Disk, view: Disk, order: seq<nat>, b: nat, me: nat)
    requires Consistent(s, disk, view, order) && b < NBUF && s[b].lock.Free? && s[b].refcnt > 0
    ensures Consistent(s[b := s[b].(lock := Process(me))], disk, view, order)
  {
    var nb := s[b].(lock := Process(me));
    UpdateKeepsRing(s, order, b, nb);
    var s' := s[b := nb];
    assert forall i, x :: Caches(s', i, x) == Caches(s, i, x);
  }

  lemma RecycleKeeps(s: seq<Buf>, disk: Disk, view: Disk, order: seq<nat>, b: nat, nb: Buf)
    requires Consistent(s, disk, view, order) && b < NBUF && Recyclable(s[b])
    requires nb == s[b].(valid := false, dirty := false, dev := nb.dev, blockno := nb.blockno, refcnt := 1,
                         lock := nb.lock)
    requires forall i :: 0 <= i < NBUF ==> !(s[i].dev == nb.dev && s[i].blockno == nb.blockno)
    ensures Consistent(s[b := nb], disk, view, order)
  {
    UpdateKeepsRing(s, order, b, nb);
    var s' := s[b := nb];
    assert forall i, x :: i != b ==> Caches(s', i, x) == Caches(s, i, x);
    assert s[b].lock.Free?;
    forall x: nat | x < |disk| && forall i: nat :: i < NBUF ==> !Caches(s', i, x)
      ensures view[x] == disk[x]
    {
      if Caches(s, b, x) {
        assert s[b].data == disk[x];
      } else {
        assert forall i: nat :: i < NBUF ==> !Caches(s, i, x);
      }
    }
  }

  lemma ReadKeeps(s: seq<Buf>, disk: Disk, view: Disk, order: seq<nat>, b: nat, nb: Buf)
    requires Consistent(s, disk, view, order) && b < NBUF && !s[b].valid
    requires s[b].dev == ROOTDEV && s[b].blockno < |disk| && !s[b].lock.Free?
    requires nb == s[b].(valid := true, data := disk[s[b].blockno])
    ensures Consistent(s[b := nb], disk, view, order) && nb.data == view[s[b].blockno]
  {
    UpdateKeepsRing(s, order, b, nb);
    var s' := s[b := nb];
    assert forall i, x :: i != b ==> Caches(s', i, x) == Caches(s, i, x);
    assert forall i: nat :: i < NBUF ==> !Caches(s, i, s[b].blockno);
  }

  lemma WriteKeeps(s: seq<Buf>, disk: Disk, view: Disk, order: seq<nat>, b: nat)
    requires Consistent(s, disk, view, order) && b < NBUF && s[b].valid
    ensures Consistent(s[b := s[b].(dirty := false)], disk[s[b].blockno := s[b].data], view, order)
  {
    var nb := s[b].(dirty := false);
    UpdateKeepsRing(s, order, b, nb);
    var s' := s[b := nb];
    assert forall i, x :: Caches(s', i, x) == Caches(s, i, x);
    assert Caches(s, b, s[b].blockno);
  }

  lemma SetDataKeeps(s: seq<Buf>, disk: Disk, view: Disk, order: seq<nat>, b: nat, data: Block)
    requires Consistent(s, disk, view, order) && b < NBUF && s[b].valid && !s[b].lock.Free?
    ensures Consistent(s[b := s[b].(data := data)], disk, view[s[b].blockno := data], order)
  {
    var nb := s[b].(data := data);
    UpdateKeepsRing(s, order, b, nb);
    var s' := s[b := nb];
    assert forall i, x :: Caches(s', i, x) == Caches(s, i, x);
    assert Caches(s, b, s[b].blockno);
  }

  lemma MarkDirtyKeeps(s: seq<Buf>, disk: Disk, view: Disk, order: seq<nat>, b: nat)
    requires Consistent(s, disk, view, order) && b < NBUF && s[b].valid
    ensures Consistent(s[b := s[b].(dirty := true)], disk, view, order)
  {
    var nb := s[b].(dirty := true);
    UpdateKeepsRing(s, order, b, nb);
    var s' := s[b := nb];
    assert forall i, x :: Caches(s', i, x) == Caches(s, i, x);
  }

  // Releasing keeps the cache in agreement with the disk exactly when nothing is lost by it.
  lemma ReleaseKeeps(s: seq<Buf>, disk: Disk, view: Disk, order: seq<nat>, b: nat, nb: Buf)
    requires Consistent(s, disk, view, order) && b < NBUF && s[b].valid && s[b].refcnt > 0
    requires nb == s[b].(lock := Free, refcnt := s[b].refcnt - 1)
    ensures Ring(s[b := nb], order) && UniqueBlocks(s[b := nb])
    ensures Coherent(s[b := nb], disk, view) <==> s[b].dirty || s[b].data == disk[s[b].blockno]
  {
    UpdateKeepsRing(s, order, b, nb);
    var s' := s[b := nb];
    assert forall i, x :: Caches(s', i, x) == Caches(s, i, x);
    assert s'[b] == nb;
  }

  lemma RelinkKeeps(s: seq<Buf>, s': seq<Buf>, disk: Disk, view: Disk)
    requires |s'| == |s| && forall i :: 0 <= i < |s| ==> SameButLinks(s'[i], s[i])
    ensures Coherent(s, disk, view) ==> Coherent(s', disk, view)
    ensures UniqueBlocks(s) ==> UniqueBlocks(s')
  {
    assert forall i, x :: Caches(s', i, x) == Caches(s, i, x);
  }

  lemma MovedByRelease(order: seq<nat>, stamp: seq<nat>, clock: nat, p: nat)
    requires ByRelease(order, stamp, clock) && p < |order|
    requires forall j, k :: 0 <= j < k < |order| ==> order[j] != order[k]
    ensures ByRelease([order[p]] + Without(order, p), stamp[order[p] := clock], clock + 1)
  {
    var moved, stamp' := [order[p]] + Without(order, p), stamp[order[p] := clock];
    forall k | 1 <= k < |moved|
      ensures moved[k] == order[if k <= p then k - 1 else k] && stamp'[moved[k]] == stamp[moved[k]]
    {
    }
  }

  lemma MoveToFrontKeeps(s: seq<Buf>, disk: Disk, view: Disk, order: seq<nat>, stamp: seq<nat>, clock: nat, p: nat)
    requires Ring(s, order) && Permutation(order) && ByRelease(order, stamp, clock) && p < NBUF
    ensures s[order[p]].next <= NBUF && s[order[p]].prev <= NBUF
    ensures var b := order[p];
            var u := Unlinked(s, b);
            && u[NBUF].next <= NBUF
            && Ring(LinkedFirst(u, b), [b] + Without(order, p)) && Permutation([b] + Without(order, p))
            && ByRelease([b] + Without(order, p), stamp[b := clock], clock + 1)
            && (forall i :: 0 <= i < |s| ==> SameButLinks(LinkedFirst(u, b)[i], s[i]))
            && (Coherent(LinkedFirst(u, b), disk, view) <==> Coherent(s, disk, view))
            && (UniqueBlocks(s) ==> UniqueBlocks(LinkedFirst(u, b)))
  {
    var b := order[p];
    LinksInBounds(s, order, p);
    UnlinkedRing(s, order, p);
    UnlinkedSame(s, b);
    var u := Unlinked(s, b);
    LinksInBoundsHead(u, Without(order, p));
    LinkedFirstRing(u, Without(order, p), b);
    LinkedFirstSame(u, b);
    hide Coherent, UniqueBlocks, LinkedFirst, Unlinked;
    RelinkKeeps(s, LinkedFirst(u, b), disk, view);
    RelinkKeeps(LinkedFirst(u, b), s, disk, view);
    MovedPermutation(order, p);
    MovedByRelease(order, stamp, clock, p);
  }

  class BufferCache {
    var disk: Disk               // memdisk
    var bufs: array<Buf>
    ghost var view: Disk
    ghost var order: seq<nat>
    ghost var stamp: seq<nat>    // when each buffer was last released
    ghost var clock: nat
    ghost var images: seq<Disk>  // every contents the disk has had

    ghost predicate Valid()
      reads this, bufs
    {
      && Consistent(bufs[..], disk, view, order)
      && Permutation(order)
      && ByRelease(order, stamp, clock)
      && |images| > 0 && images[|images| - 1] == disk
    }

    // The list and the buffers' identities are in order, whatever the buffers hold.
    ghost predicate Linked()
      reads this, bufs
    {
      && Ring(bufs[..], order) && UniqueBlocks(bufs[..])
      && Permutation(order) && ByRelease(order, stamp, clock)
      && |images| > 0 && images[|images| - 1] == disk
    }

    // binit
    constructor (disk: Disk)
      ensures Valid() && fresh(bufs)
      ensures this.disk == disk && view == disk && images == [disk]
      ensures forall i :: 0 <= i < NBUF ==>
          bufs[i].refcnt == 0 && bufs[i].lock.Free? && !bufs[i].valid && !bufs[i].dirty
    {
      this.disk, view, images := disk, disk, [disk];
      bufs := new Buf[NBUF + 1](i => Buf(false, false, 0, 0, Free, 0, NBUF, NBUF, ZeroBlock()));
      order, stamp, clock := [], seq(NBUF, i requires 0 <= i < NBUF => i), NBUF;
      new;
      for b := 0 to NBUF
        invariant bufs.Length == NBUF + 1 && fresh(bufs)
        invariant this.disk == disk && view == disk && images == [disk]
        invariant stamp == seq(NBUF, i requires 0 <= i < NBUF => i) && clock == NBUF
        invariant Ring(bufs[..], order) && |order| == b && forall k :: 0 <= k < b ==> order[k] == b - 1 - k
        invariant forall i :: 0 <= i < NBUF ==>
            SameButLinks(bufs[i], Buf(false, false, 0, 0, Free, 0, NBUF, NBUF, ZeroBlock()))
      {
        LinkedFirstRing(bufs[..], order, b);
        LinkedFirstSame(bufs[..], b);
        LinkFirst(b);
        order := [b] + order;
      }
      forall i: nat | i < NBUF
        ensures i in order
      {
        assert order[NBUF - 1 - i] == i;
      }
    }

    method LinkFirst(b: nat)
      requires bufs.Length == NBUF + 1 && b < NBUF && bufs[NBUF].next <= NBUF
      modifies bufs
      ensures bufs[..] == LinkedFirst(old(bufs[..]), b)
    {
      bufs[b] := bufs[b].(next := bufs[NBUF].next, prev := NBUF);
      bufs[bufs[NBUF].next] := bufs[bufs[NBUF].next].(prev := b);
      bufs[NBUF] := bufs[NBUF].(next := b);
    }

    method Unlink(b: nat)
      requires bufs.Length == NBUF + 1 && b < NBUF && bufs[b].next <= NBUF && bufs[b].prev <= NBUF
      modifies bufs
      ensures bufs[..] == Unlinked(old(bufs[..]), b)
    {
      bufs[bufs[b].next] := bufs[bufs[b].next].(prev := bufs[b].prev);
      bufs[bufs[b].prev] := bufs[bufs[b].prev].(next := bufs[b].next);
    }

    // ----- bget

    // A buffer already holding the block, or NBUF.
    method FindCached(dev: nat, blockno: nat) returns (b: nat)
      requires Valid()
      ensures b <= NBUF
      ensures b < NBUF ==> IsFor(bufs[b], dev, blockno)
      ensures b == NBUF ==> forall i :: 0 <= i < NBUF ==> !IsFor(bufs[i], dev, blockno)
    {
      ghost var k := 0;
      b := bufs[NBUF].next;
      while b != NBUF
        invariant 0 <= k <= NBUF && b == if k < NBUF then order[k] else NBUF
        invariant forall j :: 0 <= j < k ==> !IsFor(bufs[order[j]], dev, blockno)
        decreases NBUF - k
      {
        if bufs[b].dev == dev && bufs[b].blockno == blockno {
          return;
        }
        assert bufs[..][order[k]] == bufs[b];
        b := bufs[b].next;
        k := k + 1;
      }
      forall i: nat | i < NBUF
        ensures !IsFor(bufs[i], dev, blockno)
      {
        assert i in order;
      }
    }

    // Of the buffers that may be recycled, the one released longest ago, or NBUF if there is none.
    method FindVictim() returns (b: nat)
      requires Valid()
      ensures b <= NBUF
      ensures b < NBUF ==> Recyclable(bufs[b])
      ensures b < NBUF ==> forall i :: 0 <= i < NBUF && i != b && Recyclable(bufs[i]) ==> stamp[b] < stamp[i]
      ensures b == NBUF ==> forall i :: 0 <= i < NBUF ==> !Recyclable(bufs[i])
    {
      ghost var k := NBUF;
      b := bufs[NBUF].prev;
      while b != NBUF
        invariant 0 <= k <= NBUF && b == if k > 0 then order[k - 1] else NBUF
        invariant forall j :: k <= j < NBUF ==> !Recyclable(bufs[order[j]])
        decreases k
      {
        if bufs[b].refcnt == 0 && !bufs[b].dirty {
          forall i: nat | i < NBUF && i != b && Recyclable(bufs[i])
            ensures stamp[b] < stamp[i]
          {
            assert i in order;
          }
          return;
        }
        assert bufs[..][order[k - 1]] == bufs[b];
        b := bufs[b].prev;
        k := k - 1;
      }
      forall i: nat | i < NBUF
        ensures !Recyclable(bufs[i])
      {
        assert i in order;
      }
    }

    // The buffer for a block, cached or recycled, referenced and locked. It panics exactly when neither is possible,
    // and waits exactly when another holds the cached buffer.
    method Bget(dev: nat, blockno: nat, me: nat) returns (r: Got, b: nat)
      requires Valid()
      modifies bufs
      ensures Valid() && bufs == old(bufs)
      ensures r == Panicked <==> !Available(old(bufs[..]), dev, blockno)
      ensures r == Panicked ==> bufs[..] == old(bufs[..])
      ensures r == Waiting ==> InUse(old(bufs[..]), dev, blockno)
      ensures dev == ROOTDEV && InUse(old(bufs[..]), dev, blockno) ==> r == Waiting
      ensures !r.Panicked? ==> b < NBUF
      ensures r == Waiting ==>
        && IsFor(bufs[b], dev, blockno) && !bufs[b].lock.Free?
        && bufs[..] == old(bufs[..])[b := old(bufs[b]).(refcnt := old(bufs[b]).refcnt + 1)]
      ensures r == Locked && old(IsFor(bufs[b], dev, blockno)) ==>
        bufs[..] == old(bufs[..])[b := old(bufs[b]).(refcnt := old(bufs[b]).refcnt + 1, lock := Process(me))]
      ensures r == Locked && !old(IsFor(bufs[b], dev, blockno)) ==>
        && bufs[..] == old(bufs[..])[b := old(bufs[b]).(valid := false, dirty := false, dev := dev, blockno := blockno,
                                                        refcnt := 1, lock := Process(me))]
        && (forall i :: 0 <= i < NBUF ==> !IsFor(old(bufs[i]), dev, blockno))
        && Recyclable(old(bufs[b]))
        && (forall i :: 0 <= i < NBUF && i != b && Recyclable(old(bufs[i])) ==> stamp[b] < stamp[i])
    {
      ghost var s := bufs[..];
      b := FindCached(dev, blockno);
      if b != NBUF {
        InUseHere(s, dev, blockno, b);
        r := Take(b, me);
        return;
      }
      b := FindVictim();
      if b != NBUF {
        assert Recyclable(s[b]);
        Recycle(b, dev, blockno, me);
        return Locked, b;
      }
      r := Panicked;
    }

    // A cached buffer: one reference more, and its lock, if it is free.
    method Take(b: nat, me: nat) returns (r: Got)
      requires Valid() && b < NBUF
      modifies bufs
      ensures Valid() && r == if old(bufs[b].lock).Free? then Locked else Waiting
      ensures bufs[..] == old(bufs[..])[b := old(bufs[b]).(refcnt := old(bufs[b]).refcnt + 1,
                                                          lock := if r == Locked then Process(me)
                                                            else old(bufs[b]).lock)]
    {
      Reference(b);
      var got := AcquireSleep(b, me);
      r := if got then Locked else Waiting;
    }

    method Reference(b: nat)
      requires Valid() && b < NBUF
      modifies bufs
      ensures Valid() && bufs[..] == old(bufs[..])[b := old(bufs[b]).(refcnt := old(bufs[b]).refcnt + 1)]
    {
      ghost var s := bufs[..];
      GetKeeps(s, disk, view, order, b, s[b].(refcnt := s[b].refcnt + 1));
      bufs[b] := bufs[b].(refcnt := bufs[b].refcnt + 1);
      assert bufs[..] == s[b := bufs[b]];
    }

    // acquiresleep on a referenced buffer: got at once, or not yet.
    method AcquireSleep(b: nat, me: nat) returns (got: bool)
      requires Valid() && b < NBUF && bufs[b].refcnt > 0
      modifies bufs
      ensures Valid() && got == old(bufs[b].lock).Free?
      ensures bufs[..] == if got then old(bufs[..])[b := old(bufs[b]).(lock := Process(me))] else old(bufs[..])
    {
      ghost var s := bufs[..];
      if !bufs[b].lock.Free? {
        return false;
      }
      LockKeeps(s, disk, view, order, b, me);
      bufs[b] := bufs[b].(lock := Process(me));
      assert bufs[..] == s[b := bufs[b]];
      got := true;
    }

    method Recycle(b: nat, dev: nat, blockno: nat, me: nat)
      requires Valid() && b < NBUF && Recyclable(bufs[b])
      requires forall i :: 0 <= i < NBUF ==> !IsFor(bufs[i], dev, blockno)
      modifies bufs
      ensures Valid()
      ensures bufs[..] == old(bufs[..])[b := old(bufs[b]).(valid := false, dirty := false, dev := dev,
                                                           blockno := blockno,
                                                           refcnt := 1, lock := Process(me))]
    {
      ghost var s := bufs[..];
      ghost var nb := s[b].(valid := false, dirty := false, dev := dev, blockno := blockno, refcnt := 1,
                            lock := Process(me));
      RecycleKeeps(s, disk, view, order, b, nb);
      bufs[b] := bufs[b].(dev := dev, blockno := blockno, valid := false, dirty := false, refcnt := 1);
      bufs[b] := bufs[b].(lock := Process(me));
      assert bufs[..] == s[b := nb];
    }

    // ----- memide.c

    predicate HoldingSleep(b: nat, me: nat)
      requires b < bufs.Length
      reads this, bufs
    {
      bufs[b].lock == Process(me)
    }

    // What iderw demands; anything else panics.
    predicate Transferable(b: nat, me: nat)
      requires b < bufs.Length
      reads this, bufs
    {
      && HoldingSleep(b, me)
      && !(bufs[b].valid && !bufs[b].dirty)
      && bufs[b].dev == ROOTDEV
      && bufs[b].blockno < |disk|
    }

    // Write a dirty buffer to the disk, or read an invalid one from it.
    method Iderw(b: nat, me: nat) returns (ok: bool)
      requires Valid() && b < NBUF
      modifies this`disk, this`images, bufs
      ensures ok == old(Transferable(b, me))
      ensures Valid() && bufs == old(bufs)
      ensures !ok ==> disk == old(disk) && images == old(images) && bufs[..] == old(bufs[..])
      ensures ok && old(bufs[b].dirty) ==>
        && disk == old(disk)[old(bufs[b].blockno) := old(bufs[b].data)] && images == old(images) + [disk]
        && bufs[..] == old(bufs[..])[b := old(bufs[b]).(dirty := false)]
      ensures ok && !old(bufs[b].dirty) ==>
        && disk == old(disk) && images == old(images)
        && bufs[..] == old(bufs[..])[b := old(bufs[b]).(valid := true, data := view[old(bufs[b].blockno)])]
    {
      if !HoldingSleep(b, me) || (bufs[b].valid && !bufs[b].dirty) || bufs[b].dev != ROOTDEV
         || bufs[b].blockno >= |disk| {
        return false;
      }
      ghost var s := bufs[..];
      if bufs[b].dirty {
        WriteKeeps(s, disk, view, order, b);
        bufs[b] := bufs[b].(dirty := false);
        disk := disk[bufs[b].blockno := bufs[b].data];
        images := images + [disk];
      } else {
        ReadKeeps(s, disk, view, order, b, s[b].(valid := true, data := disk[s[b].blockno]));
        bufs[b] := bufs[b].(data := disk[bufs[b].blockno]);
      }
      bufs[b] := bufs[b].(valid := true);
      assert bufs[..] == s[b := bufs[b]];
      ok := true;
    }

    // ----- bread, bwrite, brelse

    // A locked buffer with the contents last read or written through the cache for this block.
    method Bread(dev: nat, blockno: nat, me: nat) returns (r: Got, b: nat)
      requires Valid()
      modifies this`disk, this`images, bufs
      ensures Valid() && bufs == old(bufs) && disk == old(disk) && images == old(images)
      ensures dev == ROOTDEV && blockno < |disk| ==> (r == Panicked <==> !Available(old(bufs[..]), dev, blockno))
      ensures r == Waiting ==> InUse(old(bufs[..]), dev, blockno)
      ensures dev == ROOTDEV && InUse(old(bufs[..]), dev, blockno) ==> r == Waiting
      ensures r == Waiting ==>
        && b < NBUF && IsFor(bufs[b], dev, blockno)
        && bufs[..] == old(bufs[..])[b := old(bufs[b]).(refcnt := old(bufs[b]).refcnt + 1)]
      ensures r == Locked ==> b < NBUF && dev == ROOTDEV && blockno < |disk| && Available(old(bufs[..]), dev, blockno)
      ensures r == Locked ==> bufs[b].valid && IsFor(bufs[b], dev, blockno) && HoldingSleep(b, me)
      ensures r == Locked ==> bufs[b].data == view[blockno]
      ensures r == Locked ==> forall i :: 0 <= i <= NBUF && i != b ==> bufs[i] == old(bufs[i])
      ensures r == Locked && old(IsFor(bufs[b], dev, blockno)) ==>
        bufs[b].dirty == old(bufs[b].dirty) && bufs[b].refcnt == old(bufs[b].refcnt) + 1
      ensures r == Locked && !old(IsFor(bufs[b], dev, blockno)) ==>
        && !bufs[b].dirty && bufs[b].refcnt == 1 && Recyclable(old(bufs[b]))
        && (forall i :: 0 <= i < NBUF && i != b && Recyclable(old(bufs[i])) ==> stamp[b] < stamp[i])
    {
      r, b := Bget(dev, blockno, me);
      if r != Locked {
        return;
      }
      var ok := ReadIn(b, me);
      if !ok {
        r := Panicked;
      }
    }

    // The rest of bread, with the lock held.
    method ReadIn(b: nat, me: nat) returns (ok: bool)
      requires Valid() && b < NBUF && HoldingSleep(b, me)
      modifies this`disk, this`images, bufs
      ensures Valid() && bufs == old(bufs) && disk == old(disk) && images == old(images)
      ensures ok <==> bufs[b].dev == ROOTDEV && bufs[b].blockno < |disk|
      ensures ok ==> bufs[..] == old(bufs[..])[b := old(bufs[b]).(valid := true, data := view[bufs[b].blockno])]
      ensures !ok ==> bufs[..] == old(bufs[..])
    {
      ok := true;
      if !bufs[b].valid {
        ok := Iderw(b, me);
      } else {
        assert bufs[..] == bufs[..][b := bufs[b].(valid := true, data := view[bufs[b].blockno])];
      }
    }

    // The holder changes the contents.
    method SetData(b: nat, me: nat, data: Block)
      requires Valid() && b < NBUF && HoldingSleep(b, me) && bufs[b].valid
      modifies this`view, bufs
      ensures Valid() && bufs == old(bufs)
      ensures bufs[..] == old(bufs[..])[b := old(bufs[b]).(data := data)]
      ensures view == old(view)[bufs[b].blockno := data]
    {
      ghost var s := bufs[..];
      SetDataKeeps(s, disk, view, order, b, data);
      bufs[b] := bufs[b].(data := data);
      assert bufs[..] == s[b := bufs[b]];
      view := view[bufs[b].blockno := data];
    }

    // b->flags |= B_DIRTY, as log_write does to pin a buffer.
    method MarkDirty(b: nat)
      requires Valid() && b < NBUF && bufs[b].valid
      modifies bufs
      ensures Valid() && bufs == old(bufs)
      ensures bufs[..] == old(bufs[..])[b := old(bufs[b]).(dirty := true)]
    {
      ghost var s := bufs[..];
      MarkDirtyKeeps(s, disk, view, order, b);
      bufs[b] := bufs[b].(dirty := true);
      assert bufs[..] == s[b := bufs[b]];
    }

    method Bwrite(b: nat, me: nat) returns (ok: bool)
      requires Valid() && b < NBUF && bufs[b].valid
      modifies this`disk, this`images, bufs
      ensures ok == old(HoldingSleep(b, me))
      ensures Valid() && bufs == old(bufs)
      ensures !ok ==> disk == old(disk) && images == old(images) && bufs[..] == old(bufs[..])
      ensures ok ==>
        && disk == old(disk[bufs[b].blockno := bufs[b].data]) && images == old(images) + [disk]
        && bufs[..] == old(bufs[..])[b := old(bufs[b]).(dirty := false)]
    {
      if !HoldingSleep(b, me) {
        return false;
      }
      MarkDirty(b);
      ok := Iderw(b, me);
    }

    /** brelse; the last release moves the buffer to the front. The cache goes on agreeing with the disk exactly when
        the buffer's changes, if any, have been written or logged, as the interface at bio.c:11 asks. */
    method Brelse(b: nat, me: nat) returns (ok: bool)
      requires Valid() && b < NBUF && bufs[b].valid
      modifies this`order, this`stamp, this`clock, bufs
      ensures ok == old(HoldingSleep(b, me))
      ensures Linked() && bufs == old(bufs)
      ensures Valid() <==> !ok || old(bufs[b].dirty || bufs[b].data == disk[bufs[b].blockno])
      ensures !ok ==> bufs[..] == old(bufs[..]) && order == old(order)
      ensures ok ==> forall i :: 0 <= i < NBUF ==> SameButLinks(bufs[i],
        if i == b then old(bufs[b]).(lock := Free, refcnt := old(bufs[b]).refcnt - 1) else old(bufs[i]))
      ensures ok && bufs[b].refcnt > 0 ==> order == old(order) && stamp == old(stamp) && clock == old(clock)
      ensures ok && bufs[b].refcnt == 0 ==>
        && (exists p :: 0 <= p < NBUF && old(order)[p] == b && order == [b] + Without(old(order), p))
        && stamp == old(stamp)[b := old(clock)] && clock == old(clock) + 1
    {
      hide Coherent, ByRelease;
      if !HoldingSleep(b, me) {
        return false;
      }
      ok := true;
      Drop(b);
      if bufs[b].refcnt == 0 {
        assert b in order;
        ghost var p :| 0 <= p < NBUF && order[p] == b;
        MoveToFront(b, p);
      }
    }

    method Drop(b: nat)
      requires Valid() && b < NBUF && bufs[b].valid && bufs[b].refcnt > 0
      modifies bufs
      ensures Linked()
      ensures Coherent(bufs[..], disk, view) <==> old(bufs[b].dirty || bufs[b].data == disk[bufs[b].blockno])
      ensures forall i :: 0 <= i < NBUF && i != b ==> bufs[i] == old(bufs[i])
      ensures bufs[b] == old(bufs[b]).(lock := Free, refcnt := old(bufs[b]).refcnt - 1)
    {
      ghost var s := bufs[..];
      ReleaseKeeps(s, disk, view, order, b, s[b].(lock := Free, refcnt := s[b].refcnt - 1));
      bufs[b] := bufs[b].(lock := Free);
      bufs[b] := bufs[b].(refcnt := bufs[b].refcnt - 1);
      assert bufs[..] == s[b := bufs[b]];
    }

    method MoveToFront(b: nat, ghost p: nat)
      requires Linked() && p < NBUF && order[p] == b
      modifies this`order, this`stamp, this`clock, bufs
      ensures Linked() && bufs == old(bufs)
      ensures Coherent(bufs[..], disk, view) <==> old(Coherent(bufs[..], disk, view))
      ensures forall i :: 0 <= i < NBUF ==> SameButLinks(bufs[i], old(bufs[i]))
      ensures order == [b] + Without(old(order), p)
      ensures stamp == old(stamp)[b := old(clock)] && clock == old(clock) + 1
    {
      hide Coherent, UniqueBlocks;
      Splice(b, p);
      order := [b] + Without(order, p);
      stamp := stamp[b := clock];
      clock := clock + 1;
    }

    method Splice(b: nat, ghost p: nat)
      requires Linked() && p < NBUF && order[p] == b
      modifies bufs
      ensures Ring(bufs[..], [b] + Without(order, p)) && UniqueBlocks(bufs[..]) && Permutation([b] + Without(order, p))
      ensures ByRelease([b] + Without(order, p), stamp[b := clock], clock + 1)
      ensures Coherent(bufs[..], disk, view) <==> old(Coherent(bufs[..], disk, view))
      ensures forall i :: 0 <= i < NBUF ==> SameButLinks(bufs[i], old(bufs[i]))
    {
      MoveToFrontKeeps(bufs[..], disk, view, order, stamp, clock, p);
      ghost var s := bufs[..];
      Unlink(b);
      LinkFirst(b);
      assert forall i :: 0 <= i < NBUF ==> bufs[i] == bufs[..][i] && s[i] == old(bufs[i]);
    }
  }
}
