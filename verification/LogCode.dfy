/** The log's functions as they run over the buffer cache (log.c), for one process at a time.
    `cache.images` lists every contents the disk has had, so what a crash may leave is what it lists. */
module LogCode {
  import opened Blocks
  import opened Bio
  import opened RedoLog

  // No buffer is locked or referenced.
  ghost predicate Quiet(s: seq<Buf>) {
    |s| == NBUF + 1 && forall i :: 0 <= i < NBUF ==> s[i].lock.Free? && s[i].refcnt == 0
  }

  ghost function DirtyBlocks(s: seq<Buf>): set<nat>
    requires |s| == NBUF + 1
  {
    set i | 0 <= i < NBUF && s[i].dirty :: s[i].blockno
  }

  ghost predicate Cached(s: seq<Buf>, b: nat)
    requires |s| == NBUF + 1
  {
    exists i :: 0 <= i < NBUF && IsFor(s[i], ROOTDEV, b)
  }

  // The pinned buffers fill the cache exactly when there are NBUF of them.
  lemma DirtyCount(s: seq<Buf>, disk: Disk, view: Disk)
    requires Coherent(s, disk, view) && UniqueBlocks(s)
    ensures |DirtyBlocks(s)| <= NBUF
    ensures |DirtyBlocks(s)| == NBUF <==> forall i :: 0 <= i < NBUF ==> s[i].dirty
  {
    assert DistinctDirty(s);
    DirtyCountUpTo(s, NBUF);
    forall b: nat
      ensures b in DirtyBlocks(s) <==> b in DirtyUpTo(s, NBUF)
    {
      DirtyUpToIn(s, NBUF, b);
    }
    assert DirtyBlocks(s) == DirtyUpTo(s, NBUF);
  }

  ghost predicate DistinctDirty(s: seq<Buf>) {
    |s| == NBUF + 1 && forall i, j :: 0 <= i < j < NBUF && s[i].dirty && s[j].dirty ==> s[i].blockno != s[j].blockno
  }

  ghost function DirtyUpTo(s: seq<Buf>, n: nat): set<nat>
    requires |s| == NBUF + 1 && n <= NBUF
  {
    if n == 0 then {} else DirtyUpTo(s, n - 1) + if s[n - 1].dirty then {s[n - 1].blockno} else {}
  }

  lemma {:induction false} DirtyUpToIn(s: seq<Buf>, n: nat, b: nat)
    requires |s| == NBUF + 1 && n <= NBUF
    ensures b in DirtyUpTo(s, n) <==> exists i :: 0 <= i < n && s[i].dirty && s[i].blockno == b
  {
    if n > 0 {
      DirtyUpToIn(s, n - 1, b);
    }
  }

  lemma {:induction false} DirtyCountUpTo(s: seq<Buf>, n: nat)
    requires DistinctDirty(s) && n <= NBUF
    ensures |DirtyUpTo(s, n)| <= n
    ensures |DirtyUpTo(s, n)| == n <==> forall i :: 0 <= i < n ==> s[i].dirty
  {
    if n > 0 {
      DirtyCountUpTo(s, n - 1);
      DirtyUpToIn(s, n - 1, s[n - 1].blockno);
    }
  }

  lemma SameDirty(s: seq<Buf>, s': seq<Buf>)
    requires |s| == |s'| == NBUF + 1
    requires forall i :: 0 <= i < NBUF ==> s'[i].dirty == s[i].dirty && (s[i].dirty ==> s'[i].blockno == s[i].blockno)
    ensures DirtyBlocks(s') == DirtyBlocks(s)
  {
  }

  // Buffers x and y are held by `me`, valid, and the only ones in use.
  ghost predicate HeldPair(s: seq<Buf>, x: nat, y: nat, me: nat) {
    && |s| == NBUF + 1 && x < NBUF && y < NBUF && x != y
    && s[x].lock == s[y].lock == Process(me) && s[x].refcnt == s[y].refcnt == 1
    && s[x].valid && s[y].valid
    && forall i :: 0 <= i < NBUF && i != x && i != y ==> s[i].lock.Free? && s[i].refcnt == 0
  }

  // Some buffer is not pinned.
  ghost predicate RoomLeft(s: seq<Buf>)
    requires |s| == NBUF + 1
  {
    exists i :: 0 <= i < NBUF && !s[i].dirty
  }

  ghost predicate Clean(s: seq<Buf>)
    requires |s| == NBUF + 1
  {
    forall i :: 0 <= i < NBUF ==> !s[i].dirty
  }

  // With all buffers free: two blocks can be had together if one is pinned and a buffer is left, or none is pinned.
  ghost predicate PairFits(s: seq<Buf>, first: nat, second: nat)
    requires |s| == NBUF + 1
  {
    || (RoomLeft(s) && (first in DirtyBlocks(s) || second in DirtyBlocks(s)))
    || Clean(s)
  }

  method BreadPair(cache: BufferCache, first: nat, second: nat, me: nat) returns (ok: bool, x: nat, y: nat)
    requires cache.Valid() && Quiet(cache.bufs[..])
    requires first != second && first < |cache.disk| && second < |cache.disk|
    modifies cache, cache.bufs
    ensures cache.bufs == old(cache.bufs) && cache.Valid()
    ensures cache.disk == old(cache.disk) && cache.images == old(cache.images) && cache.view == old(cache.view)
    ensures old(PairFits(cache.bufs[..], first, second)) ==> ok
    ensures ok ==> old(RoomLeft(cache.bufs[..])) || old(Cached(cache.bufs[..], first))
    ensures ok ==> HeldPair(cache.bufs[..], x, y, me)
    ensures ok ==> cache.bufs[x].blockno == first && cache.bufs[y].blockno == second
    ensures ok ==> cache.bufs[x].data == cache.view[first] && cache.bufs[y].data == cache.view[second]
    ensures ok ==> cache.bufs[x].dirty || cache.bufs[x].data == cache.disk[first]
    ensures ok ==> cache.bufs[y].dirty || cache.bufs[y].data == cache.disk[second]
    ensures ok ==> DirtyBlocks(cache.bufs[..]) == old(DirtyBlocks(cache.bufs[..]))
  {
    y := 0;
    ghost var s0 := cache.bufs[..];
    assert Clean(s0) ==> !s0[0].dirty;
    ok, x := BreadOne(cache, first, me);
    if !ok {
      return;
    }
    ghost var s1 := cache.bufs[..];
    SecondFits(s0, s1, x, first, second, cache.disk, cache.view);
    ok, y := BreadBeside(cache, x, second, me);
  }

  // bread with one buffer already held.
  method BreadBeside(cache: BufferCache, x: nat, b: nat, me: nat) returns (ok: bool, y: nat)
    requires cache.Valid() && HeldOne(cache.bufs[..], x, me) && b < |cache.disk|
    requires cache.bufs[x].dev == ROOTDEV && cache.bufs[x].blockno != b
    modifies cache, cache.bufs
    ensures cache.bufs == old(cache.bufs) && cache.Valid()
    ensures cache.disk == old(cache.disk) && cache.images == old(cache.images) && cache.view == old(cache.view)
    ensures ok == Available(old(cache.bufs[..]), ROOTDEV, b)
    ensures ok ==> HeldPair(cache.bufs[..], x, y, me) && cache.bufs[x] == old(cache.bufs[x])
    ensures ok ==> cache.bufs[y].blockno == b && cache.bufs[y].data == cache.view[b]
    ensures ok ==> cache.bufs[y].dirty || cache.bufs[y].data == cache.disk[b]
    ensures ok ==> DirtyBlocks(cache.bufs[..]) == old(DirtyBlocks(cache.bufs[..]))
  {
    ghost var s1 := cache.bufs[..];
    var r;
    r, y := cache.Bread(ROOTDEV, b, me);
    ok := r == Locked;
    if ok {
      SameDirty(s1, cache.bufs[..]);
    }
  }

  lemma SecondFits(s0: seq<Buf>, s1: seq<Buf>, x: nat, first: nat, second: nat, disk: Disk, view: Disk)
    requires |s0| == |s1| == NBUF + 1 && Quiet(s0) && Coherent(s1, disk, view) && x < NBUF
    requires forall i :: 0 <= i < NBUF ==> s1[i].dirty == s0[i].dirty
    requires forall i :: 0 <= i < NBUF && i != x ==> s1[i] == s0[i]
    requires DirtyBlocks(s1) == DirtyBlocks(s0) && (first in DirtyBlocks(s0) ==> s1[x].dirty)
    ensures PairFits(s0, first, second) ==> Available(s1, ROOTDEV, second)
  {
    if Clean(s0) {
      assert Recyclable(s1[if x == 0 then 1 else 0]);
    } else if RoomLeft(s0) && first in DirtyBlocks(s0) {
      var i :| 0 <= i < NBUF && !s0[i].dirty;
      assert Recyclable(s1[i]);
    } else if second in DirtyBlocks(s0) {
      var i :| 0 <= i < NBUF && s1[i].dirty && s1[i].blockno == second;
      assert IsFor(s1[i], ROOTDEV, second);
    }
  }

  ghost predicate HeldOne(s: seq<Buf>, x: nat, me: nat) {
    && |s| == NBUF + 1 && x < NBUF
    && s[x].lock == Process(me) && s[x].refcnt == 1 && s[x].valid
    && forall i :: 0 <= i < NBUF && i != x ==> s[i].lock.Free? && s[i].refcnt == 0
  }

  // bread with every other buffer free.
  method BreadOne(cache: BufferCache, b: nat, me: nat) returns (ok: bool, x: nat)
    requires cache.Valid() && Quiet(cache.bufs[..]) && b < |cache.disk|
    modifies cache, cache.bufs
    ensures cache.bufs == old(cache.bufs) && cache.Valid()
    ensures cache.disk == old(cache.disk) && cache.images == old(cache.images) && cache.view == old(cache.view)
    ensures ok <==> old(RoomLeft(cache.bufs[..])) || old(Cached(cache.bufs[..], b))
    ensures ok ==> HeldOne(cache.bufs[..], x, me)
    ensures ok ==> cache.bufs[x].dev == ROOTDEV && cache.bufs[x].blockno == b && cache.bufs[x].data == cache.view[b]
    ensures ok ==> cache.bufs[x].dirty || cache.bufs[x].data == cache.disk[b]
    ensures ok ==> DirtyBlocks(cache.bufs[..]) == old(DirtyBlocks(cache.bufs[..]))
    ensures ok ==> forall i :: 0 <= i < NBUF ==> cache.bufs[i].dirty == old(cache.bufs[i].dirty)
    ensures ok ==> forall i :: 0 <= i < NBUF && i != x ==> cache.bufs[i] == old(cache.bufs[i])
    ensures ok && b in DirtyBlocks(cache.bufs[..]) ==> cache.bufs[x].dirty
  {
    ghost var s0 := cache.bufs[..];
    var r;
    r, x := cache.Bread(ROOTDEV, b, me);
    ok := r == Locked;
    if !ok {
      return;
    }
    SameDirty(s0, cache.bufs[..]);
  }

  // bread two blocks, copy src's contents into dst's buffer, bwrite it, release both.
  // write_log reads the destination first, install_trans the source.
  method CopyBlock(cache: BufferCache, src: nat, dst: nat, srcFirst: bool, me: nat) returns (ok: bool)
    requires cache.Valid() && Quiet(cache.bufs[..])
    requires src != dst && src < |cache.disk| && dst < |cache.disk|
    modifies cache, cache.bufs
    ensures cache.bufs == old(cache.bufs) && cache.Valid()
    ensures old(PairFits(cache.bufs[..], src, dst)) ==> ok
    ensures ok ==> old(RoomLeft(cache.bufs[..])) || old(Cached(cache.bufs[..], if srcFirst then src else dst))
    ensures !ok ==> cache.disk == old(cache.disk) && cache.images == old(cache.images)
    ensures ok ==> Quiet(cache.bufs[..])
    ensures ok ==>
        cache.disk == old(cache.disk[dst := cache.view[src]]) && cache.images == old(cache.images) + [cache.disk]
    ensures ok ==> cache.view == old(cache.view[dst := cache.view[src]])
    ensures ok ==> DirtyBlocks(cache.bufs[..]) == old(DirtyBlocks(cache.bufs[..])) - {dst}
  {
    var x, y;
    ok, x, y := BreadPair(cache, if srcFirst then src else dst, if srcFirst then dst else src, me);
    if !ok {
      return;
    }
    var from, to := if srcFirst then x else y, if srcFirst then y else x;
    WriteAndRelease(cache, from, to, src, dst, me);
  }

  method WriteAndRelease(cache: BufferCache, from: nat, to: nat, src: nat, dst: nat, me: nat)
    requires cache.Valid() && HeldPair(cache.bufs[..], from, to, me)
    requires cache.bufs[from].blockno == src && cache.bufs[to].blockno == dst && src != dst
    requires cache.bufs[from].dirty || cache.bufs[from].data == cache.disk[src]
    modifies cache, cache.bufs
    ensures cache.bufs == old(cache.bufs) && cache.Valid() && Quiet(cache.bufs[..])
    ensures cache.disk == old(cache.disk[dst := cache.view[src]]) && cache.images == old(cache.images) + [cache.disk]
    ensures cache.view == old(cache.view[dst := cache.view[src]])
    ensures DirtyBlocks(cache.bufs[..]) == old(DirtyBlocks(cache.bufs[..])) - {dst}
  {
    WriteHeld(cache, from, to, me);
    BrelsePair(cache, from, to, me);
  }

  method WriteHeld(cache: BufferCache, from: nat, to: nat, me: nat)
    requires cache.Valid() && HeldPair(cache.bufs[..], from, to, me)
    modifies cache, cache.bufs
    ensures cache.bufs == old(cache.bufs) && cache.Valid() && HeldPair(cache.bufs[..], from, to, me)
    ensures cache.bufs[from] == old(cache.bufs[from])
    ensures cache.bufs[to] == old(cache.bufs[to]).(data := old(cache.bufs[from].data), dirty := false)
    ensures cache.disk == old(cache.disk[cache.bufs[to].blockno := cache.bufs[from].data])
    ensures cache.images == old(cache.images) + [cache.disk]
    ensures cache.view == old(cache.view[cache.bufs[to].blockno := cache.bufs[from].data])
    ensures DirtyBlocks(cache.bufs[..]) == old(DirtyBlocks(cache.bufs[..])) - {old(cache.bufs[to].blockno)}
  {
    ghost var s0 := cache.bufs[..];
    cache.SetData(to, me, cache.bufs[from].data);
    var ok := cache.Bwrite(to, me);
    WriteUnpins(s0, cache.bufs[..], to);
  }

  lemma WriteUnpins(s0: seq<Buf>, s1: seq<Buf>, to: nat)
    requires UniqueBlocks(s0) && |s1| == |s0| && to < NBUF && s0[to].dev == ROOTDEV
    requires forall i :: 0 <= i < NBUF && s0[i].dirty ==> s0[i].dev == ROOTDEV
    requires forall i :: 0 <= i < NBUF && i != to ==> s1[i] == s0[i]
    requires !s1[to].dirty
    ensures DirtyBlocks(s1) == DirtyBlocks(s0) - {s0[to].blockno}
  {
  }

  method BrelsePair(cache: BufferCache, x: nat, y: nat, me: nat)
    requires cache.Valid() && HeldPair(cache.bufs[..], x, y, me)
    requires cache.bufs[x].dirty || cache.bufs[x].data == cache.disk[cache.bufs[x].blockno]
    requires cache.bufs[y].dirty || cache.bufs[y].data == cache.disk[cache.bufs[y].blockno]
    modifies cache, cache.bufs
    ensures cache.bufs == old(cache.bufs) && cache.Valid() && Quiet(cache.bufs[..])
    ensures cache.disk == old(cache.disk) && cache.images == old(cache.images) && cache.view == old(cache.view)
    ensures DirtyBlocks(cache.bufs[..]) == old(DirtyBlocks(cache.bufs[..]))
  {
    hide DirtyBlocks, HeldPair, HeldOne, Quiet, Coherent, UniqueBlocks, Ring, Permutation, ByRelease;
    PairInBounds(cache.bufs[..], x, y, me);
    BrelseBeside(cache, x, y, me);
    var ok := BrelseOne(cache, y, me);
  }

  lemma PairInBounds(s: seq<Buf>, x: nat, y: nat, me: nat)
    requires HeldPair(s, x, y, me)
    ensures |s| == NBUF + 1 && x < NBUF && y < NBUF
  {
  }

  // Release x while y is held.
  method BrelseBeside(cache: BufferCache, x: nat, y: nat, me: nat)
    requires cache.Valid() && HeldPair(cache.bufs[..], x, y, me)
    requires cache.bufs[x].dirty || cache.bufs[x].data == cache.disk[cache.bufs[x].blockno]
    modifies cache, cache.bufs
    ensures cache.bufs == old(cache.bufs) && cache.Valid() && HeldOne(cache.bufs[..], y, me)
    ensures cache.disk == old(cache.disk) && cache.images == old(cache.images) && cache.view == old(cache.view)
    ensures cache.bufs.Length == NBUF + 1 && SameButLinks(cache.bufs[y], old(cache.bufs[y]))
    ensures DirtyBlocks(cache.bufs[..]) == old(DirtyBlocks(cache.bufs[..]))
  {
    hide DirtyBlocks, Coherent, UniqueBlocks, Ring, Permutation, ByRelease;
    ghost var s0 := cache.bufs[..];
    var ok := cache.Brelse(x, me);
    SameDirty(s0, cache.bufs[..]);
  }

  // ----- the log

  ghost function Names(lh: seq<nat>): set<nat> {
    set i | 0 <= i < |lh| :: lh[i]
  }

  lemma {:induction false} NamesCount(lh: seq<nat>)
    requires forall i, j :: 0 <= i < j < |lh| ==> lh[i] != lh[j]
    ensures |Names(lh)| == |lh|
  {
    if lh == [] {
      assert Names(lh) == {};
    } else {
      var n := |lh| - 1;
      NamesCount(lh[..n]);
      assert Names(lh) == Names(lh[..n]) + {lh[n]};
    }
  }

  // A block that is not pinned is the same in the cache and on disk.
  lemma UnpinnedIsClean(s: seq<Buf>, disk: Disk, view: Disk, b: nat)
    requires Coherent(s, disk, view) && Quiet(s) && b < |disk| && b !in DirtyBlocks(s)
    ensures view[b] == disk[b]
  {
    if i: nat :| i < NBUF && Caches(s, i, b) {
      assert !s[i].dirty;
    }
  }

  ghost predicate Extends(before: seq<Disk>, after: seq<Disk>) {
    |before| <= |after| && after[..|before|] == before
  }

  // Every disk contents since the first `from` recovers to the file system h.
  ghost predicate AllRecoverTo(l: Layout, images: seq<Disk>, from: nat, h: Disk) {
    forall j :: from <= j < |images| ==> WellFormed(l, images[j]) && Home(l, Recovered(l, images[j])) == h
  }

  class Log {
    const l: Layout
    const cache: BufferCache
    var lh: seq<nat>             // block[0..n]
    var outstanding: int
    var committing: bool

    constructor (l: Layout, cache: BufferCache)
      ensures this.l == l && this.cache == cache && lh == [] && outstanding == 0 && !committing
    {
      this.l, this.cache, lh, outstanding, committing := l, cache, [], 0, false;
    }

    // All buffers free, and exactly the logged blocks pinned.
    ghost predicate Pinned(names: set<nat>)
      reads this, cache, cache.bufs
    {
      cache.Valid() && FitsDisk(l, cache.disk) && Quiet(cache.bufs[..]) && DirtyBlocks(cache.bufs[..]) == names
    }

    method ReadHead(me: nat) returns (ok: bool)
      requires Pinned({}) && WellFormed(l, cache.disk)
      modifies this`lh, cache, cache.bufs
      ensures ok && cache.bufs == old(cache.bufs) && Pinned({})
      ensures cache.disk == old(cache.disk) && cache.images == old(cache.images) && cache.view == old(cache.view)
      ensures lh == LogOf(l, cache.disk)
    {
      var b;
      UnpinnedIsClean(cache.bufs[..], cache.disk, cache.view, l.start);
      NothingPinned(cache.bufs[..]);
      ok, b := BreadOne(cache, l.start, me);
      ReadNames(cache.bufs[b].data);
      ok := BrelseOne(cache, b, me);
    }

    // The block numbers in the header block head.
    method ReadNames(head: Block)
      requires HeaderN(head) <= LOGSIZE
      modifies this`lh
      ensures lh == Header(head)
    {
      lh := [];
      for i := 0 to HeaderN(head)
        invariant lh == Header(head)[..i]
      {
        lh := lh + [Word(head, 1 + i)];
      }
    }

    // Write the in-memory header to disk.
    method WriteHead(me: nat, ghost pins: set<nat>) returns (ok: bool)
      requires Pinned(pins) && |pins| < NBUF && l.start !in pins
      requires |lh| <= LOGSIZE && forall i :: 0 <= i < |lh| ==> lh[i] < WORD_LIMIT
      modifies cache, cache.bufs
      ensures ok && cache.bufs == old(cache.bufs) && Pinned(pins)
      ensures cache.disk == old(cache.disk)[l.start := WithHeader(old(cache.disk[l.start]), lh)]
      ensures cache.images == old(cache.images) + [cache.disk]
      ensures cache.view == old(cache.view)[l.start := cache.disk[l.start]]
    {
      var b;
      ghost var s0 := cache.bufs[..];
      UnpinnedIsClean(s0, cache.disk, cache.view, l.start);
      DirtyCount(s0, cache.disk, cache.view);
      ok, b := BreadOne(cache, l.start, me);
      var data := NamesInto(cache.bufs[b].data);
      PutBlock(cache, b, data, me);
    }

    method NamesInto(head: Block) returns (data: Block)
      requires |lh| <= LOGSIZE && forall i :: 0 <= i < |lh| ==> lh[i] < WORD_LIMIT
      ensures data == WithHeader(head, lh)
    {
      data := WithWord(head, 0, |lh|);
      for i := 0 to |lh|
        invariant data == WithEntries(head, lh, i)
      {
        data := WithWord(data, 1 + i, lh[i]);
      }
    }

    // The log has blocks for all its entries, or they pin the whole cache; nothing is logged to a header alone.
    predicate MayCommit()
      reads this
    {
      (|lh| < l.size || |lh| >= NBUF) && (lh != [] ==> l.size > 1)
    }

    // Copy modified blocks from the cache to the log. Fails only if the pinned blocks leave no buffer.
    method WriteLog(me: nat) returns (ok: bool)
      requires Pinned(Names(lh)) && NamesOk(l, cache.disk, lh) && MayCommit() && HeaderN(cache.disk[l.start]) == 0
      modifies cache, cache.bufs
      ensures cache.bufs == old(cache.bufs)
      ensures ok <==> lh == [] || |lh| < NBUF
      ensures Extends(old(cache.images), cache.images)
      ensures AllRecoverTo(l, cache.images, |old(cache.images)|, Home(l, old(cache.disk)))
      ensures ok ==>
          Pinned(Names(lh)) && LogWritten(l, old(cache.disk), old(cache.view), cache.disk, cache.view, lh, |lh|)
      ensures |cache.images| == |old(cache.images)| + if ok then |lh| else 0
    {
      NamesCount(lh);
      var tail := 0;
      while tail < |lh|
        invariant 0 <= tail <= |lh| && cache.bufs == old(cache.bufs) && Pinned(Names(lh))
        invariant |lh| < NBUF ==> LogWritten(l, old(cache.disk), old(cache.view), cache.disk, cache.view, lh, tail)
        invariant NamesOk(l, cache.disk, lh) && (tail == 0 ==> cache.images == old(cache.images))
        invariant Extends(old(cache.images), cache.images)
        invariant AllRecoverTo(l, cache.images, |old(cache.images)|, Home(l, old(cache.disk)))
        invariant |cache.images| == |old(cache.images)| + tail && (tail > 0 ==> |lh| < NBUF)
      {
        ok := WriteLogBlock(me, tail, old(cache.disk), old(cache.view));
        if !ok {
          return;
        }
        tail := tail + 1;
      }
      ok := true;
    }

    method WriteLogBlock(me: nat, tail: nat, ghost d0: Disk, ghost v0: Disk) returns (ok: bool)
      requires Pinned(Names(lh)) && NamesOk(l, cache.disk, lh) && tail < |lh| && tail + 1 < l.size
      requires |lh| < NBUF ==> LogWritten(l, d0, v0, cache.disk, cache.view, lh, tail)
      modifies cache, cache.bufs
      ensures cache.bufs == old(cache.bufs)
      ensures ok <==> |lh| < NBUF
      ensures !ok ==> cache.images == old(cache.images)
      ensures ok ==> cache.images == old(cache.images) + [cache.disk] && Pinned(Names(lh))
      ensures ok ==> LogWritten(l, d0, v0, cache.disk, cache.view, lh, tail + 1)
      ensures ok ==> WellFormed(l, cache.disk) && Home(l, Recovered(l, cache.disk)) == Home(l, d0)
    {
      LogBlockFits(cache.bufs[..], cache.disk, cache.view, l, lh, tail);
      if |lh| < NBUF {
        LogWrittenStep(l, d0, v0, cache.disk, cache.view, lh, tail);
      }
      ok := CopyBlock(cache, lh[tail], l.start + 1 + tail, false, me);
    }

    // Copy committed blocks from the log to their home locations, after a commit or in recovery.
    method InstallTrans(me: nat, ghost pins: set<nat>) returns (ok: bool)
      requires Pinned(pins) && (pins == {} || (pins == Names(lh) && |lh| < NBUF))
      requires WellFormed(l, cache.disk) && LogOf(l, cache.disk) == lh
      modifies cache, cache.bufs
      ensures ok && cache.bufs == old(cache.bufs) && Pinned({})
      ensures LogInstalled(l, old(cache.disk), cache.disk, lh, |lh|)
      ensures Extends(old(cache.images), cache.images)
      ensures AllRecoverTo(l, cache.images, |old(cache.images)|, Home(l, Recovered(l, old(cache.disk))))
      ensures |cache.images| == |old(cache.images)| + |lh|
    {
      hide LogInstalled, Recovered, Home, FitsDisk, LegalNames;
      var tail := 0;
      LogInstalledStart(l, cache.disk, lh);
      assert StillPinned(pins, lh, 0) == pins;
      while tail < |lh|
        invariant 0 <= tail <= |lh| && cache.bufs == old(cache.bufs) && Pinned(StillPinned(pins, lh, tail))
        invariant LogInstalled(l, old(cache.disk), cache.disk, lh, tail)
        invariant Extends(old(cache.images), cache.images) && |cache.images| == |old(cache.images)| + tail
        invariant AllRecoverTo(l, cache.images, |old(cache.images)|, Home(l, Recovered(l, old(cache.disk))))
      {
        ok := InstallBlock(me, tail, pins, old(cache.disk));
        LogInstalledRecovers(l, old(cache.disk), cache.disk, lh, tail + 1);
        tail := tail + 1;
      }
      assert lh[..|lh|] == lh;
      assert StillPinned(pins, lh, |lh|) == {};
      ok := true;
    }

    method InstallBlock(me: nat, tail: nat, ghost pins: set<nat>, ghost d0: Disk) returns (ok: bool)
      requires tail < |lh| && Pinned(StillPinned(pins, lh, tail)) && (pins == {} || (pins == Names(lh) && |lh| < NBUF))
      requires WellFormed(l, d0) && LogInstalled(l, d0, cache.disk, lh, tail)
      modifies cache, cache.bufs
      ensures ok && cache.bufs == old(cache.bufs)
      ensures cache.images == old(cache.images) + [cache.disk] && Pinned(StillPinned(pins, lh, tail + 1))
      ensures LogInstalled(l, d0, cache.disk, lh, tail + 1)
    {
      hide LogInstalled, StillPinned, Recovered, Home;
      LogInstalledFacts(l, d0, cache.disk, lh, tail);
      HomeBlockFits(cache.bufs[..], cache.disk, cache.view, l, lh, tail, pins);
      LogInstalledStep(l, d0, cache.disk, lh, tail);
      ghost var d' := cache.disk[lh[tail] := LogBlock(l, cache.disk, tail)];
      ok := CopyBlock(cache, l.start + 1 + tail, lh[tail], true, me);
      assert cache.disk == d';
    }

    /** commit. It completes exactly when the pinned blocks leave a buffer free; whether it completes, panics or
        is cut short, every contents the disk has meanwhile recovers to all of the old or all of the new. */
    method Commit(me: nat) returns (ok: bool)
      requires Pinned(Names(lh)) && NamesOk(l, cache.disk, lh) && MayCommit() && HeaderN(cache.disk[l.start]) == 0
      modifies this`lh, cache, cache.bufs
      ensures cache.bufs == old(cache.bufs)
      ensures ok <==> |old(lh)| < NBUF
      ensures Extends(old(cache.images), cache.images)
      ensures AllRecoverToEither(l, cache.images, |old(cache.images)|, Home(l, old(cache.disk)),
                                 Home(l, old(cache.view)))
      ensures ok ==> Pinned({}) && lh == [] && HeaderN(cache.disk[l.start]) == 0
      ensures ok ==> Home(l, cache.disk) == Home(l, old(cache.view))
      ensures ok ==> |cache.images| == |old(cache.images)| + if old(lh) == [] then 0 else 2 * |old(lh)| + 2
    {
      ok := true;
      if |lh| > 0 {
        ok := WriteLog(me);
        if !ok {
          return;
        }
        ghost var written := cache.images;
        CommitLogged(me, old(cache.disk), old(cache.view));
        EitherSide(l, old(cache.images), written, cache.images, Home(l, old(cache.disk)), Home(l, old(cache.view)));
      } else {
        NothingToCommit(cache.bufs[..], l, cache.disk, cache.view);
      }
    }

    // The rest of commit once the log blocks are written.
    method CommitLogged(me: nat, ghost d0: Disk, ghost v0: Disk)
      requires Pinned(Names(lh)) && |lh| < NBUF && LogWritten(l, d0, v0, cache.disk, cache.view, lh, |lh|)
      modifies this`lh, cache, cache.bufs
      ensures cache.bufs == old(cache.bufs) && Pinned({}) && lh == [] && HeaderN(cache.disk[l.start]) == 0
      ensures Home(l, cache.disk) == Home(l, v0)
      ensures Extends(old(cache.images), cache.images)
      ensures AllRecoverTo(l, cache.images, |old(cache.images)|, Home(l, v0))
      ensures |cache.images| == |old(cache.images)| + |old(lh)| + 2
    {
      hide LogWritten, LegalNames, FitsDisk, Names, Recovered, Home, WellFormed, LogOf;
      WriteCommitHead(me, d0, v0);
      InstallAndErase(me, Names(lh));
    }

    // The header write of commit: the commit point.
    method WriteCommitHead(me: nat, ghost d0: Disk, ghost v0: Disk)
      requires Pinned(Names(lh)) && |lh| < NBUF && LogWritten(l, d0, v0, cache.disk, cache.view, lh, |lh|)
      modifies cache, cache.bufs
      ensures cache.bufs == old(cache.bufs) && Pinned(Names(lh))
      ensures cache.images == old(cache.images) + [cache.disk]
      ensures WellFormed(l, cache.disk) && LogOf(l, cache.disk) == lh
      ensures Home(l, Recovered(l, cache.disk)) == Home(l, v0)
    {
      NamesCount(lh);
      LogHeaderCommits(cache.bufs[..], l, d0, v0, cache.disk, cache.view, lh);
      var ok := WriteHead(me, Names(lh));
    }

    // install_trans, and the header write that empties the log.
    method InstallAndErase(me: nat, ghost pins: set<nat>)
      requires Pinned(pins) && (pins == {} || (pins == Names(lh) && |lh| < NBUF))
      requires WellFormed(l, cache.disk) && LogOf(l, cache.disk) == lh
      modifies this`lh, cache, cache.bufs
      ensures cache.bufs == old(cache.bufs) && Pinned({}) && lh == [] && HeaderN(cache.disk[l.start]) == 0
      ensures Home(l, cache.disk) == Home(l, Recovered(l, old(cache.disk)))
      ensures Extends(old(cache.images), cache.images)
      ensures AllRecoverTo(l, cache.images, |old(cache.images)|, Home(l, Recovered(l, old(cache.disk))))
      ensures |cache.images| == |old(cache.images)| + |old(lh)| + 1
    {
      hide LogInstalled, Names, Recovered, Home, WellFormed, LogOf, AllRecoverTo, Extends;
      var ok := InstallTrans(me, pins);
      ghost var d1, images1 := cache.disk, cache.images;
      lh := [];
      ok := WriteHead(me, {});
      Erased(l, old(cache.disk), d1, cache.disk, old(lh), old(cache.images), images1, cache.images);
    }

    // initlog on a cold cache: no crash inside it can change what a later recovery yields.
    method RecoverFromLog(me: nat)
      requires Pinned({}) && WellFormed(l, cache.disk)
      modifies this`lh, cache, cache.bufs
      ensures cache.bufs == old(cache.bufs) && Pinned({}) && lh == [] && HeaderN(cache.disk[l.start]) == 0
      ensures Home(l, cache.disk) == Home(l, Recovered(l, old(cache.disk)))
      ensures Extends(old(cache.images), cache.images)
      ensures AllRecoverTo(l, cache.images, |old(cache.images)|, Home(l, Recovered(l, old(cache.disk))))
      ensures |cache.images| == |old(cache.images)| + |LogOf(l, old(cache.disk))| + 1
    {
      var ok := ReadHead(me);
      InstallAndErase(me, {});
    }

    // ----- admission and logging

    // One turn of begin_op's loop: admitted, or back to sleep.
    method TryBeginOp() returns (admitted: bool)
      modifies this`outstanding
      ensures admitted <==> !committing && |lh| + (old(outstanding) + 1) * MAXOPBLOCKS <= LOGSIZE
      ensures outstanding == if admitted then old(outstanding) + 1 else old(outstanding)
    {
      admitted := false;
      if committing {
        return;
      } else if |lh| + (outstanding + 1) * MAXOPBLOCKS > LOGSIZE {
        return;
      }
      outstanding := outstanding + 1;
      admitted := true;
    }

    /** end_op. The last one commits: when it returns, all that is in the cache is at home on the disk and the log is
        empty. An earlier one touches neither. It panics exactly during a commit, or when the commit it begins finds
        every buffer pinned. */
    method EndOp(me: nat) returns (ok: bool)
      requires Pinned(Names(lh)) && NamesOk(l, cache.disk, lh) && MayCommit() && HeaderN(cache.disk[l.start]) == 0
      modifies this`lh, this`outstanding, this`committing, cache, cache.bufs
      ensures cache.bufs == old(cache.bufs) && outstanding == old(outstanding) - 1
      ensures ok <==> !old(committing) && (outstanding == 0 ==> |old(lh)| < NBUF)
      ensures ok ==> !committing
      ensures ok && outstanding == 0 ==>
        Pinned({}) && lh == [] && HeaderN(cache.disk[l.start]) == 0 && Home(l, cache.disk) == Home(l, old(cache.view))
      ensures old(committing) || outstanding != 0 ==>
        lh == old(lh) && cache.disk == old(cache.disk) && cache.view == old(cache.view)
        && cache.images == old(cache.images) && cache.bufs[..] == old(cache.bufs[..])
      ensures Extends(old(cache.images), cache.images)
      ensures AllRecoverToEither(l, cache.images, |old(cache.images)|, Home(l, old(cache.disk)),
                                 Home(l, old(cache.view)))
    {
      outstanding := outstanding - 1;
      if committing {
        return false;
      }
      var do_commit := false;
      if outstanding == 0 {
        do_commit, committing := true, true;
      }
      ok := true;
      if do_commit {
        ok := Commit(me);
        if !ok {
          return;
        }
        committing := false;
      }
    }

    /** log_write for a held buffer: pins it and names its block in the log once, or panics.
        What bread returns and the disk stay as they are. */
    method LogWrite(b: nat) returns (ok: bool)
      requires cache.Valid() && b < NBUF && cache.bufs[b].valid
      modifies this`lh, cache.bufs
      ensures ok <==> |old(lh)| < LOGSIZE && |old(lh)| < l.size - 1 && outstanding >= 1
      ensures !ok ==> lh == old(lh) && cache.bufs[..] == old(cache.bufs[..])
      ensures ok ==> cache.Valid()
      ensures ok ==> cache.bufs[..] == old(cache.bufs[..])[b := old(cache.bufs[b]).(dirty := true)]
      ensures ok ==> lh == old(if cache.bufs[b].blockno in lh then lh else lh + [cache.bufs[b].blockno])
    {
      if |lh| >= LOGSIZE || |lh| >= l.size - 1 {
        return false;
      }
      if outstanding < 1 {
        return false;
      }
      var blockno := cache.bufs[b].blockno;
      var i := 0;
      while i < |lh|
        invariant 0 <= i <= |lh| && blockno !in lh[..i]
      {
        if lh[i] == blockno {
          break;
        }
        i := i + 1;
      }
      if i == |lh| {
        lh := lh + [blockno];
      } else {
        lh := lh[i := blockno];
      }
      cache.MarkDirty(b);
      ok := true;
    }
  }

  // Every disk contents since the first `from` recovers to h1 or to h2.
  ghost predicate AllRecoverToEither(l: Layout, images: seq<Disk>, from: nat, h1: Disk, h2: Disk) {
    forall j :: from <= j < |images| ==>
      WellFormed(l, images[j]) && (Home(l, Recovered(l, images[j])) == h1 || Home(l, Recovered(l, images[j])) == h2)
  }

  // A cache with every buffer pinned, for NBUF logged blocks: the k-th buffer holds block 40 + k.
  function PinnedBuf(k: nat): Buf {
    Buf(true, true, ROOTDEV, 40 + k, Free, 0, if k == 0 then NBUF else k - 1, k + 1, ZeroBlock())
  }

  ghost predicate AllPinned(s: seq<Buf>) {
    && |s| == NBUF + 1 && s[NBUF].next == 0 && s[NBUF].prev == NBUF - 1
    && forall k {:trigger s[k]} :: 0 <= k < NBUF ==> s[k] == PinnedBuf(k)
  }

  function Upwards(from: nat): (r: seq<nat>)
    ensures |r| == NBUF && forall k :: 0 <= k < NBUF ==> r[k] == from + k
  {
    seq(NBUF, k requires 0 <= k < NBUF => from + k)
  }

  lemma PinnedRing(s: seq<Buf>)
    requires AllPinned(s)
    ensures Ring(s, Upwards(0)) && Permutation(Upwards(0)) && Quiet(s) && UniqueBlocks(s)
  {
    var order := Upwards(0);
    hide Upwards;
    forall i: nat | i < NBUF
      ensures i in order
    {
      assert order[i] == i;
    }
  }

  lemma PinnedDirty(s: seq<Buf>)
    requires AllPinned(s)
    ensures DirtyBlocks(s) == Names(Upwards(40))
  {
    var lh := Upwards(40);
    hide Upwards;
    forall b: nat
      ensures b in DirtyBlocks(s) <==> b in Names(lh)
    {
      if b in Names(lh) {
        assert s[b - 40].dirty && s[b - 40].blockno == b;
      }
      if b in DirtyBlocks(s) {
        var i :| 0 <= i < NBUF && s[i].dirty && s[i].blockno == b;
        assert lh[i] == b;
      }
    }
  }

  lemma PinnedCoherent(s: seq<Buf>, d: Disk)
    requires AllPinned(s) && |d| == 100 && forall b :: 0 <= b < 100 ==> d[b] == ZeroBlock()
    ensures Coherent(s, d, d)
  {
    hide ZeroBlock;
  }

  // What commit requires, of plain values.
  ghost predicate CommitMeets(s: seq<Buf>, d: Disk, order: seq<nat>, l: Layout, lh: seq<nat>) {
    && Consistent(s, d, d, order) && Permutation(order) && (exists stamp :: ByRelease(order, stamp, NBUF)) && Quiet(s)
         && DirtyBlocks(s) == Names(lh)
    && FitsDisk(l, d) && NamesOk(l, d, lh) && HeaderN(d[l.start]) == 0
    && (|lh| < l.size || |lh| >= NBUF) && (lh != [] ==> l.size > 1)
  }

  // Commit can meet a cache with every buffer pinned, and then cannot complete: also with a log as mkfs.c makes it.
  lemma CommitMayFindAllPinned()
    ensures exists s, d, order, l, lh :: CommitMeets(s, d, order, l, lh) && |lh| == NBUF && l.size == LOGSIZE
  {
    var d: Disk := seq(100, b => ZeroBlock());
    var s := seq(NBUF, k requires 0 <= k < NBUF => PinnedBuf(k)) + [PinnedBuf(NBUF).(prev := NBUF - 1, next := 0)];
    assert AllPinned(s);
    PinnedRing(s);
    PinnedDirty(s);
    PinnedCoherent(s, d);
    ZeroBlockWords(0);
    var l := Layout(2, LOGSIZE, NBUF);
    assert ByRelease(Upwards(0), seq(NBUF, k requires 0 <= k < NBUF => NBUF - 1 - k), NBUF);
    hide DirtyBlocks, Names, Ring, Permutation, Quiet, UniqueBlocks, Coherent, ZeroBlock;
    assert NamesOk(l, d, Upwards(40));
    assert CommitMeets(s, d, Upwards(0), l, Upwards(40));
  }

  // The header write that empties the log, once all is installed.
  lemma Erased(l: Layout, d0: Disk, d1: Disk, d2: Disk, lh: seq<nat>, a: seq<Disk>, b: seq<Disk>, c: seq<Disk>)
    requires WellFormed(l, d0) && LogOf(l, d0) == lh && LogInstalled(l, d0, d1, lh, |lh|) && FitsDisk(l, d1)
    requires d2 == d1[l.start := WithHeader(d1[l.start], [])] && c == b + [d2]
    requires Extends(a, b) && AllRecoverTo(l, b, |a|, Home(l, Recovered(l, d0)))
    ensures FitsDisk(l, d2) && HeaderN(d2[l.start]) == 0 && Home(l, d2) == Home(l, Recovered(l, d0))
    ensures Extends(a, c) && AllRecoverTo(l, c, |a|, Home(l, Recovered(l, d0)))
  {
    ClearInvisible(l, d1);
    HeaderRoundTrip(d1[l.start], []);
  }

  lemma EitherSide(l: Layout, a: seq<Disk>, b: seq<Disk>, c: seq<Disk>, h1: Disk, h2: Disk)
    requires Extends(a, b) && Extends(b, c)
    requires AllRecoverTo(l, b, |a|, h1) && AllRecoverTo(l, c, |b|, h2)
    ensures Extends(a, c) && AllRecoverToEither(l, c, |a|, h1, h2)
  {
    forall j | |a| <= j < |c|
      ensures WellFormed(l, c[j]) && (Home(l, Recovered(l, c[j])) == h1 || Home(l, Recovered(l, c[j])) == h2)
    {
      assert j < |b| ==> c[j] == b[j];
    }
    assert c[..|a|] == c[..|b|][..|a|];
  }

  lemma LogHeaderCommits(s: seq<Buf>, l: Layout, d0: Disk, v0: Disk, d: Disk, v: Disk, lh: seq<nat>)
    requires Coherent(s, d, v) && Quiet(s) && DirtyBlocks(s) == Names(lh)
    requires LogWritten(l, d0, v0, d, v, lh, |lh|)
    ensures l.start !in Names(lh)
    ensures var d' := d[l.start := WithHeader(d[l.start], lh)];
            WellFormed(l, d') && LogOf(l, d') == lh && Home(l, Recovered(l, d')) == Home(l, v0)
  {
    forall b: nat | HomeBlock(l, d, b) && b !in lh
      ensures d[b] == v[b]
    {
      assert b !in Names(lh);
      UnpinnedIsClean(s, d, v, b);
    }
    HeaderWriteCommits(l, d, lh, v);
    assert Home(l, v) == Home(l, v0);
  }

  lemma NothingToCommit(s: seq<Buf>, l: Layout, d: Disk, v: Disk)
    requires Coherent(s, d, v) && Quiet(s) && DirtyBlocks(s) == {}
    ensures Home(l, d) == Home(l, v)
  {
    forall b: nat | b < |d|
      ensures d[b] == v[b]
    {
      UnpinnedIsClean(s, d, v, b);
    }
  }

  // install_trans with k blocks done, as far as recovery and the disk are concerned.
  ghost predicate LogInstalled(l: Layout, d0: Disk, d: Disk, lh: seq<nat>, k: nat)
    requires WellFormed(l, d0)
  {
    && |d| == |d0| && WellFormed(l, d) && LogOf(l, d) == lh && k <= |lh|
    && Home(l, Recovered(l, d)) == Home(l, Recovered(l, d0))
    && (forall i :: 0 <= i < k ==> d[lh[i]] == LogBlock(l, d, i))
  }

  lemma LogInstalledFacts(l: Layout, d0: Disk, d: Disk, lh: seq<nat>, k: nat)
    requires WellFormed(l, d0) && LogInstalled(l, d0, d, lh, k) && k < |lh|
    ensures FitsDisk(l, d) && LegalNames(l, d, lh) && lh[k] < |d| && l.start + 1 + k < |d| && l.start + 1 + k != lh[k]
  {
  }

  lemma LogInstalledRecovers(l: Layout, d0: Disk, d: Disk, lh: seq<nat>, k: nat)
    requires WellFormed(l, d0) && LogInstalled(l, d0, d, lh, k)
    ensures WellFormed(l, d) && Home(l, Recovered(l, d)) == Home(l, Recovered(l, d0))
  {
  }

  lemma LogInstalledStart(l: Layout, d: Disk, lh: seq<nat>)
    requires WellFormed(l, d) && LogOf(l, d) == lh
    ensures LogInstalled(l, d, d, lh, 0)
  {
  }

  lemma LogInstalledStep(l: Layout, d0: Disk, d: Disk, lh: seq<nat>, k: nat)
    requires WellFormed(l, d0) && LogInstalled(l, d0, d, lh, k) && k < |lh|
    ensures LogInstalled(l, d0, d[lh[k] := LogBlock(l, d, k)], lh, k + 1)
  {
    InstallStepInvisible(l, d, k);
    var d' := d[lh[k] := LogBlock(l, d, k)];
    assert forall i :: 0 <= i < |lh| ==> LogBlock(l, d', i) == LogBlock(l, d, i);
  }

  // What is left of the pins once the first k blocks are back home.
  ghost function StillPinned(pins: set<nat>, lh: seq<nat>, k: nat): set<nat>
    requires k <= |lh|
  {
    pins - Names(lh[..k])
  }

  lemma HomeBlockFits(s: seq<Buf>, disk: Disk, view: Disk, l: Layout, lh: seq<nat>, k: nat, pins: set<nat>)
    requires Coherent(s, disk, view) && UniqueBlocks(s) && Quiet(s) && k < |lh|
    requires FitsDisk(l, disk) && LegalNames(l, disk, lh)
    requires DirtyBlocks(s) == StillPinned(pins, lh, k) && (pins == {} || (pins == Names(lh) && |lh| < NBUF))
    ensures PairFits(s, l.start + 1 + k, lh[k])
    ensures view[l.start + 1 + k] == disk[l.start + 1 + k]
    ensures StillPinned(pins, lh, k) - {lh[k]} == StillPinned(pins, lh, k + 1)
  {
    hide StillPinned;
    HomePins(lh, k, pins);
    assert l.start + 1 + k !in Names(lh);
    UnpinnedIsClean(s, disk, view, l.start + 1 + k);
    if pins == {} {
      assert StillPinned(pins, lh, k) == {};
      NothingPinned(s);
    } else {
      NamesCount(lh);
      Subset(DirtyBlocks(s), Names(lh));
      DirtyCount(s, disk, view);
    }
  }

  lemma HomePins(lh: seq<nat>, k: nat, pins: set<nat>)
    requires k < |lh| && (forall i, j :: 0 <= i < j < |lh| ==> lh[i] != lh[j])
    ensures StillPinned(pins, lh, k) - {lh[k]} == StillPinned(pins, lh, k + 1) && StillPinned(pins, lh, k) <= pins
    ensures pins == Names(lh) ==> lh[k] in StillPinned(pins, lh, k)
  {
    assert Names(lh[..k + 1]) == Names(lh[..k]) + {lh[k]};
  }

  lemma Subset<T>(a: set<T>, b: set<T>)
    requires a <= b
    ensures |a| <= |b|
  {
    assert b == a + (b - a);
  }

  // write_log with k blocks done: the log holds them, and nothing recovery or bread can see has changed.
  ghost predicate LogWritten(l: Layout, d0: Disk, v0: Disk, d: Disk, v: Disk, lh: seq<nat>, k: nat) {
    && |d| == |d0| == |v0| == |v| && FitsDisk(l, d) && HeaderN(d[l.start]) == 0
    && LegalNames(l, d, lh) && k <= |lh|
    && Home(l, d) == Home(l, d0) && (forall b: nat :: HomeBlock(l, d, b) ==> v[b] == v0[b])
    && (forall i :: 0 <= i < k ==> LogBlock(l, d, i) == v0[lh[i]])
  }

  lemma LogWrittenStep(l: Layout, d0: Disk, v0: Disk, d: Disk, v: Disk, lh: seq<nat>, k: nat)
    requires LogWritten(l, d0, v0, d, v, lh, k) && k < |lh|
    ensures var b := l.start + 1 + k;
            var d' := d[b := v[lh[k]]];
            && LogWritten(l, d0, v0, d', v[b := v[lh[k]]], lh, k + 1)
            && WellFormed(l, d') && Home(l, Recovered(l, d')) == Home(l, d0)
  {
    var b := l.start + 1 + k;
    var d' := d[b := v[lh[k]]];
    LogBlockWriteInvisible(l, d, b, v[lh[k]]);
    EmptyLogRecovers(l, d);
    assert Home(l, d') == Home(l, d);
    assert LegalNames(l, d', lh);
    assert forall i :: 0 <= i < k ==> LogBlock(l, d', i) == LogBlock(l, d, i);
  }

  // With every buffer pinned there is no way to read a log block; otherwise there is.
  lemma LogBlockFits(s: seq<Buf>, disk: Disk, view: Disk, l: Layout, lh: seq<nat>, k: nat)
    requires Coherent(s, disk, view) && UniqueBlocks(s) && Quiet(s) && DirtyBlocks(s) == Names(lh)
    requires FitsDisk(l, disk) && NamesOk(l, disk, lh) && k < |lh| && k + 1 < l.size
    ensures |lh| < NBUF ==> PairFits(s, lh[k], l.start + 1 + k)
    ensures |lh| >= NBUF ==> !RoomLeft(s) && !Cached(s, l.start + 1 + k)
    ensures Names(lh) - {l.start + 1 + k} == Names(lh)
  {
    NamesCount(lh);
    DirtyCount(s, disk, view);
    assert lh[k] in Names(lh);
    forall i | 0 <= i < NBUF && IsFor(s[i], ROOTDEV, l.start + 1 + k)
      ensures !s[i].dirty
    {
      DirtyCounts(s, i);
    }
  }

  lemma DirtyCounts(s: seq<Buf>, i: nat)
    requires |s| == NBUF + 1 && i < NBUF
    ensures s[i].dirty ==> s[i].blockno in DirtyBlocks(s)
  {
  }

  lemma NothingPinned(s: seq<Buf>)
    requires |s| == NBUF + 1 && DirtyBlocks(s) == {}
    ensures Clean(s) && RoomLeft(s)
  {
    forall i | 0 <= i < NBUF
      ensures !s[i].dirty
    {
      DirtyCounts(s, i);
    }
    assert !s[0].dirty;
  }

  method BrelseOne(cache: BufferCache, x: nat, me: nat) returns (ok: bool)
    requires cache.Valid() && HeldOne(cache.bufs[..], x, me)
    requires cache.bufs[x].dirty || cache.bufs[x].data == cache.disk[cache.bufs[x].blockno]
    modifies cache, cache.bufs
    ensures ok && cache.bufs == old(cache.bufs) && cache.Valid() && Quiet(cache.bufs[..])
    ensures cache.disk == old(cache.disk) && cache.images == old(cache.images) && cache.view == old(cache.view)
    ensures DirtyBlocks(cache.bufs[..]) == old(DirtyBlocks(cache.bufs[..]))
  {
    ghost var s0 := cache.bufs[..];
    ok := cache.Brelse(x, me);
    SameDirty(s0, cache.bufs[..]);
  }

  // Change the contents of a held, unpinned buffer, write it out and release it.
  method PutBlock(cache: BufferCache, x: nat, data: Block, me: nat)
    requires cache.Valid() && HeldOne(cache.bufs[..], x, me) && !cache.bufs[x].dirty
    modifies cache, cache.bufs
    ensures cache.bufs == old(cache.bufs) && cache.Valid() && Quiet(cache.bufs[..])
    ensures cache.disk == old(cache.disk[cache.bufs[x].blockno := data])
    ensures cache.images == old(cache.images) + [cache.disk]
    ensures cache.view == old(cache.view[cache.bufs[x].blockno := data])
    ensures DirtyBlocks(cache.bufs[..]) == old(DirtyBlocks(cache.bufs[..]))
  {
    ghost var s0 := cache.bufs[..];
    cache.SetData(x, me, data);
    var ok := cache.Bwrite(x, me);
    SameDirty(s0, cache.bufs[..]);
    ok := BrelseOne(cache, x, me);
  }
}
