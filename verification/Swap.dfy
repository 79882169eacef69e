/** Swapping (Memory organization and Page replacement, pageswap.c): page table entries, swap slots and the swap
    area on disk, what a process sees through them, and what each step does to that. */
module Swap {
  import opened Blocks

  const PGSIZE: nat := 4096
  const USERPAGES: nat := 0x80000        // KERNBASE / PGSIZE
  const NSWAPSLOTS: nat := 800
  const BLOCKS_PER_PAGE: nat := 8
  const NSWAPBLOCKS: nat := 6400
  const PTE_P: nat := 0x001
  const PTE_A: nat := 0x020
  const PTE_SWAP: nat := 0x200

  type PageData = s: seq<Byte> | |s| == PGSIZE witness seq(PGSIZE, i => 0)

  function Filled(b: Byte): PageData {
    seq(PGSIZE, i => b)
  }

  // ----- page table entries

  predicate Present(e: nat) {
    e % 2 == 1
  }

  predicate IsSwapped(e: nat) {
    e / PTE_SWAP % 2 == 1
  }

  predicate Accessed(e: nat) {
    e / PTE_A % 2 == 1
  }

  // e & (PTE_U | PTE_W)
  function Perm(e: nat): (p: nat)
    ensures p in {0, 2, 4, 6}
  {
    e / 2 % 4 * 2
  }

  // PTE_ADDR(e) >> 12: a frame, or for a swapped page its slot.
  function Addr(e: nat): nat {
    e / PGSIZE
  }

  function ClearAccessed(e: nat): nat {
    if Accessed(e) then e - PTE_A else e
  }

  // (slot << 12) | PTE_SWAP
  function SwapEntry(slot: nat): (e: nat)
    ensures !Present(e) && IsSwapped(e) && Addr(e) == slot && e != 0
  {
    SwapBits(slot);
    slot * PGSIZE + PTE_SWAP
  }

  lemma SwapBits(slot: nat)
    ensures var e := slot * PGSIZE + PTE_SWAP;
            e % 2 == 0 && e / PTE_SWAP % 2 == 1 && e / PGSIZE == slot
  {
    var e := slot * PGSIZE + PTE_SWAP;
    assert e == 2 * (slot * 2048 + 256);
    assert e == PTE_SWAP * (slot * 8 + 1);
    assert e / PTE_SWAP == slot * 8 + 1;
    assert slot * 8 + 1 == 2 * (slot * 4) + 1;
  }

  // V2P(mem) | PTE_P | perm
  function ResidentEntry(frame: nat, perm: nat): (e: nat)
    requires perm in {0, 2, 4, 6}
    ensures Present(e) && !IsSwapped(e) && Addr(e) == frame && Perm(e) == perm && !Accessed(e)
  {
    ResidentBits(frame, perm);
    frame * PGSIZE + perm + PTE_P
  }

  lemma Tail(perm: nat)
    requires perm in {0, 2, 4, 6}
    ensures perm == 2 * (perm / 2) && perm / 2 < 4
  {
  }

  lemma Multiple(k: int, d: nat)
    requires k != 0
    ensures k * d >= d || k * d + d <= 0
  {
    if k > 0 {
      assert (k - 1) * d >= 0;
    } else {
      assert (-k - 1) * d >= 0;
    }
  }

  lemma Quotient(h: nat, d: nat, b: nat, x: nat)
    requires b < d && x == h * d + b
    ensures x / d == h
  {
    var q, r := x / d, x % d;
    assert x == q * d + r;
    assert (q - h) * d == b - r;
    if q != h {
      Multiple(q - h, d);
    }
  }

  lemma ResidentBits(frame: nat, perm: nat)
    requires perm in {0, 2, 4, 6}
    ensures var e := frame * PGSIZE + perm + PTE_P;
            e % 2 == 1 && e / 2 % 4 * 2 == perm && e / PTE_A % 2 == 0 && e / PTE_SWAP % 2 == 0 && e / PGSIZE == frame
  {
    Tail(perm);
    ResidentLow(frame, perm / 2);
    ResidentHigh(frame, perm + PTE_P);
  }

  lemma ResidentLow(frame: nat, h: nat)
    requires h < 4
    ensures var e := frame * PGSIZE + 2 * h + 1;
            e % 2 == 1 && e / 2 % 4 == h
  {
    var e := frame * PGSIZE + 2 * h + 1;
    Half(frame * 2048 + h, 1, e);
    Quarter(frame * 512, h, frame * 2048 + h);
  }

  lemma ResidentHigh(frame: nat, b: nat)
    requires b < 8
    ensures var e := frame * PGSIZE + b;
            e / PTE_A % 2 == 0 && e / PTE_SWAP % 2 == 0 && e / PGSIZE == frame
  {
    var e := frame * PGSIZE + b;
    assert frame * PGSIZE == (frame * 128) * PTE_A && frame * PGSIZE == (frame * 8) * PTE_SWAP;
    Quotient(frame * 128, PTE_A, b, e);
    Quotient(frame * 8, PTE_SWAP, b, e);
    Quotient(frame, PGSIZE, b, e);
    Half(frame * 64, 0, frame * 128);
    Half(frame * 4, 0, frame * 8);
  }

  lemma ClearAccessedKeeps(e: nat)
    ensures var c := ClearAccessed(e);
            && Present(c) == Present(e) && IsSwapped(c) == IsSwapped(e) && Perm(c) == Perm(e) && Addr(c) == Addr(e)
            && !Accessed(c)
  {
    if Accessed(e) {
      var c := e - PTE_A;
      assert c / PTE_A == e / PTE_A - 1 && c % PTE_A == e % PTE_A;
      Thirds(e, c);
    }
  }

  lemma BitFive(h: nat, b: nat, e: nat, c: nat)
    requires b < 32 && e == 64 * h + 32 + b && c == 64 * h + b
    ensures c / 64 == h == e / 64 && c % 32 == b == e % 32
  {
  }

  // Clearing bit 5 leaves the bits below and above it.
  lemma Thirds(e: nat, c: nat)
    requires e / PTE_A % 2 == 1 && c == e - PTE_A
    ensures c / 64 == e / 64 && c % 32 == e % 32
    ensures c % 2 == e % 2 && c / 2 % 4 == e / 2 % 4 && c / 512 == e / 512 && c / 4096 == e / 4096
  {
    var a, b := e / 32, e % 32;
    assert a == 2 * (a / 2) + 1;
    BitFive(a / 2, b, e, c);
    Below(e, c);
    Above(e, c);
  }

  lemma Below(e: nat, c: nat)
    requires c % 32 == e % 32
    ensures c % 2 == e % 2 && c / 2 % 4 == e / 2 % 4
  {
    LowBits(c / 32, c % 32);
    LowBits(e / 32, e % 32);
  }

  lemma LowBits(a: nat, r: nat)
    requires r < 32
    ensures (32 * a + r) % 2 == r % 2 && (32 * a + r) / 2 % 4 == r / 2 % 4
  {
    var h, b := r / 2, r % 2;
    Half(16 * a + h, b, 32 * a + r);
    var g, d := h / 4, h % 4;
    Quarter(4 * a + g, d, 16 * a + h);
  }

  lemma Half(h: nat, b: nat, x: nat)
    requires b < 2 && x == 2 * h + b
    ensures x / 2 == h && x % 2 == b
  {
  }

  lemma Quarter(h: nat, b: nat, x: nat)
    requires b < 4 && x == 4 * h + b
    ensures x % 4 == b
  {
  }

  lemma Coarser(x: nat)
    ensures x / 512 == x / 64 / 8 && x / 4096 == x / 64 / 64
  {
    var h, b := x / 64, x % 64;
    assert x == 64 * h + b;
    Eighth(h / 8, h % 8, b, x);
    SixtyFourth(h / 64, h % 64, b, x);
  }

  lemma Eighth(g: nat, a: nat, b: nat, x: nat)
    requires a < 8 && b < 64 && x == 64 * (8 * g + a) + b
    ensures x / 512 == g
  {
  }

  lemma SixtyFourth(g: nat, a: nat, b: nat, x: nat)
    requires a < 64 && b < 64 && x == 64 * (64 * g + a) + b
    ensures x / 4096 == g
  {
  }

  lemma Above(e: nat, c: nat)
    requires c / 64 == e / 64
    ensures c / 512 == e / 512 && c / 4096 == e / 4096
  {
    Coarser(c);
    Coarser(e);
  }

  // ----- the swap area

  function SlotBlock(slot: nat): nat {
    2 + slot * BLOCKS_PER_PAGE
  }

  predicate DiskOk(disk: Disk) {
    2 + NSWAPBLOCKS <= |disk|
  }

  // Slots are inside the swap area and do not overlap.
  lemma SlotsDisjoint(j: nat, k: nat, i: nat, l: nat)
    requires j < NSWAPSLOTS && k < NSWAPSLOTS && i < BLOCKS_PER_PAGE && l < BLOCKS_PER_PAGE
    ensures 2 <= SlotBlock(j) + i < 2 + NSWAPBLOCKS
    ensures SlotBlock(j) + i == SlotBlock(k) + l <==> j == k && i == l
  {
  }

  lemma SlotApart(j: nat, k: nat, i: nat)
    requires i < BLOCKS_PER_PAGE
    ensures SlotBlock(k) <= SlotBlock(j) + i < SlotBlock(k) + BLOCKS_PER_PAGE <==> j == k
  {
  }

  function ByteOn(disk: Disk, slot: nat, i: nat): Byte
    requires DiskOk(disk) && slot < NSWAPSLOTS && i < PGSIZE
  {
    disk[SlotBlock(slot) + i / BSIZE][i % BSIZE]
  }

  function PageAt(disk: Disk, slot: nat): PageData
    requires DiskOk(disk) && slot < NSWAPSLOTS
  {
    seq(PGSIZE, i requires 0 <= i < PGSIZE => ByteOn(disk, slot, i))
  }

  function Chunk(page: PageData, i: nat): Block
    requires i < BLOCKS_PER_PAGE
  {
    page[i * BSIZE..(i + 1) * BSIZE]
  }

  function BlockWith(disk: Disk, slot: nat, page: PageData, b: nat): Block
    requires b < |disk|
  {
    if SlotBlock(slot) <= b < SlotBlock(slot) + BLOCKS_PER_PAGE then Chunk(page, b - SlotBlock(slot)) else disk[b]
  }

  // The disk with the page in the slot.
  function WithPage(disk: Disk, slot: nat, page: PageData): (d: Disk)
    requires DiskOk(disk) && slot < NSWAPSLOTS
    ensures |d| == |disk|
  {
    seq(|disk|, b requires 0 <= b < |disk| => BlockWith(disk, slot, page, b))
  }

  lemma PageAtWithPage(disk: Disk, slot: nat, page: PageData, j: nat)
    requires DiskOk(disk) && slot < NSWAPSLOTS && j < NSWAPSLOTS
    ensures PageAt(WithPage(disk, slot, page), j) == if j == slot then page else PageAt(disk, j)
  {
    var d := WithPage(disk, slot, page);
    forall i | 0 <= i < PGSIZE
      ensures PageAt(d, j)[i] == if j == slot then page[i] else PageAt(disk, j)[i]
    {
      var b := SlotBlock(j) + i / BSIZE;
      SlotApart(j, slot, i / BSIZE);
      assert d[b] == BlockWith(disk, slot, page, b);
      if j == slot {
        assert i / BSIZE * BSIZE + i % BSIZE == i;
      }
    }
  }

  // ----- the system

  datatype SwapSlot = SwapSlot(pagePerm: nat, isFree: bool)
  // used: state != UNUSED. The page table is the map the two levels stand for.
  datatype Proc = Proc(used: bool, pid: int, rss: int, ms: int, pt: map<nat, nat>)
  datatype Sys = Sys(procs: seq<Proc>, mem: seq<PageData>, free: seq<nat>, freePages: int, slots: seq<SwapSlot>,
                     disk: Disk)

  function EntryOf(pt: map<nat, nat>, q: nat): nat {
    if q in pt then pt[q] else 0
  }

  function EntryAt(procs: seq<Proc>, p: nat, q: nat): nat
    requires p < |procs|
  {
    EntryOf(procs[p].pt, q)
  }

  function WithEntry(procs: seq<Proc>, p: nat, q: nat, e: nat): (r: seq<Proc>)
    requires p < |procs|
    ensures |r| == |procs|
  {
    procs[p := procs[p].(pt := procs[p].pt[q := e])]
  }

  // What process p sees at page q: its bytes and permissions, wherever they are kept.
  datatype View = Nothing | Seen(data: PageData, perm: nat)

  function Look(s: Sys, p: nat, q: nat): View
    requires p < |s.procs| && DiskOk(s.disk) && |s.slots| == NSWAPSLOTS
  {
    var e := EntryAt(s.procs, p, q);
    if Present(e) then (if Addr(e) < |s.mem| then Seen(s.mem[Addr(e)], Perm(e)) else Nothing)
    else if IsSwapped(e) then
      (if Addr(e) < NSWAPSLOTS then Seen(PageAt(s.disk, Addr(e)), s.slots[Addr(e)].pagePerm) else Nothing)
    else Nothing
  }

  ghost predicate FramesOk(s: Sys) {
    && (forall p, q {:trigger EntryAt(s.procs, p, q)} ::
          0 <= p < |s.procs| && 0 <= q < USERPAGES && Present(EntryAt(s.procs, p, q)) ==>
          Addr(EntryAt(s.procs, p, q)) < |s.mem| && Addr(EntryAt(s.procs, p, q)) !in s.free)
    && (forall p, q, r, t {:trigger EntryAt(s.procs, p, q), EntryAt(s.procs, r, t)} ::
          0 <= p < |s.procs| && 0 <= q < USERPAGES && 0 <= r < |s.procs| && 0 <= t < USERPAGES ==>
          Present(EntryAt(s.procs, p, q)) && Present(EntryAt(s.procs, r, t))
          && Addr(EntryAt(s.procs, p, q)) == Addr(EntryAt(s.procs, r, t)) ==>
          p == r && q == t)
    && (forall i, j {:trigger s.free[i], s.free[j]} ::
          0 <= i < |s.free| && 0 <= j < |s.free| && s.free[i] == s.free[j] ==> i == j)
    && (forall f :: f in s.free ==> f < |s.mem|)
  }

  // Some swapped page is in slot k.
  ghost predicate Named(procs: seq<Proc>, k: nat) {
    exists p, q {:trigger EntryAt(procs, p, q)} ::
        0 <= p < |procs| && 0 <= q < USERPAGES && IsSwapped(EntryAt(procs, p, q)) && Addr(EntryAt(procs, p, q)) == k
  }

  // Every swapped page has a used slot of its own, and every used slot holds a swapped page.
  ghost predicate SlotsOk(s: Sys) {
    && |s.slots| == NSWAPSLOTS && DiskOk(s.disk)
    && (forall k :: 0 <= k < NSWAPSLOTS ==> s.slots[k].pagePerm in {0, 2, 4, 6})
    && (forall p, q {:trigger EntryAt(s.procs, p, q)} ::
          0 <= p < |s.procs| && 0 <= q < USERPAGES && IsSwapped(EntryAt(s.procs, p, q)) ==>
          Addr(EntryAt(s.procs, p, q)) < NSWAPSLOTS && !s.slots[Addr(EntryAt(s.procs, p, q))].isFree
          && !Present(EntryAt(s.procs, p, q)))
    && (forall p, q, r, t {:trigger EntryAt(s.procs, p, q), EntryAt(s.procs, r, t)} ::
          0 <= p < |s.procs| && 0 <= q < USERPAGES && 0 <= r < |s.procs| && 0 <= t < USERPAGES ==>
          IsSwapped(EntryAt(s.procs, p, q)) && IsSwapped(EntryAt(s.procs, r, t))
          && Addr(EntryAt(s.procs, p, q)) == Addr(EntryAt(s.procs, r, t)) ==>
          p == r && q == t)
    && (forall k {:trigger s.slots[k]} :: 0 <= k < NSWAPSLOTS && !s.slots[k].isFree ==> Named(s.procs, k))
  }

  // The count kept of free pages never exceeds the true one: kfree does not count up from zero.
  ghost predicate Inv(s: Sys) {
    FramesOk(s) && SlotsOk(s) && s.freePages <= |s.free|
  }

  // Every process sees at every page what it saw.
  ghost predicate SameViews(s: Sys, s': Sys) {
    && |s'.procs| == |s.procs| && |s.slots| == |s'.slots| == NSWAPSLOTS && DiskOk(s.disk) && DiskOk(s'.disk)
    && (forall p, q {:trigger Look(s', p, q)} :: 0 <= p < |s.procs| && 0 <= q < USERPAGES ==>
          Look(s', p, q) == Look(s, p, q))
  }

  lemma SameViewsTransitive(s: Sys, s1: Sys, s2: Sys)
    requires SameViews(s, s1) && SameViews(s1, s2)
    ensures SameViews(s, s2)
  {
    hide Look;
    forall p, q | 0 <= p < |s.procs| && 0 <= q < USERPAGES
      ensures Look(s2, p, q) == Look(s, p, q)
    {
      assert Look(s1, p, q) == Look(s, p, q);
    }
  }

  // ----- the steps

  // The first free slot, or 0 when there is none: the loop's exhaustion test does not see the end of the table.
  function AllocSlot(slots: seq<SwapSlot>, from: nat): (k: nat)
    requires from <= |slots|
    ensures k < |slots| || k == 0
    ensures (exists j :: from <= j < |slots| && slots[j].isFree) ==> from <= k < |slots| && slots[k].isFree
    decreases |slots| - from
  {
    if from == |slots| then 0 else if slots[from].isFree then from else AllocSlot(slots, from + 1)
  }

  predicate HasFree(slots: seq<SwapSlot>) {
    exists j :: 0 <= j < |slots| && slots[j].isFree
  }

  function KfreeCount(n: int): int {
    if n != 0 then n + 1 else n
  }

  // swap_out of page q of process v.
  function SwappedOut(s: Sys, v: nat, q: nat): Sys
    requires v < |s.procs| && |s.slots| == NSWAPSLOTS && DiskOk(s.disk) && Addr(EntryAt(s.procs, v, q)) < |s.mem|
  {
    var e := EntryAt(s.procs, v, q);
    var f, k := Addr(e), AllocSlot(s.slots, 0);
    var procs := WithEntry(s.procs, v, q, SwapEntry(k));
    Sys(procs[v := procs[v].(ms := procs[v].ms - PGSIZE, rss := procs[v].rss - 1)],
      s.mem[f := Filled(1)], [f] + s.free, KfreeCount(s.freePages),
      if HasFree(s.slots) then s.slots[k := SwapSlot(Perm(e), false)] else s.slots,
      WithPage(s.disk, k, s.mem[f]))
  }

  lemma EntriesAfter(procs: seq<Proc>, v: nat, q: nat, e: nat, p: nat, t: nat)
    requires v < |procs| && p < |procs|
    ensures EntryAt(WithEntry(procs, v, q, e), p, t) == if p == v && t == q then e else EntryAt(procs, p, t)
  {
  }

  lemma SwappedOutEntries(s: Sys, v: nat, q: nat, p: nat, t: nat)
    requires v < |s.procs| && |s.slots| == NSWAPSLOTS && DiskOk(s.disk) && Addr(EntryAt(s.procs, v, q)) < |s.mem|
    requires p < |s.procs|
    ensures |SwappedOut(s, v, q).procs| == |s.procs|
    ensures EntryAt(SwappedOut(s, v, q).procs, p, t) ==
            if p == v && t == q then SwapEntry(AllocSlot(s.slots, 0)) else EntryAt(s.procs, p, t)
  {
    EntriesAfter(s.procs, v, q, SwapEntry(AllocSlot(s.slots, 0)), p, t);
  }

  lemma SwapOutFrames(s: Sys, v: nat, q: nat)
    requires Inv(s) && v < |s.procs| && q < USERPAGES && Present(EntryAt(s.procs, v, q))
    ensures FramesOk(SwappedOut(s, v, q))
  {
    var s' := SwappedOut(s, v, q);
    forall p, t | 0 <= p < |s.procs| && 0 <= t < USERPAGES
      ensures EntryAt(s'.procs, p, t) ==
              if p == v && t == q then SwapEntry(AllocSlot(s.slots, 0)) else EntryAt(s.procs, p, t)
    {
      SwappedOutEntries(s, v, q, p, t);
    }
    hide SwappedOut, Present, Addr, Perm, SwapEntry, IsSwapped, AllocSlot, EntryAt;
    FramesLose(s, s', v, q, Addr(EntryAt(s.procs, v, q)));
  }

  // A page stops being resident and its frame becomes free.
  lemma FramesLose(s: Sys, s': Sys, v: nat, q: nat, f: nat)
    requires FramesOk(s) && v < |s.procs| == |s'.procs| && q < USERPAGES && Present(EntryAt(s.procs, v, q))
    requires f == Addr(EntryAt(s.procs, v, q))
    requires !Present(EntryAt(s'.procs, v, q)) && s'.free == [f] + s.free && |s'.mem| == |s.mem|
    requires forall p, t {:trigger EntryAt(s'.procs, p, t)} ::
        0 <= p < |s.procs| && 0 <= t < USERPAGES && !(p == v && t == q) ==>
            EntryAt(s'.procs, p, t) == EntryAt(s.procs, p, t)
    ensures FramesOk(s')
  {
    hide EntryAt, Present, Addr;
    assert f !in s.free;
    forall i, j | 0 <= i < |s'.free| && 0 <= j < |s'.free| && s'.free[i] == s'.free[j]
      ensures i == j
    {
      if i > 0 && j > 0 {
        assert s.free[i - 1] == s.free[j - 1];
      }
    }
  }

  lemma SwapOutSlots(s: Sys, v: nat, q: nat)
    requires Inv(s) && v < |s.procs| && q < USERPAGES && Present(EntryAt(s.procs, v, q)) && HasFree(s.slots)
    ensures SlotsOk(SwappedOut(s, v, q))
  {
    var s' := SwappedOut(s, v, q);
    var k := AllocSlot(s.slots, 0);
    forall p, t | 0 <= p < |s.procs| && 0 <= t < USERPAGES
      ensures EntryAt(s'.procs, p, t) == if p == v && t == q then SwapEntry(k) else EntryAt(s.procs, p, t)
    {
      SwappedOutEntries(s, v, q, p, t);
    }
    forall j | 0 <= j < NSWAPSLOTS && !s'.slots[j].isFree
      ensures Named(s'.procs, j)
    {
      if j == k {
        assert EntryAt(s'.procs, v, q) == SwapEntry(k);
      } else {
        assert s.slots[j] == s'.slots[j];
        var p, t :| 0 <= p < |s.procs| && 0 <= t < USERPAGES && IsSwapped(EntryAt(s.procs, p, t))
             && Addr(EntryAt(s.procs, p, t)) == j;
        assert EntryAt(s'.procs, p, t) == EntryAt(s.procs, p, t);
      }
    }
    hide AllocSlot, EntryAt, Named, SwapEntry, Addr, IsSwapped, Present, Perm, PageAt, WithPage;
    SlotsGain(s, s', v, q, k);
  }

  lemma SlotsGain(s: Sys, s': Sys, v: nat, q: nat, k: nat)
    requires SlotsOk(s) && v < |s.procs| == |s'.procs| && q < USERPAGES && k < NSWAPSLOTS && s.slots[k].isFree
    requires |s'.slots| == NSWAPSLOTS && DiskOk(s'.disk) && s'.slots[k].pagePerm in {0, 2, 4, 6} && !s'.slots[k].isFree
    requires forall j :: 0 <= j < NSWAPSLOTS && j != k ==> s'.slots[j] == s.slots[j]
    requires EntryAt(s'.procs, v, q) == SwapEntry(k)
    requires forall p, t {:trigger EntryAt(s'.procs, p, t)} ::
        0 <= p < |s.procs| && 0 <= t < USERPAGES && !(p == v && t == q) ==>
            EntryAt(s'.procs, p, t) == EntryAt(s.procs, p, t)
    requires forall j {:trigger s'.slots[j]} :: 0 <= j < NSWAPSLOTS && !s'.slots[j].isFree ==> Named(s'.procs, j)
    ensures SlotsOk(s')
  {
    hide EntryAt, Named, SwapEntry, Addr, IsSwapped, Present, PageAt;
  }

  lemma SwapOutViews(s: Sys, v: nat, q: nat)
    requires Inv(s) && v < |s.procs| && q < USERPAGES && Present(EntryAt(s.procs, v, q)) && HasFree(s.slots)
    ensures SameViews(s, SwappedOut(s, v, q))
  {
    var s' := SwappedOut(s, v, q);
    var k := AllocSlot(s.slots, 0);
    forall p, t | 0 <= p < |s.procs| && 0 <= t < USERPAGES
      ensures Look(s', p, t) == Look(s, p, t)
    {
      SwappedOutEntries(s, v, q, p, t);
      var e := EntryAt(s.procs, p, t);
      if IsSwapped(e) && !Present(e) {
        PageAtWithPage(s.disk, k, s.mem[Addr(EntryAt(s.procs, v, q))], Addr(e));
      } else if p == v && t == q {
        PageAtWithPage(s.disk, k, s.mem[Addr(e)], k);
      }
    }
  }

  /** swap_out is invisible while a slot is free. */
  lemma SwapOutKeeps(s: Sys, v: nat, q: nat)
    requires Inv(s) && v < |s.procs| && q < USERPAGES && Present(EntryAt(s.procs, v, q)) && HasFree(s.slots)
    ensures Inv(SwappedOut(s, v, q)) && SameViews(s, SwappedOut(s, v, q))
  {
    SwapOutFrames(s, v, q);
    SwapOutSlots(s, v, q);
    SwapOutViews(s, v, q);
  }

  // The page in slot 0 is not the victim's, and has it seen as its own from now on.
  ghost predicate Overwritten(s: Sys, s': Sys, v: nat, q: nat, p: nat, t: nat) {
    && v < |s.procs| && p < |s.procs| == |s'.procs| && t < USERPAGES && !(p == v && t == q)
    && |s.slots| == |s'.slots| == NSWAPSLOTS && DiskOk(s.disk) && DiskOk(s'.disk)
    && Present(EntryAt(s.procs, v, q)) && Addr(EntryAt(s.procs, v, q)) < |s.mem|
    && IsSwapped(EntryAt(s.procs, p, t)) && Addr(EntryAt(s.procs, p, t)) == 0
    && EntryAt(s'.procs, p, t) == EntryAt(s.procs, p, t) && EntryAt(s'.procs, v, q) == SwapEntry(0)
    && Look(s, p, t) == Seen(PageAt(s.disk, 0), s.slots[0].pagePerm)
    && Look(s', p, t) == Look(s', v, q) == Seen(s.mem[Addr(EntryAt(s.procs, v, q))], s.slots[0].pagePerm)
  }

  /** With every slot used, swap_out takes slot 0 again: two pages share it, the one that was there sees the
      victim's bytes from now on, and the victim's page gets the permissions of the other. */
  lemma SwapOutWhenFull(s: Sys, v: nat, q: nat)
    requires Inv(s) && v < |s.procs| && q < USERPAGES && Present(EntryAt(s.procs, v, q)) && !HasFree(s.slots)
    ensures !SlotsOk(SwappedOut(s, v, q))
    ensures exists p, t :: Overwritten(s, SwappedOut(s, v, q), v, q, p, t)
  {
    var s' := SwappedOut(s, v, q);
    NoneFree(s.slots, 0);
    assert !s.slots[0].isFree;
    var p, t :| 0 <= p < |s.procs| && 0 <= t < USERPAGES
                && IsSwapped(EntryAt(s.procs, p, t)) && Addr(EntryAt(s.procs, p, t)) == 0;
    SwappedOutEntries(s, v, q, p, t);
    SwappedOutEntries(s, v, q, v, q);
    PageAtWithPage(s.disk, 0, s.mem[Addr(EntryAt(s.procs, v, q))], 0);
    assert Overwritten(s, s', v, q, p, t);
  }

  // The page in slot 0 has the bytes and the permissions of the victim's.
  predicate LikeSlotZero(s: Sys, v: nat, q: nat)
    requires v < |s.procs| && |s.slots| == NSWAPSLOTS && DiskOk(s.disk) && Addr(EntryAt(s.procs, v, q)) < |s.mem|
  {
    var e := EntryAt(s.procs, v, q);
    PageAt(s.disk, 0) == s.mem[Addr(e)] && s.slots[0].pagePerm == Perm(e)
  }

  lemma FullViews(s: Sys, v: nat, q: nat)
    requires Inv(s) && v < |s.procs| && q < USERPAGES && Present(EntryAt(s.procs, v, q)) && !HasFree(s.slots)
    requires LikeSlotZero(s, v, q)
    ensures SameViews(s, SwappedOut(s, v, q))
  {
    var s' := SwappedOut(s, v, q);
    NoneFree(s.slots, 0);
    forall p, t | 0 <= p < |s.procs| && 0 <= t < USERPAGES
      ensures Look(s', p, t) == Look(s, p, t)
    {
      SwappedOutEntries(s, v, q, p, t);
      var e := EntryAt(s.procs, p, t);
      if IsSwapped(e) && !Present(e) {
        PageAtWithPage(s.disk, 0, s.mem[Addr(EntryAt(s.procs, v, q))], Addr(e));
      } else if p == v && t == q {
        PageAtWithPage(s.disk, 0, s.mem[Addr(e)], 0);
      }
    }
  }

  /** swap_out is invisible exactly when a slot is free, or the page in slot 0 happens to be the victim's over again. */
  lemma SwapOutSeenExactly(s: Sys, v: nat, q: nat)
    requires Inv(s) && v < |s.procs| && q < USERPAGES && Present(EntryAt(s.procs, v, q))
    ensures SameViews(s, SwappedOut(s, v, q)) <==> HasFree(s.slots) || LikeSlotZero(s, v, q)
  {
    var s' := SwappedOut(s, v, q);
    if HasFree(s.slots) {
      SwapOutViews(s, v, q);
    } else if LikeSlotZero(s, v, q) {
      FullViews(s, v, q);
    } else {
      SwapOutWhenFull(s, v, q);
      var p, t :| Overwritten(s, s', v, q, p, t);
      hide Look, SwappedOut, PageAt;
      assert Look(s, v, q) == Seen(s.mem[Addr(EntryAt(s.procs, v, q))], Perm(EntryAt(s.procs, v, q))) by {
        LookResident(s, v, q);
      }
    }
  }

  lemma LookResident(s: Sys, v: nat, q: nat)
    requires Inv(s) && v < |s.procs| && q < USERPAGES && Present(EntryAt(s.procs, v, q))
    ensures Addr(EntryAt(s.procs, v, q)) < |s.mem|
    ensures Look(s, v, q) == Seen(s.mem[Addr(EntryAt(s.procs, v, q))], Perm(EntryAt(s.procs, v, q)))
  {
  }

  lemma {:induction false} NoneFree(slots: seq<SwapSlot>, from: nat)
    requires from <= |slots| && !HasFree(slots)
    ensures AllocSlot(slots, from) == 0
    decreases |slots| - from
  {
    if from < |slots| {
      NoneFree(slots, from + 1);
    }
  }

  /** So swapping a page out keeps the invariant exactly when some slot is free. */
  lemma SwapOutKeepsExactly(s: Sys, v: nat, q: nat)
    requires Inv(s) && v < |s.procs| && q < USERPAGES && Present(EntryAt(s.procs, v, q))
    ensures Inv(SwappedOut(s, v, q)) <==> HasFree(s.slots)
  {
    if HasFree(s.slots) {
      SwapOutKeeps(s, v, q);
    } else {
      SwapOutWhenFull(s, v, q);
    }
  }

  // ----- the count of free pages

  /** A count that is right stays right over a swap-out exactly when some page is free before it. */
  lemma SwapOutCountsExactly(s: Sys, v: nat, q: nat)
    requires Inv(s) && v < |s.procs| && q < USERPAGES && Present(EntryAt(s.procs, v, q)) && s.freePages == |s.free|
    ensures SwappedOut(s, v, q).freePages == |SwappedOut(s, v, q).free| <==> s.free != []
  {
  }

  // One process with one page, in the only frame there is.
  function OnePage(): Sys {
    Sys([Proc(true, 1, 1, PGSIZE, map[0 := ResidentEntry(0, 6)])], [Filled(0)], [], 0,
      seq(NSWAPSLOTS, i => SwapSlot(0, true)), seq(2 + NSWAPBLOCKS, i => ZeroBlock()))
  }

  lemma OnePageIsSound()
    ensures Inv(OnePage()) && Present(EntryAt(OnePage().procs, 0, 0)) && Addr(EntryAt(OnePage().procs, 0, 0)) == 0
  {
    var s := OnePage();
    forall p, q | 0 <= p < |s.procs| && 0 <= q < USERPAGES
      ensures EntryAt(s.procs, p, q) == if q == 0 then ResidentEntry(0, 6) else 0
    {
      OnePageEntry(q);
    }
    hide EntryAt, ResidentEntry, Addr, Named;
    assert forall k :: 0 <= k < NSWAPSLOTS ==> s.slots[k] == SwapSlot(0, true);
  }

  lemma OnePageEntry(q: nat)
    ensures EntryAt(OnePage().procs, 0, q) == if q == 0 then ResidentEntry(0, 6) else 0
  {
  }

  /** And there it is wrong afterwards: kalloc swaps out just when no page is free. */
  lemma SwapOutMiscounts()
    ensures var s := OnePage();
            && Inv(s) && Present(EntryAt(s.procs, 0, 0)) && s.freePages == |s.free|
            && SwappedOut(s, 0, 0).freePages == 0 && |SwappedOut(s, 0, 0).free| == 1
  {
    OnePageIsSound();
    hide Inv, EntryAt, WithPage, WithEntry, AllocSlot, Present;
    assert SwappedOut(OnePage(), 0, 0).free == [0] + OnePage().free;
  }

  // ----- a page fault

  // Frame f holds the contents of the slot of page q of process p, which becomes resident there.
  function SwappedIn(s: Sys, p: nat, q: nat, f: nat): Sys
    requires p < |s.procs| && |s.slots| == NSWAPSLOTS && DiskOk(s.disk)
    requires Addr(EntryAt(s.procs, p, q)) < NSWAPSLOTS && f < |s.mem|
    requires s.slots[Addr(EntryAt(s.procs, p, q))].pagePerm in {0, 2, 4, 6}
  {
    var k := Addr(EntryAt(s.procs, p, q));
    s.(procs := WithEntry(s.procs, p, q, ResidentEntry(f, s.slots[k].pagePerm)),
       mem := s.mem[f := PageAt(s.disk, k)], slots := s.slots[k := SwapSlot(0, true)])
  }

  // f is neither free nor mapped.
  ghost predicate Loose(s: Sys, f: nat) {
    && f < |s.mem| && f !in s.free
    && (forall p, q {:trigger EntryAt(s.procs, p, q)} ::
          0 <= p < |s.procs| && 0 <= q < USERPAGES && Present(EntryAt(s.procs, p, q)) ==>
              Addr(EntryAt(s.procs, p, q)) != f)
  }

  lemma SwapInFrames(s: Sys, p: nat, q: nat, f: nat)
    requires Inv(s) && p < |s.procs| && q < USERPAGES && IsSwapped(EntryAt(s.procs, p, q)) && Loose(s, f)
    ensures FramesOk(SwappedIn(s, p, q, f))
  {
    var s' := SwappedIn(s, p, q, f);
    var k := Addr(EntryAt(s.procs, p, q));
    forall r, t | 0 <= r < |s.procs| && 0 <= t < USERPAGES
      ensures EntryAt(s'.procs, r, t) ==
              if r == p && t == q then ResidentEntry(f, s.slots[k].pagePerm) else EntryAt(s.procs, r, t)
    {
      EntriesAfter(s.procs, p, q, ResidentEntry(f, s.slots[k].pagePerm), r, t);
    }
    hide EntryAt, Present, IsSwapped, ResidentEntry, WithEntry, PageAt, SlotsOk;
  }

  lemma SwapInSlots(s: Sys, p: nat, q: nat, f: nat)
    requires Inv(s) && p < |s.procs| && q < USERPAGES && IsSwapped(EntryAt(s.procs, p, q)) && Loose(s, f)
    ensures SlotsOk(SwappedIn(s, p, q, f))
  {
    var s' := SwappedIn(s, p, q, f);
    var k := Addr(EntryAt(s.procs, p, q));
    forall r, t | 0 <= r < |s.procs| && 0 <= t < USERPAGES
      ensures EntryAt(s'.procs, r, t) ==
              if r == p && t == q then ResidentEntry(f, s.slots[k].pagePerm) else EntryAt(s.procs, r, t)
    {
      EntriesAfter(s.procs, p, q, ResidentEntry(f, s.slots[k].pagePerm), r, t);
    }
    hide WithEntry, PageAt, FramesOk, EntryAt, ResidentEntry, Present, IsSwapped, Addr;
    forall j | 0 <= j < NSWAPSLOTS && !s'.slots[j].isFree
      ensures Named(s'.procs, j)
    {
      assert j != k && s.slots[j] == s'.slots[j];
      var r, t :| 0 <= r < |s.procs| && 0 <= t < USERPAGES && IsSwapped(EntryAt(s.procs, r, t))
           && Addr(EntryAt(s.procs, r, t)) == j;
      assert EntryAt(s'.procs, r, t) == EntryAt(s.procs, r, t);
    }
  }

  lemma SwapInViews(s: Sys, p: nat, q: nat, f: nat)
    requires Inv(s) && p < |s.procs| && q < USERPAGES && IsSwapped(EntryAt(s.procs, p, q)) && Loose(s, f)
    ensures SameViews(s, SwappedIn(s, p, q, f))
  {
    var s' := SwappedIn(s, p, q, f);
    var k := Addr(EntryAt(s.procs, p, q));
    forall r, t | 0 <= r < |s.procs| && 0 <= t < USERPAGES
      ensures Look(s', r, t) == Look(s, r, t)
    {
      EntriesAfter(s.procs, p, q, ResidentEntry(f, s.slots[k].pagePerm), r, t);
    }
  }

  /** Bringing a page back in is invisible too, and frees its slot. */
  lemma SwapInKeeps(s: Sys, p: nat, q: nat, f: nat)
    requires Inv(s) && p < |s.procs| && q < USERPAGES && IsSwapped(EntryAt(s.procs, p, q)) && Loose(s, f)
    ensures Inv(SwappedIn(s, p, q, f)) && SameViews(s, SwappedIn(s, p, q, f))
  {
    SwapInFrames(s, p, q, f);
    SwapInSlots(s, p, q, f);
    SwapInViews(s, p, q, f);
  }
}
