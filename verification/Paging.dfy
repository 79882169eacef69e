/** The page allocator and the address-space operations of vm.c and kalloc.c, on physical memory. */
module Paging {
  import opened PageTables
  import opened FrameCount

  const KERNBASE: nat := 0x8000_0000
  const VIRTUAL_LIMIT: nat := 0x1_0000_0000

  function P2V(f: nat): nat {
    f * PGSIZE + KERNBASE
  }

  // What kfree leaves in a page: junk, and the link of struct run.
  function Junk(link: nat): Page {
    seq(NPTENTRIES, i => if i == 0 then link else 0x01010101)
  }

  // The pages of the free list, from pointer ptr on: linked through their first words, none twice.
  ghost predicate FreeList(mem: Memory, ptr: nat, free: seq<nat>, lo: nat, hi: nat)
    requires hi <= |mem|
    decreases |free|
  {
    if free == [] then ptr == 0
    else
      && lo <= free[0] < hi && ptr == P2V(free[0]) && free[0] !in free[1..]
      && FreeList(mem, mem[free[0]][0], free[1..], lo, hi)
  }

  lemma {:induction false} FreeListSame(mem: Memory, mem': Memory, ptr: nat, free: seq<nat>, lo: nat, hi: nat)
    requires hi <= |mem| == |mem'| && FreeList(mem, ptr, free, lo, hi)
    requires forall f :: f in free && f < |mem| ==> mem'[f] == mem[f]
    ensures FreeList(mem', ptr, free, lo, hi)
    decreases |free|
  {
    if free != [] {
      FreeListSame(mem, mem', mem[free[0]][0], free[1..], lo, hi);
    }
  }

  lemma {:induction false} FreeInRange(mem: Memory, ptr: nat, free: seq<nat>, lo: nat, hi: nat, f: nat)
    requires hi <= |mem| && FreeList(mem, ptr, free, lo, hi) && f in free
    ensures lo <= f < hi
    decreases |free|
  {
    if f != free[0] {
      FreeInRange(mem, mem[free[0]][0], free[1..], lo, hi, f);
    }
  }

  // ----- an address space and the free list, before and after

  // The space is well formed and owns no free page.
  ghost predicate Good(mem: Memory, free: seq<nat>, d: nat, lo: nat, hi: nat) {
    SpaceOk(mem, d, lo, hi) && forall f :: f in free ==> !Owns(mem, d, f)
  }

  // Free or owned by the space.
  ghost predicate Held(mem: Memory, free: seq<nat>, d: nat, f: nat)
    requires DirOk(mem, d)
  {
    f in free || Owns(mem, d, f)
  }

  // No page outside the space and the free list has changed.
  ghost predicate Elsewhere(mem: Memory, free: seq<nat>, mem': Memory, d: nat)
    requires DirOk(mem, d)
  {
    |mem'| == |mem| && forall f :: 0 <= f < |mem| && !Held(mem, free, d, f) ==> mem'[f] == mem[f]
  }

  ghost predicate KeptPage(mem: Memory, mem': Memory, d: nat, q: nat)
    requires DirOk(mem, d) && DirOk(mem', d) && |mem'| == |mem| && q < NPAGES
  {
    var f := FrameOf(Pte(mem, d, q));
    Pte(mem, d, q) != 0 && Pte(mem', d, q) == Pte(mem, d, q) && f < |mem| ==> mem'[f] == mem[f]
  }

  // A user page mapped before and after to the same frame has kept its contents.
  ghost predicate DataSame(mem: Memory, mem': Memory, d: nat)
    requires DirOk(mem, d) && DirOk(mem', d)
  {
    |mem'| == |mem| && forall q {:trigger Pte(mem, d, q)} :: 0 <= q < USERPAGES ==> KeptPage(mem, mem', d, q)
  }

  // extra: pages that were neither free nor owned, and that the space owns now.
  ghost predicate Stepped(mem: Memory, free: seq<nat>, mem': Memory, free': seq<nat>, d: nat, lo: nat, hi: nat,
                          extra: set<nat>) {
    && Good(mem, free, d, lo, hi) && Good(mem', free', d, lo, hi)
    && (forall f: nat :: Held(mem', free', d, f) <==> Held(mem, free, d, f) || f in extra)
    && Elsewhere(mem, free, mem', d)
    && DataSame(mem, mem', d)
  }

  ghost predicate SamePtes(mem: Memory, mem': Memory, d: nat)
    requires DirOk(mem, d) && DirOk(mem', d)
  {
    forall q {:trigger Pte(mem', d, q)} :: 0 <= q < NPAGES ==> Pte(mem', d, q) == Pte(mem, d, q)
  }

  lemma SteppedTransitive(m0: Memory, f0: seq<nat>, m1: Memory, f1: seq<nat>, m2: Memory, f2: seq<nat>, d: nat, lo: nat,
                          hi: nat, e1: set<nat>, e2: set<nat>)
    requires Stepped(m0, f0, m1, f1, d, lo, hi, e1) && Stepped(m1, f1, m2, f2, d, lo, hi, e2)
    requires forall q {:trigger Pte(m0, d, q)} ::
        0 <= q < USERPAGES && Pte(m0, d, q) != 0 && Pte(m2, d, q) == Pte(m0, d, q) ==> Pte(m1, d, q) == Pte(m0, d, q)
    requires forall f :: f in e1 && f < |m0| ==> m2[f] == m0[f]
    requires |m1| == |m0| == |m2|
    ensures Stepped(m0, f0, m2, f2, d, lo, hi, e1 + e2)
  {
    hide Pte, Slot, Owns;
    forall f | 0 <= f < |m0| && !Held(m0, f0, d, f)
      ensures m2[f] == m0[f]
    {
      if f !in e1 {
        assert !Held(m1, f1, d, f);
      }
    }
    forall q | 0 <= q < USERPAGES
      ensures KeptPage(m0, m2, d, q)
    {
      assert KeptPage(m0, m1, d, q) && KeptPage(m1, m2, d, q);
    }
  }

  // The frame for page p when page first gets frame.
  function MapsTo(frame: nat, first: nat, p: nat): nat
    requires first <= p
  {
    frame + (p - first)
  }

  // The frames the user pages among first..last are to get are allocatable, neither free nor owned.
  ghost predicate MayMap(mem: Memory, free: seq<nat>, d: nat, lo: nat, hi: nat, first: nat, last: nat, frame: nat) {
    && DirOk(mem, d)
    && (forall p {:trigger MapsTo(frame, first, p)} :: first <= p <= last && p < USERPAGES ==>
          lo <= MapsTo(frame, first, p) < hi && !Held(mem, free, d, MapsTo(frame, first, p)))
  }

  // The frames of the user pages among the n pages from first on.
  function Added(first: nat, n: nat, frame: nat): set<nat> {
    if n == 0 then {} else Added(first, n - 1, frame) + (if first + n - 1 < USERPAGES then {frame + n - 1} else {})
  }

  lemma {:induction false} AddedIs(first: nat, n: nat, frame: nat, f: nat)
    ensures f in Added(first, n, frame) <==> frame <= f < frame + n && first + (f - frame) < USERPAGES
  {
    if n > 0 {
      AddedIs(first, n - 1, frame, f);
    }
  }

  ghost predicate Unmapped(mem: Memory, d: nat, first: nat, n: nat) {
    DirOk(mem, d) && forall q {:trigger Pte(mem, d, q)} :: first <= q < first + n && q < NPAGES ==> Pte(mem, d, q) == 0
  }

  ghost predicate PtesMapped(mem: Memory, mem': Memory, d: nat, first: nat, n: nat, frame: nat, perm: nat)
    requires perm < PGSIZE
  {
    && DirOk(mem, d) && DirOk(mem', d)
    && (forall q {:trigger Pte(mem', d, q)} :: 0 <= q < NPAGES ==>
          Pte(mem', d, q) == if first <= q < first + n then MakePte(MapsTo(frame, first, q), perm) else Pte(mem, d, q))
  }

  // The pages from first up to end are no longer mapped, and nothing else changed.
  ghost predicate PtesCleared(mem: Memory, mem': Memory, d: nat, first: nat, end: nat) {
    && DirOk(mem, d) && DirOk(mem', d)
    && (forall q {:trigger Pte(mem', d, q)} :: 0 <= q < NPAGES ==>
          Pte(mem', d, q) == if first <= q < end then 0 else Pte(mem, d, q))
  }

  function Min(a: nat, b: nat): nat {
    if a < b then a else b
  }

  ghost predicate Vacant(mem: Memory, d: nat, first: nat, end: nat) {
    DirOk(mem, d) && forall q {:trigger Pte(mem, d, q)} :: first <= q < end && q < NPAGES ==> Pte(mem, d, q) == 0
  }

  // Of the pages from first up to end, q is the first that is mapped.
  ghost predicate FirstMapped(mem: Memory, d: nat, first: nat, end: nat, q: nat) {
    first <= q < end && q < NPAGES && Vacant(mem, d, first, q) && Pte(mem, d, q) != 0
  }

  // Page q is mapped for the user to a page of zeros.
  ghost predicate NewPage(mem: Memory, d: nat, q: nat)
    requires DirOk(mem, d) && q < NPAGES
  {
    var e := Pte(mem, d, q);
    e != 0 && FlagsOf(e) == PTE_P + PTE_W + PTE_U && 0 < FrameOf(e) < |mem| && mem[FrameOf(e)] == ZeroPage()
  }

  // The pages from first up to end are new, and all others as they were.
  ghost predicate Grown(mem: Memory, mem': Memory, d: nat, first: nat, end: nat) {
    && DirOk(mem, d) && DirOk(mem', d)
    && (forall q {:trigger Pte(mem', d, q)} :: 0 <= q < NPAGES ==>
          if first <= q < end then NewPage(mem', d, q) else Pte(mem', d, q) == Pte(mem, d, q))
  }

  // Page a is newly mapped, with the given contents and permissions; nothing else changed.
  ghost predicate EnteredAt(mem: Memory, mem': Memory, d: nat, a: nat, page: Page, perm: nat)
    requires perm < PGSIZE
  {
    && DirOk(mem, d) && DirOk(mem', d) && a < NPAGES
    && (forall q {:trigger Pte(mem', d, q)} :: 0 <= q < NPAGES && q != a ==> Pte(mem', d, q) == Pte(mem, d, q))
    && var e := Pte(mem', d, a);
       e != 0 && FlagsOf(e) == FlagsOf(MakePte(0, perm)) && 0 < FrameOf(e) < |mem'| && mem'[FrameOf(e)] == page
  }

  // The first n pages are all mapped.
  ghost predicate AllMapped(mem: Memory, d: nat, n: nat) {
    DirOk(mem, d) && forall q {:trigger Pte(mem, d, q)} :: 0 <= q < n && q < NPAGES ==> Pte(mem, d, q) != 0
  }

  // A page f has been taken from the free list, and is neither free nor owned; nothing else has come or gone.
  ghost predicate Limbo(mem: Memory, free: seq<nat>, mem': Memory, free': seq<nat>, d: nat, lo: nat, hi: nat, f: nat) {
    && Good(mem, free, d, lo, hi) && Good(mem', free', d, lo, hi)
    && f in free && lo <= f < hi && |mem'| == |mem|
    && (forall g: nat :: Held(mem', free', d, g) <==> Held(mem, free, d, g) && g != f)
    && Elsewhere(mem, free, mem', d) && DataSame(mem, mem', d) && SamePtes(mem, mem', d)
  }

  // ----- the kernel's mappings

  datatype KMap = KMap(virt: nat, phys: nat, size: nat, perm: nat)

  predicate KMapRow(k: KMap) {
    && k.virt % PGSIZE == 0 && KERNBASE <= k.virt && 0 < k.size && k.virt + k.size <= VIRTUAL_LIMIT
    && k.phys % PGSIZE == 0 && k.perm < PGSIZE
  }

  predicate InRow(k: KMap, q: nat)
    requires KMapRow(k)
  {
    k.virt / PGSIZE <= q <= (k.virt + k.size - 1) / PGSIZE
  }

  // The rows are of whole pages of the kernel half, and do not overlap.
  ghost predicate KMapOk(kmap: seq<KMap>) {
    && (forall k :: 0 <= k < |kmap| ==> KMapRow(kmap[k]))
    && (forall j, k, q: nat {:trigger InRow(kmap[j], q), InRow(kmap[k], q)} ::
          0 <= j < |kmap| && 0 <= k < |kmap| && InRow(kmap[j], q) && InRow(kmap[k], q) ==> j == k)
  }

  // The entry the first n rows give page q.
  ghost function KPte(kmap: seq<KMap>, n: nat, q: nat): (e: nat)
    requires KMapOk(kmap) && n <= |kmap|
    ensures q < USERPAGES ==> e == 0
  {
    if n == 0 then 0
    else if InRow(kmap[n - 1], q) then
      MakePte(MapsTo(kmap[n - 1].phys / PGSIZE, kmap[n - 1].virt / PGSIZE, q), kmap[n - 1].perm)
    else KPte(kmap, n - 1, q)
  }

  // The directory entries under which the first k rows are.
  function KTables(kmap: seq<KMap>, k: nat): set<nat>
    requires k <= |kmap|
  {
    if k == 0 then {}
    else KTables(kmap, k - 1) + Span(kmap[k - 1].virt / PGSIZE,
                                     (kmap[k - 1].virt + kmap[k - 1].size - 1) / PGSIZE + 1)
  }

  // Of n0 free frames, n are left with the directory and the tables of the first k rows in place.
  ghost predicate KernelCount(mem: Memory, n: nat, n0: nat, d: nat, kmap: seq<KMap>, k: nat) {
    k <= |kmap| && d < |mem| && Tables(mem, d) == KTables(kmap, k) && n + 1 + |KTables(kmap, k)| == n0
  }

  // A space made from the pages of f0, with the first k rows entered.
  ghost predicate KernelSpace(mem: Memory, free: seq<nat>, f0: seq<nat>, d: nat, lo: nat, hi: nat, kmap: seq<KMap>,
                              k: nat) {
    && Good(mem, free, d, lo, hi) && KMapOk(kmap) && k <= |kmap|
    && (forall q {:trigger Pte(mem, d, q)} :: 0 <= q < NPAGES ==> Pte(mem, d, q) == KPte(kmap, k, q))
    && (forall f: nat :: Held(mem, free, d, f) <==> f in f0)
  }

  // Page q of d is a copy of page q of s as it was in m0.
  ghost predicate CopiedPage(m0: Memory, s: nat, mem: Memory, d: nat, q: nat)
    requires DirOk(m0, s) && DirOk(mem, d) && q < NPAGES
  {
    var e, e' := Pte(m0, s, q), Pte(mem, d, q);
    e' != 0 && FlagsOf(e') == FlagsOf(e) && FrameOf(e) < |m0| && FrameOf(e') < |mem|
    && mem[FrameOf(e')] == m0[FrameOf(e)]
  }

  // The first n pages are copied, and the rest of d is as setupkvm leaves it.
  ghost predicate Copied(m0: Memory, s: nat, mem: Memory, d: nat, n: nat, kmap: seq<KMap>) {
    && DirOk(m0, s) && DirOk(mem, d) && KMapOk(kmap)
    && (forall q {:trigger Pte(mem, d, q)} :: 0 <= q < NPAGES ==>
          if q < n then CopiedPage(m0, s, mem, d, q) else Pte(mem, d, q) == KPte(kmap, |kmap|, q))
  }

  // Page q of the first n is the first that is not mapped.
  ghost predicate FirstMissing(mem: Memory, d: nat, n: nat, q: nat) {
    q < n && q < NPAGES && AllMapped(mem, d, q) && Pte(mem, d, q) == 0
  }

  // A directory, the tables of the kernel's rows, and the first q user pages with their tables.
  function ChildNeeds(kmap: seq<KMap>, q: nat): int {
    1 + |KTables(kmap, |kmap|)| + Need(KTables(kmap, |kmap|), 0, q)
  }

  // Of n0 free frames, n are left with q pages of the child in place.
  ghost predicate ChildCount(mem: Memory, n: nat, n0: nat, d: nat, kmap: seq<KMap>, q: nat) {
    d < |mem| && Tables(mem, d) == KTables(kmap, |kmap|) + Span(0, q) && n == n0 - ChildNeeds(kmap, q)
  }

  datatype EnterResult = Entered | NoPage | NoTable | Remapped
  datatype MapResult = Done | NoMemory | Remap
  datatype CopyResult = Made | OutOfMemory | Panicked

  function PageUp(sz: nat): nat {
    (sz + PGSIZE - 1) / PGSIZE
  }

  class Vm {
    const lo: nat      // allocatable pages
    const hi: nat
    var mem: Memory
    var head: nat      // kmem.freelist
    ghost var free: seq<nat>

    ghost predicate Valid()
      reads this
    {
      0 < lo && hi <= |mem| && FreeList(mem, head, free, lo, hi)
    }

    // kinit1 and kinit2: an empty free list, then every whole page from vstart to vend.
    constructor (mem: Memory, vstart: nat, vend: nat)
      requires 0 < vstart && PageUp(vstart) <= |mem| && vend <= |mem| * PGSIZE
      ensures Valid() && |this.mem| == |mem| && lo == PageUp(vstart)
      ensures forall f: nat :: f in free <==> PageUp(vstart) <= f && (f + 1) * PGSIZE <= vend
    {
      lo := (vstart + PGSIZE - 1) / PGSIZE;
      hi := |mem|;
      this.mem, head, free := mem, 0, [];
      new;
      var p := (vstart + PGSIZE - 1) / PGSIZE;
      while p * PGSIZE + PGSIZE <= vend
        invariant PageUp(vstart) <= p && Valid() && |this.mem| == |mem|
        invariant forall f: nat :: f in free <==> PageUp(vstart) <= f < p
        invariant p > PageUp(vstart) ==> p * PGSIZE <= vend
        decreases vend - p * PGSIZE
      {
        FreeFrame(p);
        p := p + 1;
      }
    }

    // kalloc: the first page of the free list; 0 when there is none.
    method Kalloc() returns (ok: bool, f: nat)
      requires Valid()
      modifies this`head, this`free
      ensures Valid()
      ensures ok <==> old(free) != []
      ensures if ok then f == old(free)[0] && free == old(free)[1..] && f !in free
              && lo <= f < hi else free == old(free)
    {
      var r := head;
      if r == 0 {
        return false, 0;
      }
      f := (r - KERNBASE) / PGSIZE;
      head := mem[f][0];
      free := free[1..];
      ok := true;
    }

    /** kfree: the page at v is filled with junk and put in front; or a panic, when v is no whole page of the
        allocator's. A page must not be freed twice. */
    method Kfree(v: nat) returns (ok: bool)
      requires Valid() && (Allocatable(v) ==> (v - KERNBASE) / PGSIZE !in free)
      modifies this`mem, this`head, this`free
      ensures Valid() && |mem| == |old(mem)| && (ok <==> Allocatable(v))
      ensures !ok ==> mem == old(mem) && free == old(free)
      ensures ok ==> free == [(v - KERNBASE) / PGSIZE] + old(free)
      ensures ok ==> mem[(v - KERNBASE) / PGSIZE][1..] == seq(NPTENTRIES - 1, k => 0x01010101)
      ensures ok ==> forall g :: 0 <= g < |mem| && g != (v - KERNBASE) / PGSIZE ==> mem[g] == old(mem[g])
    {
      if v % PGSIZE != 0 || v < P2V(lo) || v - KERNBASE >= hi * PGSIZE {
        return false;
      }
      ghost var f := (v - KERNBASE) / PGSIZE;
      AllocatableFrame(v);
      FreeListSame(mem, mem[f := Junk(head)], head, free, lo, hi);
      mem := mem[(v - KERNBASE) / PGSIZE := Junk(head)];
      head := v;
      free := [f] + free;
      assert free[1..] == old(free);
      ok := true;
    }

    // The address of a whole page of the allocator's.
    predicate Allocatable(v: nat) {
      v % PGSIZE == 0 && P2V(lo) <= v && v - KERNBASE < hi * PGSIZE
    }

    lemma AllocatableFrame(v: nat)
      requires Allocatable(v)
      ensures var f := (v - KERNBASE) / PGSIZE;
              lo <= f < hi && P2V(f) == v
    {
    }

    // kfree(P2V(f)).
    method FreeFrame(f: nat)
      requires Valid() && lo <= f < hi && f !in free
      modifies this`mem, this`head, this`free
      ensures Valid() && free == [f] + old(free)
      ensures |mem| == |old(mem)| && forall g :: 0 <= g < |mem| && g != f ==> mem[g] == old(mem[g])
    {
      assert P2V(f) % PGSIZE == 0 && (P2V(f) - KERNBASE) / PGSIZE == f;
      var ok := Kfree(P2V(f));
    }

    // A page that is not free is written.
    method Write(f: nat, page: Page)
      requires Valid() && f < |mem| && f !in free
      modifies this`mem
      ensures Valid() && mem == old(mem)[f := page]
    {
      FreeListSame(mem, mem[f := page], head, free, lo, hi);
      mem := mem[f := page];
    }

    /** walkpgdir: the page table that has the entry for page p, allocated if need be and asked for. */
    method Walk(d: nat, p: nat, alloc: bool) returns (ok: bool, t: nat)
      requires Valid() && Good(mem, free, d, lo, hi) && p < NPAGES
      modifies this
      ensures Valid() && Stepped(old(mem), old(free), mem, free, d, lo, hi, {})
      ensures SamePtes(old(mem), mem, d)
      ensures ok ==> t == Table(mem, d, p / NPTENTRIES) != 0
      ensures ok <==> old(Table(mem, d, p / NPTENTRIES)) != 0 || (alloc && old(free) != [])
      ensures !ok || !alloc ==> mem == old(mem) && free == old(free)
      ensures ok && alloc ==> Counted(old(mem), |old(free)|, mem, |free|, d, {p / NPTENTRIES}, 0)
      ensures forall f :: f in free ==> f in old(free)
    {
      hide Counted;
      SteppedStill(mem, free, d, lo, hi);
      var pde := mem[d][p / NPTENTRIES];
      if Present(pde) {
        CountedFound(mem, |free|, d, p / NPTENTRIES);
        return true, FrameOf(pde);
      }
      if !alloc {
        return false, 0;
      }
      ok, t := Kalloc();
      if !ok {
        return;
      }
      TableStep(mem, old(free), free, d, p / NPTENTRIES, t, lo, hi);
      CountedMade(mem, |old(free)|, d, p / NPTENTRIES, t, lo, hi);
      OwnedNotFree(mem, free, d, lo, hi);
      Write(t, ZeroPage());
      Write(d, mem[d][p / NPTENTRIES := MakePte(t, PTE_W + PTE_U)]);
    }

    /** mappages: enter the pages from va to va + size, in turn mapped to the frames from pa on.
        n is the number of pages entered before it stopped. */
    method MapPages(d: nat, va: nat, size: nat, pa: nat, perm: nat) returns (r: MapResult, n: nat)
      requires Valid() && Good(mem, free, d, lo, hi) && size > 0 && va + size <= VIRTUAL_LIMIT && pa % PGSIZE == 0
      requires perm < PGSIZE
      requires MayMap(mem, free, d, lo, hi, va / PGSIZE, (va + size - 1) / PGSIZE, pa / PGSIZE)
      modifies this
      ensures Valid() && n <= (va + size - 1) / PGSIZE + 1 - va / PGSIZE
      ensures Stepped(old(mem), old(free), mem, free, d, lo, hi, Added(va / PGSIZE, n, pa / PGSIZE))
      ensures PtesMapped(old(mem), mem, d, va / PGSIZE, n, pa / PGSIZE, perm)
      ensures Unmapped(old(mem), d, va / PGSIZE, n)
      ensures r == Done ==> n == (va + size - 1) / PGSIZE + 1 - va / PGSIZE
      ensures r == NoMemory ==> free == [] && n <= (va + size - 1) / PGSIZE - va / PGSIZE
      ensures r == NoMemory ==> Table(mem, d, (va / PGSIZE + n) / NPTENTRIES) == 0
      ensures r != Remap ==>
        Counted(old(mem), |old(free)|, mem, |free|, d, Span(va / PGSIZE, va / PGSIZE + n), 0)
      ensures r == Remap ==> n <= (va + size - 1) / PGSIZE - va / PGSIZE && Pte(old(mem), d, va / PGSIZE + n) != 0
      ensures forall f :: f in free ==> f in old(free)
    {
      hide Good, Stepped, Pte, MayMap, Counted, Span, Tables;
      GoodDir(mem, free, d, lo, hi);
      var first, last, frame := va / PGSIZE, (va + size - 1) / PGSIZE, pa / PGSIZE;
      var a := first;
      n := 0;
      MapNothing(mem, free, d, lo, hi, first, frame, perm);
      SpanNone(first);
      CountedNothing(mem, |free|, d);
      while true
        invariant Valid() && a == first + n && a <= last < NPAGES
        invariant Good(mem, free, d, lo, hi) && DirOk(mem, d)
        invariant Stepped(old(mem), old(free), mem, free, d, lo, hi, Added(first, n, frame))
        invariant PtesMapped(old(mem), mem, d, first, n, frame, perm) && Unmapped(old(mem), d, first, n)
        invariant Counted(old(mem), |old(free)|, mem, |free|, d, Span(first, a), 0)
        invariant forall f :: f in free ==> f in old(free)
        decreases last - a
      {
        ghost var m1, f1 := mem, free;
        var ok, t := Walk(d, a, true);
        SteppedGood(m1, f1, mem, free, d, lo, hi, {});
        GoodDir(mem, free, d, lo, hi);
        MapThrough(old(mem), old(free), m1, f1, mem, free, d, lo, hi, first, last, n, frame, perm);
        if !ok {
          return NoMemory, n;
        }
        EntryIs(mem, d, a);
        if Present(mem[t][a % NPTENTRIES]) {
          return Remap, n;
        }
        MapCount(old(mem), |old(free)|, m1, |f1|, mem, free, d, lo, hi, first, a, MakePte(frame + n, perm));
        MapStep(old(mem), old(free), mem, free, d, lo, hi, first, last, n, frame, perm, a);
        Write(t, mem[t][a % NPTENTRIES := MakePte(frame + n, perm)]);
        SteppedGood(old(mem), old(free), mem, free, d, lo, hi, Added(first, n + 1, frame));
        GoodDir(mem, free, d, lo, hi);
        n := n + 1;
        if a == last {
          break;
        }
        a := a + 1;
      }
      r := Done;
    }

    // The page that p is mapped to is freed, and its entry cleared.
    method FreePage(d: nat, p: nat, t: nat)
      requires Valid() && Good(mem, free, d, lo, hi) && p < USERPAGES && Pte(mem, d, p) != 0
      requires t == Table(mem, d, p / NPTENTRIES)
      modifies this
      ensures Valid() && Stepped(old(mem), old(free), mem, free, d, lo, hi, {})
      ensures PtesCleared(old(mem), mem, d, p, p + 1)
    {
      hide Good, Stepped, PtesCleared;
      GoodDir(mem, free, d, lo, hi);
      EntryIs(mem, d, p);
      var f := FrameOf(mem[t][p % NPTENTRIES]);
      UserFrame(mem, free, d, lo, hi, p);
      FreeFrame(f);
      FreeStep(old(mem), mem, old(free), d, lo, hi, p);
      Write(t, mem[t][p % NPTENTRIES := 0]);
    }

    /** deallocuvm: unmap and free the user pages from newsz to oldsz. */
    method DeallocUvm(d: nat, oldsz: nat, newsz: nat) returns (r: nat)
      requires Valid() && Good(mem, free, d, lo, hi) && oldsz <= KERNBASE
      modifies this
      ensures Valid() && Stepped(old(mem), old(free), mem, free, d, lo, hi, {})
      ensures r == if newsz >= oldsz then oldsz else newsz
      ensures PtesCleared(old(mem), mem, d, PageUp(newsz), PageUp(oldsz))
    {
      hide Good, Stepped, PtesCleared;
      ClearNothing(mem, free, d, lo, hi, PageUp(newsz), PageUp(oldsz));
      if newsz >= oldsz {
        ClearNothing(mem, free, d, lo, hi, PageUp(newsz), PageUp(oldsz));
        return oldsz;
      }
      ghost var start, end := PageUp(newsz), PageUp(oldsz);
      var a := (newsz + PGSIZE - 1) / PGSIZE;
      while a * PGSIZE < oldsz
        invariant Valid() && start <= a <= USERPAGES && end <= USERPAGES && Good(mem, free, d, lo, hi)
        invariant Stepped(old(mem), old(free), mem, free, d, lo, hi, {})
        invariant PtesCleared(old(mem), mem, d, start, Min(a, end))
        decreases USERPAGES - a
      {
        GoodDir(mem, free, d, lo, hi);
        var ok, t := Walk(d, a, false);
        if !ok {
          SkipTable(old(mem), mem, d, start, end, a);
          a := (a / NPTENTRIES + 1) * NPTENTRIES - 1;
        } else {
          ghost var m1, f1 := mem, free;
          EntryIs(mem, d, a);
          if Present(mem[t][a % NPTENTRIES]) {
            FreePage(d, a, t);
            SteppedGood(m1, f1, mem, free, d, lo, hi, {});
            ClearThrough(old(mem), old(free), m1, f1, mem, free, d, lo, hi, start, a);
          } else {
            ClearOne(old(mem), mem, d, start, a);
          }
        }
        a := a + 1;
      }
      r := newsz;
    }

    /** allocuvm: map fresh zeroed pages from oldsz to newsz; when memory runs out, unmap all of that range again. It
        succeeds exactly when no page of the range was mapped before and there are frames for its pages and their
        tables, and panics exactly when there are enough to come to a page that was mapped. */
    method AllocUvm(d: nat, oldsz: nat, newsz: nat) returns (ok: bool, r: nat)
      requires Valid() && Good(mem, free, d, lo, hi)
      modifies this
      ensures !ok <==> oldsz <= newsz < KERNBASE && exists q ::
        FirstMapped(old(mem), d, PageUp(oldsz), PageUp(newsz), q)
        && Need(Tables(old(mem), d), PageUp(oldsz), q) < |old(free)|
      ensures ok && oldsz <= newsz < KERNBASE ==> (r == newsz <==>
        Vacant(old(mem), d, PageUp(oldsz), PageUp(newsz))
        && Need(Tables(old(mem), d), PageUp(oldsz), PageUp(newsz)) <= |old(free)|)
      ensures ok ==> Valid() && Stepped(old(mem), old(free), mem, free, d, lo, hi, {})
      ensures newsz >= KERNBASE ==> r == 0 && mem == old(mem) && free == old(free)
      ensures newsz < oldsz && newsz < KERNBASE ==> r == oldsz && mem == old(mem) && free == old(free)
      ensures ok && oldsz <= newsz < KERNBASE && r == newsz ==>
        Vacant(old(mem), d, PageUp(oldsz), PageUp(newsz)) && Grown(old(mem), mem, d, PageUp(oldsz), PageUp(newsz))
      ensures ok && oldsz <= newsz < KERNBASE && r != newsz ==>
        && r == 0 && PtesCleared(old(mem), mem, d, PageUp(oldsz), PageUp(newsz))
        && (Vacant(old(mem), d, PageUp(oldsz), PageUp(newsz)) ==> SamePtes(old(mem), mem, d))
    {
      hide Good, Stepped, Grown, Pte, PtesMapped, PtesCleared, Vacant, SamePtes, Counted, Tables, Span, Need;
      SteppedStill(mem, free, d, lo, hi);
      ok := true;
      if newsz >= KERNBASE {
        return true, 0;
      }
      if newsz < oldsz {
        return true, oldsz;
      }
      GrowNothing(mem, free, d, lo, hi, PageUp(oldsz));
      GrowthStart(mem, |free|, d, PageUp(oldsz));
      var a := (oldsz + PGSIZE - 1) / PGSIZE;
      while a * PGSIZE < newsz
        invariant Valid() && PageUp(oldsz) <= a <= PageUp(newsz) <= USERPAGES
        invariant Good(mem, free, d, lo, hi) && DirOk(mem, d)
        invariant Stepped(old(mem), old(free), mem, free, d, lo, hi, {})
        invariant Grown(old(mem), mem, d, PageUp(oldsz), a) && Vacant(old(mem), d, PageUp(oldsz), a)
        invariant Counted(old(mem), |old(free)|, mem, |free|, d, Span(PageUp(oldsz), a), a - PageUp(oldsz))
        decreases PageUp(newsz) - a
      {
        ghost var m1, f1 := mem, free;
        PageAsWas(old(mem), mem, d, PageUp(oldsz), a, PageUp(newsz));
        var entered, f := EnterPage(d, a, ZeroPage(), PTE_W + PTE_U);
        if entered == Remapped {
          GrowthStops(old(mem), |old(free)|, m1, |f1|, d, PageUp(oldsz), a, PageUp(newsz));
          return false, 0;
        }
        if entered != Entered {
          GrowthFails(old(mem), |old(free)|, m1, |f1|, d, PageUp(oldsz), a, PageUp(newsz));
          if entered == NoPage {
            SteppedStill(mem, free, d, lo, hi);
          } else {
            LimboGood(m1, f1, mem, free, d, lo, hi, f);
          }
          ghost var m2, f2 := mem, free;
          var back := DeallocUvm(d, newsz, oldsz);
          if entered == NoTable {
            ghost var m3, f3 := mem, free;
            LimboOut(m1, f1, m2, f2, m3, f3, d, lo, hi, f);
            FreeFrame(f);
            LimboFreed(m1, f1, m2, f2, m3, f3, mem, free, d, lo, hi, f);
            ClearedSame(m1, f1, m2, f2, m3, mem, d, lo, hi, f, PageUp(oldsz), PageUp(newsz));
          }
          ShrunkBack(old(mem), old(free), m1, f1, mem, free, d, lo, hi, PageUp(oldsz), a, PageUp(newsz));
          return true, 0;
        }
        SteppedGood(m1, f1, mem, free, d, lo, hi, {});
        GoodDir(mem, free, d, lo, hi);
        EnteredGrown(m1, f1, mem, free, d, lo, hi, a);
        GrowThrough(old(mem), old(free), m1, f1, mem, free, d, lo, hi, PageUp(oldsz), a, PageUp(newsz));
        GrowthCount(old(mem), |old(free)|, m1, |f1|, mem, |free|, d, PageUp(oldsz), a);
        a := a + 1;
      }
      GrowthEnds(old(mem), |old(free)|, mem, |free|, d, PageUp(oldsz), PageUp(newsz));
      r := newsz;
    }

    // What allocuvm and copyuvm do for each page: a page from kalloc, written and entered for page a.
    // When there is no memory for a page table, the page f is in limbo. Remapped: mappages panics.
    method EnterPage(d: nat, a: nat, page: Page, perm: nat) returns (r: EnterResult, f: nat)
      requires Valid() && Good(mem, free, d, lo, hi) && a < USERPAGES && perm < PGSIZE
      modifies this
      ensures Valid() && |mem| == |old(mem)|
      ensures r == Remapped ==> Pte(old(mem), d, a) != 0 && old(free) != []
      ensures r == NoPage ==> mem == old(mem) && free == old(free) == []
      ensures r == NoTable ==> |old(free)| == 1 && a / NPTENTRIES !in Tables(old(mem), d)
      ensures r == Entered ==> Counted(old(mem), |old(free)|, mem, |free|, d, {a / NPTENTRIES}, 1)
      ensures r == NoTable ==> Limbo(old(mem), old(free), mem, free, d, lo, hi, f)
      ensures r == Entered ==> Stepped(old(mem), old(free), mem, free, d, lo, hi, {})
      ensures r == Entered ==> EnteredAt(old(mem), mem, d, a, page, perm) && Pte(old(mem), d, a) == 0
    {
      hide Good, Stepped, Pte, PtesMapped, SamePtes, MayMap, Limbo, EnteredAt, Counted, Tables, Span;
      var ok;
      ok, f := Kalloc();
      if !ok {
        return NoPage, 0;
      }
      LimboStart(mem, old(free), free, d, lo, hi, f, page, a);
      Write(f, page);
      ghost var m1, f1 := mem, free;
      var mapped, n := MapPages(d, a * PGSIZE, PGSIZE, f * PGSIZE, perm);
      SteppedAny(m1, f1, mem, free, d, lo, hi, Added(a, n, f));
      if mapped == Remap {
        return Remapped, f;
      }
      EnterCount(old(mem), old(free), m1, f1, mem, |free|, d, a, n);
      if mapped == NoMemory {
        OneAdded(a, f);
        LimboStep(old(mem), old(free), m1, f1, mem, free, d, lo, hi, f, a, perm);
        return NoTable, f;
      }
      LimboMapped(old(mem), old(free), m1, f1, mem, free, d, lo, hi, f, a, page, perm);
      r := Entered;
    }

    /** freevm: every page the space owns goes back to the free list, each once. */
    method FreeVm(d: nat)
      requires Valid() && Good(mem, free, d, lo, hi)
      modifies this
      ensures Valid() && |mem| == |old(mem)|
      ensures forall f: nat :: f in free <==> Held(old(mem), old(free), d, f)
      ensures forall f :: 0 <= f < |mem| && !Held(old(mem), old(free), d, f) ==> mem[f] == old(mem[f])
    {
      hide Good, Stepped, PtesCleared, Held, TableAmong;
      var r := DeallocUvm(d, KERNBASE, 0);
      ghost var m1, f1 := mem, free;
      FreeTablesStart(old(mem), old(free), m1, f1, d, lo, hi);
      var i := 0;
      while i < NPTENTRIES
        invariant 0 <= i <= NPTENTRIES && Valid() && |mem| == |m1| == |old(mem)| && Good(m1, f1, d, lo, hi)
        invariant d < |mem| && d !in free && mem[d] == m1[d]
        invariant forall f: nat :: f in free <==> f in f1 || TableAmong(m1, d, i, f)
        invariant forall f :: 0 <= f < |mem| && !Held(m1, f1, d, f) ==> mem[f] == m1[f]
      {
        FreeTableStep(m1, f1, free, d, lo, hi, i);
        var pde := mem[d][i];
        if Present(pde) {
          FreeFrame(FrameOf(pde));
        }
        i := i + 1;
      }
      FreeVmEnd(old(mem), old(free), m1, f1, free, d, lo, hi);
      FreeFrame(d);
    }

    /** setupkvm: a fresh address space with the kernel's mappings exactly when there are frames for its directory and
        tables, and otherwise nothing at all. */
    method SetupKvm(kmap: seq<KMap>) returns (ok: bool, d: nat)
      requires Valid() && KMapOk(kmap)
      modifies this
      ensures Valid() && |mem| == |old(mem)|
      ensures ok ==> Good(mem, free, d, lo, hi) && d in old(free)
      ensures ok ==> forall q {:trigger Pte(mem, d, q)} :: 0 <= q < NPAGES ==> Pte(mem, d, q) == KPte(kmap, |kmap|, q)
      ensures ok ==> forall f: nat :: Held(mem, free, d, f) <==> f in old(free)
      ensures !ok ==> forall f: nat :: f in free <==> f in old(free)
      ensures forall f :: 0 <= f < |mem| && f !in old(free) ==> mem[f] == old(mem[f])
      ensures ok <==> 1 + |KTables(kmap, |kmap|)| <= |old(free)|
      ensures ok ==> KernelCount(mem, |free|, |old(free)|, d, kmap, |kmap|)
    {
      hide Good, Pte, Held, PtesMapped, MayMap, KPte, FreeList, Stepped, KTables, Counted, KernelCount, Tables, Span;
      ok, d := Kalloc();
      if !ok {
        return;
      }
      FreshSpace(old(mem), old(free), free, d, lo, hi, kmap);
      FreshCount(old(mem), |old(free)|, |free|, d, kmap);
      Write(d, ZeroPage());
      var k := 0;
      while k < |kmap|
        invariant 0 <= k <= |kmap| && Valid() && |mem| == |old(mem)|
        invariant KernelSpace(mem, free, old(free), d, lo, hi, kmap, k)
        invariant KernelCount(mem, |free|, |old(free)|, d, kmap, k)
        invariant forall f :: 0 <= f < |mem| && f !in old(free) ==> mem[f] == old(mem[f])
      {
        ghost var m1, f1 := mem, free;
        KernelMayMap(mem, free, old(free), d, lo, hi, kmap, k);
        var r, n := MapPages(d, kmap[k].virt, kmap[k].size, kmap[k].phys, kmap[k].perm);
        KernelMapped(m1, f1, mem, free, old(free), d, lo, hi, kmap, k, n);
        if r == NoMemory {
          KTablesNext(kmap, k);
          KernelFails(m1, |f1|, |old(free)|, mem, d, kmap, k, kmap[k].virt / PGSIZE, n,
                      (kmap[k].virt + kmap[k].size - 1) / PGSIZE);
          FreeVm(d);
          return false, 0;
        }
        KernelCountNext(m1, |f1|, |old(free)|, mem, |free|, d, kmap, k);
        k := k + 1;
      }
      KernelCounted(mem, |free|, |old(free)|, d, kmap);
      ok := true;
    }

    /** copyuvm: a new space whose user pages are copies on fresh frames; the parent is not touched, and on
        failure everything taken is given back. It succeeds exactly when no page of the parent below sz is missing and
        there are frames for all the child needs, and panics exactly when there are enough to come to a missing page. */
    method CopyUvm(s: nat, sz: nat, kmap: seq<KMap>) returns (r: CopyResult, d: nat)
      requires Valid() && Good(mem, free, s, lo, hi) && KMapOk(kmap) && sz <= KERNBASE
      modifies this
      ensures Valid() && |mem| == |old(mem)|
      ensures forall f :: 0 <= f < |mem| && f !in old(free) ==> mem[f] == old(mem[f])
      ensures r == Made <==> AllMapped(old(mem), s, PageUp(sz)) && ChildNeeds(kmap, PageUp(sz)) <= |old(free)|
      ensures r == Panicked <==> exists q ::
        FirstMissing(old(mem), s, PageUp(sz), q) && ChildNeeds(kmap, q) <= |old(free)|
      ensures r == OutOfMemory ==> forall f: nat :: f in free <==> f in old(free)
      ensures r == Made ==> Good(mem, free, d, lo, hi) && Copied(old(mem), s, mem, d, PageUp(sz), kmap)
      ensures r == Made ==> forall f: nat :: Held(mem, free, d, f) <==> f in old(free)
      ensures Good(mem, free, s, lo, hi) && SamePtes(old(mem), mem, s) && DataSame(old(mem), mem, s)
    {
      hide Good, Pte, Held, KPte, FreeList, Stepped, Copied, EnteredAt, Limbo, KTables, Counted, KernelCount;
      hide Tables, Span, ChildNeeds, ChildCount, FirstMissing;
      ghost var m0, f0 := mem, free;
      SteppedStill(m0, f0, s, lo, hi);
      var ok;
      ok, d := SetupKvm(kmap);
      if !ok {
        Untouched(m0, f0, mem, free, s, lo, hi);
        ChildNone(|f0|, kmap, PageUp(sz));
        return OutOfMemory, 0;
      }
      CopyStart(m0, f0, mem, free, s, d, lo, hi, kmap);
      ChildStart(mem, |free|, |f0|, d, kmap);
      var i := 0;
      while i * PGSIZE < sz
        invariant 0 <= i <= PageUp(sz) <= USERPAGES && Valid() && |mem| == |m0| && Good(mem, free, d, lo, hi)
        invariant DirOk(mem, d)
        invariant Copied(m0, s, mem, d, i, kmap) && AllMapped(m0, s, i)
        invariant ChildCount(mem, |free|, |f0|, d, kmap, i)
        invariant forall f: nat :: Held(mem, free, d, f) <==> f in f0
        invariant forall f :: 0 <= f < |mem| && f !in f0 ==> mem[f] == m0[f]
      {
        ghost var m1, f1 := mem, free;
        FreeFromHeld(mem, free, f0, d);
        Untouched(m0, f0, mem, free, s, lo, hi);
        CopySource(m0, f0, mem, free, s, d, lo, hi, i, kmap);
        MappedMore(m0, s, i, PageUp(sz));
        GoodDir(mem, free, s, lo, hi);
        EntryIs(mem, s, i);
        var walked, t := Walk(s, i, false);
        if !walked {
          TableMissing(mem, s, i);
          ChildStops(m0, |f0|, m1, |f1|, s, d, kmap, i, PageUp(sz));
          return Panicked, d;
        }
        var pte := mem[t][i % NPTENTRIES];
        if !Present(pte) {
          ChildStops(m0, |f0|, m1, |f1|, s, d, kmap, i, PageUp(sz));
          return Panicked, d;
        }
        var entered, f := EnterPage(d, i, mem[FrameOf(pte)], FlagsOf(pte));
        if entered != Entered {
          ChildFails(m0, |f0|, m1, |f1|, s, d, kmap, i, PageUp(sz));
          if entered == NoTable {
            ghost var m2, f2 := mem, free;
            LimboGood(m1, f1, m2, f2, d, lo, hi, f);
            SteppedStill(m2, f2, d, lo, hi);
            LimboOut(m1, f1, m2, f2, m2, f2, d, lo, hi, f);
            FreeFrame(f);
            LimboFreed(m1, f1, m2, f2, m2, f2, mem, free, d, lo, hi, f);
            CopyUndone(m0, f0, m1, f1, mem, free, d, lo, hi);
          }
          FreeVm(d);
          Untouched(m0, f0, mem, free, s, lo, hi);
          return OutOfMemory, 0;
        }
        CopyUndone(m0, f0, m1, f1, mem, free, d, lo, hi);
        CopyOne(m0, f0, m1, f1, mem, free, s, d, lo, hi, i, kmap, pte);
        ChildCountNext(m1, |f1|, |f0|, mem, |free|, d, kmap, i);
        i := i + 1;
      }
      ChildEnds(m0, |f0|, mem, |free|, s, d, kmap, PageUp(sz));
      FreeFromHeld(mem, free, f0, d);
      Untouched(m0, f0, mem, free, s, lo, hi);
      r := Made;
    }
  }

  lemma SteppedStill(mem: Memory, free: seq<nat>, d: nat, lo: nat, hi: nat)
    requires Good(mem, free, d, lo, hi)
    ensures Stepped(mem, free, mem, free, d, lo, hi, {}) && SamePtes(mem, mem, d)
  {
    forall q | 0 <= q < USERPAGES
      ensures KeptPage(mem, mem, d, q)
    {
    }
  }

  lemma OwnedNotFree(mem: Memory, free: seq<nat>, d: nat, lo: nat, hi: nat)
    requires SpaceOk(mem, d, lo, hi) && forall f :: f in free ==> !Owns(mem, d, f)
    ensures d !in free
  {
    assert Slot(mem, d, 0) == d;
  }

  lemma TableStep(mem: Memory, free: seq<nat>, free': seq<nat>, d: nat, i: nat, f: nat, lo: nat, hi: nat)
    requires Good(mem, free, d, lo, hi) && i < NPTENTRIES && Table(mem, d, i) == 0 && lo <= f < hi
    requires free != [] && f == free[0] && free' == free[1..] && f !in free'
    ensures var mem' := WithTable(mem, d, i, f);
            Stepped(mem, free, mem', free', d, lo, hi, {}) && SamePtes(mem, mem', d) && Table(mem', d, i) == f
  {
    var mem' := WithTable(mem, d, i, f);
    assert f in free;
    WithTableTables(mem, d, i, f, lo, hi);
    WithTablePtes(mem, d, i, f, lo, hi);
    SlotSetOk(mem, mem', d, TableSlot(i), f, lo, hi);
    hide SpaceOk, Pte, Slot;
    forall g: nat
      ensures Owns(mem', d, g) <==> Owns(mem, d, g) || g == f
    {
      SlotSetOwns(mem, mem', d, TableSlot(i), f, lo, hi, g);
      SlotOfTable(mem, d, i);
    }
    OwnsDir(mem, d, lo, hi);
    forall g | g in free'
      ensures !Owns(mem', d, g)
    {
      assert g in free;
    }
    UserFramesKept(mem, mem', d, lo, hi, f);
  }

  lemma SlotOfTable(mem: Memory, d: nat, i: nat)
    requires DirOk(mem, d) && i < NPTENTRIES
    ensures Slot(mem, d, TableSlot(i)) == Table(mem, d, i)
  {
  }

  lemma OwnsDir(mem: Memory, d: nat, lo: nat, hi: nat)
    requires SpaceOk(mem, d, lo, hi)
    ensures Owns(mem, d, d)
  {
    assert Slot(mem, d, 0) == d;
  }

  // User frames are neither the directory, nor a table, nor a page f that was not owned.
  lemma UserFramesKept(mem: Memory, mem': Memory, d: nat, lo: nat, hi: nat, f: nat)
    requires SpaceOk(mem, d, lo, hi) && DirOk(mem', d) && !Owns(mem, d, f)
    requires |mem'| == |mem| && forall g :: 0 <= g < |mem| && g != f && g != d ==> mem'[g] == mem[g]
    ensures DataSame(mem, mem', d)
  {
    forall q | 0 <= q < USERPAGES
      ensures KeptPage(mem, mem', d, q)
    {
      if Pte(mem, d, q) != 0 {
        assert Slot(mem, d, PageSlot(q)) == FrameOf(Pte(mem, d, q)) != 0;
        assert Slot(mem, d, 0) == d;
      }
    }
  }

  // ----- the steps of mappages

  lemma GoodDir(mem: Memory, free: seq<nat>, d: nat, lo: nat, hi: nat)
    requires Good(mem, free, d, lo, hi)
    ensures DirOk(mem, d)
  {
  }

  lemma SteppedGood(mem: Memory, free: seq<nat>, mem': Memory, free': seq<nat>, d: nat, lo: nat, hi: nat,
                    extra: set<nat>)
    requires Stepped(mem, free, mem', free', d, lo, hi, extra)
    ensures Good(mem, free, d, lo, hi) && Good(mem', free', d, lo, hi) && |mem'| == |mem|
  {
  }

  lemma MapNothing(mem: Memory, free: seq<nat>, d: nat, lo: nat, hi: nat, first: nat, frame: nat, perm: nat)
    requires Good(mem, free, d, lo, hi) && perm < PGSIZE
    ensures Stepped(mem, free, mem, free, d, lo, hi, Added(first, 0, frame))
    ensures PtesMapped(mem, mem, d, first, 0, frame, perm)
  {
    assert Added(first, 0, frame) == {};
    SteppedStill(mem, free, d, lo, hi);
  }

  lemma EntryIs(mem: Memory, d: nat, p: nat)
    requires DirOk(mem, d) && p < NPAGES
    ensures var t := Table(mem, d, p / NPTENTRIES);
            t != 0 ==>
                t < |mem| && Pte(mem, d, p) == (if Present(mem[t][p % NPTENTRIES]) then mem[t][p % NPTENTRIES] else 0)
  {
  }

  // The frames just mapped have the contents they had.
  lemma AddedKept(m0: Memory, f0: seq<nat>, m1: Memory, f1: seq<nat>, m2: Memory, f2: seq<nat>, d: nat, lo: nat,
                  hi: nat, first: nat, last: nat, n: nat, frame: nat, perm: nat, e: set<nat>, f: nat)
    requires MayMap(m0, f0, d, lo, hi, first, last, frame) && perm < PGSIZE && first + n <= last + 1 <= NPAGES
    requires Stepped(m0, f0, m1, f1, d, lo, hi, Added(first, n, frame)) && PtesMapped(m0, m1, d, first, n, frame, perm)
    requires Stepped(m1, f1, m2, f2, d, lo, hi, e)
    requires forall q {:trigger Pte(m2, d, q)} :: 0 <= q < NPAGES && Pte(m1, d, q) != 0 ==>
        Pte(m2, d, q) == Pte(m1, d, q)
    requires f in Added(first, n, frame) && f < |m0|
    ensures m2[f] == m0[f]
  {
    hide Pte, Owns, Slot;
    AddedIs(first, n, frame, f);
    var q := first + (f - frame);
    assert MapsTo(frame, first, q) == f;
    assert m1[f] == m0[f];
    assert Pte(m1, d, q) == MakePte(f, perm) && KeptPage(m1, m2, d, q);
    assert Pte(m2, d, q) == Pte(m1, d, q);
  }

  lemma MapThrough(m0: Memory, f0: seq<nat>, m1: Memory, f1: seq<nat>, m2: Memory, f2: seq<nat>, d: nat, lo: nat,
                   hi: nat, first: nat, last: nat, n: nat, frame: nat, perm: nat)
    requires MayMap(m0, f0, d, lo, hi, first, last, frame) && perm < PGSIZE && first + n <= last + 1 <= NPAGES
    requires Stepped(m0, f0, m1, f1, d, lo, hi, Added(first, n, frame)) && PtesMapped(m0, m1, d, first, n, frame, perm)
    requires Stepped(m1, f1, m2, f2, d, lo, hi, {}) && DirOk(m1, d) && DirOk(m2, d) && SamePtes(m1, m2, d)
    requires Unmapped(m0, d, first, n)
    ensures Stepped(m0, f0, m2, f2, d, lo, hi, Added(first, n, frame)) && PtesMapped(m0, m2, d, first, n, frame, perm)
  {
    var e := Added(first, n, frame);
    forall f | f in e && f < |m0|
      ensures m2[f] == m0[f]
    {
      AddedKept(m0, f0, m1, f1, m2, f2, d, lo, hi, first, last, n, frame, perm, {}, f);
    }
    MappedGrows(m0, m1, d, first, n, frame, perm);
    SteppedTransitive(m0, f0, m1, f1, m2, f2, d, lo, hi, e, {});
    assert e + {} == e;
  }

  lemma MappedGrows(m0: Memory, m1: Memory, d: nat, first: nat, n: nat, frame: nat, perm: nat)
    requires perm < PGSIZE && PtesMapped(m0, m1, d, first, n, frame, perm) && first + n <= NPAGES
    requires Unmapped(m0, d, first, n)
    ensures forall q {:trigger Pte(m0, d, q)} :: 0 <= q < USERPAGES && Pte(m0, d, q) != 0 ==>
        Pte(m1, d, q) == Pte(m0, d, q)
  {
    forall q | 0 <= q < USERPAGES && Pte(m0, d, q) != 0
      ensures Pte(m1, d, q) == Pte(m0, d, q)
    {
    }
  }

  // The slots are all the same.
  lemma SlotsSameOk(mem: Memory, mem': Memory, d: nat, lo: nat, hi: nat)
    requires SpaceOk(mem, d, lo, hi) && SlotSet(mem, mem', d, 0, d)
    requires forall p {:trigger Pte(mem', d, p)} :: 0 <= p < USERPAGES ==> Pte(mem', d, p) == Pte(mem, d, p)
    ensures SpaceOk(mem', d, lo, hi)
    ensures forall g: nat {:trigger Owns(mem', d, g)} :: Owns(mem', d, g) <==> Owns(mem, d, g)
  {
    assert forall k {:trigger Slot(mem', d, k)} :: 0 <= k < NSLOTS ==> Slot(mem', d, k) == Slot(mem, d, k) by {
      assert Slot(mem, d, 0) == d;
    }
    hide Slot, Pte;
    forall g: nat
      ensures Owns(mem', d, g) <==> Owns(mem, d, g)
    {
      if Owns(mem, d, g) {
        var k :| 0 <= k < NSLOTS && Slot(mem, d, k) == g;
        assert Slot(mem', d, k) == g;
      }
      if Owns(mem', d, g) {
        var k :| 0 <= k < NSLOTS && Slot(mem', d, k) == g;
        assert Slot(mem, d, k) == g;
      }
    }
  }

  // A write to a page table leaves the user frames alone.
  lemma TableWriteKept(mem: Memory, mem': Memory, d: nat, lo: nat, hi: nat, i: nat)
    requires SpaceOk(mem, d, lo, hi) && DirOk(mem', d) && i < NPTENTRIES && Table(mem, d, i) != 0
    requires |mem'| == |mem| && forall g :: 0 <= g < |mem| && g != Table(mem, d, i) ==> mem'[g] == mem[g]
    ensures DataSame(mem, mem', d) && Owns(mem, d, Table(mem, d, i))
  {
    assert Slot(mem, d, TableSlot(i)) == Table(mem, d, i);
    forall q | 0 <= q < USERPAGES
      ensures KeptPage(mem, mem', d, q)
    {
      if Pte(mem, d, q) != 0 {
        assert Slot(mem, d, PageSlot(q)) == FrameOf(Pte(mem, d, q)) != 0;
      }
    }
  }

  // One entry of mappages.
  lemma EnterStep(mem: Memory, free: seq<nat>, d: nat, lo: nat, hi: nat, p: nat, f: nat, perm: nat)
    requires Good(mem, free, d, lo, hi) && p < NPAGES && perm < PGSIZE
    requires Table(mem, d, p / NPTENTRIES) != 0 && Pte(mem, d, p) == 0
    requires p < USERPAGES ==> lo <= f < hi && !Held(mem, free, d, f)
    ensures var mem' := WithPte(mem, d, p, MakePte(f, perm));
            && Stepped(mem, free, mem', free, d, lo, hi, if p < USERPAGES then {f} else {})
            && PtesMapped(mem, mem', d, p, 1, f, perm)
            && Table(mem, d, p / NPTENTRIES) !in free
  {
    var e := MakePte(f, perm);
    var mem' := WithPte(mem, d, p, e);
    WithPtePtes(mem, d, p, e, lo, hi);
    TableWriteKept(mem, mem', d, lo, hi, p / NPTENTRIES);
    hide Pte, Slot;
    if p < USERPAGES {
      SlotSetOk(mem, mem', d, PageSlot(p), f, lo, hi);
      forall g: nat
        ensures Owns(mem', d, g) <==> Owns(mem, d, g) || g == f
      {
        SlotSetOwns(mem, mem', d, PageSlot(p), f, lo, hi, g);
        SlotOfPage(mem, d, p);
      }
    } else {
      SlotsSameOk(mem, mem', d, lo, hi);
    }
  }

  lemma SlotOfPage(mem: Memory, d: nat, p: nat)
    requires DirOk(mem, d) && p < USERPAGES
    ensures Slot(mem, d, PageSlot(p)) == FrameOf(Pte(mem, d, p))
  {
  }

  lemma MapStep(m0: Memory, f0: seq<nat>, mem: Memory, free: seq<nat>, d: nat, lo: nat, hi: nat,
                first: nat, last: nat, n: nat, frame: nat, perm: nat, p: nat)
    requires DirOk(mem, d) && perm < PGSIZE && p == first + n <= last < NPAGES
    requires Table(mem, d, p / NPTENTRIES) != 0 && Pte(mem, d, p) == 0
    requires MayMap(m0, f0, d, lo, hi, first, last, frame) && Unmapped(m0, d, first, n)
    requires Stepped(m0, f0, mem, free, d, lo, hi, Added(first, n, frame))
    requires PtesMapped(m0, mem, d, first, n, frame, perm)
    ensures var mem' := WithPte(mem, d, p, MakePte(frame + n, perm));
            && Stepped(m0, f0, mem', free, d, lo, hi, Added(first, n + 1, frame))
            && PtesMapped(m0, mem', d, first, n + 1, frame, perm) && Unmapped(m0, d, first, n + 1)
            && Table(mem, d, p / NPTENTRIES) !in free
  {
    hide Pte, Slot, SpaceOk, Owns;
    var f := frame + n;
    assert MapsTo(frame, first, p) == f;
    assert !Held(m0, f0, d, f) || p >= USERPAGES;
    AddedIs(first, n, frame, f);
    EnterStep(mem, free, d, lo, hi, p, f, perm);
    var mem' := WithPte(mem, d, p, MakePte(f, perm));
    var one: set<nat> := if p < USERPAGES then {f} else {};
    forall g | g in Added(first, n, frame) && g < |m0|
      ensures mem'[g] == m0[g]
    {
      AddedKept(m0, f0, mem, free, mem', free, d, lo, hi, first, last, n, frame, perm, one, g);
    }
    MappedGrows(m0, mem, d, first, n, frame, perm);
    SteppedTransitive(m0, f0, mem, free, mem', free, d, lo, hi, Added(first, n, frame), one);
    assert Added(first, n, frame) + one == Added(first, n + 1, frame);
    assert Pte(m0, d, p) == Pte(mem, d, p);
  }

  lemma MapCount(m0: Memory, n0: nat, m1: Memory, n1: nat, mem: Memory, free: seq<nat>, d: nat, lo: nat, hi: nat,
                 first: nat, a: nat, e: nat)
    requires Counted(m0, n0, m1, n1, d, Span(first, a), 0) && first <= a < NPAGES && Good(mem, free, d, lo, hi)
    requires Counted(m1, n1, mem, |free|, d, {a / NPTENTRIES}, 0) && Table(mem, d, a / NPTENTRIES) != 0
    ensures DirOk(mem, d) && Counted(m0, n0, WithPte(mem, d, a, e), |free|, d, Span(first, a + 1), 0)
  {
    hide Counted, Span;
    SpanNext(first, a);
    CountedThen(m0, n0, m1, n1, mem, |free|, d, Span(first, a), 0, {a / NPTENTRIES}, 0);
    CountedEntry(m0, n0, mem, |free|, d, Span(first, a + 1), 0, a, e, lo, hi);
  }

  // ----- the steps of deallocuvm

  lemma UserFrame(mem: Memory, free: seq<nat>, d: nat, lo: nat, hi: nat, p: nat)
    requires Good(mem, free, d, lo, hi) && p < USERPAGES && Pte(mem, d, p) != 0
    ensures var f := FrameOf(Pte(mem, d, p));
            && lo <= f < hi && f !in free && Owns(mem, d, f) && f != d
            && Table(mem, d, p / NPTENTRIES) != 0 && Table(mem, d, p / NPTENTRIES) !in free
    ensures forall i {:trigger Table(mem, d, i)} :: 0 <= i < NPTENTRIES ==> Table(mem, d, i) != FrameOf(Pte(mem, d, p))
  {
    assert Slot(mem, d, PageSlot(p)) == FrameOf(Pte(mem, d, p)) != 0;
    assert Slot(mem, d, 0) == d;
    SlotOfTable(mem, d, p / NPTENTRIES);
    forall i | 0 <= i < NPTENTRIES
      ensures Table(mem, d, i) != FrameOf(Pte(mem, d, p))
    {
      SlotOfTable(mem, d, i);
    }
  }

  // kfree first fills the page, then the entry goes.
  lemma FreeStep(mem: Memory, mem1: Memory, free: seq<nat>, d: nat, lo: nat, hi: nat, p: nat)
    requires Good(mem, free, d, lo, hi) && p < USERPAGES && Pte(mem, d, p) != 0
    requires |mem1| == |mem| && forall g :: 0 <= g < |mem| && g != FrameOf(Pte(mem, d, p)) ==> mem1[g] == mem[g]
    ensures DirOk(mem1, d) && Table(mem1, d, p / NPTENTRIES) == Table(mem, d, p / NPTENTRIES) != 0
    ensures var f := FrameOf(Pte(mem, d, p));
            var mem' := WithPte(mem1, d, p, 0);
            Stepped(mem, free, mem', [f] + free, d, lo, hi, {}) && PtesCleared(mem, mem', d, p, p + 1)
            && Table(mem, d, p / NPTENTRIES) !in [f] + free
  {
    var f := FrameOf(Pte(mem, d, p));
    UserFrame(mem, free, d, lo, hi, p);
    assert SameTables(mem, mem1, d);
    SameTablesSamePte(mem, mem1, d);
    SameTablesOk(mem, mem1, d, lo, hi);
    hide Slot, Table, SpaceOk, WithPte, SameTables, Pte, Owns, DataSame, PtesCleared, Stepped;
    assert Pte(mem1, d, p) == Pte(mem, d, p);
    FreeEntry(mem1, d, lo, hi, p);
    var mem' := WithPte(mem1, d, p, 0);
    ClearedFrom(mem, mem1, mem', d, p);
    FreeKept(mem, mem1, mem', d, lo, hi, p);
    FreeOwned(mem, mem1, mem', free, d, lo, hi, f);
  }

  lemma ClearedFrom(mem: Memory, mem1: Memory, mem': Memory, d: nat, p: nat)
    requires DirOk(mem, d) && DirOk(mem1, d) && SamePtes(mem, mem1, d) && PtesCleared(mem1, mem', d, p, p + 1)
    ensures PtesCleared(mem, mem', d, p, p + 1) && (p < NPAGES ==> Pte(mem', d, p) == 0)
  {
  }

  lemma FreeOwned(mem: Memory, mem1: Memory, mem': Memory, free: seq<nat>, d: nat, lo: nat, hi: nat, f: nat)
    requires Good(mem, free, d, lo, hi) && SpaceOk(mem', d, lo, hi) && DirOk(mem1, d) && f !in free && Owns(mem, d, f)
    requires |mem1| == |mem| == |mem'| && DataSame(mem, mem', d)
    requires forall g: nat :: Owns(mem1, d, g) <==> Owns(mem, d, g)
    requires forall g: nat :: Owns(mem', d, g) <==> Owns(mem1, d, g) && g != f
    requires forall g :: 0 <= g < |mem| && g != f ==> mem1[g] == mem[g]
    requires forall g :: 0 <= g < |mem| && !Owns(mem1, d, g) ==> mem'[g] == mem1[g]
    ensures Stepped(mem, free, mem', [f] + free, d, lo, hi, {})
  {
    hide Owns, DataSame, DirOk;
  }

  // The entry of a page goes, and with it the frame.
  lemma FreeEntry(mem: Memory, d: nat, lo: nat, hi: nat, p: nat)
    requires SpaceOk(mem, d, lo, hi) && p < USERPAGES && Pte(mem, d, p) != 0 && Table(mem, d, p / NPTENTRIES) != 0
    ensures var mem' := WithPte(mem, d, p, 0);
            && SpaceOk(mem', d, lo, hi) && DataSame(mem, mem', d) && PtesCleared(mem, mem', d, p, p + 1)
            && (forall g: nat :: Owns(mem', d, g) <==> Owns(mem, d, g) && g != FrameOf(Pte(mem, d, p)))
            && (forall g :: 0 <= g < |mem| && !Owns(mem, d, g) ==> mem'[g] == mem[g])
  {
    var mem' := WithPte(mem, d, p, 0);
    WithPtePtes(mem, d, p, 0, lo, hi);
    SlotSetOk(mem, mem', d, PageSlot(p), 0, lo, hi);
    TableWriteKept(mem, mem', d, lo, hi, p / NPTENTRIES);
    forall g: nat
      ensures Owns(mem', d, g) <==> Owns(mem, d, g) && g != FrameOf(Pte(mem, d, p))
    {
      SlotSetOwns(mem, mem', d, PageSlot(p), 0, lo, hi, g);
      SlotOfPage(mem, d, p);
    }
  }

  lemma FreeKept(mem: Memory, mem1: Memory, mem': Memory, d: nat, lo: nat, hi: nat, p: nat)
    requires SpaceOk(mem, d, lo, hi) && DirOk(mem1, d) && DirOk(mem', d) && p < USERPAGES && Pte(mem, d, p) != 0
    requires |mem1| == |mem| && forall g :: 0 <= g < |mem| && g != FrameOf(Pte(mem, d, p)) ==> mem1[g] == mem[g]
    requires SamePtes(mem, mem1, d) && DataSame(mem1, mem', d) && Pte(mem', d, p) == 0
    ensures DataSame(mem, mem', d)
  {
    forall q | 0 <= q < USERPAGES
      ensures KeptPage(mem, mem', d, q)
    {
      assert KeptPage(mem1, mem', d, q);
      SlotOfPage(mem, d, p);
      SlotOfPage(mem, d, q);
    }
  }

  lemma ClearNothing(mem: Memory, free: seq<nat>, d: nat, lo: nat, hi: nat, first: nat, end: nat)
    requires Good(mem, free, d, lo, hi)
    ensures Stepped(mem, free, mem, free, d, lo, hi, {})
    ensures PtesCleared(mem, mem, d, first, Min(first, end))
  {
    SteppedStill(mem, free, d, lo, hi);
  }

  // A missing table: none of its pages is mapped.
  lemma SkipTable(m0: Memory, mem: Memory, d: nat, first: nat, end: nat, a: nat)
    requires PtesCleared(m0, mem, d, first, Min(a, end)) && first <= a < NPAGES && Table(mem, d, a / NPTENTRIES) == 0
    ensures PtesCleared(m0, mem, d, first, Min((a / NPTENTRIES + 1) * NPTENTRIES, end))
  {
    forall q | a <= q < (a / NPTENTRIES + 1) * NPTENTRIES && q < NPAGES
      ensures Pte(mem, d, q) == 0
    {
      assert q / NPTENTRIES == a / NPTENTRIES;
    }
  }

  lemma ClearOne(m0: Memory, mem: Memory, d: nat, first: nat, a: nat)
    requires PtesCleared(m0, mem, d, first, a) && first <= a < NPAGES && Pte(mem, d, a) == 0
    ensures PtesCleared(m0, mem, d, first, a + 1)
  {
  }

  lemma ClearThrough(m0: Memory, f0: seq<nat>, m1: Memory, f1: seq<nat>, m2: Memory, f2: seq<nat>, d: nat, lo: nat,
                     hi: nat, first: nat, a: nat)
    requires Stepped(m0, f0, m1, f1, d, lo, hi, {}) && PtesCleared(m0, m1, d, first, a) && first <= a
    requires Stepped(m1, f1, m2, f2, d, lo, hi, {}) && PtesCleared(m1, m2, d, a, a + 1)
    ensures Stepped(m0, f0, m2, f2, d, lo, hi, {}) && PtesCleared(m0, m2, d, first, a + 1)
  {
    hide Pte, Slot;
    var none: set<nat> := {};
    SteppedTransitive(m0, f0, m1, f1, m2, f2, d, lo, hi, none, none);
    assert none + none == none;
  }

  // ----- the steps of allocuvm

  lemma GrowNothing(mem: Memory, free: seq<nat>, d: nat, lo: nat, hi: nat, first: nat)
    requires Good(mem, free, d, lo, hi)
    ensures Grown(mem, mem, d, first, first) && DirOk(mem, d) && Vacant(mem, d, first, first)
  {
  }

  lemma GrowthStart(mem: Memory, n: nat, d: nat, first: nat)
    requires d < |mem|
    ensures Counted(mem, n, mem, n, d, Span(first, first), 0)
  {
    SpanNone(first);
    CountedNothing(mem, n, d);
  }

  lemma GrowthCount(m0: Memory, n0: nat, m1: Memory, n1: nat, mem: Memory, n: nat, d: nat, first: nat, a: nat)
    requires first <= a < NPAGES && Counted(m0, n0, m1, n1, d, Span(first, a), a - first)
    requires Counted(m1, n1, mem, n, d, {a / NPTENTRIES}, 1)
    ensures Counted(m0, n0, mem, n, d, Span(first, a + 1), a + 1 - first)
  {
    hide Counted, Span;
    SpanNext(first, a);
    CountedThen(m0, n0, m1, n1, mem, n, d, Span(first, a), a - first, {a / NPTENTRIES}, 1);
  }

  // What is left when the pages up to a are there.
  lemma CountNeed(m0: Memory, n0: nat, m1: Memory, n1: nat, d: nat, first: nat, a: nat)
    requires first <= a && Counted(m0, n0, m1, n1, d, Span(first, a), a - first)
    ensures d < |m0| && n1 == n0 - Need(Tables(m0, d), first, a)
  {
  }

  // Only one page of the range can be the first mapped one, and there is one unless the range is vacant.
  lemma FirstIs(m0: Memory, d: nat, first: nat, a: nat, end: nat, q: nat)
    requires FirstMapped(m0, d, first, end, q) && first <= a < NPAGES && Vacant(m0, d, first, a)
    ensures a <= q && (Pte(m0, d, a) != 0 ==> q == a) && !Vacant(m0, d, first, end)
  {
  }

  lemma GrowthEnds(m0: Memory, n0: nat, m1: Memory, n1: nat, d: nat, first: nat, end: nat)
    requires first <= end < NPAGES && Counted(m0, n0, m1, n1, d, Span(first, end), end - first)
    requires Vacant(m0, d, first, end)
    ensures Need(Tables(m0, d), first, end) <= n0 && forall q :: !FirstMapped(m0, d, first, end, q)
  {
    CountNeed(m0, n0, m1, n1, d, first, end);
    forall q: nat
      ensures !FirstMapped(m0, d, first, end, q)
    {
      if FirstMapped(m0, d, first, end, q) {
        FirstIs(m0, d, first, end, end, q);
      }
    }
  }

  lemma GrowthStops(m0: Memory, n0: nat, m1: Memory, n1: nat, d: nat, first: nat, a: nat, end: nat)
    requires first <= a < end <= NPAGES && Counted(m0, n0, m1, n1, d, Span(first, a), a - first) && n1 > 0
    requires Vacant(m0, d, first, a) && Pte(m0, d, a) != 0
    ensures FirstMapped(m0, d, first, end, a) && Need(Tables(m0, d), first, a) < n0
  {
    CountNeed(m0, n0, m1, n1, d, first, a);
  }

  // No frame for page a, or none for its table: too few for the range, and for coming to a mapped page.
  lemma GrowthFails(m0: Memory, n0: nat, m1: Memory, n1: nat, d: nat, first: nat, a: nat, end: nat)
    requires first <= a < end <= NPAGES && Counted(m0, n0, m1, n1, d, Span(first, a), a - first)
    requires Vacant(m0, d, first, a) && DirOk(m1, d) && Pte(m1, d, a) == Pte(m0, d, a)
    requires n1 == 0 || (n1 == 1 && a / NPTENTRIES !in Tables(m1, d))
    ensures n0 < Need(Tables(m0, d), first, end)
    ensures forall q :: FirstMapped(m0, d, first, end, q) ==> n0 <= Need(Tables(m0, d), first, q)
  {
    var have := Tables(m0, d);
    CountNeed(m0, n0, m1, n1, d, first, a);
    NeedNext(have, first, a);
    NeedGrows(have, first, a + 1, end);
    hide Counted, Need, Span, Tables;
    forall q: nat | FirstMapped(m0, d, first, end, q)
      ensures n0 <= Need(have, first, q)
    {
      FirstIs(m0, d, first, a, end, q);
      NeedGrows(have, first, a, q);
      if a < q {
        NeedGrows(have, first, a + 1, q);
      }
    }
  }

  // Page a is as it was.
  lemma PageAsWas(m0: Memory, mem: Memory, d: nat, first: nat, a: nat, end: nat)
    requires Grown(m0, mem, d, first, a) && Vacant(m0, d, first, a) && first <= a < end <= USERPAGES
    ensures DirOk(m0, d) && Pte(mem, d, a) == Pte(m0, d, a)
    ensures Pte(m0, d, a) == 0 ==> Vacant(m0, d, first, a + 1)
    ensures Pte(m0, d, a) != 0 ==> !Vacant(m0, d, first, end)
  {
    assert Pte(mem, d, a) == Pte(m0, d, a);
  }

  lemma SteppedAny(mem: Memory, free: seq<nat>, mem': Memory, free': seq<nat>, d: nat, lo: nat, hi: nat,
                   extra: set<nat>)
    requires Stepped(mem, free, mem', free', d, lo, hi, extra)
    ensures DirOk(mem, d) && DirOk(mem', d) && |mem'| == |mem|
  {
  }

  // kalloc takes f, and it is written.
  lemma LimboStart(mem: Memory, free: seq<nat>, free1: seq<nat>, d: nat, lo: nat, hi: nat, f: nat, page: Page, a: nat)
    requires Good(mem, free, d, lo, hi) && free != [] && f == free[0] && free1 == free[1..] && f !in free1
    requires lo <= f < hi
    requires a < USERPAGES
    ensures var mem1 := mem[f := page];
            && Limbo(mem, free, mem1, free1, d, lo, hi, f) && MayMap(mem1, free1, d, lo, hi, a, a, f)
            && Good(mem1, free1, d, lo, hi) && DirOk(mem1, d) && DirOk(mem, d) && Pte(mem1, d, a) == Pte(mem, d, a)
            && Tables(mem1, d) == Tables(mem, d)
  {
    var mem1 := mem[f := page];
    assert f in free && forall g :: g in free1 ==> g in free;
    UnownedWrite(mem, d, lo, hi, f, page);
    SameTablesSamePte(mem, mem1, d);
    SameTablesOk(mem, mem1, d, lo, hi);
    assert free == [f] + free1;
    forall q | 0 <= q < USERPAGES
      ensures KeptPage(mem, mem1, d, q)
    {
      SlotOfPage(mem, d, q);
    }
  }

  lemma EnterCount(m0: Memory, f0: seq<nat>, m1: Memory, f1: seq<nat>, mem: Memory, left: nat, d: nat, a: nat, n: nat)
    requires d < |m0| && d < |m1| && Tables(m1, d) == Tables(m0, d) && f0 != [] && f1 == f0[1..] && n <= 1 && a < NPAGES
    requires Counted(m1, |f1|, mem, left, d, Span(a, a + n), 0)
    ensures d < |mem| && (n == 0 ==> left + 1 == |f0|)
    ensures n == 0 && Table(mem, d, a / NPTENTRIES) == 0 ==> a / NPTENTRIES !in Tables(m0, d)
    ensures n == 1 ==> Counted(m0, |f0|, mem, left, d, {a / NPTENTRIES}, 1)
  {
    hide Span;
    SpanNone(a);
    SpanNext(a, a);
    assert Tables(m0, d) + {} == Tables(m0, d);
    assert {} + {a / NPTENTRIES} == {a / NPTENTRIES};
  }

  lemma LimboGood(mem: Memory, free: seq<nat>, mem': Memory, free': seq<nat>, d: nat, lo: nat, hi: nat, f: nat)
    requires Limbo(mem, free, mem', free', d, lo, hi, f)
    ensures Good(mem, free, d, lo, hi) && Good(mem', free', d, lo, hi)
  {
  }

  lemma OneAdded(a: nat, f: nat)
    ensures a < USERPAGES ==> Added(a, 1, f) == {f}
    ensures Added(a, 0, f) == {}
  {
    assert Added(a, 0, f) == {};
  }

  // f has been entered for page a.
  lemma LimboMapped(mem: Memory, free: seq<nat>, m1: Memory, f1: seq<nat>, m2: Memory, f2: seq<nat>, d: nat, lo: nat,
                    hi: nat, f: nat, a: nat, page: Page, perm: nat)
    requires Limbo(mem, free, m1, f1, d, lo, hi, f) && a < USERPAGES && perm < PGSIZE && m1[f] == page
    requires Stepped(m1, f1, m2, f2, d, lo, hi, Added(a, 1, f)) && PtesMapped(m1, m2, d, a, 1, f, perm)
    ensures Stepped(mem, free, m2, f2, d, lo, hi, {}) && EnteredAt(mem, m2, d, a, page, perm)
  {
    hide Pte, Slot, Owns;
    OneAdded(a, f);
    assert !Held(m1, f1, d, f) && m2[f] == page;
    forall q | 0 <= q < USERPAGES
      ensures KeptPage(mem, m2, d, q)
    {
      assert KeptPage(mem, m1, d, q) && KeptPage(m1, m2, d, q);
      assert Pte(m1, d, q) == Pte(mem, d, q);
    }
    assert MapsTo(f, a, a) == f && Pte(m2, d, a) == MakePte(f, perm);
    forall q | 0 <= q < NPAGES && q != a
      ensures Pte(m2, d, q) == Pte(mem, d, q)
    {
      assert Pte(m1, d, q) == Pte(mem, d, q);
    }
  }

  // f could not be entered.
  lemma LimboStep(mem: Memory, free: seq<nat>, m1: Memory, f1: seq<nat>, m2: Memory, f2: seq<nat>, d: nat, lo: nat,
                  hi: nat, f: nat, a: nat, perm: nat)
    requires Limbo(mem, free, m1, f1, d, lo, hi, f) && perm < PGSIZE
    requires Stepped(m1, f1, m2, f2, d, lo, hi, {}) && PtesMapped(m1, m2, d, a, 0, f, perm)
    ensures Limbo(mem, free, m2, f2, d, lo, hi, f)
  {
    hide Pte, Slot, Owns;
    forall q | 0 <= q < NPAGES
      ensures Pte(m2, d, q) == Pte(mem, d, q)
    {
      assert Pte(m1, d, q) == Pte(mem, d, q);
    }
    forall q | 0 <= q < USERPAGES
      ensures KeptPage(mem, m2, d, q)
    {
      assert KeptPage(mem, m1, d, q) && KeptPage(m1, m2, d, q);
      assert Pte(m1, d, q) == Pte(mem, d, q) && Pte(m2, d, q) == Pte(mem, d, q);
    }
  }

  lemma LimboOut(m0: Memory, f0: seq<nat>, m2: Memory, f2: seq<nat>, m3: Memory, f3: seq<nat>, d: nat, lo: nat, hi: nat,
                 f: nat)
    requires Limbo(m0, f0, m2, f2, d, lo, hi, f) && Stepped(m2, f2, m3, f3, d, lo, hi, {})
    ensures lo <= f < hi && !Held(m3, f3, d, f) && f !in f3
  {
    assert !Held(m2, f2, d, f);
  }

  // A page in limbo is given back: the whole is as if it had never been taken.
  lemma LimboFreed(m0: Memory, f0: seq<nat>, m2: Memory, f2: seq<nat>, m3: Memory, f3: seq<nat>, m4: Memory,
                   f4: seq<nat>, d: nat, lo: nat, hi: nat, f: nat)
    requires Limbo(m0, f0, m2, f2, d, lo, hi, f) && Stepped(m2, f2, m3, f3, d, lo, hi, {})
    requires |m4| == |m3| && (forall g :: 0 <= g < |m3| && g != f ==> m4[g] == m3[g]) && f4 == [f] + f3
    ensures Stepped(m0, f0, m4, f4, d, lo, hi, {}) && DirOk(m4, d) && DirOk(m3, d) && SamePtes(m3, m4, d)
  {
    LimboOut(m0, f0, m2, f2, m3, f3, d, lo, hi, f);
    UnownedWrite(m3, d, lo, hi, f, m4[f]);
    assert m3[f := m4[f]] == m4;
    SameTablesSamePte(m3, m4, d);
    SameTablesOk(m3, m4, d, lo, hi);
    hide Pte, Slot, Owns, SpaceOk, SameTables;
    forall q | 0 <= q < USERPAGES
      ensures KeptPage(m0, m4, d, q)
    {
      assert KeptPage(m0, m2, d, q) && KeptPage(m2, m3, d, q);
      assert Pte(m4, d, q) == Pte(m3, d, q) && Pte(m2, d, q) == Pte(m0, d, q);
      NotOwnedNotPage(m0, f0, d, lo, hi, f, q);
    }
  }

  lemma ClearedSame(m1: Memory, f1: seq<nat>, m2: Memory, f2: seq<nat>, m3: Memory, m4: Memory, d: nat, lo: nat,
                    hi: nat, f: nat, first: nat, end: nat)
    requires Limbo(m1, f1, m2, f2, d, lo, hi, f) && PtesCleared(m2, m3, d, first, end)
    requires DirOk(m3, d) && DirOk(m4, d) && SamePtes(m3, m4, d)
    ensures PtesCleared(m1, m4, d, first, end)
  {
    hide Pte;
    forall q | 0 <= q < NPAGES
      ensures Pte(m4, d, q) == if first <= q < end then 0 else Pte(m1, d, q)
    {
      assert Pte(m4, d, q) == Pte(m3, d, q) && Pte(m2, d, q) == Pte(m1, d, q);
    }
  }

  lemma EnteredGrown(m1: Memory, f1: seq<nat>, m2: Memory, f2: seq<nat>, d: nat, lo: nat, hi: nat, a: nat)
    requires EnteredAt(m1, m2, d, a, ZeroPage(), PTE_W + PTE_U)
    ensures Grown(m1, m2, d, a, a + 1)
  {
  }

  lemma NotOwnedNotPage(mem: Memory, free: seq<nat>, d: nat, lo: nat, hi: nat, f: nat, q: nat)
    requires Good(mem, free, d, lo, hi) && f in free && q < USERPAGES && f != 0
    ensures FrameOf(Pte(mem, d, q)) != f
  {
    SlotOfPage(mem, d, q);
  }

  lemma GrowThrough(m0: Memory, f0: seq<nat>, m1: Memory, f1: seq<nat>, m2: Memory, f2: seq<nat>, d: nat, lo: nat,
                    hi: nat, first: nat, a: nat, end: nat)
    requires Stepped(m0, f0, m1, f1, d, lo, hi, {}) && Grown(m0, m1, d, first, a) && first <= a < end <= USERPAGES
    requires Vacant(m0, d, first, a + 1)
    requires Stepped(m1, f1, m2, f2, d, lo, hi, {}) && Grown(m1, m2, d, a, a + 1)
    ensures Stepped(m0, f0, m2, f2, d, lo, hi, {}) && Grown(m0, m2, d, first, a + 1)
  {
    hide Pte, Slot, Owns, Held;
    forall q | 0 <= q < NPAGES
      ensures Pte(m0, d, q) != 0 ==> Pte(m1, d, q) == Pte(m0, d, q)
      ensures if first <= q < a + 1 then NewPage(m2, d, q) else Pte(m2, d, q) == Pte(m0, d, q)
    {
      assert Pte(m2, d, q) == Pte(m2, d, q) && Pte(m1, d, q) == Pte(m1, d, q) && Pte(m0, d, q) == Pte(m0, d, q);
      if first <= q < a {
        assert KeptPage(m1, m2, d, q);
      }
    }
    var none: set<nat> := {};
    SteppedTransitive(m0, f0, m1, f1, m2, f2, d, lo, hi, none, none);
    assert none + none == none;
  }

  // Clearing the range leaves nothing of what was new.
  lemma ShrunkBack(m0: Memory, f0: seq<nat>, m2: Memory, f2: seq<nat>, m3: Memory, f3: seq<nat>, d: nat, lo: nat,
                   hi: nat, first: nat, a: nat, end: nat)
    requires Stepped(m0, f0, m2, f2, d, lo, hi, {}) && Grown(m0, m2, d, first, a) && first <= a < end <= USERPAGES
    requires Stepped(m2, f2, m3, f3, d, lo, hi, {}) && PtesCleared(m2, m3, d, first, end)
    ensures Stepped(m0, f0, m3, f3, d, lo, hi, {}) && PtesCleared(m0, m3, d, first, end)
    ensures Vacant(m0, d, first, end) ==> SamePtes(m0, m3, d)
  {
    hide Pte, Slot, Owns, Held;
    forall q | 0 <= q < NPAGES
      ensures Pte(m0, d, q) != 0 && Pte(m3, d, q) == Pte(m0, d, q) ==> Pte(m2, d, q) == Pte(m0, d, q)
      ensures Pte(m3, d, q) == if first <= q < end then 0 else Pte(m0, d, q)
    {
      assert Pte(m3, d, q) == Pte(m3, d, q) && Pte(m2, d, q) == Pte(m2, d, q) && Pte(m0, d, q) == Pte(m0, d, q);
    }
    var none: set<nat> := {};
    SteppedTransitive(m0, f0, m2, f2, m3, f3, d, lo, hi, none, none);
    assert none + none == none;
  }

  // ----- the steps of freevm

  ghost predicate TableAmong(mem: Memory, d: nat, n: nat, f: nat)
    requires DirOk(mem, d) && n <= NPTENTRIES
  {
    f != 0 && exists i {:trigger Table(mem, d, i)} :: 0 <= i < n && Table(mem, d, i) == f
  }

  lemma FreeTablesStart(m0: Memory, f0: seq<nat>, m1: Memory, f1: seq<nat>, d: nat, lo: nat, hi: nat)
    requires Stepped(m0, f0, m1, f1, d, lo, hi, {})
    ensures Good(m1, f1, d, lo, hi) && DirOk(m1, d) && DirOk(m0, d) && d !in f1 && |m1| == |m0|
    ensures forall f: nat :: !TableAmong(m1, d, 0, f)
  {
    OwnedNotFree(m1, f1, d, lo, hi);
  }

  lemma FreeTableStep(m1: Memory, f1: seq<nat>, free: seq<nat>, d: nat, lo: nat, hi: nat, i: nat)
    requires Good(m1, f1, d, lo, hi) && DirOk(m1, d) && i < NPTENTRIES
    requires forall f: nat :: f in free <==> f in f1 || TableAmong(m1, d, i, f)
    ensures Present(m1[d][i]) ==> lo <= FrameOf(m1[d][i]) < hi && FrameOf(m1[d][i]) !in free && FrameOf(m1[d][i]) != d
    ensures Present(m1[d][i]) ==> Held(m1, f1, d, FrameOf(m1[d][i]))
    ensures forall f: nat ::
        TableAmong(m1, d, i + 1, f) <==> TableAmong(m1, d, i, f) || (Present(m1[d][i]) && f == FrameOf(m1[d][i]))
  {
    SlotOfTable(m1, d, i);
    assert Slot(m1, d, 0) == d;
    forall j | 0 <= j < i && Present(m1[d][i])
      ensures Table(m1, d, j) != Table(m1, d, i)
    {
      SlotOfTable(m1, d, j);
    }
  }

  lemma FreeVmEnd(m0: Memory, f0: seq<nat>, m1: Memory, f1: seq<nat>, free: seq<nat>, d: nat, lo: nat, hi: nat)
    requires Stepped(m0, f0, m1, f1, d, lo, hi, {}) && PtesCleared(m0, m1, d, 0, USERPAGES)
    requires forall f: nat :: f in free <==> f in f1 || TableAmong(m1, d, NPTENTRIES, f)
    ensures lo <= d < hi
    ensures forall f: nat :: Held(m0, f0, d, f) <==> f in free || f == d
    ensures forall f: nat :: Held(m1, f1, d, f) <==> Held(m0, f0, d, f)
    ensures forall f :: 0 <= f < |m0| && !Held(m0, f0, d, f) ==> m1[f] == m0[f]
  {
    assert Slot(m1, d, 0) == d;
    forall f: nat
      ensures Owns(m1, d, f) <==> TableAmong(m1, d, NPTENTRIES, f) || f == d
    {
      OwnedIsTable(m0, m1, d, f);
    }
  }

  lemma ClearedSlot(m0: Memory, m1: Memory, d: nat, k: nat)
    requires PtesCleared(m0, m1, d, 0, USERPAGES) && NPTENTRIES < k < NSLOTS
    ensures Slot(m1, d, k) == 0
  {
    assert Pte(m1, d, k - 1 - NPTENTRIES) == 0;
  }

  lemma OwnedIsTable(m0: Memory, m1: Memory, d: nat, f: nat)
    requires PtesCleared(m0, m1, d, 0, USERPAGES) && d != 0
    ensures Owns(m1, d, f) <==> TableAmong(m1, d, NPTENTRIES, f) || f == d
  {
    assert Slot(m1, d, 0) == d;
    if Owns(m1, d, f) && f != d {
      var k :| 0 <= k < NSLOTS && Slot(m1, d, k) == f;
      if k > NPTENTRIES {
        ClearedSlot(m0, m1, d, k);
      } else {
        assert Table(m1, d, k - 1) == f;
      }
    }
    if TableAmong(m1, d, NPTENTRIES, f) {
      var i :| 0 <= i < NPTENTRIES && Table(m1, d, i) == f;
      SlotOfTable(m1, d, i);
    }
  }

  // ----- the steps of setupkvm

  lemma FreshSpace(mem: Memory, f0: seq<nat>, free: seq<nat>, d: nat, lo: nat, hi: nat, kmap: seq<KMap>)
    requires f0 != [] && d == f0[0] && free == f0[1..] && d !in free && 0 < lo <= d < hi <= |mem| && KMapOk(kmap)
    ensures KernelSpace(mem[d := ZeroPage()], free, f0, d, lo, hi, kmap, 0) && d in f0
  {
    var m := mem[d := ZeroPage()];
    assert f0 == [d] + free;
    forall i | 0 <= i < NPTENTRIES
      ensures Table(m, d, i) == 0
    {
    }
    assert DirOk(m, d);
    forall q | 0 <= q < NPAGES
      ensures Pte(m, d, q) == 0
    {
      assert Table(m, d, q / NPTENTRIES) == 0;
    }
    forall k | 0 <= k < NSLOTS
      ensures Slot(m, d, k) == if k == 0 then d else 0
    {
    }
    assert Slot(m, d, 0) == d;
  }

  lemma FreshCount(mem: Memory, n0: nat, n: nat, d: nat, kmap: seq<KMap>)
    requires d < |mem| && n0 == n + 1
    ensures KernelCount(mem[d := ZeroPage()], n, n0, d, kmap, 0)
  {
    assert Tables(mem[d := ZeroPage()], d) == {};
  }

  lemma KernelCountNext(m1: Memory, n1: nat, n0: nat, mem: Memory, n: nat, d: nat, kmap: seq<KMap>, k: nat)
    requires KMapOk(kmap) && k < |kmap| && KernelCount(m1, n1, n0, d, kmap, k)
    requires Counted(m1, n1, mem, n, d,
                     Span(kmap[k].virt / PGSIZE, (kmap[k].virt + kmap[k].size - 1) / PGSIZE + 1), 0)
    ensures KernelCount(mem, n, n0, d, kmap, k + 1)
  {
  }

  lemma {:induction false} KTablesGrow(kmap: seq<KMap>, j: nat, k: nat)
    requires j <= k <= |kmap|
    ensures KTables(kmap, j) <= KTables(kmap, k)
  {
    if j < k {
      KTablesGrow(kmap, j, k - 1);
    }
  }

  lemma KernelFails(m1: Memory, n1: nat, n0: nat, mem: Memory, d: nat, kmap: seq<KMap>, k: nat, first: nat, n: nat,
                    last: nat)
    requires k < |kmap| && KernelCount(m1, n1, n0, d, kmap, k)
    requires KTables(kmap, k + 1) == KTables(kmap, k) + Span(first, last + 1)
    requires first + n <= last < NPAGES && Counted(m1, n1, mem, 0, d, Span(first, first + n), 0)
    requires Table(mem, d, (first + n) / NPTENTRIES) == 0
    ensures n0 < 1 + |KTables(kmap, |kmap|)|
  {
    hide KTables, Counted, KernelCount, Span, Tables;
    KernelLeft(m1, n1, n0, mem, d, kmap, k, first, n);
    KTablesGrow(kmap, k + 1, |kmap|);
    KTablesLack(KTables(kmap, k), KTables(kmap, k + 1), first, first + n, last + 1);
    SizeMonotone(KTables(kmap, k + 1), KTables(kmap, |kmap|));
  }

  lemma KTablesNext(kmap: seq<KMap>, k: nat)
    requires k < |kmap| && KMapOk(kmap)
    ensures KTables(kmap, k + 1) ==
            KTables(kmap, k) + Span(kmap[k].virt / PGSIZE, (kmap[k].virt + kmap[k].size - 1) / PGSIZE + 1)
  {
  }

  lemma KernelLeft(m1: Memory, n1: nat, n0: nat, mem: Memory, d: nat, kmap: seq<KMap>, k: nat, first: nat, n: nat)
    requires KernelCount(m1, n1, n0, d, kmap, k) && Counted(m1, n1, mem, 0, d, Span(first, first + n), 0)
    requires first + n < NPAGES && Table(mem, d, (first + n) / NPTENTRIES) == 0
    ensures k <= |kmap| && n0 == 1 + |KTables(kmap, k) + Span(first, first + n)|
    ensures (first + n) / NPTENTRIES !in KTables(kmap, k) + Span(first, first + n)
  {
    hide KTables, Span;
  }

  lemma KTablesLack(s: set<nat>, t: set<nat>, first: nat, a: nat, end: nat)
    requires t == s + Span(first, end) && first <= a < end && a < NPAGES && a / NPTENTRIES !in s + Span(first, a)
    ensures |s + Span(first, a)| < |t|
  {
    SpanWithin(first, a, end);
    hide Span;
    SizeLess(s + Span(first, a), t, a / NPTENTRIES);
  }

  lemma KernelCounted(mem: Memory, n: nat, n0: nat, d: nat, kmap: seq<KMap>)
    requires KernelCount(mem, n, n0, d, kmap, |kmap|)
    ensures 1 + |KTables(kmap, |kmap|)| <= n0
  {
  }

  lemma KernelMayMap(mem: Memory, free: seq<nat>, f0: seq<nat>, d: nat, lo: nat, hi: nat, kmap: seq<KMap>, k: nat)
    requires KernelSpace(mem, free, f0, d, lo, hi, kmap, k) && k < |kmap|
    ensures KMapRow(kmap[k]) && Good(mem, free, d, lo, hi)
    ensures MayMap(mem, free, d, lo, hi, kmap[k].virt / PGSIZE, (kmap[k].virt + kmap[k].size - 1) / PGSIZE,
                   kmap[k].phys / PGSIZE)
    ensures Vacant(mem, d, kmap[k].virt / PGSIZE, (kmap[k].virt + kmap[k].size - 1) / PGSIZE + 1)
  {
    forall q | kmap[k].virt / PGSIZE <= q <= (kmap[k].virt + kmap[k].size - 1) / PGSIZE && q < NPAGES
      ensures Pte(mem, d, q) == 0
    {
      RowsBefore(kmap, k, k, q);
      assert Pte(mem, d, q) == KPte(kmap, k, q);
    }
  }

  lemma {:induction false} NoneAdded(first: nat, n: nat, frame: nat)
    requires first >= USERPAGES
    ensures Added(first, n, frame) == {}
  {
    if n > 0 {
      NoneAdded(first, n - 1, frame);
    }
  }

  lemma KernelMapped(m1: Memory, f1: seq<nat>, mem: Memory, free: seq<nat>, f0: seq<nat>, d: nat, lo: nat, hi: nat,
                     kmap: seq<KMap>, k: nat, n: nat)
    requires KernelSpace(m1, f1, f0, d, lo, hi, kmap, k) && k < |kmap|
    requires var r := kmap[k];
             && Stepped(m1, f1, mem, free, d, lo, hi, Added(r.virt / PGSIZE, n, r.phys / PGSIZE))
             && PtesMapped(m1, mem, d, r.virt / PGSIZE, n, r.phys / PGSIZE, r.perm)
             && n <= (r.virt + r.size - 1) / PGSIZE + 1 - r.virt / PGSIZE
    ensures Good(mem, free, d, lo, hi) && DirOk(mem, d) && |mem| == |m1|
    ensures forall f: nat :: Held(mem, free, d, f) <==> f in f0
    ensures forall f :: 0 <= f < |mem| && f !in f0 ==> mem[f] == m1[f]
    ensures n == (kmap[k].virt + kmap[k].size - 1) / PGSIZE + 1 - kmap[k].virt / PGSIZE ==>
        KernelSpace(mem, free, f0, d, lo, hi, kmap, k + 1)
  {
    var r := kmap[k];
    NoneAdded(r.virt / PGSIZE, n, r.phys / PGSIZE);
    hide Pte, SpaceOk, Owns, Slot;
    KernelSpaceDir(m1, f1, f0, mem, free, d, lo, hi, kmap, k);
    forall f: nat | f !in f0
      ensures !Held(m1, f1, d, f)
    {
    }
    if n == (r.virt + r.size - 1) / PGSIZE + 1 - r.virt / PGSIZE {
      forall q | 0 <= q < NPAGES
        ensures Pte(mem, d, q) == KPte(kmap, k + 1, q)
      {
        assert Pte(m1, d, q) == KPte(kmap, k, q);
      }
    }
  }

  lemma KernelSpaceDir(m1: Memory, f1: seq<nat>, f0: seq<nat>, mem: Memory, free: seq<nat>, d: nat, lo: nat, hi: nat,
                       kmap: seq<KMap>, k: nat)
    requires KernelSpace(m1, f1, f0, d, lo, hi, kmap, k) && Good(mem, free, d, lo, hi)
    ensures DirOk(m1, d) && DirOk(mem, d)
  {
  }

  lemma {:induction false} RowsBefore(kmap: seq<KMap>, k: nat, n: nat, q: nat)
    requires KMapOk(kmap) && n <= k < |kmap| && InRow(kmap[k], q)
    ensures KPte(kmap, n, q) == 0
  {
    if n > 0 {
      RowsBefore(kmap, k, n - 1, q);
      assert !InRow(kmap[n - 1], q);
    }
  }

  // ----- the steps of copyuvm

  lemma FreeFromHeld(mem: Memory, free: seq<nat>, f0: seq<nat>, d: nat)
    requires DirOk(mem, d) && forall f: nat :: Held(mem, free, d, f) <==> f in f0
    ensures forall f: nat :: f in free ==> f in f0
  {
  }

  // A space none of whose pages was free in f0 is as it was.
  lemma Untouched(m0: Memory, f0: seq<nat>, mem: Memory, free: seq<nat>, s: nat, lo: nat, hi: nat)
    requires Good(m0, f0, s, lo, hi) && |mem| == |m0| && (forall f :: 0 <= f < |mem| && f !in f0 ==> mem[f] == m0[f])
    requires forall f: nat :: f in free ==> f in f0
    ensures Good(mem, free, s, lo, hi) && DirOk(m0, s) && DirOk(mem, s) && SamePtes(m0, mem, s) && DataSame(m0, mem, s)
  {
    assert Slot(m0, s, 0) == s;
    forall i | 0 <= i < NPTENTRIES && Table(m0, s, i) != 0
      ensures Table(m0, s, i) !in f0
    {
      SlotOfTable(m0, s, i);
    }
    assert SameTables(m0, mem, s);
    SameTablesSamePte(m0, mem, s);
    SameTablesOk(m0, mem, s, lo, hi);
    forall q | 0 <= q < USERPAGES
      ensures KeptPage(m0, mem, s, q)
    {
      SlotOfPage(m0, s, q);
    }
  }

  lemma CopyStart(m0: Memory, f0: seq<nat>, mem: Memory, free: seq<nat>, s: nat, d: nat, lo: nat, hi: nat,
                  kmap: seq<KMap>)
    requires Good(m0, f0, s, lo, hi) && Good(mem, free, d, lo, hi) && KMapOk(kmap)
    requires forall q {:trigger Pte(mem, d, q)} :: 0 <= q < NPAGES ==> Pte(mem, d, q) == KPte(kmap, |kmap|, q)
    ensures Copied(m0, s, mem, d, 0, kmap) && DirOk(mem, d) && AllMapped(m0, s, 0)
  {
  }

  lemma CopySource(m0: Memory, f0: seq<nat>, mem: Memory, free: seq<nat>, s: nat, d: nat, lo: nat, hi: nat, i: nat,
                   kmap: seq<KMap>)
    requires Good(m0, f0, s, lo, hi) && Good(mem, free, s, lo, hi) && SamePtes(m0, mem, s) && DataSame(m0, mem, s)
    requires Copied(m0, s, mem, d, i, kmap) && i < USERPAGES
    ensures var e := Pte(mem, s, i);
            && e == Pte(m0, s, i) && Pte(mem, d, i) == 0
            && (e != 0 ==>
                  Table(mem, s, i / NPTENTRIES) != 0 && 0 < FrameOf(e) < |mem| && mem[FrameOf(e)] == m0[FrameOf(e)])
  {
    SlotOfPage(m0, s, i);
    assert KeptPage(m0, mem, s, i);
    assert Pte(mem, s, i) == Pte(m0, s, i) && Pte(mem, d, i) == KPte(kmap, |kmap|, i);
  }

  lemma MappedMore(m0: Memory, s: nat, i: nat, end: nat)
    requires AllMapped(m0, s, i) && i < end <= USERPAGES
    ensures Pte(m0, s, i) != 0 ==> AllMapped(m0, s, i + 1)
    ensures Pte(m0, s, i) == 0 ==> !AllMapped(m0, s, end)
  {
  }

  lemma TableMissing(mem: Memory, d: nat, p: nat)
    requires DirOk(mem, d) && p < NPAGES && Table(mem, d, p / NPTENTRIES) == 0
    ensures Pte(mem, d, p) == 0
  {
  }

  // What the child took came from f0, whether it keeps it or has given it back.
  lemma CopyUndone(m0: Memory, f0: seq<nat>, m1: Memory, f1: seq<nat>, mem: Memory, free: seq<nat>, d: nat, lo: nat,
                   hi: nat)
    requires Stepped(m1, f1, mem, free, d, lo, hi, {}) && |m0| == |m1| && DirOk(m1, d)
    requires forall f: nat :: Held(m1, f1, d, f) <==> f in f0
    requires forall f :: 0 <= f < |m1| && f !in f0 ==> m1[f] == m0[f]
    ensures Good(mem, free, d, lo, hi) && |mem| == |m0| && DirOk(mem, d)
    ensures forall f: nat :: Held(mem, free, d, f) <==> f in f0
    ensures forall f :: 0 <= f < |mem| && f !in f0 ==> mem[f] == m0[f]
  {
  }

  lemma CopyOne(m0: Memory, f0: seq<nat>, m1: Memory, f1: seq<nat>, mem: Memory, free: seq<nat>, s: nat, d: nat,
                lo: nat, hi: nat, i: nat, kmap: seq<KMap>, e: nat)
    requires Copied(m0, s, m1, d, i, kmap) && i < USERPAGES && e == Pte(m0, s, i) != 0 && Present(e)
    requires FrameOf(e) < |m0|
    requires Stepped(m1, f1, mem, free, d, lo, hi, {}) && EnteredAt(m1, mem, d, i, m0[FrameOf(e)], FlagsOf(e))
    ensures Copied(m0, s, mem, d, i + 1, kmap)
  {
    hide Pte, Slot, Owns, Held, KPte;
    FlagsKept(e);
    forall q | 0 <= q < NPAGES
      ensures if q < i + 1 then CopiedPage(m0, s, mem, d, q) else Pte(mem, d, q) == KPte(kmap, |kmap|, q)
    {
      assert Pte(m1, d, q) == Pte(m1, d, q) && Pte(mem, d, q) == Pte(mem, d, q);
      if q < i {
        assert KeptPage(m1, mem, d, q);
      }
    }
  }

  // ----- what a child needs

  /** A child of n pages needs a directory, the kernel's tables, its pages, and a table for every 1024 of these. */
  lemma ChildNeedsIs(kmap: seq<KMap>, n: nat)
    requires KMapOk(kmap) && n <= USERPAGES
    ensures ChildNeeds(kmap, n) == 1 + |KTables(kmap, |kmap|)| + n + (n + NPTENTRIES - 1) / NPTENTRIES
  {
    KernelTables(kmap, |kmap|);
    NeedFromStart(KTables(kmap, |kmap|), n);
  }

  lemma {:induction false} KernelTables(kmap: seq<KMap>, k: nat)
    requires KMapOk(kmap) && k <= |kmap|
    ensures forall i :: i in KTables(kmap, k) ==> i * NPTENTRIES >= USERPAGES
  {
    if k > 0 {
      KernelTables(kmap, k - 1);
      assert KMapRow(kmap[k - 1]);
      assert kmap[k - 1].virt / PGSIZE / NPTENTRIES * NPTENTRIES >= USERPAGES;
    }
  }

  lemma ChildNeedsMore(kmap: seq<KMap>, a: nat, b: nat)
    requires a <= b
    ensures ChildNeeds(kmap, a) + (b - a) <= ChildNeeds(kmap, b)
    ensures 1 + |KTables(kmap, |kmap|)| <= ChildNeeds(kmap, a)
  {
    NeedGrows(KTables(kmap, |kmap|), 0, a, b);
    NeedGrows(KTables(kmap, |kmap|), 0, 0, a);
    NeedNone(KTables(kmap, |kmap|), 0);
  }

  lemma ChildNone(n0: nat, kmap: seq<KMap>, n: nat)
    requires n0 < 1 + |KTables(kmap, |kmap|)|
    ensures forall q: nat :: n0 < ChildNeeds(kmap, q)
  {
    forall q: nat
      ensures n0 < ChildNeeds(kmap, q)
    {
      ChildNeedsMore(kmap, q, q);
    }
  }

  lemma ChildStart(mem: Memory, n: nat, n0: nat, d: nat, kmap: seq<KMap>)
    requires KernelCount(mem, n, n0, d, kmap, |kmap|)
    ensures ChildCount(mem, n, n0, d, kmap, 0)
  {
    SpanNone(0);
    NeedNone(KTables(kmap, |kmap|), 0);
    assert KTables(kmap, |kmap|) + {} == KTables(kmap, |kmap|);
  }

  lemma ChildCountNext(m1: Memory, n1: nat, n0: nat, mem: Memory, n: nat, d: nat, kmap: seq<KMap>, q: nat)
    requires ChildCount(m1, n1, n0, d, kmap, q) && q < NPAGES && Counted(m1, n1, mem, n, d, {q / NPTENTRIES}, 1)
    ensures ChildCount(mem, n, n0, d, kmap, q + 1)
  {
    var have := KTables(kmap, |kmap|);
    SpanNext(0, q);
    NeedNext(have, 0, q);
    assert (have + Span(0, q)) + {q / NPTENTRIES} == have + Span(0, q + 1);
    SizeWith(have + Span(0, q), q / NPTENTRIES);
  }

  lemma OneMissing(m0: Memory, s: nat, n: nat, a: nat, q: nat)
    requires FirstMissing(m0, s, n, q) && AllMapped(m0, s, a)
    ensures a <= q && !AllMapped(m0, s, n)
  {
  }

  lemma ChildEnds(m0: Memory, n0: nat, mem: Memory, n: nat, s: nat, d: nat, kmap: seq<KMap>, end: nat)
    requires AllMapped(m0, s, end) && ChildCount(mem, n, n0, d, kmap, end)
    ensures ChildNeeds(kmap, end) <= n0 && forall q :: !FirstMissing(m0, s, end, q)
  {
    forall q: nat
      ensures !FirstMissing(m0, s, end, q)
    {
      if FirstMissing(m0, s, end, q) {
        OneMissing(m0, s, end, end, q);
      }
    }
  }

  lemma ChildStops(m0: Memory, n0: nat, m1: Memory, n1: nat, s: nat, d: nat, kmap: seq<KMap>, q: nat, end: nat)
    requires AllMapped(m0, s, q) && q < end <= NPAGES && Pte(m0, s, q) == 0 && ChildCount(m1, n1, n0, d, kmap, q)
    ensures FirstMissing(m0, s, end, q) && ChildNeeds(kmap, q) <= n0 && !AllMapped(m0, s, end)
  {
  }

  lemma ChildFails(m0: Memory, n0: nat, m1: Memory, n1: nat, s: nat, d: nat, kmap: seq<KMap>, a: nat, end: nat)
    requires AllMapped(m0, s, a) && a < end <= NPAGES && Pte(m0, s, a) != 0 && ChildCount(m1, n1, n0, d, kmap, a)
    requires n1 == 0 || (n1 == 1 && a / NPTENTRIES !in Tables(m1, d))
    ensures n0 < ChildNeeds(kmap, end)
    ensures forall q :: FirstMissing(m0, s, end, q) ==> n0 < ChildNeeds(kmap, q)
  {
    NeedNext(KTables(kmap, |kmap|), 0, a);
    assert n0 < ChildNeeds(kmap, a + 1);
    ChildNeedsMore(kmap, a + 1, end);
    hide ChildNeeds, ChildCount;
    forall q: nat | FirstMissing(m0, s, end, q)
      ensures n0 < ChildNeeds(kmap, q)
    {
      OneMissing(m0, s, end, a, q);
      if q == a {
        assert false;
      }
      ChildNeedsMore(kmap, a + 1, q);
    }
  }

  lemma FlagsKept(e: nat)
    requires Present(e)
    ensures FlagsOf(MakePte(0, FlagsOf(e))) == FlagsOf(e)
  {
    assert FlagsOf(e) % 2 == 1 by {
      assert e == FrameOf(e) * PGSIZE + FlagsOf(e);
    }
  }
}
