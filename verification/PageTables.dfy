/** Two-level page tables in physical memory (vm.c): what they map, which frames they own, and what the
    elementary updates do to both. Frames and pages are numbered; a frame holds 1024 words. */
module PageTables {
  const PGSIZE: nat := 4096
  const NPTENTRIES: nat := 1024
  const NPAGES: nat := 0x100000
  const USERPAGES: nat := 0x80000    // KERNBASE / PGSIZE
  const PTE_P: nat := 1
  const PTE_W: nat := 2
  const PTE_U: nat := 4

  type Page = p: seq<nat> | |p| == NPTENTRIES witness seq(NPTENTRIES, i => 0)
  type Memory = seq<Page>

  function ZeroPage(): Page {
    seq(NPTENTRIES, i => 0)
  }

  predicate Present(e: nat) {
    e % 2 == 1
  }

  function FrameOf(e: nat): nat {
    e / PGSIZE
  }

  function FlagsOf(e: nat): nat {
    e % PGSIZE
  }

  // pa | perm | PTE_P for a page-aligned pa.
  function MakePte(frame: nat, perm: nat): (e: nat)
    requires perm < PGSIZE
    ensures Present(e) && FrameOf(e) == frame && FlagsOf(e) == perm - perm % 2 + 1
  {
    frame * PGSIZE + (perm - perm % 2 + 1)
  }

  // The frame of the i-th page table, 0 for none.
  function Table(mem: Memory, d: nat, i: nat): nat
    requires d < |mem| && i < NPTENTRIES
  {
    if Present(mem[d][i]) then FrameOf(mem[d][i]) else 0
  }

  ghost predicate DirOk(mem: Memory, d: nat) {
    d < |mem| && forall i :: 0 <= i < NPTENTRIES ==>
        Table(mem, d, i) < |mem| && (Present(mem[d][i]) ==> Table(mem, d, i) != 0)
  }

  // The entry for page p, 0 when the page is not mapped.
  function Pte(mem: Memory, d: nat, p: nat): nat
    requires DirOk(mem, d) && p < NPAGES
  {
    var t := Table(mem, d, p / NPTENTRIES);
    if t == 0 || !Present(mem[t][p % NPTENTRIES]) then 0 else mem[t][p % NPTENTRIES]
  }

  // ----- the frames an address space owns

  // One slot for the directory, one for each page table, one for each user page.
  const NSLOTS: nat := 1 + NPTENTRIES + USERPAGES

  function Slot(mem: Memory, d: nat, k: nat): nat
    requires DirOk(mem, d) && k < NSLOTS
  {
    if k == 0 then d
    else if k <= NPTENTRIES then Table(mem, d, k - 1)
    else FrameOf(Pte(mem, d, k - 1 - NPTENTRIES))
  }

  function TableSlot(i: nat): nat {
    1 + i
  }

  function PageSlot(p: nat): nat {
    1 + NPTENTRIES + p
  }

  ghost predicate Owns(mem: Memory, d: nat, f: nat)
    requires DirOk(mem, d)
  {
    f != 0 && exists k {:trigger Slot(mem, d, k)} :: 0 <= k < NSLOTS && Slot(mem, d, k) == f
  }

  // Every frame owned is one the allocator hands out, and is owned once.
  ghost predicate SpaceOk(mem: Memory, d: nat, lo: nat, hi: nat) {
    && DirOk(mem, d) && 0 < lo && hi <= |mem|
    && (forall k {:trigger Slot(mem, d, k)} :: 0 <= k < NSLOTS && Slot(mem, d, k) != 0 ==> lo <= Slot(mem, d, k) < hi)
    && (forall k, l {:trigger Slot(mem, d, k), Slot(mem, d, l)} :: 0 <= k < NSLOTS && 0 <= l < NSLOTS ==>
          Slot(mem, d, k) == Slot(mem, d, l) != 0 ==> k == l)
    && (forall p {:trigger Pte(mem, d, p)} :: 0 <= p < USERPAGES && Pte(mem, d, p) != 0 ==>
          FrameOf(Pte(mem, d, p)) != 0)
    && d != 0
  }

  // ----- what an update of one slot keeps

  // The slots are the same but for slot j, which goes from was to now.
  ghost predicate SlotSet(mem: Memory, mem': Memory, d: nat, j: nat, f: nat) {
    && DirOk(mem, d) && DirOk(mem', d) && j < NSLOTS && |mem'| == |mem|
    && (forall k {:trigger Slot(mem', d, k)} {:trigger Slot(mem, d, k)} :: 0 <= k < NSLOTS ==>
          Slot(mem', d, k) == if k == j then f else Slot(mem, d, k))
  }

  lemma SlotSetOwns(mem: Memory, mem': Memory, d: nat, j: nat, f: nat, lo: nat, hi: nat, g: nat)
    requires SpaceOk(mem, d, lo, hi) && SlotSet(mem, mem', d, j, f) && (f == 0 || !Owns(mem, d, f))
    ensures Owns(mem', d, g) <==> (Owns(mem, d, g) && g != Slot(mem, d, j)) || (g == f != 0)
  {
    if Owns(mem, d, g) && g != Slot(mem, d, j) {
      var k :| 0 <= k < NSLOTS && Slot(mem, d, k) == g;
      assert Slot(mem', d, k) == g;
    }
    if g == f != 0 {
      assert Slot(mem', d, j) == g;
    }
    if Owns(mem', d, g) {
      var k :| 0 <= k < NSLOTS && Slot(mem', d, k) == g;
      if k != j {
        assert Slot(mem, d, k) == g;
      }
    }
  }

  lemma SlotSetOk(mem: Memory, mem': Memory, d: nat, j: nat, f: nat, lo: nat, hi: nat)
    requires SpaceOk(mem, d, lo, hi) && SlotSet(mem, mem', d, j, f) && j != 0
    requires f == 0 || (lo <= f < hi && !Owns(mem, d, f))
    requires forall p {:trigger Pte(mem', d, p)} :: 0 <= p < USERPAGES && Pte(mem', d, p) != 0 ==>
        FrameOf(Pte(mem', d, p)) != 0
    ensures SpaceOk(mem', d, lo, hi)
  {
    hide Slot;
  }

  // ----- the updates

  // The directory and the tables are as they were.
  ghost predicate SameTables(mem: Memory, mem': Memory, d: nat)
    requires DirOk(mem, d)
  {
    && |mem'| == |mem| && mem'[d] == mem[d]
    && (forall i {:trigger Table(mem, d, i)} :: 0 <= i < NPTENTRIES && Table(mem, d, i) != 0 ==>
          mem'[Table(mem, d, i)] == mem[Table(mem, d, i)])
  }

  lemma SameTablesSamePte(mem: Memory, mem': Memory, d: nat)
    requires DirOk(mem, d) && SameTables(mem, mem', d)
    ensures DirOk(mem', d)
    ensures forall p {:trigger Pte(mem', d, p)} {:trigger Pte(mem, d, p)} :: 0 <= p < NPAGES ==>
        Pte(mem', d, p) == Pte(mem, d, p)
    ensures forall k {:trigger Slot(mem', d, k)} {:trigger Slot(mem, d, k)} :: 0 <= k < NSLOTS ==>
        Slot(mem', d, k) == Slot(mem, d, k)
    ensures forall i {:trigger Table(mem', d, i)} :: 0 <= i < NPTENTRIES ==> Table(mem', d, i) == Table(mem, d, i)
  {
    forall i | 0 <= i < NPTENTRIES
      ensures Table(mem', d, i) == Table(mem, d, i)
    {
    }
  }

  lemma SameTablesOk(mem: Memory, mem': Memory, d: nat, lo: nat, hi: nat)
    requires SpaceOk(mem, d, lo, hi) && SameTables(mem, mem', d)
    ensures SpaceOk(mem', d, lo, hi)
    ensures forall f: nat :: Owns(mem', d, f) <==> Owns(mem, d, f)
  {
    SameTablesSamePte(mem, mem', d);
    hide Slot, Pte, SameTables;
    forall f: nat | Owns(mem, d, f)
      ensures Owns(mem', d, f)
    {
      var k :| 0 <= k < NSLOTS && Slot(mem, d, k) == f;
      assert Slot(mem', d, k) == f;
    }
    forall f: nat | Owns(mem', d, f)
      ensures Owns(mem, d, f)
    {
      var k :| 0 <= k < NSLOTS && Slot(mem', d, k) == f;
      assert Slot(mem, d, k) == f;
    }
  }

  // Frames the space does not own, and its user frames, may be written without disturbing the tables.
  lemma UnownedWrite(mem: Memory, d: nat, lo: nat, hi: nat, f: nat, page: Page)
    requires SpaceOk(mem, d, lo, hi) && f < |mem| && !Owns(mem, d, f)
    ensures SameTables(mem, mem[f := page], d)
  {
    assert Slot(mem, d, 0) == d;
    forall i | 0 <= i < NPTENTRIES && Table(mem, d, i) != 0
      ensures Table(mem, d, i) != f
    {
      assert Slot(mem, d, TableSlot(i)) == Table(mem, d, i);
    }
  }

  // walkpgdir with alloc: f becomes the table for directory entry i.
  function WithTable(mem: Memory, d: nat, i: nat, f: nat): (mem': Memory)
    requires d < |mem| && f < |mem| && i < NPTENTRIES
    ensures |mem'| == |mem|
  {
    var mem1 := mem[f := ZeroPage()];
    mem1[d := mem1[d][i := MakePte(f, PTE_W + PTE_U)]]
  }

  lemma WithTableTables(mem: Memory, d: nat, i: nat, f: nat, lo: nat, hi: nat)
    requires SpaceOk(mem, d, lo, hi) && i < NPTENTRIES && Table(mem, d, i) == 0
    requires lo <= f < hi && !Owns(mem, d, f)
    ensures var mem' := WithTable(mem, d, i, f);
            && DirOk(mem', d)
            && (forall j {:trigger Table(mem', d, j)} :: 0 <= j < NPTENTRIES ==>
                  Table(mem', d, j) == if j == i then f else Table(mem, d, j))
            && mem'[f] == ZeroPage() && f != d
            && (forall g :: 0 <= g < |mem| && g != f && g != d ==> mem'[g] == mem[g])
  {
    assert Slot(mem, d, 0) == d;
    var mem' := WithTable(mem, d, i, f);
    forall j | 0 <= j < NPTENTRIES
      ensures Table(mem', d, j) == if j == i then f else Table(mem, d, j)
    {
    }
  }

  lemma WithTablePtes(mem: Memory, d: nat, i: nat, f: nat, lo: nat, hi: nat)
    requires SpaceOk(mem, d, lo, hi) && i < NPTENTRIES && Table(mem, d, i) == 0
    requires lo <= f < hi && !Owns(mem, d, f)
    ensures var mem' := WithTable(mem, d, i, f);
            && DirOk(mem', d)
            && (forall p {:trigger Pte(mem', d, p)} {:trigger Pte(mem, d, p)} :: 0 <= p < NPAGES ==>
                  Pte(mem', d, p) == Pte(mem, d, p))
            && SlotSet(mem, mem', d, TableSlot(i), f)
  {
    var mem' := WithTable(mem, d, i, f);
    WithTableTables(mem, d, i, f, lo, hi);
    assert Slot(mem, d, 0) == d;
    forall p | 0 <= p < NPAGES
      ensures Pte(mem', d, p) == Pte(mem, d, p)
    {
      var j := p / NPTENTRIES;
      if j != i {
        assert Slot(mem, d, TableSlot(j)) == Table(mem, d, j);
        assert Table(mem', d, j) == Table(mem, d, j);
      }
    }
  }

  // An entry of the table for page p is written.
  function WithPte(mem: Memory, d: nat, p: nat, e: nat): (mem': Memory)
    requires DirOk(mem, d) && p < NPAGES && Table(mem, d, p / NPTENTRIES) != 0
    ensures |mem'| == |mem|
  {
    var t := Table(mem, d, p / NPTENTRIES);
    mem[t := mem[t][p % NPTENTRIES := e]]
  }

  lemma WithPteTables(mem: Memory, d: nat, p: nat, e: nat, lo: nat, hi: nat)
    requires SpaceOk(mem, d, lo, hi) && p < NPAGES && Table(mem, d, p / NPTENTRIES) != 0
    ensures var mem' := WithPte(mem, d, p, e);
            && DirOk(mem', d) && mem'[d] == mem[d]
            && (forall j {:trigger Table(mem', d, j)} :: 0 <= j < NPTENTRIES ==> Table(mem', d, j) == Table(mem, d, j))
  {
    var t := Table(mem, d, p / NPTENTRIES);
    assert Slot(mem, d, 0) == d && Slot(mem, d, TableSlot(p / NPTENTRIES)) == t;
    var mem' := WithPte(mem, d, p, e);
    forall j | 0 <= j < NPTENTRIES
      ensures Table(mem', d, j) == Table(mem, d, j)
    {
    }
  }

  lemma WithPtePtes(mem: Memory, d: nat, p: nat, e: nat, lo: nat, hi: nat)
    requires SpaceOk(mem, d, lo, hi) && p < NPAGES && Table(mem, d, p / NPTENTRIES) != 0 && (e == 0 || Present(e))
    ensures var mem' := WithPte(mem, d, p, e);
            && DirOk(mem', d)
            && (forall q {:trigger Pte(mem', d, q)} {:trigger Pte(mem, d, q)} :: 0 <= q < NPAGES ==>
                  Pte(mem', d, q) == if q == p then e else Pte(mem, d, q))
            && (if p < USERPAGES then SlotSet(mem, mem', d, PageSlot(p), FrameOf(e)) else SlotSet(mem, mem', d, 0, d))
  {
    var mem' := WithPte(mem, d, p, e);
    WithPteTables(mem, d, p, e, lo, hi);
    forall q | 0 <= q < NPAGES
      ensures Pte(mem', d, q) == if q == p then e else Pte(mem, d, q)
    {
      SamePage(p, q);
      var i, j := p / NPTENTRIES, q / NPTENTRIES;
      assert Table(mem', d, j) == Table(mem, d, j);
      assert Slot(mem, d, TableSlot(i)) == Table(mem, d, i) && Slot(mem, d, TableSlot(j)) == Table(mem, d, j);
    }
  }

  lemma SamePage(p: nat, q: nat)
    ensures p / NPTENTRIES == q / NPTENTRIES && p % NPTENTRIES == q % NPTENTRIES ==> p == q
  {
  }
}
