/** Swapping as the source runs it (pageswap.c, and kalloc.c of the same tree): victims, slots, the swap area, the
    allocator that swaps, and the page fault. Every method that returns Fine leaves what all processes see unchanged. */
module SwapCode {
  import opened Blocks
  import opened Swap
  import opened SwapBudget

  // Out: the kernel swaps a page out. Access: process p, running, uses its page q.
  datatype Event = Out | Access(p: nat, q: nat)

  // Page q of process p, if it is in use and has such a page, is resident.
  ghost predicate NowResident(s: Sys, p: nat, q: nat) {
    && DiskOk(s.disk) && |s.slots| == NSWAPSLOTS
    && (p < |s.procs| && s.procs[p].used && q < USERPAGES && Look(s, p, q).Seen? ==> Present(EntryAt(s.procs, p, q)))
  }

  lemma ReachedResident(s: Sys, s': Sys, p: nat, q: nat)
    requires SameViews(s, s') && Reached(s.procs, s'.procs, p, q)
    ensures NowResident(s', p, q)
  {
    if p < |s.procs| && q < USERPAGES {
      assert Look(s', p, q) == Look(s, p, q);
    }
  }

  // The page accessed, if there is one, is resident and marked as accessed or has just been brought in.
  ghost predicate Reached(before: seq<Proc>, after: seq<Proc>, p: nat, q: nat) {
    |after| == |before| && (p < |before| && after[p].used && q < USERPAGES ==>
      var e := EntryAt(before, p, q);
      Present(e) || IsSwapped(e) ==>
        Present(EntryAt(after, p, q)) && (Present(e) ==> Accessed(EntryAt(after, p, q))))
  }

  function FreeSlots(slots: seq<SwapSlot>): nat {
    if slots == [] then 0 else (if slots[0].isFree then 1 else 0) + FreeSlots(slots[1..])
  }

  lemma {:induction false} FreeSlotsSome(slots: seq<SwapSlot>)
    ensures FreeSlots(slots) > 0 <==> HasFree(slots)
  {
    if slots != [] {
      FreeSlotsSome(slots[1..]);
      if HasFree(slots) && !slots[0].isFree {
        var j :| 0 <= j < |slots| && slots[j].isFree;
        assert slots[1..][j - 1].isFree;
      }
      if HasFree(slots[1..]) {
        var j :| 0 <= j < |slots[1..]| && slots[1..][j].isFree;
        assert slots[j + 1].isFree;
      }
    }
  }

  lemma {:induction false} FreeSlotsChanged(slots: seq<SwapSlot>, k: nat, slot: SwapSlot)
    requires k < |slots|
    ensures FreeSlots(slots[k := slot]) ==
            FreeSlots(slots) + (if slot.isFree then 1 else 0) - if slots[k].isFree then 1 else 0
  {
    var changed := slots[k := slot];
    if k > 0 {
      FreeSlotsChanged(slots[1..], k - 1, slot);
      assert changed[1..] == slots[1..][k - 1 := slot];
    } else {
      assert changed[1..] == slots[1..];
    }
  }

  // The page table after the accessed bits of the resident pages below stop have been cleared.
  ghost predicate Cleared(was: map<nat, nat>, pt: map<nat, nat>, stop: nat) {
    forall t {:trigger EntryOf(pt, t)} :: 0 <= t ==>
      EntryOf(pt, t) == if t < stop && Present(EntryOf(was, t)) then ClearAccessed(EntryOf(was, t)) else EntryOf(was, t)
  }

  // The second-chance choice: the first resident page not accessed, or, when all are, the first resident page.
  ghost predicate IsVictimPage(pt: map<nat, nat>, q: nat) {
    && q < USERPAGES && Present(EntryOf(pt, q))
    && (if Accessed(EntryOf(pt, q)) then
          (forall t {:trigger EntryOf(pt, t)} :: 0 <= t < USERPAGES && Present(EntryOf(pt, t)) ==>
              Accessed(EntryOf(pt, t)) && q <= t)
        else
          (forall t {:trigger EntryOf(pt, t)} :: 0 <= t < q && Present(EntryOf(pt, t)) ==> Accessed(EntryOf(pt, t))))
  }

  // swap_out moved the victim's victim page.
  ghost predicate Moved(procs: seq<Proc>, procs': seq<Proc>, v: nat, q: nat) {
    && |procs'| == |procs| && IsVictim(Tallies(procs), |procs|, v) && IsVictimPage(procs[v].pt, q)
    && IsSwapped(EntryAt(procs', v, q)) && procs'[v].rss == procs[v].rss - 1
  }

  // What k swap-outs do to the counters and the slots.
  ghost predicate AfterSwaps(procs: seq<Proc>, slots: seq<SwapSlot>, k: nat, procs': seq<Proc>, slots': seq<SwapSlot>) {
    Tallies(procs') == AfterOuts(Tallies(procs), k) && FreeSlots(slots') == FreeSlots(slots) - k
  }

  // And with a page of process p brought in after them.
  ghost predicate AfterFault(procs: seq<Proc>, slots: seq<SwapSlot>, k: nat, p: nat, procs': seq<Proc>,
                             slots': seq<SwapSlot>)
    requires p < |procs|
  {
    Tallies(procs') == Gained(AfterOuts(Tallies(procs), k), p) && FreeSlots(slots') == FreeSlots(slots) - k + 1
  }

  lemma NoSwaps(procs: seq<Proc>, slots: seq<SwapSlot>)
    ensures AfterSwaps(procs, slots, 0, procs, slots)
    ensures OutcomeOf(Tallies(procs), FreeSlots(slots), 0) == Fine
  {
  }

  // The first n events are swap-outs.
  predicate OutsOnly(events: seq<Event>, n: nat)
    requires n <= |events|
  {
    forall i :: 0 <= i < n ==> events[i].Out?
  }

  // One swap-out after i of them.
  lemma OutsOnlyStep(events: seq<Event>, ts: seq<Tally>, n: nat, i: nat, procs0: seq<Proc>, slots0: seq<SwapSlot>,
                     procs: seq<Proc>, slots: seq<SwapSlot>)
    requires i < |events| && ts == Tallies(procs0) && n == FreeSlots(slots0)
    requires OutsOnly(events, i) ==> OutcomeOf(ts, n, i) == Fine && AfterSwaps(procs0, slots0, i, procs, slots)
    ensures OutsOnly(events, i + 1) ==>
              && i <= n && OutcomeOf(Tallies(procs), FreeSlots(slots), 1) == OutcomeOf(ts, n, i + 1)
              && AfterOuts(ts, i + 1) == AfterOuts(Tallies(procs), 1)
    ensures OutsOnly(events, |events|) && OutcomeOf(Tallies(procs), FreeSlots(slots), 1) != Fine ==>
              OutcomeOf(ts, n, |events|) == OutcomeOf(Tallies(procs), FreeSlots(slots), 1)
  {
    if OutsOnly(events, i) {
      OutsInTurn(ts, n, i, 1);
      OutsInTurn(ts, n, i, |events| - i);
      if OutcomeOf(Tallies(procs), FreeSlots(slots), 1) != Fine {
        OutcomeLater(Tallies(procs), FreeSlots(slots), |events| - i);
      }
    }
  }

  lemma StartBudget(ts: seq<Tally>, n: nat, cap: nat)
    ensures CountersTrue(ts) ==> InBudget(ts, n, ts, n, 0, cap)
  {
  }

  lemma CountStays(found0: seq<int>, short0: int, found: seq<int>, short: int)
    requires Counted(found0, short0, found, short)
    ensures found0 <= found && (short0 == 0 ==> (short == 0 <==> 0 !in found[|found0|..]))
  {
    if short0 == 0 {
      CountStaysRight(found0, found, short);
    }
  }

  lemma PageAddress(q: nat)
    ensures q * PGSIZE / PGSIZE == q
  {
  }

  // Swapped entries stay where they are, and loose frames stay loose.
  ghost predicate Steady(s: Sys, s': Sys) {
    && |s'.procs| == |s.procs|
    && (forall p, q {:trigger EntryAt(s'.procs, p, q)} ::
          0 <= p < |s.procs| && 0 <= q < USERPAGES && IsSwapped(EntryAt(s.procs, p, q)) ==>
          EntryAt(s'.procs, p, q) == EntryAt(s.procs, p, q))
    && (forall f {:trigger Loose(s', f)} :: 0 <= f && Loose(s, f) ==> Loose(s', f))
  }

  lemma SteadyTransitive(s: Sys, s1: Sys, s2: Sys)
    requires Steady(s, s1) && Steady(s1, s2)
    ensures Steady(s, s2)
  {
    hide EntryAt, Loose;
    forall p, q | 0 <= p < |s.procs| && 0 <= q < USERPAGES && IsSwapped(EntryAt(s.procs, p, q))
      ensures EntryAt(s2.procs, p, q) == EntryAt(s.procs, p, q)
    {
      assert EntryAt(s1.procs, p, q) == EntryAt(s.procs, p, q);
    }
    forall f: nat | Loose(s, f)
      ensures Loose(s2, f)
    {
      assert Loose(s1, f);
    }
  }

  // What a step that goes well keeps.
  ghost predicate Unseen(s: Sys, s': Sys) {
    Inv(s') && SameViews(s, s') && Steady(s, s')
  }

  lemma UnseenTransitive(s: Sys, s1: Sys, s2: Sys)
    requires Unseen(s, s1) && Unseen(s1, s2)
    ensures Unseen(s, s2)
  {
    SameViewsTransitive(s, s1, s2);
    SteadyTransitive(s, s1, s2);
  }

  lemma UnseenStill(s: Sys)
    requires Inv(s)
    ensures Unseen(s, s)
  {
  }

  // The scan for a victim page changes accessed bits only.
  lemma ClearKeeps(s: Sys, v: nat, pt: map<nat, nat>, stop: nat)
    requires Inv(s) && v < |s.procs| && Cleared(s.procs[v].pt, pt, stop)
    ensures Unseen(s, s.(procs := s.procs[v := s.procs[v].(pt := pt)]))
  {
    var s' := s.(procs := s.procs[v := s.procs[v].(pt := pt)]);
    forall p, q | 0 <= p < |s.procs| && 0 <= q < USERPAGES
      ensures SameEntry(EntryAt(s.procs, p, q), EntryAt(s'.procs, p, q))
    {
      ClearAccessedKeeps(EntryAt(s.procs, p, q));
    }
    hide Cleared, EntryAt, Present, IsSwapped, Perm, Addr, ClearAccessed;
    ClearKeepsFrames(s, s');
    ClearKeepsSlots(s, s');
    forall p, q | 0 <= p < |s.procs| && 0 <= q < USERPAGES
      ensures Look(s', p, q) == Look(s, p, q)
    {
      assert SameEntry(EntryAt(s.procs, p, q), EntryAt(s'.procs, p, q));
    }
  }

  // The same but for the accessed bit, and that only of a resident page.
  predicate SameEntry(e: nat, c: nat) {
    && Present(c) == Present(e) && IsSwapped(c) == IsSwapped(e) && Perm(c) == Perm(e) && Addr(c) == Addr(e)
    && (!Present(e) ==> c == e)
  }

  ghost predicate SameEntries(s: Sys, s': Sys) {
    && |s'.procs| == |s.procs|
    && (forall p, q {:trigger EntryAt(s'.procs, p, q)} :: 0 <= p < |s.procs| && 0 <= q < USERPAGES ==>
          SameEntry(EntryAt(s.procs, p, q), EntryAt(s'.procs, p, q)))
  }

  lemma ClearKeepsFrames(s: Sys, s': Sys)
    requires FramesOk(s) && SameEntries(s, s') && s' == s.(procs := s'.procs)
    ensures FramesOk(s')
    ensures forall f: nat :: Loose(s, f) ==> Loose(s', f)
  {
    hide EntryAt, Present, IsSwapped, Perm, Addr;
  }

  lemma ClearKeepsSlots(s: Sys, s': Sys)
    requires SlotsOk(s) && SameEntries(s, s') && s' == s.(procs := s'.procs)
    ensures SlotsOk(s')
    ensures forall p, q {:trigger EntryAt(s'.procs, p, q)} ::
        0 <= p < |s.procs| && 0 <= q < USERPAGES && IsSwapped(EntryAt(s.procs, p, q)) ==>
              EntryAt(s'.procs, p, q) == EntryAt(s.procs, p, q)
  {
    hide EntryAt, Present, IsSwapped, Perm, Addr, PageAt;
    forall k | 0 <= k < NSWAPSLOTS && !s'.slots[k].isFree
      ensures Named(s'.procs, k)
    {
      assert s.slots[k] == s'.slots[k];
      var p, q :| 0 <= p < |s.procs| && 0 <= q < USERPAGES && IsSwapped(EntryAt(s.procs, p, q))
           && Addr(EntryAt(s.procs, p, q)) == k;
      assert SameEntry(EntryAt(s.procs, p, q), EntryAt(s'.procs, p, q));
    }
  }

  lemma SwapOutUnseen(s: Sys, v: nat, q: nat)
    requires Inv(s) && v < |s.procs| && q < USERPAGES && Present(EntryAt(s.procs, v, q)) && HasFree(s.slots)
    ensures Unseen(s, SwappedOut(s, v, q)) && FreeSlots(SwappedOut(s, v, q).slots) == FreeSlots(s.slots) - 1
  {
    var s' := SwappedOut(s, v, q);
    SwapOutKeeps(s, v, q);
    FreeSlotsChanged(s.slots, AllocSlot(s.slots, 0), SwapSlot(Perm(EntryAt(s.procs, v, q)), false));
    forall p, t | 0 <= p < |s.procs| && 0 <= t < USERPAGES
      ensures EntryAt(s'.procs, p, t) ==
              if p == v && t == q then SwapEntry(AllocSlot(s.slots, 0)) else EntryAt(s.procs, p, t)
    {
      SwappedOutEntries(s, v, q, p, t);
    }
    assert !IsSwapped(EntryAt(s.procs, v, q));
    hide EntryAt, IsSwapped, Perm, AllocSlot, WithPage, SwapEntry;
    forall f: nat | Loose(s, f)
      ensures Loose(s', f)
    {
      assert Addr(EntryAt(s.procs, v, q)) != f;
    }
  }

  // kalloc's first page, filled with junk.
  lemma PopKeeps(s: Sys)
    requires Inv(s) && s.free != [] && s.free[0] < |s.mem|
    ensures var s' := s.(free := s.free[1..], mem := s.mem[s.free[0] := Filled(5)], freePages := s.freePages - 1);
            Unseen(s, s') && Loose(s', s.free[0])
  {
    var f := s.free[0];
    assert f in s.free;
    var s' := s.(free := s.free[1..], mem := s.mem[f := Filled(5)], freePages := s.freePages - 1);
    hide Perm, Addr, Present, IsSwapped, EntryAt, PageAt;
    assert forall i :: 0 <= i < |s'.free| ==> s'.free[i] == s.free[i + 1];
    assert f !in s'.free;
    assert forall g :: g in s'.free ==> g in s.free;
    assert FramesOk(s');
    forall p, q | 0 <= p < |s.procs| && 0 <= q < USERPAGES
      ensures Look(s', p, q) == Look(s, p, q)
    {
      assert Present(EntryAt(s.procs, p, q)) ==> Addr(EntryAt(s.procs, p, q)) !in s.free;
    }
    forall g: nat | Loose(s, g)
      ensures Loose(s', g)
    {
    }
  }

  class SwapSystem {
    var procs: seq<Proc>
    var mem: seq<PageData>
    var free: seq<nat>
    var freePages: int
    var slots: seq<SwapSlot>
    var disk: Disk
    var th: nat
    var npg: nat
    ghost var found: seq<int>    // what each kfree found in freePages, in turn

    ghost function Value(): Sys
      reads this
    {
      Sys(procs, mem, free, freePages, slots, disk)
    }

    ghost predicate Valid()
      reads this
    {
      Inv(Value())
    }

    // By how much the count falls short of the free pages.
    ghost function Short(): int
      reads this
    {
      |free| - freePages
    }

    // swap_init: all slots free, before anything is swapped.
    constructor (procs: seq<Proc>, mem: seq<PageData>, free: seq<nat>, disk: Disk)
      requires FramesOk(Sys(procs, mem, free, |free|, [], disk)) && DiskOk(disk)
      requires forall p, q {:trigger EntryAt(procs, p, q)} :: 0 <= p < |procs| && 0 <= q < USERPAGES ==>
          !IsSwapped(EntryAt(procs, p, q))
      ensures Valid() && this.procs == procs && this.mem == mem && this.free == free && this.disk == disk
      ensures FreeSlots(slots) == NSWAPSLOTS && Short() == 0 && found == [] && Pace(th, npg) == Pace(100, 4)
    {
      found := [];
      this.procs, this.mem, this.free, this.disk := procs, mem, free, disk;
      freePages, th, npg := |free|, 100, 4;
      slots := seq(NSWAPSLOTS, i => SwapSlot(0, true));
      new;
      AllFree(slots);
    }

    /** find_victim_process: by the counters kept, the process with the most pages, then the lowest pid. */
    method FindVictimProcess() returns (victim: int)
      ensures victim == Victim(Tallies(procs), |procs|)
      ensures victim >= 0 ==> IsVictim(Tallies(procs), |procs|, victim)
      ensures victim == -1 <==> forall p {:trigger procs[p]} :: 0 <= p < |procs| && procs[p].used ==> procs[p].rss <= -1
    {
      hide Resident;
      ghost var ts := Tallies(procs);
      victim := -1;
      var maxRss := -1;
      var p := 0;
      while p < |procs|
        invariant 0 <= p <= |procs| && victim == Victim(ts, p)
        invariant maxRss == if victim < 0 then -1 else procs[victim].rss
      {
        assert ts[p] == TallyOf(procs[p]);
        assert victim >= 0 ==> ts[victim] == TallyOf(procs[victim]);
        if procs[p].used && procs[p].rss > maxRss {
          maxRss, victim := procs[p].rss, p;
        } else if procs[p].used && procs[p].rss == maxRss {
          if victim >= 0 && procs[p].pid < procs[victim].pid {
            victim := p;
          }
        }
        p := p + 1;
      }
      VictimIs(ts, |procs|);
      assert forall r :: 0 <= r < |procs| ==> ts[r] == TallyOf(procs[r]);
    }

    /** find_victim_page: the first resident page not accessed since the last scan,
        clearing accessed bits on the way. */
    method FindVictimPage(v: nat) returns (q: int)
      requires Valid() && v < |procs|
      modifies this`procs
      ensures Valid() && Unseen(old(Value()), Value())
      ensures procs == old(procs)[v := old(procs)[v].(pt := procs[v].pt)] && Tallies(procs) == Tallies(old(procs))
      ensures q >= 0 ==> IsVictimPage(old(procs[v].pt), q) && Present(EntryAt(procs, v, q))
      ensures q < 0 <==> TallyOf(old(procs[v])).resident == 0
    {
      hide Inv, Unseen, ClearAccessed, Resident;
      ghost var s0, was := Value(), procs[v].pt;
      ResidentSome(was);
      var fallback := -1;
      var va := 0;
      while va < USERPAGES
        invariant 0 <= va <= USERPAGES && |procs| == |s0.procs| && Value() == s0.(procs := procs)
        invariant procs == s0.procs[v := s0.procs[v].(pt := procs[v].pt)] && Cleared(was, procs[v].pt, va)
        invariant forall t {:trigger EntryOf(was, t)} ::
                    0 <= t < va && Present(EntryOf(was, t)) ==> Accessed(EntryOf(was, t))
        invariant -1 <= fallback < va
        invariant fallback >= 0 ==> Present(EntryOf(was, fallback)) && forall t {:trigger EntryOf(was, t)} ::
                    0 <= t < va && Present(EntryOf(was, t)) ==> fallback <= t
        invariant fallback == -1 ==> forall t {:trigger EntryOf(was, t)} :: 0 <= t < va ==> !Present(EntryOf(was, t))
      {
        var pte := EntryOf(procs[v].pt, va);
        assert pte == EntryOf(was, va);
        ClearAccessedKeeps(pte);
        if Present(pte) {
          if !Accessed(pte) {
            PageFound(s0, v, procs[v].pt, va);
            return va;
          }
          if fallback == -1 {
            fallback := va;
          }
          ClearOne(was, procs[v].pt, va);
          procs := procs[v := procs[v].(pt := procs[v].pt[va := ClearAccessed(pte)])];
        } else {
          ClearNone(was, procs[v].pt, va);
        }
        va := va + 1;
      }
      PageFound(s0, v, procs[v].pt, USERPAGES);
      if fallback >= 0 {
        ClearAccessedKeeps(EntryOf(was, fallback));
      }
      q := fallback;
    }

    // swap_alloc, with its exhaustion test as written.
    method SwapAlloc(perm: nat) returns (k: int)
      requires |slots| == NSWAPSLOTS
      modifies this`slots
      ensures k == AllocSlot(old(slots), 0)
      ensures slots == if HasFree(old(slots)) then old(slots)[k := SwapSlot(perm, false)] else old(slots)
    {
      k := 0;
      var i := 0;
      while i < NSWAPSLOTS
        invariant 0 <= i <= NSWAPSLOTS && k == 0 && slots == old(slots)
        invariant AllocSlot(slots, 0) == AllocSlot(slots, i) && forall j :: 0 <= j < i ==> !slots[j].isFree
      {
        if slots[i].isFree {
          slots := slots[i := SwapSlot(perm, false)];
          k := i;
          break;
        }
        i := i + 1;
      }
      if i == NSWAPBLOCKS {
        k := -1;
      }
    }

    method SwapWrite(slot: nat, page: PageData)
      requires slot < NSWAPSLOTS && DiskOk(disk)
      modifies this`disk
      ensures disk == WithPage(old(disk), slot, page)
    {
      var start := 2 + slot * BLOCKS_PER_PAGE;
      SlotsDisjoint(slot, slot, 0, 0);
      var i := 0;
      while i < BLOCKS_PER_PAGE
        invariant 0 <= i <= BLOCKS_PER_PAGE && |disk| == |old(disk)|
        invariant forall b :: 0 <= b < |disk| ==>
            disk[b] == if start <= b < start + i then Chunk(page, b - start) else old(disk)[b]
      {
        SlotsDisjoint(slot, slot, i, i);
        disk := disk[start + i := page[i * BSIZE..(i + 1) * BSIZE]];
        i := i + 1;
      }
    }

    method SwapRead(slot: nat, f: nat)
      requires slot < NSWAPSLOTS && DiskOk(disk) && f < |mem|
      modifies this`mem
      ensures mem == old(mem)[f := PageAt(disk, slot)]
    {
      var start := 2 + slot * BLOCKS_PER_PAGE;
      var i := 0;
      while i < BLOCKS_PER_PAGE
        invariant 0 <= i <= BLOCKS_PER_PAGE && |mem| == |old(mem)| && mem == old(mem)[f := mem[f]]
        invariant mem[f][..i * BSIZE] == PageAt(disk, slot)[..i * BSIZE]
      {
        SlotsDisjoint(slot, slot, i, i);
        ghost var was := mem[f];
        mem := mem[f := Patch(mem[f], i, disk[start + i])];
        ReadStep(disk, slot, was, i);
        i := i + 1;
      }
      assert mem[f][..PGSIZE] == mem[f] && PageAt(disk, slot)[..PGSIZE] == PageAt(disk, slot);
    }

    method SwapFree(slot: nat) returns (ok: bool)
      requires |slots| == NSWAPSLOTS
      modifies this`slots
      ensures ok <==> slot < NSWAPSLOTS
      ensures slots == if ok then old(slots)[slot := SwapSlot(0, true)] else old(slots)
    {
      if slot >= NSWAPSLOTS {
        return false;
      }
      slots := slots[slot := SwapSlot(0, true)];
      ok := true;
    }

    /** kfree: a count that was right stays right exactly when it was not 0. */
    method Kfree(f: nat)
      requires f < |mem|
      modifies this`mem, this`free, this`freePages, this`found
      ensures mem == old(mem)[f := Filled(1)] && free == [f] + old(free) && freePages == KfreeCount(old(freePages))
      ensures found == old(found) + [old(freePages)]
      ensures old(Short()) == 0 ==> (Short() == 0 <==> old(free) != [])
    {
      found := found + [freePages];
      mem := mem[f := Filled(1)];
      free := [f] + free;
      if freePages != 0 {
        freePages := freePages + 1;
      }
    }

    /** swap_out: no process can tell, as long as a slot is free. It panics exactly when there is no victim or the
        victim has no page, and otherwise shares slot 0 exactly when no slot is free. */
    method SwapOut() returns (r: Outcome)
      requires Valid()
      modifies this
      ensures r == OutcomeOf(Tallies(old(procs)), FreeSlots(old(slots)), 1)
      ensures r == Panicked <==> !CanOut(Tallies(old(procs)))
      ensures r == Fine ==> Unseen(old(Value()), Value()) && AfterSwaps(old(procs), old(slots), 1, procs, slots)
      ensures r == Fine ==> exists v, q :: Moved(old(procs), procs, v, q)
      ensures r == Fine ==> |free| == |old(free)| + 1 && freePages == KfreeCount(old(freePages))
      ensures th == old(th) && npg == old(npg) && Counted(old(found), old(Short()), found, Short())
    {
      hide Inv, Unseen, IsVictim, IsVictimPage, SlotsOk, FramesOk, Present, Perm, IsSwapped, WithPage;
      hide Resident, Victim, Counted, AfterOuts, OutcomeOf, Tallies;
      ghost var s0 := Value();
      InvFacts(s0);
      FreeSlotsSome(slots);
      OneOut(Tallies(procs), FreeSlots(slots));
      CountedNone(found, Short());
      CountedOne(found, Short(), freePages);
      var v := FindVictimProcess();
      if v < 0 {
        return Panicked;
      }
      TallyAt(procs, v);
      var q := FindVictimPage(v);
      if q < 0 {
        return Panicked;
      }
      ghost var s1 := Value();
      InvFacts(s1);
      UnseenInv(s0, s1);
      VictimFacts(s1, v, q, old(procs[v].pt));
      var inTime := HasFree(slots);
      TakeOut(v, q);
      if inTime {
        SwapOutUnseen(s1, v, q);
        UnseenTransitive(s0, s1, Value());
        SwappedOutEntries(s1, v, q, v, q);
        assert Moved(s0.procs, procs, v, q);
        OutTallies(s1, v, q);
      }
      r := if inTime then Fine else Full;
    }

    // The rest of swap_out, for the victim's page.
    method TakeOut(v: nat, q: nat)
      requires v < |procs| && |slots| == NSWAPSLOTS && DiskOk(disk) && AllocSlot(slots, 0) < NSWAPSLOTS
      requires Addr(EntryAt(procs, v, q)) < |mem|
      modifies this`procs, this`mem, this`free, this`freePages, this`slots, this`disk, this`found
      ensures Value() == SwappedOut(old(Value()), v, q) && found == old(found) + [old(freePages)]
    {
      hide WithPage, Perm, HasFree, AllocSlot;
      var pte := EntryOf(procs[v].pt, q);
      var f, perm := Addr(pte), Perm(pte);
      var slot := SwapAlloc(perm);
      SwapWrite(slot, mem[f]);
      procs := procs[v := procs[v].(pt := procs[v].pt[q := slot * PGSIZE + PTE_SWAP])];
      Kfree(f);
      procs := procs[v := procs[v].(ms := procs[v].ms - PGSIZE)];
      procs := procs[v := procs[v].(rss := procs[v].rss - 1)];
    }

    /** adaptive_swap: npg pages are swapped out when fewer than th are counted free. */
    method AdaptiveSwap() returns (r: Outcome)
      requires Valid()
      modifies this
      ensures r == OutcomeOf(Tallies(old(procs)), FreeSlots(old(slots)), Outs(old(freePages), old(th), old(npg)))
      ensures r == Fine ==> Unseen(old(Value()), Value())
      ensures r == Fine ==> AfterSwaps(old(procs), old(slots), Outs(old(freePages), old(th), old(npg)), procs, slots)
      ensures npg <= Cap(old(npg)) && Counted(old(found), old(Short()), found, Short())
      ensures old(freePages) >= old(th) ==> Value() == old(Value())
      ensures Pace(th, npg) ==
        if r == Fine && old(freePages) < old(th) then NextPace(Pace(old(th), old(npg))) else Pace(old(th), old(npg))
    {
      hide Inv, Unseen, Resident, Counted, CanOut;
      UnseenStill(Value());
      CountedNone(found, Short());
      r := Fine;
      if freePages < th {
        ghost var ts, n := Tallies(procs), FreeSlots(slots);
        var i := 0;
        while i < npg
          invariant 0 <= i <= npg == old(npg) && Valid() && Unseen(old(Value()), Value()) && th == old(th)
          invariant OutcomeOf(ts, n, i) == Fine && AfterSwaps(old(procs), old(slots), i, procs, slots)
          invariant Counted(old(found), old(Short()), found, Short())
        {
          ghost var s1, f1, m1 := Value(), found, Short();
          OutsInTurn(ts, n, i, 1);
          OutsInTurn(ts, n, i, npg - i);
          r := SwapOut();
          CountedTransitive(old(found), old(Short()), f1, m1, found, Short());
          if r != Fine {
            OutcomeLater(AfterOuts(ts, i), n - i, npg - i);
            return;
          }
          UnseenInv(s1, Value());
          UnseenTransitive(old(Value()), s1, Value());
          i := i + 1;
        }
        r := Fine;
        th := th - th * BETA / 100;
        npg := npg + npg * ALPHA / 100;
        if npg > LIMIT {
          npg := LIMIT;
        }
      }
    }

    // The first free page, when there is one.
    method Pop() returns (f: nat)
      requires Valid() && free != []
      modifies this`free, this`mem, this`freePages
      ensures Unseen(old(Value()), Value()) && Loose(Value(), f)
      ensures |free| == |old(free)| - 1 && freePages == old(freePages) - 1 && f < |mem| && mem[f] == Filled(5)
    {
      assert free[0] in free;
      PopKeeps(Value());
      f := free[0];
      free := free[1..];
      mem := mem[f := Filled(5)];
      freePages := freePages - 1;
    }

    /** kalloc: a page nobody else has; swapping as it sees fit, which nobody notices. It fails as the swap-outs it
        needs do. */
    method Kalloc() returns (r: Outcome, f: nat)
      requires Valid()
      modifies this
      ensures r == OutcomeOf(Tallies(old(procs)), FreeSlots(old(slots)), Needed(old(Value()), old(th), old(npg)))
      ensures r == Fine ==> Unseen(old(Value()), Value()) && Loose(Value(), f)
      ensures r == Fine ==> AfterSwaps(old(procs), old(slots), Needed(old(Value()), old(th), old(npg)), procs, slots)
      ensures Pace(th, npg) ==
        if r == Fine && 0 < CountLeft(old(Value())) < old(th) then NextPace(Pace(old(th), old(npg)))
        else Pace(old(th), old(npg))
      ensures npg <= Cap(old(npg)) && Counted(old(found), old(Short()), found, Short())
    {
      hide Inv, Unseen, Loose, Resident, Counted, CanOut, AfterOuts;
      ghost var s0, f0, m0 := Value(), found, Short();
      ghost var ts, n, more := Tallies(procs), FreeSlots(slots), Needed(s0, th, npg);
      NoSwaps(procs, slots);
      UnseenStill(s0);
      CountedNone(found, Short());
      f := 0;
      ghost var first := 0;
      if free == [] {
        first := 1;
        r := SwapOut();
        if r != Fine {
          OutcomeLater(ts, n, more);
          return;
        }
        UnseenInv(s0, Value());
      }
      ghost var s1 := Value();
      f := Pop();
      ghost var s2, f2 := Value(), found;
      UnseenInv(s1, s2);
      UnseenTransitive(s0, s1, s2);
      OutsInTurn(ts, n, first, more - first);
      r := Fine;
      if freePages > 0 {
        r := AdaptiveSwap();
        CountedTransitive(f0, m0, f2, |s2.free| - s2.freePages, found, Short());
        if r == Fine {
          UnseenInv(s2, Value());
          UnseenTransitive(s0, s2, Value());
          StillLoose(s2, Value(), f);
        }
      }
    }

    /** handle_pgfault: the page is resident again with the bytes and permissions it had, and nothing else is seen
        to change, whatever kalloc swapped out meanwhile. It fails on a page that is not swapped, and as kalloc does. */
    method HandlePgfault(p: nat, va: nat) returns (r: Outcome)
      requires Valid() && p < |procs| && va / PGSIZE < USERPAGES
      modifies this
      ensures r == if !IsSwapped(old(EntryAt(procs, p, va / PGSIZE))) then Panicked else
                   OutcomeOf(Tallies(old(procs)), FreeSlots(old(slots)), Needed(old(Value()), old(th), old(npg)))
      ensures r == Fine ==> Valid() && SameViews(old(Value()), Value())
      ensures r == Fine ==> Present(EntryAt(procs, p, va / PGSIZE))
      ensures r == Fine ==> slots[Addr(old(EntryAt(procs, p, va / PGSIZE)))].isFree
      ensures r == Fine ==> AfterFault(old(procs), old(slots), Needed(old(Value()), old(th), old(npg)), p, procs, slots)
      ensures npg <= Cap(old(npg)) && Counted(old(found), old(Short()), found, Short())
    {
      hide Inv, Unseen, Loose, SlotsOk, FramesOk, Resident, Counted, AfterOuts;
      ghost var s0 := Value();
      CountedNone(found, Short());
      var q := va / PGSIZE;
      var pte := EntryOf(procs[p].pt, q);
      if !IsSwapped(pte) {
        return Panicked;
      }
      var slot := Addr(pte);
      var f;
      r, f := Kalloc();
      if r != Fine {
        return;
      }
      ghost var s1 := Value();
      FaultFacts(s0, s1, p, q, f);
      BringIn(p, q, slot, f);
      SameViewsTransitive(s0, s1, Value());
    }

    // The rest of a fault: the page goes from its slot to frame f.
    method BringIn(p: nat, q: nat, slot: nat, f: nat)
      requires Valid() && p < |procs| && q < USERPAGES && Loose(Value(), f) && f < |mem|
      requires IsSwapped(EntryAt(procs, p, q)) && slot == Addr(EntryAt(procs, p, q)) < NSWAPSLOTS == |slots|
      requires DiskOk(disk) && slots[slot].pagePerm in {0, 2, 4, 6}
      modifies this`mem, this`procs, this`slots
      ensures Valid() && SameViews(old(Value()), Value())
      ensures |procs| == |old(procs)| && Present(EntryAt(procs, p, q)) && |slots| == NSWAPSLOTS && slots[slot].isFree
      ensures Tallies(procs) == Gained(Tallies(old(procs)), p) && FreeSlots(slots) == FreeSlots(old(slots)) + 1
    {
      hide Inv, Unseen, Loose, SlotsOk, FramesOk, Resident, Tallies;
      ghost var s1 := Value();
      SwapRead(slot, f);
      procs := procs[p := procs[p].(pt := procs[p].pt[q := f * PGSIZE + slots[slot].pagePerm + PTE_P])];
      var freed := SwapFree(slot);
      assert Value() == SwappedIn(s1, p, q, f);
      SwapInKeeps(s1, p, q, f);
      ghost var s2 := Value();
      procs := procs[p := procs[p].(ms := procs[p].ms + PGSIZE, rss := procs[p].rss + 1)];
      CountersUnseen(s2, Value());
      SameViewsTransitive(s1, s2, Value());
      InTallies(s1, p, q, f, procs);
      FreeSlotsChanged(s1.slots, slot, SwapSlot(0, true));
    }

    /** Over any run of swap-outs and accesses with their page faults that stays within pages and slots, no process
        sees a change. With true counters, a run can fail by sharing slot 0 only when there are more resident pages
        than free slots at its start, and by a panic only when there are not; it goes well when there are enough of
        both; and swap-outs alone go exactly as far as both last. The count of free pages falls behind by one for
        each kfree that found it at 0. */
    method Run(events: seq<Event>) returns (r: Outcome)
      requires Valid()
      modifies this
      ensures r == Fine ==> Valid() && SameViews(old(Value()), Value())
      ensures CountersTrue(Tallies(old(procs))) ==>
                && (r == Full ==> FreeSlots(old(slots)) < Total(Tallies(old(procs)), |old(procs)|))
                && (r == Panicked ==> Total(Tallies(old(procs)), |old(procs)|) <= FreeSlots(old(slots)))
                && (Lasts(|events|, Cap(old(npg)), Tallies(old(procs)), FreeSlots(old(slots))) ==> r == Fine)
      ensures r == Fine && events != [] && events[|events| - 1].Access? ==>
                NowResident(Value(), events[|events| - 1].p, events[|events| - 1].q)
      ensures OutsOnly(events, |events|) ==> r == OutcomeOf(Tallies(old(procs)), FreeSlots(old(slots)), |events|)
      ensures Counted(old(found), old(Short()), found, Short())
      ensures old(Short()) == 0 ==> (freePages == |free| <==> 0 !in found[|old(found)|..])
    {
      hide Inv, Unseen, Counted, CountersTrue, Total, AfterOuts, OutcomeOf, Resident;
      UnseenSame(Value());
      CountedNone(found, Short());
      ghost var v0, ts, n, cap := Value(), Tallies(procs), FreeSlots(slots), Cap(npg);
      StartBudget(ts, n, cap);
      NoSwaps(procs, slots);
      r := Fine;
      var i := 0;
      while i < |events|
        invariant 0 <= i <= |events| && Valid() && SameViews(v0, Value()) && npg <= cap
        invariant CountersTrue(ts) ==> InBudget(ts, n, Tallies(procs), FreeSlots(slots), i, cap)
        invariant OutsOnly(events, i) ==> OutcomeOf(ts, n, i) == Fine && AfterSwaps(v0.procs, v0.slots, i, procs, slots)
        invariant r == Fine && Counted(old(found), old(Short()), found, Short())
        invariant i > 0 && events[i - 1].Access? ==> NowResident(Value(), events[i - 1].p, events[i - 1].q)
        decreases |events| - i
      {
        ghost var s1, f1 := Value(), found;
        r := Step(events[i], ts, n, i, cap, |events|);
        CountedTransitive(old(found), old(Short()), f1, |s1.free| - s1.freePages, found, Short());
        OutsOnlyStep(events, ts, n, i, v0.procs, v0.slots, s1.procs, s1.slots);
        if r != Fine {
          CountStays(old(found), old(Short()), found, Short());
          return;
        }
        SameViewsTransitive(v0, s1, Value());
        if events[i].Access? {
          ReachedResident(s1, Value(), events[i].p, events[i].q);
        }
        i := i + 1;
      }
      CountStays(old(found), old(Short()), found, Short());
    }

    // One event of a run, i steps into a budget.
    method Step(event: Event, ghost ts: seq<Tally>, ghost n: nat, ghost i: nat, ghost cap: nat, ghost steps: nat)
      returns (r: Outcome)
      requires Valid() && npg <= cap && LIMIT <= cap && i < steps
      modifies this
      ensures npg <= cap && Counted(old(found), old(Short()), found, Short())
      ensures r == Fine ==> Valid() && SameViews(old(Value()), Value())
      ensures event.Access? && r == Fine ==> Reached(old(procs), procs, event.p, event.q)
      ensures event.Out? ==> r == OutcomeOf(Tallies(old(procs)), FreeSlots(old(slots)), 1)
      ensures event.Out? && r == Fine ==> AfterSwaps(old(procs), old(slots), 1, procs, slots)
      ensures InBudget(ts, n, Tallies(old(procs)), FreeSlots(old(slots)), i, cap) ==>
                && (r == Full ==> n < Total(ts, |ts|)) && (r == Panicked ==> Total(ts, |ts|) <= n)
                && (Lasts(steps, cap, ts, n) ==> r == Fine)
                && (r == Fine ==> InBudget(ts, n, Tallies(procs), FreeSlots(slots), i + 1, cap))
    {
      hide Inv, Unseen, Counted, InBudget, Total, AfterOuts, OutcomeOf, Resident, Present, IsSwapped;
      ghost var s1, now, left := Value(), Tallies(procs), FreeSlots(slots);
      ghost var fits := InBudget(ts, n, now, left, i, cap);
      UnseenSame(s1);
      CountedNone(found, Short());
      if fits {
        StepIdle(ts, n, now, left, i, cap);
      }
      r := Fine;
      match event {
      case Out =>
        if fits {
          StepFails(ts, n, now, left, i, cap, 1, steps);
        }
        r := SwapOut();
        if r == Fine {
          UnseenInv(s1, Value());
          if fits {
            StepOuts(ts, n, now, left, i, cap, 1);
          }
        }
      case Access(p, q) =>
        if p < |procs| && procs[p].used && q < USERPAGES {
          var pte := EntryOf(procs[p].pt, q);
          if Present(pte) {
            Touch(p, q);
          } else if IsSwapped(pte) {
            ghost var k := Needed(s1, th, npg);
            if fits {
              StepFails(ts, n, now, left, i, cap, k, steps);
            }
            PageAddress(q);
            r := HandlePgfault(p, q * PGSIZE);
            if r == Fine && fits {
              OutsKeepUsed(now, k, p);
              StepOuts(ts, n, now, left, i, cap, k);
              StepGains(ts, n, AfterOuts(now, k), left - k, i + 1, cap, p);
            }
          }
        }
      }
    }

    // The processor sets the accessed bit of a resident page.
    method Touch(p: nat, q: nat)
      requires Valid() && p < |procs| && q < USERPAGES && Present(EntryAt(procs, p, q))
      modifies this`procs
      ensures Valid() && SameViews(old(Value()), Value()) && Tallies(procs) == Tallies(old(procs))
      ensures Reached(old(procs), procs, p, q)
    {
      hide Inv, Unseen;
      UnseenSame(Value());
      var pte := EntryOf(procs[p].pt, q);
      if !Accessed(pte) {
        AccessMarks(pte);
        AccessKeeps(Value(), p, q);
        procs := procs[p := procs[p].(pt := procs[p].pt[q := pte + PTE_A])];
      }
    }
  }

  function Patch(page: PageData, i: nat, b: Block): PageData
    requires i < BLOCKS_PER_PAGE
  {
    page[..i * BSIZE] + b + page[(i + 1) * BSIZE..]
  }

  lemma ReadStep(disk: Disk, slot: nat, was: PageData, i: nat)
    requires DiskOk(disk) && slot < NSWAPSLOTS && i < BLOCKS_PER_PAGE
    requires was[..i * BSIZE] == PageAt(disk, slot)[..i * BSIZE]
    ensures SlotBlock(slot) + i < |disk|
    ensures Patch(was, i, disk[SlotBlock(slot) + i])[..(i + 1) * BSIZE] == PageAt(disk, slot)[..(i + 1) * BSIZE]
  {
    SlotsDisjoint(slot, slot, i, i);
    var page := Patch(was, i, disk[SlotBlock(slot) + i]);
    forall j | 0 <= j < (i + 1) * BSIZE
      ensures page[j] == PageAt(disk, slot)[j]
    {
      if j < i * BSIZE {
        assert was[..i * BSIZE][j] == PageAt(disk, slot)[..i * BSIZE][j];
      } else {
        assert j / BSIZE == i && j % BSIZE == j - i * BSIZE;
      }
    }
  }

  lemma {:induction false} AllFree(slots: seq<SwapSlot>)
    requires forall k :: 0 <= k < |slots| ==> slots[k].isFree
    ensures FreeSlots(slots) == |slots|
  {
    if slots != [] {
      AllFree(slots[1..]);
    }
  }

  lemma ClearOne(was: map<nat, nat>, pt: map<nat, nat>, va: nat)
    requires Cleared(was, pt, va) && Present(EntryOf(was, va))
    ensures Cleared(was, pt[va := ClearAccessed(EntryOf(was, va))], va + 1)
  {
    hide ClearAccessed, Present;
    var pt' := pt[va := ClearAccessed(EntryOf(was, va))];
    forall t | 0 <= t
      ensures EntryOf(pt', t) ==
              if t < va + 1 && Present(EntryOf(was, t)) then ClearAccessed(EntryOf(was, t)) else EntryOf(was, t)
    {
      assert t != va ==> EntryOf(pt', t) == EntryOf(pt, t);
    }
  }

  lemma ClearNone(was: map<nat, nat>, pt: map<nat, nat>, va: nat)
    requires Cleared(was, pt, va) && !Present(EntryOf(was, va))
    ensures Cleared(was, pt, va + 1)
  {
  }

  lemma InvFacts(s: Sys)
    requires Inv(s)
    ensures |s.slots| == NSWAPSLOTS && DiskOk(s.disk)
  {
  }

  lemma VictimFacts(s: Sys, v: nat, q: nat, was: map<nat, nat>)
    requires Inv(s) && v < |s.procs| && IsVictimPage(was, q) && Present(EntryAt(s.procs, v, q))
    ensures q < USERPAGES && Addr(EntryAt(s.procs, v, q)) < |s.mem| && AllocSlot(s.slots, 0) < NSWAPSLOTS
  {
  }

  lemma TallyAt(procs: seq<Proc>, v: nat)
    requires v < |procs|
    ensures Tallies(procs)[v] == TallyOf(procs[v])
  {
  }

  // The scan has stopped at va, or gone through.
  lemma PageFound(s: Sys, v: nat, pt: map<nat, nat>, va: nat)
    requires Inv(s) && v < |s.procs| && Cleared(s.procs[v].pt, pt, va)
    ensures var procs := s.procs[v := s.procs[v].(pt := pt)];
            Inv(s.(procs := procs)) && Unseen(s, s.(procs := procs)) && Tallies(procs) == Tallies(s.procs)
  {
    hide Inv, Unseen;
    ClearKeeps(s, v, pt, va);
    UnseenInv(s, s.(procs := s.procs[v := s.procs[v].(pt := pt)]));
    var was := s.procs[v].pt;
    forall t: nat
      ensures Present(EntryOf(pt, t)) == Present(EntryOf(was, t))
    {
      ClearAccessedKeeps(EntryOf(was, t));
    }
    assert Resident(pt) == Resident(was);
    var procs := s.procs[v := s.procs[v].(pt := pt)];
    assert TallyOf(procs[v]) == TallyOf(s.procs[v]);
    assert Tallies(procs) == Tallies(s.procs);
  }

  lemma OutTallies(s: Sys, v: nat, q: nat)
    requires Inv(s) && v < |s.procs| && q < USERPAGES && Present(EntryAt(s.procs, v, q))
    requires CanOut(Tallies(s.procs)) && v == Victim(Tallies(s.procs), |s.procs|)
    ensures Tallies(SwappedOut(s, v, q).procs) == AfterOut(Tallies(s.procs))
  {
    assert Addr(EntryAt(s.procs, v, q)) < |s.mem|;
    InvFacts(s);
    hide Inv, Resident, Victim, WithPage, SlotsOk, FramesOk;
    var e := SwapEntry(AllocSlot(s.slots, 0));
    ResidentAfter(s.procs[v].pt, q, e);
    var procs := SwappedOut(s, v, q).procs;
    assert procs[v] == s.procs[v].(pt := s.procs[v].pt[q := e], ms := s.procs[v].ms - PGSIZE,
                                   rss := s.procs[v].rss - 1);
    assert TallyOf(procs[v]) == AfterOut(Tallies(s.procs))[v];
    assert Tallies(procs) == AfterOut(Tallies(s.procs));
  }

  lemma InTallies(s: Sys, p: nat, q: nat, f: nat, procs: seq<Proc>)
    requires Inv(s) && p < |s.procs| && q < USERPAGES && IsSwapped(EntryAt(s.procs, p, q)) && f < |s.mem|
    requires Addr(EntryAt(s.procs, p, q)) < NSWAPSLOTS && s.slots[Addr(EntryAt(s.procs, p, q))].pagePerm in {0, 2, 4, 6}
    requires var was := SwappedIn(s, p, q, f).procs;
             procs == was[p := was[p].(ms := was[p].ms + PGSIZE, rss := was[p].rss + 1)]
    ensures Tallies(procs) == Gained(Tallies(s.procs), p) && !s.slots[Addr(EntryAt(s.procs, p, q))].isFree
  {
    assert !Present(EntryAt(s.procs, p, q)) && !s.slots[Addr(EntryAt(s.procs, p, q))].isFree;
    hide Inv, Resident, SlotsOk, FramesOk, Present, IsSwapped;
    var e := ResidentEntry(f, s.slots[Addr(EntryAt(s.procs, p, q))].pagePerm);
    ResidentAfter(s.procs[p].pt, q, e);
    assert procs[p].pt == s.procs[p].pt[q := e];
    assert TallyOf(procs[p]) == Gained(Tallies(s.procs), p)[p];
    assert Tallies(procs) == Gained(Tallies(s.procs), p);
  }

  lemma UnseenInv(s: Sys, s': Sys)
    requires Unseen(s, s')
    ensures Inv(s') && SameViews(s, s') && |s'.procs| == |s.procs|
  {
  }

  lemma UnseenSame(s: Sys)
    requires Inv(s)
    ensures SameViews(s, s)
  {
  }

  lemma StillLoose(s: Sys, s': Sys, f: nat)
    requires Unseen(s, s') && Loose(s, f)
    ensures Loose(s', f)
  {
  }

  lemma FaultFacts(s0: Sys, s1: Sys, p: nat, q: nat, f: nat)
    requires Inv(s0) && Unseen(s0, s1) && p < |s0.procs| && q < USERPAGES && IsSwapped(EntryAt(s0.procs, p, q))
    requires Loose(s1, f)
    ensures Inv(s1) && SameViews(s0, s1) && |s1.procs| == |s0.procs| && |s1.slots| == NSWAPSLOTS && DiskOk(s1.disk)
    ensures f < |s1.mem|
    ensures EntryAt(s1.procs, p, q) == EntryAt(s0.procs, p, q) && Addr(EntryAt(s1.procs, p, q)) < NSWAPSLOTS
    ensures s1.slots[Addr(EntryAt(s1.procs, p, q))].pagePerm in {0, 2, 4, 6}
  {
  }

  // The resident-set counters are seen by no process.
  lemma CountersUnseen(s: Sys, s': Sys)
    requires Inv(s) && |s'.procs| == |s.procs| && s' == s.(procs := s'.procs)
    requires forall p :: 0 <= p < |s.procs| ==> s'.procs[p].pt == s.procs[p].pt
    ensures Inv(s') && SameViews(s, s')
  {
    forall p, q | 0 <= p < |s.procs| && 0 <= q < USERPAGES
      ensures EntryAt(s'.procs, p, q) == EntryAt(s.procs, p, q)
    {
    }
    SameEntriesFrom(s, s');
    hide EntryAt, Present, IsSwapped, Perm, Addr;
    ClearKeepsFrames(s, s');
    ClearKeepsSlots(s, s');
    forall p, q | 0 <= p < |s.procs| && 0 <= q < USERPAGES
      ensures Look(s', p, q) == Look(s, p, q)
    {
      assert EntryAt(s'.procs, p, q) == EntryAt(s.procs, p, q);
    }
  }

  lemma SameEntriesFrom(s: Sys, s': Sys)
    requires |s'.procs| == |s.procs|
    requires forall p, q {:trigger EntryAt(s'.procs, p, q)} :: 0 <= p < |s.procs| && 0 <= q < USERPAGES ==>
        EntryAt(s'.procs, p, q) == EntryAt(s.procs, p, q)
    ensures SameEntries(s, s')
  {
  }

  lemma AccessMarks(e: nat)
    requires Present(e) && !Accessed(e)
    ensures Present(e + PTE_A) && Accessed(e + PTE_A)
  {
    assert (e + PTE_A) / PTE_A == e / PTE_A + 1;
  }

  lemma AccessKeeps(s: Sys, p: nat, q: nat)
    requires Inv(s) && p < |s.procs| && q < USERPAGES
    requires Present(EntryAt(s.procs, p, q)) && !Accessed(EntryAt(s.procs, p, q))
    ensures var s' := s.(procs := WithEntry(s.procs, p, q, EntryAt(s.procs, p, q) + PTE_A));
            Inv(s') && SameViews(s, s') && Tallies(s'.procs) == Tallies(s.procs)
  {
    var e := EntryAt(s.procs, p, q);
    AccessedSameEntry(e);
    EntryChangeUnseen(s, p, q, e + PTE_A);
    ResidentAfter(s.procs[p].pt, q, e + PTE_A);
    var procs := WithEntry(s.procs, p, q, e + PTE_A);
    hide Inv, Resident, SameViews;
    assert TallyOf(procs[p]) == TallyOf(s.procs[p]);
    assert Tallies(procs) == Tallies(s.procs);
  }

  lemma AccessedSameEntry(e: nat)
    requires Present(e) && !Accessed(e)
    ensures SameEntry(e, e + PTE_A)
  {
    assert (e + PTE_A) / PTE_A == e / PTE_A + 1;
    Thirds(e + PTE_A, e);
  }

  lemma EntryChangeUnseen(s: Sys, p: nat, q: nat, e: nat)
    requires Inv(s) && p < |s.procs| && q < USERPAGES && SameEntry(EntryAt(s.procs, p, q), e)
    ensures var s' := s.(procs := WithEntry(s.procs, p, q, e));
            Inv(s') && SameViews(s, s')
  {
    var s' := s.(procs := WithEntry(s.procs, p, q, e));
    forall r, t | 0 <= r < |s.procs| && 0 <= t < USERPAGES
      ensures SameEntry(EntryAt(s.procs, r, t), EntryAt(s'.procs, r, t))
    {
      EntriesAfter(s.procs, p, q, e, r, t);
    }
    hide EntryAt, Present, IsSwapped, Perm, Addr;
    ClearKeepsFrames(s, s');
    ClearKeepsSlots(s, s');
    forall r, t | 0 <= r < |s.procs| && 0 <= t < USERPAGES
      ensures Look(s', r, t) == Look(s, r, t)
    {
      assert SameEntry(EntryAt(s.procs, r, t), EntryAt(s'.procs, r, t));
    }
  }
}
