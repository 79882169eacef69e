/** What decides whether swap-outs succeed (pageswap.c, swap_out): who the victim is, whether it has a page, and how
    many slots are free. Only counters enter; and the count of free pages, which kfree gets wrong. */
module SwapBudget {
  import opened Swap

  const LIMIT: nat := 100
  const ALPHA: nat := 25
  const BETA: nat := 10

  // Full: swap_alloc found no free slot and gave out slot 0 again. Panicked: the kernel stopped.
  datatype Outcome = Fine | Full | Panicked

  // ----- victims

  // What swap_out's choices go by: the counter kept, and the pages that are resident.
  datatype Tally = Tally(used: bool, pid: int, rss: int, resident: nat)

  ghost function Resident(pt: map<nat, nat>): set<nat> {
    set t: nat | t < USERPAGES && Present(EntryOf(pt, t))
  }

  ghost function TallyOf(p: Proc): Tally {
    Tally(p.used, p.pid, p.rss, |Resident(p.pt)|)
  }

  ghost function Tallies(procs: seq<Proc>): (ts: seq<Tally>)
    ensures |ts| == |procs|
  {
    seq(|procs|, p requires 0 <= p < |procs| => TallyOf(procs[p]))
  }

  // The process with the most resident pages by its counter, then the lowest pid; -1 when no counter exceeds -1.
  function Victim(ts: seq<Tally>, n: nat): (v: int)
    requires n <= |ts|
    ensures -1 <= v < n
  {
    if n == 0 then -1 else
    var v, t := Victim(ts, n - 1), ts[n - 1];
    if !t.used then v
    else if t.rss > (if v < 0 then -1 else ts[v].rss) then n - 1
    else if v >= 0 && t.rss == ts[v].rss && t.pid < ts[v].pid then n - 1
    else v
  }

  ghost predicate IsVictim(ts: seq<Tally>, n: nat, v: nat) {
    && v < n <= |ts| && ts[v].used && ts[v].rss > -1
    && (forall p {:trigger ts[p]} :: 0 <= p < n && ts[p].used ==>
          ts[p].rss < ts[v].rss || (ts[p].rss == ts[v].rss && ts[v].pid <= ts[p].pid))
  }

  lemma {:induction false} VictimIs(ts: seq<Tally>, n: nat)
    requires n <= |ts|
    ensures Victim(ts, n) >= 0 ==> IsVictim(ts, n, Victim(ts, n))
    ensures Victim(ts, n) == -1 <==> forall p {:trigger ts[p]} :: 0 <= p < n && ts[p].used ==> ts[p].rss <= -1
  {
    if n > 0 {
      VictimIs(ts, n - 1);
    }
  }

  // ----- swap-outs in a row

  // There is a victim, and it has a page.
  predicate CanOut(ts: seq<Tally>) {
    Victim(ts, |ts|) >= 0 && ts[Victim(ts, |ts|)].resident > 0
  }

  function AfterOut(ts: seq<Tally>): (r: seq<Tally>)
    requires CanOut(ts)
    ensures |r| == |ts|
  {
    var v := Victim(ts, |ts|);
    ts[v := ts[v].(rss := ts[v].rss - 1, resident := ts[v].resident - 1)]
  }

  // k swap-outs, as far as they get.
  function AfterOuts(ts: seq<Tally>, k: nat): (r: seq<Tally>)
    ensures |r| == |ts|
    decreases k
  {
    if k == 0 || !CanOut(ts) then ts else AfterOuts(AfterOut(ts), k - 1)
  }

  // How k swap-outs end when `slots` slots are free: the victim is looked for before the slot.
  function OutcomeOf(ts: seq<Tally>, slots: nat, k: nat): Outcome
    decreases k
  {
    if k == 0 then Fine
    else if !CanOut(ts) then Panicked
    else if slots == 0 then Full
    else OutcomeOf(AfterOut(ts), slots - 1, k - 1)
  }

  lemma {:induction false} OutsInTurn(ts: seq<Tally>, slots: nat, j: nat, k: nat)
    requires j <= slots && OutcomeOf(ts, slots, j) == Fine
    ensures OutcomeOf(ts, slots, j + k) == OutcomeOf(AfterOuts(ts, j), slots - j, k)
    ensures AfterOuts(ts, j + k) == AfterOuts(AfterOuts(ts, j), k)
    decreases j
  {
    if j > 0 {
      OutsInTurn(AfterOut(ts), slots - 1, j - 1, k);
    }
  }

  lemma OneOut(ts: seq<Tally>, slots: nat)
    ensures OutcomeOf(ts, slots, 1) == if !CanOut(ts) then Panicked else if slots == 0 then Full else Fine
    ensures CanOut(ts) ==> AfterOuts(ts, 1) == AfterOut(ts)
  {
    if CanOut(ts) && slots > 0 {
      assert OutcomeOf(AfterOut(ts), slots - 1, 0) == Fine;
    }
    if CanOut(ts) {
      assert AfterOuts(AfterOut(ts), 0) == AfterOut(ts);
    }
  }

  // More swap-outs end where the first failed.
  lemma OutcomeLater(ts: seq<Tally>, slots: nat, k: nat)
    requires OutcomeOf(ts, slots, 1) != Fine && k >= 1
    ensures OutcomeOf(ts, slots, k) == OutcomeOf(ts, slots, 1)
  {
    OneOut(ts, slots);
  }

  // The swap-outs of adaptive_swap.
  function Outs(freePages: int, th: int, npg: nat): nat {
    if freePages < th then npg else 0
  }

  // npg never grows beyond this.
  function Cap(npg: nat): nat {
    if npg > LIMIT then npg else LIMIT
  }

  // ----- how the thresholds move

  datatype Pace = Pace(th: nat, npg: nat)

  // Each time adaptive_swap has swapped, it lowers th by BETA percent and raises npg by ALPHA percent, up to LIMIT.
  function NextPace(p: Pace): Pace {
    Pace(p.th - p.th * BETA / 100,
         if p.npg + p.npg * ALPHA / 100 > LIMIT then LIMIT else p.npg + p.npg * ALPHA / 100)
  }

  function PaceAfter(p: Pace, k: nat): Pace {
    if k == 0 then p else NextPace(PaceAfter(p, k - 1))
  }

  /** Where the rounding lets them settle: th falls by at least one each time down to 9 and no further, npg rises by at
      least one each time to LIMIT, but from 3 or less it never moves. */
  lemma {:induction false} PaceSettles(p: Pace, k: nat)
    ensures PaceAfter(p, k).th <= p.th
    ensures if p.th <= 9 then PaceAfter(p, k).th == p.th else 9 <= PaceAfter(p, k).th
    ensures p.th >= 9 && k >= p.th - 9 ==> PaceAfter(p, k).th == 9
    ensures k < p.th - 9 ==> PaceAfter(p, k).th <= p.th - k
    ensures if p.npg <= 3 then PaceAfter(p, k).npg == p.npg else k >= 1 ==> 4 <= PaceAfter(p, k).npg <= LIMIT
    ensures 4 <= p.npg ==> PaceAfter(p, k).npg >= if k == 0 then p.npg else Min(LIMIT, p.npg + k)
  {
    if k > 0 {
      PaceSettles(p, k - 1);
    }
  }

  function Min(a: nat, b: nat): nat {
    if a < b then a else b
  }

  // What kalloc counts as free once it has its page.
  function CountLeft(s: Sys): int {
    (if s.free == [] then KfreeCount(s.freePages) else s.freePages) - 1
  }

  // The swap-outs kalloc needs: one for a page when none is free, and those of adaptive_swap.
  function Needed(s: Sys, th: int, npg: nat): (k: nat)
    ensures k <= 1 + npg
  {
    (if s.free == [] then 1 else 0) + if CountLeft(s) > 0 then Outs(CountLeft(s), th, npg) else 0
  }

  /** A count that falls short moves the range in which kalloc swaps ahead: it does when, of the pages left, there
      are more than `short` and fewer than th + short, rather than any but fewer than th. */
  lemma GateShifts(s: Sys, th: int, npg: nat, short: int)
    requires s.free != [] && npg > 0 && |s.free| - s.freePages == short
    ensures Needed(s, th, npg) > 0 <==> short < |s.free| - 1 < th + short
  {
  }

  // ----- counters that are true

  // Every process in use has its resident pages counted.
  predicate CountersTrue(ts: seq<Tally>) {
    forall p {:trigger ts[p]} :: 0 <= p < |ts| && ts[p].used ==> ts[p].rss == ts[p].resident
  }

  // The resident pages of the first n processes that are in use.
  function Total(ts: seq<Tally>, n: nat): nat
    requires n <= |ts|
  {
    if n == 0 then 0 else Total(ts, n - 1) + if ts[n - 1].used then ts[n - 1].resident else 0
  }

  lemma {:induction false} TotalUpdate(ts: seq<Tally>, p: nat, t: Tally, n: nat)
    requires p < |ts| && n <= |ts| && t.used == ts[p].used
    ensures Total(ts[p := t], n) == Total(ts, n) + if p < n && t.used then t.resident - ts[p].resident else 0
  {
    if n > 0 {
      TotalUpdate(ts, p, t, n - 1);
    }
  }

  lemma {:induction false} TotalSome(ts: seq<Tally>, n: nat)
    requires n <= |ts|
    ensures Total(ts, n) > 0 <==> exists p {:trigger ts[p]} :: 0 <= p < n && ts[p].used && ts[p].resident > 0
  {
    if n > 0 {
      TotalSome(ts, n - 1);
    }
  }

  // With true counters there is a page to swap out exactly when any process in use has a resident page.
  lemma CanOutExactly(ts: seq<Tally>)
    requires CountersTrue(ts)
    ensures CanOut(ts) <==> Total(ts, |ts|) > 0
  {
    VictimIs(ts, |ts|);
    TotalSome(ts, |ts|);
  }

  lemma OutCounted(ts: seq<Tally>)
    requires CountersTrue(ts) && CanOut(ts)
    ensures CountersTrue(AfterOut(ts)) && Total(AfterOut(ts), |ts|) == Total(ts, |ts|) - 1
  {
    var v := Victim(ts, |ts|);
    VictimIs(ts, |ts|);
    TotalUpdate(ts, v, ts[v].(rss := ts[v].rss - 1, resident := ts[v].resident - 1), |ts|);
  }

  /** With true counters, k swap-outs succeed exactly when there are k resident pages and k free slots; they panic when
      the pages run out no later than the slots, and share slot 0 otherwise. */
  lemma {:induction false} OutcomeExactly(ts: seq<Tally>, slots: nat, k: nat)
    requires CountersTrue(ts)
    ensures var pages := Total(ts, |ts|);
            OutcomeOf(ts, slots, k) ==
              if k <= pages && k <= slots then Fine else if slots < pages then Full else Panicked
    decreases k
  {
    if k > 0 {
      CanOutExactly(ts);
      if CanOut(ts) && slots > 0 {
        OutCounted(ts);
        OutcomeExactly(AfterOut(ts), slots - 1, k - 1);
      }
    }
  }

  lemma {:induction false} OutsCounted(ts: seq<Tally>, slots: nat, k: nat)
    requires CountersTrue(ts) && OutcomeOf(ts, slots, k) == Fine
    ensures CountersTrue(AfterOuts(ts, k)) && Total(AfterOuts(ts, k), |ts|) == Total(ts, |ts|) - k && k <= slots
    decreases k
  {
    if k > 0 {
      OutCounted(ts);
      OutsCounted(AfterOut(ts), slots - 1, k - 1);
    }
  }

  lemma {:induction false} OutsKeepUsed(ts: seq<Tally>, k: nat, p: nat)
    requires p < |ts|
    ensures AfterOuts(ts, k)[p].used == ts[p].used
    decreases k
  {
    if k > 0 && CanOut(ts) {
      OutsKeepUsed(AfterOut(ts), k - 1, p);
    }
  }

  // A counter that is too high stops the kernel while another process has a page to give.
  lemma WrongCounterPanics(ts: seq<Tally>, slots: nat)
    requires ts == [Tally(true, 1, 1, 0), Tally(true, 2, 0, 1)]
    ensures OutcomeOf(ts, slots, 1) == Panicked && Total(ts, |ts|) == 1
  {
    assert Victim(ts, 1) == 0;
    assert Total(ts, 1) == 0;
  }

  // ----- pages coming and going

  // Process p has one page more.
  function Gained(ts: seq<Tally>, p: nat): (r: seq<Tally>)
    requires p < |ts|
    ensures |r| == |ts|
  {
    ts[p := ts[p].(rss := ts[p].rss + 1, resident := ts[p].resident + 1)]
  }

  lemma GainCounted(ts: seq<Tally>, p: nat)
    requires CountersTrue(ts) && p < |ts| && ts[p].used
    ensures CountersTrue(Gained(ts, p)) && Total(Gained(ts, p), |ts|) == Total(ts, |ts|) + 1
  {
    TotalUpdate(ts, p, ts[p].(rss := ts[p].rss + 1, resident := ts[p].resident + 1), |ts|);
  }

  // A run from ts0 with n0 free slots that has taken i steps of at most 1 + cap swap-outs each.
  ghost predicate InBudget(ts0: seq<Tally>, n0: nat, ts: seq<Tally>, n: nat, i: nat, cap: nat) {
    && CountersTrue(ts) && |ts| == |ts0|
    && Total(ts, |ts|) - n == Total(ts0, |ts0|) - n0
    && Total(ts, |ts|) + i * (1 + cap) >= Total(ts0, |ts0|)
  }

  // Pages and slots for that many steps.
  predicate Lasts(steps: nat, cap: nat, ts: seq<Tally>, n: nat) {
    steps * (1 + cap) <= n && steps * (1 + cap) <= Total(ts, |ts|)
  }

  // The step that fails: which way is settled by what there was more of at the start.
  lemma StepFails(ts0: seq<Tally>, n0: nat, ts: seq<Tally>, n: nat, i: nat, cap: nat, k: nat, steps: nat)
    requires InBudget(ts0, n0, ts, n, i, cap) && k <= 1 + cap && i < steps
    ensures OutcomeOf(ts, n, k) == Full ==> n0 < Total(ts0, |ts0|)
    ensures OutcomeOf(ts, n, k) == Panicked ==> Total(ts0, |ts0|) <= n0
    ensures Lasts(steps, cap, ts0, n0) ==> OutcomeOf(ts, n, k) == Fine
  {
    OutcomeExactly(ts, n, k);
    hide CountersTrue, Total, OutcomeOf;
    StepsAdd(i, steps, 1 + cap);
  }

  lemma StepsAdd(i: nat, steps: nat, a: nat)
    requires i < steps
    ensures (i + 1) * a == i * a + a <= steps * a
  {
    assert steps * a == (i + 1) * a + (steps - i - 1) * a;
    assert (steps - i - 1) * a >= 0;
  }

  lemma StepOuts(ts0: seq<Tally>, n0: nat, ts: seq<Tally>, n: nat, i: nat, cap: nat, k: nat)
    requires InBudget(ts0, n0, ts, n, i, cap) && k <= 1 + cap && OutcomeOf(ts, n, k) == Fine
    ensures k <= n && InBudget(ts0, n0, AfterOuts(ts, k), n - k, i + 1, cap)
  {
    OutsCounted(ts, n, k);
    StepsAdd(i, i + 1, 1 + cap);
  }

  lemma StepGains(ts0: seq<Tally>, n0: nat, ts: seq<Tally>, n: nat, i: nat, cap: nat, p: nat)
    requires InBudget(ts0, n0, ts, n, i, cap) && p < |ts| && ts[p].used
    ensures InBudget(ts0, n0, Gained(ts, p), n + 1, i, cap)
  {
    GainCounted(ts, p);
  }

  lemma StepIdle(ts0: seq<Tally>, n0: nat, ts: seq<Tally>, n: nat, i: nat, cap: nat)
    requires InBudget(ts0, n0, ts, n, i, cap)
    ensures InBudget(ts0, n0, ts, n, i + 1, cap)
  {
    StepsAdd(i, i + 1, 1 + cap);
  }

  // One entry of a page table becomes resident, stops being so, or neither.
  lemma ResidentAfter(pt: map<nat, nat>, q: nat, e: nat)
    requires q < USERPAGES
    ensures |Resident(pt[q := e])| == |Resident(pt)| + (if Present(e) then 1 else 0) - if Present(EntryOf(pt,
        q)) then 1 else 0
  {
    var pt' := pt[q := e];
    forall t: nat
      ensures EntryOf(pt', t) == if t == q then e else EntryOf(pt, t)
    {
    }
    if Present(e) {
      assert Resident(pt') == Resident(pt) + {q};
      if Present(EntryOf(pt, q)) {
        assert Resident(pt') == Resident(pt);
      }
    } else {
      assert Resident(pt') == Resident(pt) - {q};
    }
  }

  lemma ResidentSome(pt: map<nat, nat>)
    ensures |Resident(pt)| == 0 <==> forall t {:trigger EntryOf(pt, t)} :: 0 <= t < USERPAGES ==>
        !Present(EntryOf(pt, t))
  {
    if exists t: nat :: t < USERPAGES && Present(EntryOf(pt, t)) {
      var t: nat :| t < USERPAGES && Present(EntryOf(pt, t));
      assert t in Resident(pt);
    } else {
      assert Resident(pt) == {};
    }
  }

  // ----- the count of free pages

  function Zeros(found: seq<int>): nat {
    if found == [] then 0 else (if found[0] == 0 then 1 else 0) + Zeros(found[1..])
  }

  lemma {:induction false} ZerosAppend(a: seq<int>, b: seq<int>)
    ensures Zeros(a + b) == Zeros(a) + Zeros(b)
  {
    if a == [] {
      assert a + b == b;
    } else {
      ZerosAppend(a[1..], b);
      assert (a + b)[1..] == a[1..] + b;
    }
  }

  lemma {:induction false} ZerosNone(found: seq<int>)
    ensures Zeros(found) == 0 <==> 0 !in found
  {
    if found != [] {
      ZerosNone(found[1..]);
    }
  }

  // `found` is what every kfree so far has found in the count, and the count falls short of the free pages by `short`:
  // since found0 and short0, by one more for each kfree that found 0.
  ghost predicate Counted(found0: seq<int>, short0: int, found: seq<int>, short: int) {
    found0 <= found && short == short0 + Zeros(found[|found0|..])
  }

  lemma CountedTransitive(found0: seq<int>, short0: int, found1: seq<int>, short1: int, found2: seq<int>, short2: int)
    requires Counted(found0, short0, found1, short1) && Counted(found1, short1, found2, short2)
    ensures Counted(found0, short0, found2, short2)
  {
    ZerosAppend(found1[|found0|..], found2[|found1|..]);
    assert found1[|found0|..] + found2[|found1|..] == found2[|found0|..];
  }

  lemma CountedOne(found: seq<int>, short: int, n: int)
    ensures Counted(found, short, found + [n], short + if n == 0 then 1 else 0)
  {
    assert (found + [n])[|found|..] == [n];
    assert Zeros([n]) == (if n == 0 then 1 else 0) + Zeros([n][1..]);
  }

  lemma CountedNone(found: seq<int>, short: int)
    ensures Counted(found, short, found, short)
  {
  }

  /** A count that was right is right exactly while no kfree has found it at 0. */
  lemma CountStaysRight(found0: seq<int>, found: seq<int>, short: int)
    requires Counted(found0, 0, found, short)
    ensures short == 0 <==> 0 !in found[|found0|..]
  {
    ZerosNone(found[|found0|..]);
  }
}
