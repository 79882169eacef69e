/** The priority scheduler (Signal Handling And Scheduling, proc.c): which process a turn of its loop picks,
    what the turn does to the process table, and how long a process can be kept waiting. */
module Scheduler {
  datatype State = UNUSED | EMBRYO | SLEEPING | WAITING_TO_START | RUNNABLE | RUNNING | ZOMBIE | STOPPED | SUSPENDED

  datatype Proc = Proc(
    pid: int, state: State, suspended: bool, creationTime: int, totalRunTime: int, totalSleepingTime: int,
    hasStarted: bool, firstRunTime: int, startRunTick: int, contextSwitches: int, execTime: int, killed: bool)

  // INIT_PRIORITY, ALPHA and BETA of the Makefile.
  datatype Weights = Weights(initial: int, alpha: int, beta: int)

  const THRESHOLD: int := -1000000000

  predicate Eligible(p: Proc) {
    p.state == RUNNABLE && !p.suspended
  }

  function Priority(w: Weights, p: Proc, ticks: int): int {
    var tat := ticks - p.creationTime;
    var wt := tat - p.totalRunTime - p.totalSleepingTime;
    w.initial - w.alpha * p.totalRunTime + w.beta * wt
  }

  // p is preferred to q: higher priority, or the same and a lower pid.
  predicate Before(w: Weights, p: Proc, q: Proc, ticks: int) {
    Priority(w, p, ticks) > Priority(w, q, ticks) || (Priority(w, p, ticks) == Priority(w, q, ticks) && p.pid < q.pid)
  }

  // The choice among the first n table entries, -1 for none.
  function Best(w: Weights, ps: seq<Proc>, ticks: int, n: nat): (k: int)
    requires n <= |ps|
    ensures -1 <= k < n
  {
    if n == 0 then -1
    else
      var k := Best(w, ps, ticks, n - 1);
      var p := ps[n - 1];
      if !Eligible(p) || Priority(w, p, ticks) <= THRESHOLD then k
      else if k == -1 || Before(w, p, ps[k], ticks) then n - 1
      else k
  }

  // k is the process no other candidate is preferred to.
  ghost predicate IsBest(w: Weights, ps: seq<Proc>, ticks: int, n: nat, k: int)
    requires n <= |ps|
  {
    && 0 <= k < n && Eligible(ps[k]) && Priority(w, ps[k], ticks) > THRESHOLD
    && (forall j {:trigger ps[j]} :: 0 <= j < n && j != k && Eligible(ps[j]) && ps[j].pid != ps[k].pid ==>
          Before(w, ps[k], ps[j], ticks))
  }

  ghost predicate DistinctPids(ps: seq<Proc>) {
    forall i, j {:trigger ps[i], ps[j]} ::
        0 <= i < |ps| && 0 <= j < |ps| && Eligible(ps[i]) && Eligible(ps[j]) && ps[i].pid == ps[j].pid ==> i == j
  }

  lemma {:induction false} BestIsBest(w: Weights, ps: seq<Proc>, ticks: int, n: nat)
    requires n <= |ps| && DistinctPids(ps)
    ensures var k := Best(w, ps, ticks, n);
            if k == -1 then forall j {:trigger ps[j]} :: 0 <= j < n && Eligible(ps[j]) ==>
                Priority(w, ps[j], ticks) <= THRESHOLD
            else IsBest(w, ps, ticks, n, k)
  {
    hide Priority, Eligible;
    if n > 0 {
      BestIsBest(w, ps, ticks, n - 1);
    }
  }

  lemma OneBest(w: Weights, ps: seq<Proc>, ticks: int, n: nat, j: nat, k: nat)
    requires n <= |ps| && DistinctPids(ps) && IsBest(w, ps, ticks, n, j) && IsBest(w, ps, ticks, n, k)
    ensures j == k
  {
    hide Priority, Eligible;
    assert ps[j] == ps[j] && ps[k] == ps[k];
  }

  /** The choice is the unique maximum by priority, then lowest pid; there is none exactly when no eligible
      process is above the threshold. */
  lemma BestIsTheMaximum(w: Weights, ps: seq<Proc>, ticks: int, n: nat)
    requires n <= |ps| && DistinctPids(ps)
    ensures Best(w, ps, ticks, n) == -1 <==> forall j {:trigger ps[j]} :: 0 <= j < n && Eligible(ps[j]) ==>
        Priority(w, ps[j], ticks) <= THRESHOLD
    ensures forall k {:trigger ps[k]} :: 0 <= k < n ==> (IsBest(w, ps, ticks, n, k) <==> k == Best(w, ps, ticks, n))
  {
    hide Priority, Eligible, Best, DistinctPids;
    BestIsBest(w, ps, ticks, n);
    var b := Best(w, ps, ticks, n);
    assert b != -1 ==> ps[b] == ps[b];
    forall k | 0 <= k < n && IsBest(w, ps, ticks, n, k)
      ensures k == b
    {
      assert ps[k] == ps[k];
      OneBest(w, ps, ticks, n, b, k);
    }
  }

  // ----- one turn of the loop

  // A process seen while it waits to run is marked as started.
  function Seen(p: Proc, ticks: int): Proc {
    if Eligible(p) && !p.hasStarted then p.(firstRunTime := ticks, hasStarted := true) else p
  }

  function AllSeen(ps: seq<Proc>, ticks: int): (r: seq<Proc>)
    ensures |r| == |ps|
  {
    seq(|ps|, i requires 0 <= i < |ps| => Seen(ps[i], ticks))
  }

  // What happens outside the scheduler: `gap` ticks before the table is scanned, then the chosen process
  // runs for `ran` ticks and comes back in state `after`.
  datatype Quantum = Quantum(gap: nat, ran: nat, after: State)
  datatype Sys = Sys(procs: seq<Proc>, ticks: int, previous: int)

  function Charged(p: Proc, ran: nat): Proc {
    var run := p.totalRunTime + ran;
    p.(totalRunTime := run, killed := p.killed || (p.execTime > 0 && run >= p.execTime))
  }

  function Dispatched(p: Proc, ticks: int, switched: bool, q: Quantum): Proc {
    var contextSwitches := if switched then p.contextSwitches + 1 else p.contextSwitches;
    Charged(p.(startRunTick := ticks, contextSwitches := contextSwitches, state := q.after), q.ran)
  }

  function Choice(w: Weights, s: Sys, q: Quantum): (k: int)
    ensures -1 <= k < |s.procs|
  {
    Best(w, s.procs, s.ticks + q.gap, |s.procs|)
  }

  function Turn(w: Weights, s: Sys, q: Quantum): Sys {
    var ticks := s.ticks + q.gap;
    var ps := AllSeen(s.procs, ticks);
    var k := Choice(w, s, q);
    if k == -1 then s.(procs := ps, ticks := ticks)
    else Sys(ps[k := Dispatched(ps[k], ticks, s.previous != k, q)], ticks + q.ran, k)
  }

  class Cpu {
    const w: Weights
    var procs: array<Proc>
    var ticks: int
    var previous: int

    ghost function Value(): Sys
      reads this, procs
    {
      Sys(procs[..], ticks, previous)
    }

    constructor (w: Weights, procs: array<Proc>, ticks: int)
      ensures Value() == Sys(procs[..], ticks, -1) && this.w == w && this.procs == procs
    {
      this.w, this.procs, this.ticks, previous := w, procs, ticks, -1;
    }

    // The scan of the process table.
    method Choose() returns (chosen: int)
      modifies procs
      ensures procs[..] == AllSeen(old(procs[..]), ticks)
      ensures chosen == Best(w, old(procs[..]), ticks, procs.Length)
    {
      var bestPriority := THRESHOLD;
      chosen := -1;
      ghost var ps := procs[..];
      var i := 0;
      while i < procs.Length
        invariant 0 <= i <= procs.Length
        invariant forall j :: 0 <= j < procs.Length ==> procs[j] == if j < i then Seen(ps[j], ticks) else ps[j]
        invariant chosen == Best(w, ps, ticks, i)
        invariant bestPriority == if chosen == -1 then THRESHOLD else Priority(w, ps[chosen], ticks)
        invariant bestPriority > THRESHOLD <==> chosen != -1
      {
        var p := procs[i];
        if p.state == RUNNABLE && !(p.suspended || p.state == SUSPENDED) && p.state != WAITING_TO_START {
          if !p.hasStarted {
            p := p.(firstRunTime := ticks, hasStarted := true);
            procs[i] := p;
          }
          var tat := ticks - p.creationTime;
          var wt := tat - p.totalRunTime - p.totalSleepingTime;
          var dynamicPriority := w.initial - w.alpha * p.totalRunTime + w.beta * wt;
          assert dynamicPriority == Priority(w, ps[i], ticks);
          if dynamicPriority > bestPriority
             || (dynamicPriority == bestPriority && chosen != -1 && p.pid < procs[chosen].pid) {
            bestPriority, chosen := dynamicPriority, i;
          }
        }
        i := i + 1;
      }
    }

    // One turn of the scheduler's loop, with what the outside world does meanwhile.
    method Schedule(q: Quantum)
      modifies this, procs
      ensures procs == old(procs) && Value() == Turn(w, old(Value()), q)
    {
      hide Best, Priority, Eligible;
      ticks := ticks + q.gap;
      var chosen := Choose();
      if chosen != -1 {
        var p := procs[chosen].(startRunTick := ticks);
        if previous != chosen {
          p := p.(contextSwitches := p.contextSwitches + 1);
        }
        procs[chosen] := p.(state := RUNNING);
        // swtch: the process runs, and comes back
        ticks, procs[chosen] := ticks + q.ran, procs[chosen].(state := q.after);
        p := procs[chosen].(totalRunTime := procs[chosen].totalRunTime + (ticks - procs[chosen].startRunTick));
        if p.execTime > 0 && p.totalRunTime >= p.execTime {
          p := p.(killed := true);
        }
        procs[chosen] := p;
        assert p == Dispatched(AllSeen(old(procs[..]), old(ticks) + q.gap)[chosen], old(ticks) + q.gap,
                               previous != chosen, q);
        previous := chosen;
      }
    }
  }

  // ----- bounded waiting

  function Run(w: Weights, s: Sys, qs: seq<Quantum>): Sys
    decreases |qs|
  {
    if qs == [] then s else Run(w, Turn(w, s, qs[0]), qs[1..])
  }

  // Process i is not picked in any of the turns.
  predicate NeverPicked(w: Weights, s: Sys, i: nat, qs: seq<Quantum>)
    decreases |qs|
  {
    qs == [] || (Choice(w, s, qs[0]) != i && NeverPicked(w, Turn(w, s, qs[0]), i, qs[1..]))
  }

  // ----- accounts over a run

  // A dispatch: of process k, for so many ticks.
  datatype Slice = Slice(k: nat, ran: nat)

  // The dispatches of the turns, in order; a turn that finds nobody makes none.
  function History(w: Weights, s: Sys, qs: seq<Quantum>): seq<Slice>
    decreases |qs|
  {
    if qs == [] then []
    else
      var k := Choice(w, s, qs[0]);
      (if k == -1 then [] else [Slice(k, qs[0].ran)]) + History(w, Turn(w, s, qs[0]), qs[1..])
  }

  // The ticks for which process i ran.
  function RanFor(h: seq<Slice>, i: nat): nat {
    if h == [] then 0 else (if h[0].k == i then h[0].ran else 0) + RanFor(h[1..], i)
  }

  // How often process i was dispatched next after another one; `previous` comes before them all.
  function SwitchesTo(h: seq<Slice>, previous: int, i: nat): nat {
    if h == [] then 0 else (if h[0].k == i != previous then 1 else 0) + SwitchesTo(h[1..], h[0].k, i)
  }

  // Process i was dispatched.
  predicate IsIn(h: seq<Slice>, i: nat) {
    h != [] && (h[0].k == i || IsIn(h[1..], i))
  }

  predicate Overran(p: Proc) {
    p.execTime > 0 && p.totalRunTime >= p.execTime
  }

  lemma TurnAccounts(w: Weights, s: Sys, q: Quantum, i: nat)
    requires i < |s.procs|
    ensures var s', k := Turn(w, s, q), Choice(w, s, q);
            && |s'.procs| == |s.procs| && s'.previous == (if k == -1 then s.previous else k)
            && var p, p' := s.procs[i], s'.procs[i];
               && p'.execTime == p.execTime && p'.pid == p.pid
               && p'.hasStarted == (p.hasStarted || Eligible(p))
               && p'.firstRunTime == (if !p.hasStarted && Eligible(p) then s.ticks + q.gap else p.firstRunTime)
               && (k != i ==> p'.totalRunTime == p.totalRunTime && p'.contextSwitches == p.contextSwitches
                              && p'.killed == p.killed && p'.state == p.state)
               && (k == i ==> p'.totalRunTime == p.totalRunTime + q.ran && p'.state == q.after
                              && p'.contextSwitches == p.contextSwitches + (if s.previous != i then 1 else 0)
                              && p'.killed == (p.killed || Overran(p')))
  {
  }

  lemma {:induction false} NotInRan(h: seq<Slice>, i: nat)
    requires !IsIn(h, i)
    ensures RanFor(h, i) == 0
  {
    if h != [] {
      NotInRan(h[1..], i);
    }
  }

  /** Over any run, a process is charged the ticks it ran for, a context switch is counted for each time it was
      dispatched after another process,
          it is killed exactly when it was dispatched and has used up its exec_time (or had
      been killed before), and the time it was first seen is never overwritten. */
  lemma {:induction false} RunAccounts(w: Weights, s: Sys, qs: seq<Quantum>, i: nat)
    requires i < |s.procs|
    ensures var s', h := Run(w, s, qs), History(w, s, qs);
            && |s'.procs| == |s.procs|
            && var p, p' := s.procs[i], s'.procs[i];
               && p'.execTime == p.execTime
               && (p.hasStarted ==> p'.hasStarted && p'.firstRunTime == p.firstRunTime)
               && p'.totalRunTime == p.totalRunTime + RanFor(h, i)
               && p'.contextSwitches == p.contextSwitches + SwitchesTo(h, s.previous, i)
               && p'.killed == (p.killed || (Overran(p') && IsIn(h, i)))
    decreases |qs|
  {
    if qs != [] {
      hide Turn, Choice;
      var k := Choice(w, s, qs[0]);
      TurnAccounts(w, s, qs[0], i);
      RunAccounts(w, Turn(w, s, qs[0]), qs[1..], i);
      var h, rest := History(w, s, qs), History(w, Turn(w, s, qs[0]), qs[1..]);
      if !IsIn(rest, i) { NotInRan(rest, i); }
      if k != -1 {
        assert h[0] == Slice(k, qs[0].ran) && h[1..] == rest;
      } else {
        assert h == rest;
      }
    }
  }

  // How many dispatches rival p can get before a process with priority x: none when it is behind.
  function Share(w: Weights, p: Proc, ticks: int, x: int): nat
    requires w.alpha + w.beta > 0
  {
    var lead := Priority(w, p, ticks) - x;
    if Eligible(p) && lead >= 0 then lead / (w.alpha + w.beta) + 1 else 0
  }

  // The sum of the shares of i's rivals among the first n processes.
  function Bound(w: Weights, s: Sys, i: nat, n: nat): nat
    requires w.alpha + w.beta > 0 && i < |s.procs| && n <= |s.procs|
  {
    if n == 0 then 0
    else Bound(w, s, i, n - 1) + if n - 1 == i then 0
      else Share(w, s.procs[n - 1], s.ticks, Priority(w, s.procs[i], s.ticks))
  }

  // A turn that picks k moves k's priority down against everyone else's, and changes no other difference.
  lemma TurnPriorities(w: Weights, s: Sys, q: Quantum, j: nat)
    requires j < |s.procs| && Choice(w, s, q) != -1
    ensures var s', k := Turn(w, s, q), Choice(w, s, q);
            && |s'.procs| == |s.procs|
            && Priority(w, s'.procs[j], s'.ticks) - Priority(w, s.procs[j], s.ticks)
                 == w.beta * (q.gap + q.ran) - (if j == k then (w.alpha + w.beta) * q.ran else 0)
            && (j != k ==> Eligible(s'.procs[j]) == Eligible(s.procs[j]) && s'.procs[j].pid == s.procs[j].pid)
  {
    var s', k := Turn(w, s, q), Choice(w, s, q);
    var p, ticks := s.procs[j], s.ticks;
    var run, ran, gap := p.totalRunTime, q.ran, q.gap;
    if j == k {
      assert s'.procs[j].totalRunTime == run + ran;
      assert w.alpha * (run + ran) == w.alpha * run + w.alpha * ran;
      assert w.beta * (ticks + gap + ran - p.creationTime - (run + ran) - p.totalSleepingTime)
          == w.beta * (ticks - p.creationTime - run - p.totalSleepingTime) + w.beta * gap;
      assert w.beta * (gap + ran) == w.beta * gap + w.beta * ran;
      assert (w.alpha + w.beta) * ran == w.alpha * ran + w.beta * ran;
    } else {
      assert w.beta * (ticks + gap + ran - p.creationTime - run - p.totalSleepingTime)
          == w.beta * (ticks - p.creationTime - run - p.totalSleepingTime) + w.beta * (gap + ran);
    }
  }

  lemma MulLe(a: int, b: int, c: int)
    requires a <= b && c >= 0
    ensures a * c <= b * c
  {
    assert (b - a) * c >= 0;
  }

  lemma LeadShrinks(lead: int, c: int, ran: nat)
    requires lead >= 0 && c > 0 && ran >= 1
    ensures lead - c * ran >= 0 ==> (lead - c * ran) / c + 1 <= lead / c
    ensures lead / c >= 0
  {
    MulLe(1, ran, c);
    var k, k' := lead / c, (lead - c * ran) / c;
    assert lead == k * c + lead % c && lead - c * ran == k' * c + (lead - c * ran) % c;
    assert (k' + 1) * c == k' * c + c && (k + 1) * c == k * c + c;
    if k' + 1 > k {
      MulLe(k + 1, k' + 1, c);
    }
    if k < 0 {
      MulLe(k + 1, 0, c);
    }
  }

  // The bound loses at least one with every dispatch of another process.
  lemma {:induction false} BoundShrinks(w: Weights, s: Sys, q: Quantum, i: nat, n: nat)
    requires w.alpha >= 0 && w.beta >= 0 && w.alpha + w.beta > 0 && q.ran >= 1
    requires i < |s.procs| && n <= |s.procs| && Choice(w, s, q) != -1 && Choice(w, s, q) != i
    requires var k := Choice(w, s, q);
             Eligible(s.procs[k]) && Priority(w, s.procs[k], s.ticks) >= Priority(w, s.procs[i], s.ticks)
    ensures var s' := Turn(w, s, q);
            |s'.procs| == |s.procs| && Bound(w, s', i, n) + (if Choice(w, s, q) < n then 1 else 0) <= Bound(w, s, i, n)
  {
    if n > 0 {
      BoundShrinks(w, s, q, i, n - 1);
      var s', k := Turn(w, s, q), Choice(w, s, q);
      TurnPriorities(w, s, q, i);
      TurnPriorities(w, s, q, n - 1);
      if n - 1 == k {
        LeadShrinks(Priority(w, s.procs[k], s.ticks) - Priority(w, s.procs[i], s.ticks), w.alpha + w.beta, q.ran);
      }
    }
  }

  // While an eligible process above the threshold waits, somebody at least as good is picked.
  lemma SomebodyAhead(w: Weights, s: Sys, q: Quantum, i: nat)
    requires i < |s.procs| && DistinctPids(s.procs) && w.beta >= 0
    requires Eligible(s.procs[i]) && Priority(w, s.procs[i], s.ticks) > THRESHOLD
    ensures var k := Choice(w, s, q);
            k != -1 && Eligible(s.procs[k]) && Priority(w, s.procs[k], s.ticks) >= Priority(w, s.procs[i], s.ticks)
  {
    hide Priority, Eligible, DistinctPids, Best;
    var k, ticks := Choice(w, s, q), s.ticks + q.gap;
    GapPriority(w, s.procs[i], s.ticks, q.gap);
    MulLe(0, q.gap, w.beta);
    PickedAhead(w, s.procs, ticks, i);
    GapPriority(w, s.procs[k], s.ticks, q.gap);
  }

  lemma PickedAhead(w: Weights, ps: seq<Proc>, ticks: int, i: nat)
    requires i < |ps| && DistinctPids(ps) && Eligible(ps[i]) && Priority(w, ps[i], ticks) > THRESHOLD
    ensures var k := Best(w, ps, ticks, |ps|);
            k != -1 && Eligible(ps[k]) && Priority(w, ps[k], ticks) >= Priority(w, ps[i], ticks)
  {
    hide Priority, Eligible, DistinctPids, Best;
    var k := Best(w, ps, ticks, |ps|);
    BestIsTheMaximum(w, ps, ticks, |ps|);
    assert ps[i] == ps[i] && k != -1;
    assert ps[k] == ps[k] && IsBest(w, ps, ticks, |ps|, k);
    PidsDiffer(ps, i, k);
  }

  lemma PidsDiffer(ps: seq<Proc>, i: nat, k: nat)
    requires i < |ps| && k < |ps| && DistinctPids(ps) && Eligible(ps[i]) && Eligible(ps[k])
    ensures i == k || ps[i].pid != ps[k].pid
  {
  }

  // A process that waits stays eligible and does not sink.
  lemma WaitingStep(w: Weights, s: Sys, q: Quantum, i: nat)
    requires w.beta >= 0 && i < |s.procs| && DistinctPids(s.procs) && Choice(w, s, q) != i
    requires Eligible(s.procs[i]) && Priority(w, s.procs[i], s.ticks) > THRESHOLD
    ensures var s', k := Turn(w, s, q), Choice(w, s, q);
            && k != -1 && Eligible(s.procs[k]) && Priority(w, s.procs[k], s.ticks) >= Priority(w, s.procs[i], s.ticks)
            && |s'.procs| == |s.procs| && Eligible(s'.procs[i]) && Priority(w, s'.procs[i], s'.ticks) > THRESHOLD
            && DistinctPids(s'.procs)
  {
    hide Priority, Turn, Choice, Eligible, DistinctPids;
    SomebodyAhead(w, s, q, i);
    TurnPriorities(w, s, q, i);
    MulLe(0, q.gap + q.ran, w.beta);
    TurnPids(w, s, q);
  }

  lemma TurnPids(w: Weights, s: Sys, q: Quantum)
    requires Choice(w, s, q) != -1 && DistinctPids(s.procs) && Eligible(s.procs[Choice(w, s, q)])
    ensures DistinctPids(Turn(w, s, q).procs)
  {
    var s' := Turn(w, s, q);
    forall j | 0 <= j < |s'.procs|
      ensures s'.procs[j].pid == s.procs[j].pid && (Eligible(s'.procs[j]) ==> Eligible(s.procs[j]))
    {
      TurnPriorities(w, s, q, j);
    }
  }

  lemma GapPriority(w: Weights, p: Proc, ticks: int, gap: nat)
    ensures Priority(w, p, ticks + gap) == Priority(w, p, ticks) + w.beta * gap
  {
    var a := ticks - p.creationTime - p.totalRunTime - p.totalSleepingTime;
    assert w.beta * (a + gap) == w.beta * a + w.beta * gap;
  }

  /** Bounded waiting: whatever the others do with quanta of at least one tick, a waiting process is dispatched
      after at most Bound other dispatches, as long as no process joins. */
  lemma {:induction false} BoundedWaiting(w: Weights, s: Sys, i: nat, qs: seq<Quantum>)
    requires w.alpha >= 0 && w.beta >= 0 && w.alpha + w.beta > 0
    requires i < |s.procs| && DistinctPids(s.procs) && Eligible(s.procs[i])
    requires Priority(w, s.procs[i], s.ticks) > THRESHOLD
    requires forall q :: q in qs ==> q.ran >= 1
    requires NeverPicked(w, s, i, qs)
    ensures |qs| <= Bound(w, s, i, |s.procs|)
    decreases |qs|
  {
    if qs != [] {
      WaitingStep(w, s, qs[0], i);
      BoundShrinks(w, s, qs[0], i, |s.procs|);
      BoundedWaiting(w, Turn(w, s, qs[0]), i, qs[1..]);
    }
  }

  // ----- the bound is reached

  lemma BoundOfTwo(w: Weights, s: Sys)
    requires w.alpha + w.beta > 0 && |s.procs| == 2
    ensures Bound(w, s, 1, 2) == Share(w, s.procs[0], s.ticks, Priority(w, s.procs[1], s.ticks))
  {
    assert Bound(w, s, 1, 1) == Bound(w, s, 1, 0) + Share(w, s.procs[0], s.ticks, Priority(w, s.procs[1], s.ticks));
  }

  // A rival in front is dispatched first.
  lemma FrontFirst(w: Weights, s: Sys, q: Quantum)
    requires |s.procs| == 2 && Eligible(s.procs[0]) && Eligible(s.procs[1]) && s.procs[0].pid < s.procs[1].pid
    requires q.gap == 0 && Priority(w, s.procs[1], s.ticks) > THRESHOLD
    requires Priority(w, s.procs[0], s.ticks) >= Priority(w, s.procs[1], s.ticks)
    ensures Choice(w, s, q) == 0
  {
    hide Priority;
    assert Best(w, s.procs, s.ticks, 1) == 0 by { assert Best(w, s.procs, s.ticks, 0) == -1; }
  }

  lemma LeadExact(lead: int, c: int)
    requires lead >= 0 && c > 0
    ensures lead / c >= 0
    ensures lead / c == if lead - c >= 0 then (lead - c) / c + 1 else 0
  {
    var k := lead / c;
    assert lead == k * c + lead % c;
    if lead >= c {
      assert lead - c == (k - 1) * c + lead % c;
      QuotientIs(lead - c, c, k - 1, lead % c);
    } else {
      QuotientIs(lead, c, 0, lead);
    }
  }

  lemma QuotientIs(a: int, c: int, k: int, r: int)
    requires c > 0 && 0 <= r < c && a == k * c + r
    ensures a / c == k
  {
    var q := a / c;
    assert a == q * c + a % c && (k + 1) * c == k * c + c && (q + 1) * c == q * c + c;
    if q > k {
      MulLe(k + 1, q, c);
    } else if q < k {
      MulLe(q + 1, k, c);
    }
  }

  function OneTick(n: nat): seq<Quantum> {
    seq(n, k => Quantum(0, 1, RUNNABLE))
  }

  // One dispatch of the rival takes exactly one off the bound.
  lemma BoundByOne(w: Weights, s: Sys)
    requires w.alpha >= 0 && w.beta >= 0 && w.alpha + w.beta > 0
    requires |s.procs| == 2 && Eligible(s.procs[0]) && Choice(w, s, Quantum(0, 1, RUNNABLE)) == 0
    requires Priority(w, s.procs[0], s.ticks) >= Priority(w, s.procs[1], s.ticks)
    ensures var s' := Turn(w, s, Quantum(0, 1, RUNNABLE));
            |s'.procs| == 2 && Bound(w, s', 1, 2) + 1 == Bound(w, s, 1, 2)
            && Eligible(s'.procs[0]) && s'.procs[0].pid == s.procs[0].pid
  {
    var q := Quantum(0, 1, RUNNABLE);
    TurnPriorities(w, s, q, 0);
    TurnPriorities(w, s, q, 1);
    RivalStays(w, s, q);
    hide Turn, Choice, Priority;
    BoundOfTwo(w, s);
    BoundOfTwo(w, Turn(w, s, q));
    LeadExact(Priority(w, s.procs[0], s.ticks) - Priority(w, s.procs[1], s.ticks), w.alpha + w.beta);
  }

  lemma RivalStays(w: Weights, s: Sys, q: Quantum)
    requires |s.procs| == 2 && Eligible(s.procs[0]) && Choice(w, s, q) == 0 && q.after == RUNNABLE
    ensures var s' := Turn(w, s, q);
            |s'.procs| == 2 && Eligible(s'.procs[0]) && s'.procs[0].pid == s.procs[0].pid
  {
  }

  lemma {:induction false} WaitsOut(w: Weights, s: Sys, n: nat)
    requires w.alpha >= 0 && w.beta >= 0 && w.alpha + w.beta > 0
    requires |s.procs| == 2 && Eligible(s.procs[1]) && s.procs[0].pid < s.procs[1].pid && DistinctPids(s.procs)
    requires Priority(w, s.procs[1], s.ticks) > THRESHOLD && n <= Bound(w, s, 1, 2)
    ensures NeverPicked(w, s, 1, OneTick(n))
    decreases n
  {
    hide Turn, Choice, Priority, DistinctPids;
    if n > 0 {
      var q := Quantum(0, 1, RUNNABLE);
      assert OneTick(n)[0] == q && OneTick(n)[1..] == OneTick(n - 1);
      BoundOfTwo(w, s);
      FrontFirst(w, s, q);
      WaitingStep(w, s, q, 1);
      BoundByOne(w, s);
      TurnPriorities(w, s, q, 1);
      WaitsOut(w, Turn(w, s, q), n - 1);
    }
  }

  /** The bound is exact: with one rival of a lower pid, it is the least number of dispatches after which the waiting
      process is sure to have its turn. */
  lemma BoundIsLeast(w: Weights, s: Sys, b: nat)
    requires w.alpha >= 0 && w.beta >= 0 && w.alpha + w.beta > 0
    requires |s.procs| == 2 && s.procs[0].pid < s.procs[1].pid && Waits(w, s, 1)
    ensures WaitsAtMost(w, s, 1, b) <==> b >= Bound(w, s, 1, 2)
  {
    hide NeverPicked, Bound;
    BoundedWithAging(w, s, 1);
    var n := Bound(w, s, 1, 2);
    WaitsOut(w, s, n);
    assert |OneTick(n)| == n && forall q :: q in OneTick(n) ==> q.ran >= 1;
  }

  // ----- without aging there is no bound

  function Fresh(pid: int): Proc {
    Proc(pid, RUNNABLE, false, 0, 0, 0, true, 0, 0, 0, -1, false)
  }

  // The higher pid of two equal processes is not picked in the n turns, however many.
  lemma {:induction false} StarvesFrom(w: Weights, s: Sys, n: nat)
    requires w.alpha == 0 && w.beta == 0 && w.initial > THRESHOLD
    requires |s.procs| == 2 && Eligible(s.procs[0]) && Eligible(s.procs[1]) && s.procs[0].pid < s.procs[1].pid
    ensures NeverPicked(w, s, 1, seq(n, k => Quantum(0, 1, RUNNABLE)))
    decreases n
  {
    if n > 0 {
      var qs := seq(n, k => Quantum(0, 1, RUNNABLE));
      assert qs[1..] == seq((n - 1) as nat, k => Quantum(0, 1, RUNNABLE));
      assert Best(w, s.procs, s.ticks, 1) == 0 by { assert Best(w, s.procs, s.ticks, 0) == -1; }
      assert Choice(w, s, qs[0]) == 0;
      StarvesFrom(w, Turn(w, s, qs[0]), n - 1);
    }
  }

  lemma BoundedWithAging(w: Weights, s: Sys, i: nat)
    requires w.alpha >= 0 && w.beta >= 0 && w.alpha + w.beta > 0 && Waits(w, s, i)
    ensures WaitsAtMost(w, s, i, Bound(w, s, i, |s.procs|))
  {
    hide Bound, NeverPicked;
    forall qs: seq<Quantum> | (forall q :: q in qs ==> q.ran >= 1) && NeverPicked(w, s, i, qs)
      ensures |qs| <= Bound(w, s, i, |s.procs|)
    {
      BoundedWaiting(w, s, i, qs);
    }
  }

  lemma UnboundedWithout(w: Weights, b: nat)
    requires w.alpha == 0 && w.beta == 0 && w.initial > THRESHOLD
    ensures var s := Sys([Fresh(1), Fresh(2)], 0, -1);
            Waits(w, s, 1) && !WaitsAtMost(w, s, 1, b)
  {
    hide NeverPicked;
    var s := Sys([Fresh(1), Fresh(2)], 0, -1);
    StarvesFrom(w, s, b + 1);
    var qs := seq(b + 1, k => Quantum(0, 1, RUNNABLE));
    assert |qs| > b && forall q :: q in qs ==> q.ran >= 1;
  }

  /** With non-negative weights, waiting is bounded for every table exactly when they are not both zero. */
  lemma BoundedExactlyWithAging(w: Weights)
    requires w.alpha >= 0 && w.beta >= 0 && w.initial > THRESHOLD
    ensures w.alpha + w.beta > 0 <==>
      forall s: Sys, i: nat | Waits(w, s, i) :: exists b: nat :: WaitsAtMost(w, s, i, b)
  {
    hide Waits, WaitsAtMost, Bound;
    if w.alpha + w.beta > 0 {
      forall s: Sys, i: nat | Waits(w, s, i)
        ensures exists b: nat :: WaitsAtMost(w, s, i, b)
      {
        WaitsInside(w, s, i);
        BoundedWithAging(w, s, i);
      }
    } else {
      var s := Sys([Fresh(1), Fresh(2)], 0, -1);
      var i: nat := 1;
      forall b: nat
        ensures Waits(w, s, i) && !WaitsAtMost(w, s, i, b)
      {
        UnboundedWithout(w, b);
      }
      assert Waits(w, s, i) && !(exists b: nat :: WaitsAtMost(w, s, i, b)) by {
        UnboundedWithout(w, 0);
      }
    }
  }

  lemma WaitsInside(w: Weights, s: Sys, i: nat)
    requires Waits(w, s, i)
    ensures i < |s.procs|
  {
  }

  ghost predicate Waits(w: Weights, s: Sys, i: nat) {
    i < |s.procs| && DistinctPids(s.procs) && Eligible(s.procs[i]) && Priority(w, s.procs[i], s.ticks) > THRESHOLD
  }

  ghost predicate WaitsAtMost(w: Weights, s: Sys, i: nat, b: nat) {
    forall qs: seq<Quantum> {:trigger NeverPicked(w, s, i, qs)} ::
        (forall q :: q in qs ==> q.ran >= 1) && NeverPicked(w, s, i, qs) ==> |qs| <= b
  }
}
