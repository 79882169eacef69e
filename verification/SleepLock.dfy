/** Sleep locks over sleep and wakeup (sleeplock.c, proc.c): every interleaving of any number of processes
    on any number of CPUs, one lock operation or one guarded memory update at a time. */
module SleepLock {
  // What a process can sleep on: the sleep lock itself, or anything else.
  datatype Chan = NoChan | Lk | Other(id: nat)
  datatype RunState = RUNNABLE | RUNNING | SLEEPING

  // A spinlock. A process that switches away leaves ptable.lock to the scheduler.
  datatype Spin = Free | Held(p: nat) | Sched

  /** Where a process is. `owns`: it is between acquiresleep and releasesleep. */
  datatype Pc =
    | Out(owns: bool)
    // acquiresleep
    | AcqSpin | AcqTest | AcqSet | AcqPid | AcqDone
    // sleep(c, lk), where lk is some other lock when c is another channel
    | SleepSpin(c: Chan, owns: bool) | SleepDrop(c: Chan, owns: bool) | SleepMark(c: Chan, owns: bool)
    | SleepSwitch(c: Chan, owns: bool) | SleepOff(c: Chan, owns: bool) | SleepTidy(c: Chan, owns: bool)
    | SleepDone(c: Chan, owns: bool) | SleepAgain
    // releasesleep, and wakeup(c)
    | RelSpin | RelClear | RelPid
    | WakeSpin(c: Chan, owns: bool) | WakeScan(c: Chan, owns: bool, k: nat) | RelDone
    // kill(target)
    | KillSpin(target: nat, owns: bool) | KillScan(target: nat, owns: bool, k: nat)
    | KillDone(target: nat, owns: bool)
    // yield
    | YieldSpin(owns: bool) | YieldMark(owns: bool) | YieldSwitch(owns: bool)
    | YieldOff(owns: bool) | YieldBack(owns: bool)
    // holdingsleep
    | HoldSpin(owns: bool) | HoldTest(owns: bool) | HoldDone(owns: bool, r: bool)

  datatype Proc = Proc(pc: Pc, state: RunState, chan: Chan, killed: bool)
  // pid is 0 for none; process p has process id p + 1
  datatype Sys = Sys(procs: seq<Proc>, inner: Spin, pt: Spin, locked: bool, pid: nat)

  datatype Call = Acquire | Release | Sleep(id: nat) | Wakeup(id: nat) | Kill(target: nat) | Yield | Holding
  datatype Act = Begin(p: nat, call: Call) | Step(p: nat) | Pick(p: nat) | SchedRelease
  datatype Outcome = Next(s: Sys) | Blocked | Panic

  // Every process has just been created: off the CPU, to return through forkret.
  function Init(n: nat): Sys {
    Sys(seq(n, i => Proc(YieldOff(false), RUNNABLE, NoChan, false)), Free, Free, false, 0)
  }

  function At(s: Sys, p: nat, pc: Pc): Sys
    requires p < |s.procs|
  {
    s.(procs := s.procs[p := s.procs[p].(pc := pc)])
  }

  // The one memory update or lock operation a process makes next, and where it is then.
  datatype Op =
    | Wait
    | Goto(next: Pc)
    | TakeInner(next: Pc) | DropInner(next: Pc)     // acquire, release of the sleep lock's spinlock
    | TakePt(next: Pc) | DropPt(next: Pc)           // and of ptable.lock
    | SwitchOut(next: Pc)                           // sched
    | SetLocked(b: bool, next: Pc) | SetPid(pid: nat, next: Pc)
    | SetProc(state: RunState, chan: Chan, next: Pc)
    | WakeOne(k: nat, c: Chan, next: Pc)            // wakeup1's test on process k
    | KillOne(k: nat, next: Pc)

  function Code(s: Sys, p: nat): Op
    requires p < |s.procs|
  {
    match s.procs[p].pc
    case Out(owns) => Wait
    case AcqSpin => TakeInner(AcqTest)
    case AcqTest => Goto(if s.locked then SleepSpin(Lk, false) else AcqSet)
    case AcqSet => SetLocked(true, AcqPid)
    case AcqPid => SetPid(p + 1, AcqDone)
    case AcqDone => DropInner(Out(true))

    case SleepSpin(c, owns) => TakePt(SleepDrop(c, owns))
    case SleepDrop(c, owns) => if c == Lk then DropInner(SleepMark(c, owns)) else Goto(SleepMark(c, owns))
    case SleepMark(c, owns) => SetProc(SLEEPING, c, SleepSwitch(c, owns))
    case SleepSwitch(c, owns) => SwitchOut(SleepOff(c, owns))
    case SleepOff(c, owns) => Wait
    case SleepTidy(c, owns) => SetProc(s.procs[p].state, NoChan, SleepDone(c, owns))
    case SleepDone(c, owns) => DropPt(if c == Lk then SleepAgain else Out(owns))
    case SleepAgain => TakeInner(AcqTest)

    case RelSpin => TakeInner(RelClear)
    case RelClear => SetLocked(false, RelPid)
    case RelPid => SetPid(0, WakeSpin(Lk, false))
    case WakeSpin(c, owns) => TakePt(WakeScan(c, owns, 0))
    case WakeScan(c, owns, k) =>
      if k < |s.procs| then WakeOne(k, c, WakeScan(c, owns, k + 1)) else DropPt(if c == Lk then RelDone else Out(owns))
    case RelDone => DropInner(Out(false))

    case KillSpin(t, owns) => TakePt(KillScan(t, owns, 0))
    case KillScan(t, owns, k) =>
      if k >= |s.procs| then DropPt(Out(owns))
      else if k + 1 != t then Goto(KillScan(t, owns, k + 1))
      else KillOne(k, KillDone(t, owns))
    case KillDone(t, owns) => DropPt(Out(owns))

    case YieldSpin(owns) => TakePt(YieldMark(owns))
    case YieldMark(owns) => SetProc(RUNNABLE, s.procs[p].chan, YieldSwitch(owns))
    case YieldSwitch(owns) => SwitchOut(YieldOff(owns))
    case YieldOff(owns) => Wait
    case YieldBack(owns) => DropPt(Out(owns))

    case HoldSpin(owns) => TakeInner(HoldTest(owns))
    case HoldTest(owns) => Goto(HoldDone(owns, s.locked && s.pid == p + 1))
    case HoldDone(owns, r) => DropInner(Out(owns))
  }

  // acquire panics when the lock is held already, release when it is not; sched panics without ptable.lock,
  // with a second spinlock, or for a process still RUNNING.
  function DoStep(s: Sys, p: nat): Outcome
    requires p < |s.procs|
  {
    var q := s.procs[p];
    match Code(s, p)
    case Wait => Blocked
    case Goto(pc) => Next(At(s, p, pc))
    case TakeInner(pc) =>
      if s.inner == Held(p) then Panic else if s.inner != Free then Blocked else Next(At(s.(inner := Held(p)), p, pc))
    case DropInner(pc) => if s.inner != Held(p) then Panic else Next(At(s.(inner := Free), p, pc))
    case TakePt(pc) =>
      if s.pt == Held(p) then Panic else if s.pt != Free then Blocked else Next(At(s.(pt := Held(p)), p, pc))
    case DropPt(pc) => if s.pt != Held(p) then Panic else Next(At(s.(pt := Free), p, pc))
    case SwitchOut(pc) =>
      if s.pt != Held(p) || s.inner == Held(p) || q.state == RUNNING then Panic else Next(At(s.(pt := Sched), p, pc))
    case SetLocked(b, pc) => Next(At(s.(locked := b), p, pc))
    case SetPid(pid, pc) => Next(At(s.(pid := pid), p, pc))
    case SetProc(state, chan, pc) => Next(At(s.(procs := s.procs[p := q.(state := state, chan := chan)]), p, pc))
    case WakeOne(k, c, pc) => Next(At(s.(procs := s.procs[k := Wake(s.procs[k], c)]), p, pc))
    case KillOne(k, pc) =>
      Next(At(s.(procs := s.procs[k := Wake(s.procs[k], s.procs[k].chan).(killed := true)]), p, pc))
  }

  function Wake(q: Proc, c: Chan): Proc {
    if q.state == SLEEPING && q.chan == c then q.(state := RUNNABLE) else q
  }

  // A process outside calls in. Only an owner releases, and an owner does not acquire again.
  function DoBegin(s: Sys, p: nat, call: Call): Outcome
    requires p < |s.procs|
  {
    if !s.procs[p].pc.Out? then Blocked
    else
      var owns := s.procs[p].pc.owns;
      match call
      case Acquire => if owns then Blocked else Next(At(s, p, AcqSpin))
      case Release => if owns then Next(At(s, p, RelSpin)) else Blocked
      case Sleep(id) => Next(At(s, p, SleepSpin(Other(id), owns)))
      case Wakeup(id) => Next(At(s, p, WakeSpin(Other(id), owns)))
      case Kill(t) => Next(At(s, p, KillSpin(t, owns)))
      case Yield => Next(At(s, p, YieldSpin(owns)))
      case Holding => Next(At(s, p, HoldSpin(owns)))
  }

  // A scheduler takes (or still has) ptable.lock and switches to a RUNNABLE process.
  // Switching to a process that is still on a CPU would run two CPUs on one stack.
  function DoPick(s: Sys, p: nat): Outcome
    requires p < |s.procs|
  {
    if s.pt.Held? || s.procs[p].state != RUNNABLE then Blocked
    else
      var s' := s.(pt := Held(p), procs := s.procs[p := s.procs[p].(state := RUNNING)]);
      match s.procs[p].pc
      case SleepOff(c, owns) => Next(At(s', p, SleepTidy(c, owns)))
      case YieldOff(owns) => Next(At(s', p, YieldBack(owns)))
      case _ => Panic
  }

  function Do(s: Sys, a: Act): Outcome {
    match a
    case Begin(p, call) => if p < |s.procs| then DoBegin(s, p, call) else Blocked
    case Step(p) => if p < |s.procs| then DoStep(s, p) else Blocked
    case Pick(p) => if p < |s.procs| then DoPick(s, p) else Blocked
    case SchedRelease => if s.pt == Sched then Next(s.(pt := Free)) else Blocked
  }

  // The state after a schedule of actions; an action that is blocked does not happen.
  function Run(s: Sys, acts: seq<Act>): Outcome
    decreases |acts|
  {
    if acts == [] then Next(s)
    else
      match Do(s, acts[0])
      case Next(s') => Run(s', acts[1..])
      case Blocked => Run(s, acts[1..])
      case Panic => Panic
  }

  // ----- what holds in every reachable state

  predicate HoldsInner(pc: Pc) {
    || pc.AcqTest? || pc.AcqSet? || pc.AcqPid? || pc.AcqDone?
    || pc.RelClear? || pc.RelPid? || pc.RelDone? || pc.HoldTest? || pc.HoldDone?
    || ((pc.SleepSpin? || pc.SleepDrop? || pc.WakeSpin? || pc.WakeScan?) && pc.c == Lk)
  }

  predicate HoldsPt(pc: Pc) {
    || pc.SleepDrop? || pc.SleepMark? || pc.SleepSwitch? || pc.SleepTidy? || pc.SleepDone?
    || pc.WakeScan? || pc.KillScan? || pc.KillDone?
    || pc.YieldMark? || pc.YieldSwitch? || pc.YieldBack?
  }

  // From setting locked until clearing it.
  predicate Owns(pc: Pc) {
    || pc.AcqPid? || pc.AcqDone? || pc.RelSpin? || pc.RelClear?
    || ((pc.Out? || pc.SleepSpin? || pc.SleepDrop? || pc.SleepMark? || pc.SleepSwitch? || pc.SleepOff? || pc.SleepTidy?
         || pc.SleepDone?
         || pc.WakeSpin? || pc.WakeScan? || pc.KillSpin? || pc.KillScan? || pc.KillDone?
         || pc.YieldSpin? || pc.YieldMark? || pc.YieldSwitch? || pc.YieldOff? || pc.YieldBack?
         || pc.HoldSpin? || pc.HoldTest? || pc.HoldDone?) && pc.owns)
  }

  // Asleep on the lock, or past the point of no return on the way to it.
  predicate GoingToSleep(q: Proc) {
    (q.pc.SleepMark? || q.pc.SleepSwitch? || (q.pc.SleepOff? && q.state == SLEEPING)) && q.pc.c == Lk
  }

  // What each process's own fields say about where it is.
  predicate ProcOk(q: Proc) {
    && ((q.pc.SleepSpin? || q.pc.SleepDrop? || q.pc.SleepMark? || q.pc.SleepSwitch? || q.pc.SleepOff? || q.pc.SleepTidy?
         || q.pc.SleepDone?
         || q.pc.WakeSpin? || q.pc.WakeScan?) ==> q.pc.c != NoChan && (q.pc.c == Lk ==> !q.pc.owns))
    && (if q.pc.SleepSwitch? then q.state == SLEEPING
        else if q.pc.SleepOff? then q.state != RUNNING
        else if q.pc.YieldSwitch? || q.pc.YieldOff? then q.state == RUNNABLE
        else q.state == RUNNING)
    && (if q.pc.SleepSwitch? || q.pc.SleepOff? || q.pc.SleepTidy? then q.chan == q.pc.c else q.chan == NoChan)
  }

  // What each process's place says about the locks and the sleep lock's fields.
  predicate PlaceOk(s: Sys, p: nat)
    requires p < |s.procs|
  {
    var pc := s.procs[p].pc;
    && (s.inner == Held(p) <==> HoldsInner(pc))
    && (s.pt == Held(p) <==> HoldsPt(pc))
    && ((pc.SleepSpin? || pc.SleepDrop?) && pc.c == Lk ==> s.locked)
    && (pc.AcqSet? || pc.RelPid? ==> !s.locked)
    && (pc.HoldDone? ==> (pc.r <==> pc.owns))
    && (Owns(pc) ==> s.locked)
    && (Owns(pc) && !pc.AcqPid? ==> s.pid == p + 1)
  }

  // A wakeup on the lock is still to reach process p.
  predicate WakeComing(s: Sys, p: nat) {
    s.inner.Held? && s.inner.p < |s.procs|
    && var pc := s.procs[s.inner.p].pc;
       pc.RelPid? || (pc.WakeSpin? && pc.c == Lk) || (pc.WakeScan? && pc.c == Lk && pc.k <= p)
  }

  ghost predicate AllOk(s: Sys) {
    && !s.inner.Sched? && (s.inner.Held? ==> s.inner.p < |s.procs|) && (s.pt.Held? ==> s.pt.p < |s.procs|)
    && (forall p {:trigger s.procs[p]} :: 0 <= p < |s.procs| ==> ProcOk(s.procs[p]) && PlaceOk(s, p))
  }

  // At most one owner, and exactly one while locked is set.
  ghost predicate OneOwner(s: Sys) {
    && (forall p, r {:trigger s.procs[p], s.procs[r]} ::
          0 <= p < |s.procs| && 0 <= r < |s.procs| && Owns(s.procs[p].pc) && Owns(s.procs[r].pc) ==> p == r)
    && (s.locked ==> exists p :: 0 <= p < |s.procs| && Owns(s.procs[p].pc))
  }

  // Whoever sleeps on the lock will hear of its release.
  ghost predicate NoneMissed(s: Sys) {
    forall p {:trigger s.procs[p]} :: 0 <= p < |s.procs| && GoingToSleep(s.procs[p]) ==> s.locked || WakeComing(s, p)
  }

  ghost predicate Inv(s: Sys) {
    AllOk(s) && OneOwner(s) && NoneMissed(s)
  }

  lemma InitInv(n: nat)
    ensures Inv(Init(n))
  {
    forall p | 0 <= p < n
      ensures ProcOk(Init(n).procs[p]) && PlaceOk(Init(n), p)
    {
    }
  }

  // A step changes no other process, except that it may wake one while holding ptable.lock.
  lemma StepFrame(s: Sys, p: nat, r: nat)
    requires p < |s.procs| && r < |s.procs| && r != p && DoStep(s, p).Next?
    ensures var s' := DoStep(s, p).s;
            && |s'.procs| == |s.procs| && s'.procs[r].pc == s.procs[r].pc && s'.procs[r].chan == s.procs[r].chan
            && (s'.procs[r].state == s.procs[r].state
                || (HoldsPt(s.procs[p].pc) && s.procs[r].state == SLEEPING && s'.procs[r].state == RUNNABLE))
  {
  }

  lemma ScanInRange(s: Sys, p: nat)
    requires p < |s.procs|
    ensures var op := Code(s, p);
            op.WakeOne? || op.KillOne? ==> op.k < |s.procs|
  {
  }

  lemma StepShape(s: Sys, p: nat)
    requires p < |s.procs| && DoStep(s, p).Next?
    ensures var s', op := DoStep(s, p).s, Code(s, p);
            && !op.Wait? && |s'.procs| == |s.procs| && s'.procs[p].pc == op.next
            && (op.WakeOne? || op.KillOne? ==> op.k < |s.procs|)
  {
    hide Code;
    ScanInRange(s, p);
  }

  // How a spinlock passes through the hands of p.
  predicate Passes(was: Spin, now: Spin, p: nat, held: bool, holds: bool) {
    if holds then now == Held(p) && (held || was == Free) else if held then now == Free || now == Sched else now == was
  }

  // The code takes and drops its locks in the places where it should not and should hold them.
  lemma CodeLocks(s: Sys, p: nat)
    requires p < |s.procs| && ProcOk(s.procs[p]) && !Code(s, p).Wait?
    ensures var op, pc := Code(s, p), s.procs[p].pc;
            && HoldsInner(op.next) == (if op.TakeInner? then true else if op.DropInner? then false else HoldsInner(pc))
            && HoldsPt(op.next) == (if op.TakePt? then true else if op.DropPt? || op.SwitchOut? then false
              else HoldsPt(pc))
            && (op.TakeInner? ==> !HoldsInner(pc)) && (op.TakePt? ==> !HoldsPt(pc))
            && (op.DropInner? ==> HoldsInner(pc)) && (op.DropPt? ==> HoldsPt(pc))
            && (op.SwitchOut? ==> HoldsPt(pc) && !HoldsInner(pc) && s.procs[p].state != RUNNING)
            && (op.WakeOne? || op.KillOne? ==> HoldsPt(pc))
            && (op.SetLocked? || op.SetPid? ==> HoldsInner(pc))
  {
    CodeLocksInner(s, p);
    CodeLocksPt(s, p);
    hide Code, HoldsInner, HoldsPt;
  }

  lemma CodeLocksInner(s: Sys, p: nat)
    requires p < |s.procs| && ProcOk(s.procs[p]) && !Code(s, p).Wait?
    ensures var op, pc := Code(s, p), s.procs[p].pc;
            && HoldsInner(op.next) == (if op.TakeInner? then true else if op.DropInner? then false else HoldsInner(pc))
            && (op.TakeInner? ==> !HoldsInner(pc)) && (op.DropInner? ==> HoldsInner(pc))
            && (op.SwitchOut? ==> !HoldsInner(pc)) && (op.SetLocked? || op.SetPid? ==> HoldsInner(pc))
  {
    hide HoldsPt;
  }

  lemma CodeLocksPt(s: Sys, p: nat)
    requires p < |s.procs| && ProcOk(s.procs[p]) && !Code(s, p).Wait?
    ensures var op, pc := Code(s, p), s.procs[p].pc;
            && HoldsPt(op.next) == (if op.TakePt? then true else if op.DropPt? || op.SwitchOut? then false
              else HoldsPt(pc))
            && (op.TakePt? ==> !HoldsPt(pc)) && (op.DropPt? ==> HoldsPt(pc))
            && (op.SwitchOut? ==> HoldsPt(pc) && s.procs[p].state != RUNNING)
            && (op.WakeOne? || op.KillOne? ==> HoldsPt(pc))
  {
  }

  // The sleep lock is owned from setting locked to clearing it.
  lemma CodeOwns(s: Sys, p: nat)
    requires p < |s.procs| && ProcOk(s.procs[p]) && !Code(s, p).Wait?
    ensures var op, pc := Code(s, p), s.procs[p].pc;
            && Owns(op.next) == (if op.SetLocked? then op.b else Owns(pc))
            && (op.SetLocked? ==> (if op.b then pc.AcqSet? else Owns(pc)) && op.b == !Owns(pc))
            && (op.SetPid? ==> Owns(pc) || pc.RelPid?)
  {
  }

  lemma InnerEffect(s: Sys, p: nat)
    requires AllOk(s) && p < |s.procs| && DoStep(s, p).Next?
    ensures var s' := DoStep(s, p).s;
            |s'.procs| == |s.procs|
            && Passes(s.inner, s'.inner, p, HoldsInner(s.procs[p].pc), HoldsInner(s'.procs[p].pc)) && s'.inner != Sched
  {
    hide Code, HoldsInner, HoldsPt, Owns;
    StepShape(s, p);
    assert PlaceOk(s, p) && ProcOk(s.procs[p]);
    CodeLocks(s, p);
  }

  lemma PtEffect(s: Sys, p: nat)
    requires AllOk(s) && p < |s.procs| && DoStep(s, p).Next?
    ensures var s' := DoStep(s, p).s;
            |s'.procs| == |s.procs| && Passes(s.pt, s'.pt, p, HoldsPt(s.procs[p].pc), HoldsPt(s'.procs[p].pc))
  {
    hide Code, HoldsInner, HoldsPt, Owns;
    StepShape(s, p);
    assert PlaceOk(s, p) && ProcOk(s.procs[p]);
    CodeLocks(s, p);
  }

  // The sleep lock's own fields change only under its spinlock.
  lemma OwnEffect(s: Sys, p: nat)
    requires AllOk(s) && p < |s.procs| && DoStep(s, p).Next?
    ensures var s' := DoStep(s, p).s;
            && |s'.procs| == |s.procs|
            && (Owns(s'.procs[p].pc) && !Owns(s.procs[p].pc) ==> !s.locked && s'.locked)
            && (!Owns(s'.procs[p].pc) && Owns(s.procs[p].pc) ==> !s'.locked)
            && (Owns(s'.procs[p].pc) == Owns(s.procs[p].pc) ==> s'.locked == s.locked)
            && (s'.locked != s.locked || s'.pid != s.pid ==> s.inner == Held(p))
            && (s'.pid != s.pid ==> Owns(s.procs[p].pc) || !s.locked)
  {
    hide Code, HoldsInner, HoldsPt, Owns;
    StepShape(s, p);
    assert PlaceOk(s, p) && ProcOk(s.procs[p]);
    CodeLocks(s, p);
    CodeOwns(s, p);
  }

  lemma StepNoPanic(s: Sys, p: nat)
    requires Inv(s) && p < |s.procs|
    ensures !DoStep(s, p).Panic?
  {
    hide Code, HoldsInner, HoldsPt, Owns;
    assert PlaceOk(s, p) && ProcOk(s.procs[p]);
    if !Code(s, p).Wait? {
      CodeLocks(s, p);
    }
  }

  // What the code sets its own state and channel to fits the place it goes on to.
  lemma CodeProc(s: Sys, p: nat, killed: bool)
    requires p < |s.procs| && ProcOk(s.procs[p]) && !Code(s, p).Wait?
    ensures var op, q := Code(s, p), s.procs[p];
            && ProcOk(if op.SetProc? then Proc(op.next, op.state, op.chan, killed)
              else Proc(op.next, q.state, q.chan, killed))
            && (op.WakeOne? || op.KillOne? ==> q.state == RUNNING && op.k < |s.procs|)
  {
  }

  lemma StepProc(s: Sys, p: nat)
    requires AllOk(s) && p < |s.procs| && DoStep(s, p).Next?
    ensures |DoStep(s, p).s.procs| == |s.procs| && ProcOk(DoStep(s, p).s.procs[p])
  {
    hide Code, ProcOk, PlaceOk;
    StepShape(s, p);
    assert ProcOk(s.procs[p]);
    CodeProc(s, p, DoStep(s, p).s.procs[p].killed);
  }

  lemma StepPlace(s: Sys, p: nat)
    requires Inv(s) && p < |s.procs| && DoStep(s, p).Next?
    ensures |DoStep(s, p).s.procs| == |s.procs| && PlaceOk(DoStep(s, p).s, p)
  {
    assert PlaceOk(s, p) && ProcOk(s.procs[p]);
    InnerEffect(s, p);
    PtEffect(s, p);
    OwnEffect(s, p);
    StepFields(s, p);
  }

  // What the next place relies on, in terms of the fields as they will be.
  lemma CodeFields(s: Sys, p: nat)
    requires p < |s.procs| && ProcOk(s.procs[p]) && PlaceOk(s, p) && !Code(s, p).Wait?
    ensures var op := Code(s, p);
            var locked, pid := if op.SetLocked? then op.b else s.locked, if op.SetPid? then op.pid else s.pid;
            && ((op.next.SleepSpin? || op.next.SleepDrop?) && op.next.c == Lk ==> locked)
            && (op.next.AcqSet? || op.next.RelPid? ==> !locked)
            && (op.next.HoldDone? ==> s.procs[p].pc.HoldTest? && op.next.owns == s.procs[p].pc.owns)
            && (op.next.HoldDone? ==> (op.next.r <==> s.locked && s.pid == p + 1))
            && (Owns(op.next) && !op.next.AcqPid? ==> pid == p + 1)
  {
  }

  lemma StepFields(s: Sys, p: nat)
    requires Inv(s) && p < |s.procs| && DoStep(s, p).Next?
    ensures var s' := DoStep(s, p).s;
            && |s'.procs| == |s.procs|
            && var pc := s'.procs[p].pc;
               && ((pc.SleepSpin? || pc.SleepDrop?) && pc.c == Lk ==> s'.locked)
               && (pc.AcqSet? || pc.RelPid? ==> !s'.locked)
               && (pc.HoldDone? ==> (pc.r <==> pc.owns))
               && (Owns(pc) && !pc.AcqPid? ==> s'.pid == p + 1)
  {
    hide Code, HoldsPt;
    StepShape(s, p);
    assert PlaceOk(s, p) && ProcOk(s.procs[p]);
    CodeFields(s, p);
    if s.procs[p].pc.HoldTest? && s.locked {
      var r :| 0 <= r < |s.procs| && Owns(s.procs[r].pc);
      assert PlaceOk(s, r);
    }
  }

  lemma StepOther(s: Sys, p: nat, r: nat)
    requires Inv(s) && p < |s.procs| && r < |s.procs| && r != p && DoStep(s, p).Next?
    ensures var s' := DoStep(s, p).s;
            |s'.procs| == |s.procs| && ProcOk(s'.procs[r]) && PlaceOk(s', r)
  {
    hide DoStep, HoldsInner, HoldsPt, Owns;
    StepFrame(s, p, r);
    InnerEffect(s, p);
    PtEffect(s, p);
    OwnEffect(s, p);
    assert PlaceOk(s, p);
    assert PlaceOk(s, r) && ProcOk(s.procs[r]);
    InnerPlaces(s.procs[r].pc);
    OffPlaces(s.procs[r].pc);
  }

  lemma InnerPlaces(pc: Pc)
    ensures (pc.SleepSpin? || pc.SleepDrop?) && pc.c == Lk ==> HoldsInner(pc)
    ensures pc.AcqSet? || pc.RelPid? || pc.AcqPid? ==> HoldsInner(pc)
  {
  }

  lemma OffPlaces(pc: Pc)
    ensures pc.SleepSwitch? || pc.YieldSwitch? ==> HoldsPt(pc)
  {
  }

  lemma StepOneOwner(s: Sys, p: nat)
    requires Inv(s) && p < |s.procs| && DoStep(s, p).Next?
    ensures OneOwner(DoStep(s, p).s)
  {
    hide DoStep, HoldsInner, HoldsPt, Owns;
    var s' := DoStep(s, p).s;
    OwnEffect(s, p);
    forall r | 0 <= r < |s.procs| && r != p
      ensures s'.procs[r].pc == s.procs[r].pc
      ensures Owns(s.procs[r].pc) ==> s.locked
    {
      StepFrame(s, p, r);
      assert PlaceOk(s, r);
    }
    if s'.locked && !Owns(s'.procs[p].pc) {
      var r :| 0 <= r < |s.procs| && Owns(s.procs[r].pc);
      assert r != p && Owns(s'.procs[r].pc);
    }
  }

  // A wakeup under way passes nobody by.
  lemma ComingEffect(s: Sys, p: nat, r: nat)
    requires AllOk(s) && p < |s.procs| && r < |s.procs| && DoStep(s, p).Next? && s.inner == Held(p) && WakeComing(s, r)
    requires r != p
    ensures var s' := DoStep(s, p).s;
            |s'.procs| == |s.procs| && (GoingToSleep(s'.procs[r]) ==> WakeComing(s', r))
  {
    assert PlaceOk(s, p) && ProcOk(s.procs[p]);
    assert PlaceOk(s, r) && ProcOk(s.procs[r]);
  }

  lemma ReleaseStartsWake(s: Sys, p: nat, r: nat)
    requires AllOk(s) && p < |s.procs| && DoStep(s, p).Next? && s.locked && !DoStep(s, p).s.locked
    ensures WakeComing(DoStep(s, p).s, r)
  {
    assert PlaceOk(s, p) && ProcOk(s.procs[p]);
  }

  // Nobody sets out to sleep on a free lock.
  lemma SleepEffect(s: Sys, p: nat)
    requires AllOk(s) && p < |s.procs| && DoStep(s, p).Next?
    ensures var s' := DoStep(s, p).s;
            && |s'.procs| == |s.procs|
            && (GoingToSleep(s'.procs[p]) ==> s'.locked || GoingToSleep(s.procs[p]))
            && (GoingToSleep(s.procs[p]) ==> s.inner != Held(p) && s'.locked == s.locked)
  {
    hide Code, HoldsPt, HoldsInner, Owns, GoingToSleep;
    assert PlaceOk(s, p) && ProcOk(s.procs[p]);
    StepShape(s, p);
    CodeSleeps(s, p);
    CodeLocks(s, p);
    WhereSleeping(s.procs[p]);
    WhereSleeping(DoStep(s, p).s.procs[p]);
  }

  lemma CodeSleeps(s: Sys, p: nat)
    requires p < |s.procs| && !Code(s, p).Wait?
    ensures var op, pc := Code(s, p), s.procs[p].pc;
            && (op.next.SleepMark? ==> pc.SleepDrop? && pc.c == op.next.c && !op.SetLocked?)
            && (op.next.SleepSwitch? ==> pc.SleepMark? && pc.c == op.next.c)
            && (op.next.SleepOff? ==> pc.SleepSwitch? && pc.c == op.next.c)
  {
  }

  lemma WhereSleeping(q: Proc)
    ensures GoingToSleep(q) ==>
      (q.pc.SleepMark? || q.pc.SleepSwitch? || q.pc.SleepOff?) && q.pc.c == Lk && !HoldsInner(q.pc)
    ensures (q.pc.SleepMark? || q.pc.SleepSwitch?) && q.pc.c == Lk ==> GoingToSleep(q)
  {
  }

  lemma StepNoneMissed(s: Sys, p: nat, r: nat)
    requires Inv(s) && p < |s.procs| && r < |s.procs| && DoStep(s, p).Next?
    ensures var s' := DoStep(s, p).s;
            |s'.procs| == |s.procs| && (GoingToSleep(s'.procs[r]) ==> s'.locked || WakeComing(s', r))
  {
    hide DoStep, HoldsInner, HoldsPt, Owns;
    var s' := DoStep(s, p).s;
    StepFrameAll(s, p);
    if GoingToSleep(s'.procs[r]) && !s'.locked {
      if s.locked {
        ReleaseStartsWake(s, p, r);
      } else {
        SleepEffect(s, p);
        assert GoingToSleep(s.procs[r]);
        var w := s.inner.p;
        if w == p {
          ComingEffect(s, p, r);
        } else {
          InnerEffect(s, p);
          assert PlaceOk(s, p) && PlaceOk(s, w);
        }
      }
    }
  }

  lemma StepFrameAll(s: Sys, p: nat)
    requires AllOk(s) && p < |s.procs| && DoStep(s, p).Next?
    ensures var s' := DoStep(s, p).s;
            |s'.procs| == |s.procs| && forall r :: 0 <= r < |s.procs| && r != p ==>
              s'.procs[r].pc == s.procs[r].pc && (GoingToSleep(s'.procs[r]) ==> GoingToSleep(s.procs[r]))
  {
    hide DoStep, HoldsPt;
    var s' := DoStep(s, p).s;
    StepProc(s, p);
    forall r | 0 <= r < |s.procs| && r != p
      ensures s'.procs[r].pc == s.procs[r].pc && (GoingToSleep(s'.procs[r]) ==> GoingToSleep(s.procs[r]))
    {
      StepFrame(s, p, r);
    }
  }

  lemma StepKeepsInv(s: Sys, p: nat)
    requires Inv(s) && p < |s.procs|
    ensures !DoStep(s, p).Panic?
    ensures DoStep(s, p).Next? ==> Inv(DoStep(s, p).s)
  {
    hide DoStep, ProcOk, PlaceOk, GoingToSleep, WakeComing, HoldsPt, HoldsInner, Owns;
    StepNoPanic(s, p);
    if DoStep(s, p).Next? {
      var s' := DoStep(s, p).s;
      StepProc(s, p);
      StepPlace(s, p);
      StepOneOwner(s, p);
      forall r | 0 <= r < |s.procs|
        ensures ProcOk(s'.procs[r]) && PlaceOk(s', r)
        ensures GoingToSleep(s'.procs[r]) ==> s'.locked || WakeComing(s', r)
      {
        if r != p {
          StepOther(s, p, r);
        }
        StepNoneMissed(s, p, r);
      }
      InnerEffect(s, p);
      PtEffect(s, p);
    }
  }

  // Where a process goes when it calls in from outside: it holds nothing, and owns what it owned.
  lemma BeginPlace(s: Sys, p: nat, call: Call)
    requires p < |s.procs| && DoBegin(s, p, call).Next? && ProcOk(s.procs[p])
    ensures var pc, s' := s.procs[p].pc, DoBegin(s, p, call).s;
            && |s'.procs| == |s.procs|
            && var pc' := s'.procs[p].pc;
               && s' == At(s, p, pc') && ProcOk(s'.procs[p])
               && !HoldsInner(pc) && !HoldsPt(pc) && !HoldsInner(pc') && !HoldsPt(pc') && Owns(pc') == Owns(pc)
               && !pc.AcqPid? && !pc'.AcqSet? && !pc'.RelPid? && !pc'.HoldDone? && !GoingToSleep(s'.procs[p])
               && !(pc'.SleepSpin? && pc'.c == Lk) && !pc'.SleepDrop?
  {
  }

  lemma BeginKeepsInv(s: Sys, p: nat, call: Call)
    requires Inv(s) && p < |s.procs|
    ensures !DoBegin(s, p, call).Panic?
    ensures DoBegin(s, p, call).Next? ==> Inv(DoBegin(s, p, call).s)
  {
    if DoBegin(s, p, call).Next? {
      var s' := DoBegin(s, p, call).s;
      assert PlaceOk(s, p) && ProcOk(s.procs[p]);
      BeginPlace(s, p, call);
      MoveKeepsInv(s, p, s'.procs[p].pc);
    }
  }

  lemma MoveKeepsInv(s: Sys, p: nat, pc': Pc)
    requires Inv(s) && p < |s.procs|
    requires var pc := s.procs[p].pc;
             && ProcOk(s.procs[p].(pc := pc'))
             && !HoldsInner(pc) && !HoldsPt(pc) && !HoldsInner(pc') && !HoldsPt(pc') && Owns(pc') == Owns(pc)
             && !pc.AcqPid? && !pc'.AcqSet? && !pc'.RelPid? && !pc'.HoldDone? && !GoingToSleep(s.procs[p].(pc := pc'))
             && !(pc'.SleepSpin? && pc'.c == Lk) && !pc'.SleepDrop?
    ensures Inv(At(s, p, pc'))
  {
    hide HoldsInner, HoldsPt, Owns, GoingToSleep;
    var s' := At(s, p, pc');
    forall r | 0 <= r < |s.procs|
      ensures ProcOk(s'.procs[r]) && PlaceOk(s', r)
      ensures GoingToSleep(s'.procs[r]) ==> s'.locked || WakeComing(s', r)
    {
      assert PlaceOk(s, r) && ProcOk(s.procs[r]) && PlaceOk(s, p);
    }
    if s.locked {
      var r :| 0 <= r < |s.procs| && Owns(s.procs[r].pc);
      assert Owns(s'.procs[r].pc);
    }
  }

  // A process that is picked goes on with ptable.lock held.
  lemma PickPlace(s: Sys, p: nat)
    requires p < |s.procs| && PlaceOk(s, p) && ProcOk(s.procs[p])
    ensures !DoPick(s, p).Panic?
    ensures DoPick(s, p).Next? ==>
      var pc, s' := s.procs[p].pc, DoPick(s, p).s;
      && !s.pt.Held? && |s'.procs| == |s.procs|
      && s' == s.(pt := Held(p), procs := s.procs[p := s'.procs[p]]) && ProcOk(s'.procs[p])
      && var pc' := s'.procs[p].pc;
         && HoldsInner(pc') == HoldsInner(pc) && HoldsPt(pc') && Owns(pc') == Owns(pc) && !GoingToSleep(s'.procs[p])
         && !pc.AcqPid? && (pc'.SleepTidy? || pc'.YieldBack?)
  {
  }

  lemma PickKeepsInv(s: Sys, p: nat)
    requires Inv(s) && p < |s.procs|
    ensures !DoPick(s, p).Panic?
    ensures DoPick(s, p).Next? ==> Inv(DoPick(s, p).s)
  {
    assert PlaceOk(s, p) && ProcOk(s.procs[p]);
    PickPlace(s, p);
    hide HoldsInner, HoldsPt, Owns, GoingToSleep, DoPick;
    if DoPick(s, p).Next? {
      var s' := DoPick(s, p).s;
      forall r | 0 <= r < |s.procs|
        ensures ProcOk(s'.procs[r]) && PlaceOk(s', r)
      {
        assert PlaceOk(s, r) && ProcOk(s.procs[r]);
      }
      if s.locked {
        var r :| 0 <= r < |s.procs| && Owns(s.procs[r].pc);
        assert Owns(s'.procs[r].pc);
      }
    }
  }

  lemma {:induction false} RunKeepsInv(s: Sys, acts: seq<Act>)
    requires Inv(s)
    ensures Run(s, acts).Next? && Inv(Run(s, acts).s)
    decreases |acts|
  {
    if acts != [] {
      ActKeepsInv(s, acts[0]);
      match Do(s, acts[0])
      case Next(s') => RunKeepsInv(s', acts[1..]);
      case Blocked => RunKeepsInv(s, acts[1..]);
    }
  }

  lemma ActKeepsInv(s: Sys, a: Act)
    requires Inv(s)
    ensures !Do(s, a).Panic?
    ensures Do(s, a).Next? ==> Inv(Do(s, a).s)
  {
    hide DoStep, DoBegin, DoPick, Inv;
    match a
    case Begin(p, call) => if p < |s.procs| { BeginKeepsInv(s, p, call); }
    case Step(p) => if p < |s.procs| { StepKeepsInv(s, p); }
    case Pick(p) => if p < |s.procs| { PickKeepsInv(s, p); }
    case SchedRelease => if s.pt == Sched { ReleaseKeepsInv(s); }
  }

  lemma ReleaseKeepsInv(s: Sys)
    requires Inv(s) && s.pt == Sched
    ensures Inv(s.(pt := Free))
  {
    forall r | 0 <= r < |s.procs|
      ensures PlaceOk(s.(pt := Free), r)
    {
      assert PlaceOk(s, r);
    }
  }

  // ----- what this promises

  /** However the processes are interleaved, nothing panics, and at most one process owns the sleep lock: from taking
      it, through whatever it does inside, to giving it up. */
  lemma MutualExclusion(n: nat, acts: seq<Act>)
    ensures Run(Init(n), acts).Next?
    ensures var s := Run(Init(n), acts).s;
            forall p, r {:trigger s.procs[p], s.procs[r]} ::
              0 <= p < |s.procs| && 0 <= r < |s.procs| && Owns(s.procs[p].pc) && Owns(s.procs[r].pc) ==> p == r
  {
    InitInv(n);
    RunKeepsInv(Init(n), acts);
  }

  /** Whenever the spinlock is free and the sleep lock is not taken, nobody is asleep on it or about to be. */
  lemma NoLostWakeup(n: nat, acts: seq<Act>)
    ensures Run(Init(n), acts).Next?
    ensures var s := Run(Init(n), acts).s;
            s.inner == Free && !s.locked ==> forall p {:trigger s.procs[p]} :: 0 <= p < |s.procs| ==>
              !GoingToSleep(s.procs[p]) && !(s.procs[p].state == SLEEPING && s.procs[p].chan == Lk)
  {
    InitInv(n);
    RunKeepsInv(Init(n), acts);
    var s := Run(Init(n), acts).s;
    forall p | 0 <= p < |s.procs|
      ensures s.procs[p].state == SLEEPING && s.procs[p].chan == Lk ==> GoingToSleep(s.procs[p])
    {
      assert ProcOk(s.procs[p]);
    }
  }

  /** The lock is taken exactly while some process is inside, and that process is never the one asleep on it. */
  lemma TakenMeansOwned(n: nat, acts: seq<Act>)
    ensures Run(Init(n), acts).Next?
    ensures var s := Run(Init(n), acts).s;
            && (s.locked <==> exists p {:trigger s.procs[p]} :: 0 <= p < |s.procs| && Owns(s.procs[p].pc))
            && (forall p {:trigger s.procs[p]} :: 0 <= p < |s.procs| && Owns(s.procs[p].pc) ==>
                  !GoingToSleep(s.procs[p]))
            && (forall p {:trigger s.procs[p]} :: 0 <= p < |s.procs| && s.procs[p].pc.HoldDone? ==>
                  s.procs[p].pc.r == s.procs[p].pc.owns)
  {
    InitInv(n);
    RunKeepsInv(Init(n), acts);
    var s := Run(Init(n), acts).s;
    forall p | 0 <= p < |s.procs|
      ensures Owns(s.procs[p].pc) ==> s.locked && !GoingToSleep(s.procs[p])
      ensures s.procs[p].pc.HoldDone? ==> s.procs[p].pc.r == s.procs[p].pc.owns
    {
      assert ProcOk(s.procs[p]) && PlaceOk(s, p);
    }
  }

  /** No deadlock between the two spinlocks: whoever holds ptable.lock can go on, and when nobody does,
      whoever holds the sleep lock's spinlock can. */
  lemma HoldersCanGoOn(n: nat, acts: seq<Act>)
    ensures Run(Init(n), acts).Next?
    ensures var s := Run(Init(n), acts).s;
            && (s.pt.Held? ==> s.pt.p < |s.procs| && DoStep(s, s.pt.p).Next?)
            && (s.pt == Free && s.inner.Held? ==> s.inner.p < |s.procs| && DoStep(s, s.inner.p).Next?)
  {
    InitInv(n);
    RunKeepsInv(Init(n), acts);
    var s := Run(Init(n), acts).s;
    if s.pt.Held? {
      CanGoOn(s, s.pt.p);
    } else if s.pt == Free && s.inner.Held? {
      CanGoOn(s, s.inner.p);
    }
  }

  // ----- what wakeup and kill do, on every channel

  predicate AsleepOn(q: Proc, c: Chan) {
    q.state == SLEEPING && q.chan == c
  }

  predicate Done(q: Proc) {
    q.killed && q.state != SLEEPING
  }

  // The scan of process w has left nobody behind it asleep on its channel; the process killed is awake and marked.
  ghost predicate ScanOk(s: Sys, w: nat)
    requires w < |s.procs|
  {
    var pc := s.procs[w].pc;
    && (pc.WakeScan? ==> forall r {:trigger s.procs[r]} :: 0 <= r < pc.k && r < |s.procs| ==>
          !AsleepOn(s.procs[r], pc.c))
    && (pc.KillScan? ==> !(1 <= pc.target <= pc.k))
    && (pc.KillDone? ==> 1 <= pc.target <= |s.procs| && Done(s.procs[pc.target - 1]))
  }

  ghost predicate ScansOk(s: Sys) {
    forall w {:trigger s.procs[w]} :: 0 <= w < |s.procs| ==> ScanOk(s, w)
  }

  // Process r is the one that p wakes or kills next.
  predicate Reaches(s: Sys, p: nat, r: nat)
    requires p < |s.procs| && r < |s.procs|
  {
    var pc := s.procs[p].pc;
    (pc.WakeScan? && pc.k == r && AsleepOn(s.procs[r], pc.c)) || (pc.KillScan? && pc.k == r && pc.target == r + 1)
  }

  /** One step by p on another process r, exactly: it wakes the sleeper that its wakeup has come to and the target of
      its kill, which it marks; it does nothing else, and nothing to any other process. */
  lemma StepOnOther(s: Sys, p: nat, r: nat)
    requires p < |s.procs| && r < |s.procs| && r != p && DoStep(s, p).Next?
    ensures var s' := DoStep(s, p).s;
            && |s'.procs| == |s.procs|
            && s'.procs[r] == s.procs[r].(
                 state := if Reaches(s, p, r) && s.procs[r].state == SLEEPING then RUNNABLE else s.procs[r].state,
                 killed := s.procs[r].killed || (Reaches(s, p, r) && s.procs[p].pc.KillScan?))
  {
  }

  // What the code does to processes, and where.
  lemma CodeReach(s: Sys, p: nat)
    requires p < |s.procs| && !Code(s, p).Wait?
    ensures var op, q := Code(s, p), s.procs[p];
            && (op.SetProc? ==> !q.pc.KillScan? && (op.state == SLEEPING ==> q.state == SLEEPING || q.pc.SleepMark?))
            && (op.WakeOne? ==> q.pc.WakeScan?)
            && (op.KillOne? <==> q.pc.KillScan? && q.pc.k < |s.procs| && q.pc.target == q.pc.k + 1)
            && (op.KillOne? ==> op.k == q.pc.k)
  {
  }

  // And on itself: it goes to sleep only at the mark, is killed only by itself, and never unmarked.
  lemma StepOnItself(s: Sys, p: nat)
    requires p < |s.procs| && DoStep(s, p).Next?
    ensures var s' := DoStep(s, p).s;
            && |s'.procs| == |s.procs|
            && (s'.procs[p].state == SLEEPING ==> s.procs[p].state == SLEEPING || s.procs[p].pc.SleepMark?)
            && s'.procs[p].killed == (s.procs[p].killed || (s.procs[p].pc.KillScan? && Reaches(s, p, p)))
  {
    hide Code;
    StepShape(s, p);
    CodeReach(s, p);
  }

  // A scan begins at the first process, goes on by one, and a kill ends it at its target only.
  lemma CodeScan(s: Sys, p: nat)
    requires p < |s.procs| && !Code(s, p).Wait?
    ensures var op, pc := Code(s, p), s.procs[p].pc;
            && (op.next.WakeScan? ==>
                  if op.WakeOne? then pc.WakeScan? && op.next.k == pc.k + 1 && op.k == pc.k && op.c == pc.c == op.next.c
                  else op.TakePt? && op.next.k == 0)
            && (op.next.KillScan? ==>
                  if op.TakePt? then op.next.k == 0
                  else op.Goto? && pc.KillScan? && pc.target == op.next.target && op.next.k == pc.k + 1 != pc.target)
            && (op.next.KillDone? ==> op.KillOne? && op.next.target == op.k + 1)
  {
    hide HoldsPt;
  }

  lemma ScanAdvances(s: Sys, p: nat)
    requires AllOk(s) && p < |s.procs| && DoStep(s, p).Next? && ScanOk(s, p)
    ensures ScanOk(DoStep(s, p).s, p)
  {
    hide Code, HoldsPt, HoldsInner, Owns, PlaceOk, ProcOk;
    var s' := DoStep(s, p).s;
    StepShape(s, p);
    CodeScan(s, p);
    var pc := s'.procs[p].pc;
    if pc.WakeScan? {
      forall r | 0 <= r < pc.k && r < |s.procs|
        ensures !AsleepOn(s'.procs[r], pc.c)
      {
      }
    }
  }

  lemma ScanStays(s: Sys, p: nat, w: nat)
    requires AllOk(s) && p < |s.procs| && w < |s.procs| && w != p && DoStep(s, p).Next? && ScanOk(s, w)
    ensures ScanOk(DoStep(s, p).s, w)
  {
    hide DoStep, HoldsPt, HoldsInner, Owns;
    var s' := DoStep(s, p).s;
    assert PlaceOk(s, w) && PlaceOk(s, p);
    ScanHolds(s.procs[w].pc);
    StepOnOther(s, p, w);
    forall r | 0 <= r < |s.procs|
      ensures s'.procs[r].state == SLEEPING && HoldsPt(s.procs[w].pc) ==>
                s.procs[r].state == SLEEPING && s'.procs[r].chan == s.procs[r].chan
      ensures s.procs[r].killed ==> s'.procs[r].killed
    {
      if r == p {
        StepOnItself(s, p);
        if !HoldsPt(s.procs[p].pc) { OutsidePt(s, p); }
      } else {
        StepOnOther(s, p, r);
      }
    }
  }

  lemma ScanHolds(pc: Pc)
    ensures pc.WakeScan? || pc.KillScan? || pc.KillDone? || pc.SleepMark? ==> HoldsPt(pc)
  {
  }

  // Without ptable.lock a process does not change its own state or channel.
  lemma OutsidePt(s: Sys, p: nat)
    requires p < |s.procs| && DoStep(s, p).Next? && !HoldsPt(s.procs[p].pc)
    ensures var s' := DoStep(s, p).s;
            |s'.procs| == |s.procs| && s'.procs[p].state == s.procs[p].state && s'.procs[p].chan == s.procs[p].chan
  {
  }

  lemma BeginKeepsScans(s: Sys, p: nat, call: Call)
    requires ScansOk(s) && p < |s.procs| && DoBegin(s, p, call).Next?
    ensures ScansOk(DoBegin(s, p, call).s)
  {
    var s' := DoBegin(s, p, call).s;
    forall w | 0 <= w < |s'.procs|
      ensures ScanOk(s', w)
    {
      assert ScanOk(s, w);
    }
  }

  lemma StepKeepsScans(s: Sys, p: nat)
    requires AllOk(s) && ScansOk(s) && p < |s.procs| && DoStep(s, p).Next?
    ensures ScansOk(DoStep(s, p).s)
  {
    hide DoStep, ScanOk, AllOk;
    var s' := DoStep(s, p).s;
    StepShape(s, p);
    forall w | 0 <= w < |s'.procs|
      ensures ScanOk(s', w)
    {
      assert ScanOk(s, w) by { assert s.procs[w] == s.procs[w]; }
      if w == p { ScanAdvances(s, p); } else { ScanStays(s, p, w); }
    }
  }

  lemma PickKeepsScans(s: Sys, p: nat)
    requires AllOk(s) && ScansOk(s) && p < |s.procs| && DoPick(s, p).Next?
    ensures ScansOk(DoPick(s, p).s)
  {
    hide HoldsPt, HoldsInner, Owns, ProcOk;
    var s' := DoPick(s, p).s;
    forall w | 0 <= w < |s'.procs|
      ensures ScanOk(s', w)
    {
      assert ScanOk(s, w) && PlaceOk(s, w);
      ScanHolds(s.procs[w].pc);
    }
  }

  lemma ReleaseKeepsScans(s: Sys)
    requires ScansOk(s)
    ensures ScansOk(s.(pt := Free))
  {
    forall w | 0 <= w < |s.procs|
      ensures ScanOk(s.(pt := Free), w)
    {
      assert ScanOk(s, w);
    }
  }

  lemma ActKeepsScans(s: Sys, a: Act)
    requires Inv(s) && ScansOk(s) && Do(s, a).Next?
    ensures ScansOk(Do(s, a).s)
  {
    hide DoStep, DoBegin, DoPick, ScansOk;
    match a
    case Begin(p, call) => BeginKeepsScans(s, p, call);
    case Step(p) => StepKeepsScans(s, p);
    case Pick(p) => PickKeepsScans(s, p);
    case SchedRelease => ReleaseKeepsScans(s);
  }

  lemma {:induction false} RunKeepsScans(s: Sys, acts: seq<Act>)
    requires Inv(s) && ScansOk(s)
    ensures Run(s, acts).Next? && ScansOk(Run(s, acts).s)
    decreases |acts|
  {
    if acts != [] {
      ActKeepsInv(s, acts[0]);
      match Do(s, acts[0])
      case Next(s') =>
        ActKeepsScans(s, acts[0]);
        RunKeepsScans(s', acts[1..]);
      case Blocked => RunKeepsScans(s, acts[1..]);
    }
  }

  /** In every reachable state and for every channel: a wakeup leaves no process that it has passed asleep on its
      channel, so at its end none is; and at the end of a kill that found its target, the target is marked and awake,
      while one that ran to the end of the table had no target there. */
  lemma WakeupAndKill(n: nat, acts: seq<Act>, w: nat)
    requires w < n
    ensures Run(Init(n), acts).Next? && |Run(Init(n), acts).s.procs| == n
    ensures var s := Run(Init(n), acts).s;
            var pc := s.procs[w].pc;
            && (pc.WakeScan? ==> forall r {:trigger s.procs[r]} :: 0 <= r < n && r < pc.k ==>
                  !(s.procs[r].state == SLEEPING && s.procs[r].chan == pc.c))
            && (pc.KillDone? ==>
                  1 <= pc.target <= n && s.procs[pc.target - 1].killed && s.procs[pc.target - 1].state != SLEEPING)
            && (pc.KillScan? && pc.k >= n ==> pc.target == 0 || pc.target > n)
  {
    InitInv(n);
    forall p | 0 <= p < n
      ensures ScanOk(Init(n), p)
    {
    }
    RunKeepsScans(Init(n), acts);
    SameTable(Init(n), acts);
    var s := Run(Init(n), acts).s;
    assert ScanOk(s, w);
  }

  lemma {:induction false} SameTable(s: Sys, acts: seq<Act>)
    requires Run(s, acts).Next?
    ensures |Run(s, acts).s.procs| == |s.procs|
    decreases |acts|
  {
    hide DoStep;
    if acts != [] {
      match Do(s, acts[0])
      case Next(s') =>
        if acts[0].Step? { StepShape(s, acts[0].p); }
        SameTable(s', acts[1..]);
      case Blocked => SameTable(s, acts[1..]);
    }
  }

  // ----- calls

  // A call under way, and whether the process owned the sleep lock when it began.
  datatype Calling = Calling(call: Call, owned: bool)

  // The places of each call. Out of it, acquire has made the process the owner and release has ended that.
  predicate Serves(pc: Pc, g: Calling) {
    match g.call
    case Acquire =>
      || pc == Out(true) || pc.AcqSpin? || pc.AcqTest? || pc.AcqSet? || pc.AcqPid? || pc.AcqDone? || pc.SleepAgain?
      || SleepsOn(pc, Lk, false)
    case Release => pc == Out(false) || pc.RelSpin? || pc.RelClear? || pc.RelPid? || pc.RelDone? || Wakes(pc, Lk, false)
    case Sleep(id) => pc == Out(g.owned) || SleepsOn(pc, Other(id), g.owned)
    case Wakeup(id) => pc == Out(g.owned) || Wakes(pc, Other(id), g.owned)
    case Kill(t) =>
      || pc == Out(g.owned)
      || ((pc.KillSpin? || pc.KillScan? || pc.KillDone?) && pc.target == t && pc.owns == g.owned)
    case Yield =>
      || pc == Out(g.owned)
      || ((pc.YieldSpin? || pc.YieldMark? || pc.YieldSwitch? || pc.YieldOff? || pc.YieldBack?) && pc.owns == g.owned)
    case Holding => pc == Out(g.owned) || ((pc.HoldSpin? || pc.HoldTest? || pc.HoldDone?) && pc.owns == g.owned)
  }

  predicate SleepsOn(pc: Pc, c: Chan, owns: bool) {
    && (pc.SleepSpin? || pc.SleepDrop? || pc.SleepMark? || pc.SleepSwitch? || pc.SleepOff? || pc.SleepTidy?
        || pc.SleepDone?)
    && pc.c == c && pc.owns == owns
  }

  predicate Wakes(pc: Pc, c: Chan, owns: bool) {
    (pc.WakeSpin? || pc.WakeScan?) && pc.c == c && pc.owns == owns
  }

  // The call that process p has begun last.
  function CallOf(s: Sys, acts: seq<Act>, p: nat, g: Calling): Calling
    decreases |acts|
  {
    if acts == [] then g
    else
      match Do(s, acts[0])
      case Next(s') => CallOf(s', acts[1..], p, if acts[0].Begin? && acts[0].p == p then
        Calling(acts[0].call, p < |s.procs| && s.procs[p].pc == Out(true)) else g)
      case Blocked => CallOf(s, acts[1..], p, g)
      case Panic => g
  }

  lemma CodeServes(s: Sys, p: nat, g: Calling)
    requires p < |s.procs| && !Code(s, p).Wait? && Serves(s.procs[p].pc, g)
    ensures Serves(Code(s, p).next, g)
  {
  }

  lemma BeginServes(s: Sys, p: nat, call: Call)
    requires p < |s.procs| && DoBegin(s, p, call).Next?
    ensures |DoBegin(s, p, call).s.procs| == |s.procs|
    ensures Serves(DoBegin(s, p, call).s.procs[p].pc, Calling(call, s.procs[p].pc == Out(true)))
    ensures forall r :: 0 <= r < |s.procs| && r != p ==> DoBegin(s, p, call).s.procs[r] == s.procs[r]
  {
  }

  lemma PickServes(s: Sys, p: nat, r: nat, g: Calling)
    requires p < |s.procs| && r < |s.procs| && DoPick(s, p).Next? && Serves(s.procs[r].pc, g)
    ensures |DoPick(s, p).s.procs| == |s.procs| && Serves(DoPick(s, p).s.procs[r].pc, g)
  {
  }

  lemma StepServes(s: Sys, p: nat, r: nat, g: Calling)
    requires p < |s.procs| && r < |s.procs| && DoStep(s, p).Next? && Serves(s.procs[r].pc, g)
    ensures |DoStep(s, p).s.procs| == |s.procs| && Serves(DoStep(s, p).s.procs[r].pc, g)
  {
    hide DoStep, Serves, Code;
    StepShape(s, p);
    if r == p {
      CodeServes(s, p, g);
    } else {
      StepFrame(s, p, r);
    }
  }

  /** In every run each process is in the call that it began last, on the channel or with the target it was given, or
      has come out of it: as the owner from acquire, not so from release, and from any other call as it went in. */
  lemma {:induction false} RunServes(s: Sys, acts: seq<Act>, p: nat, g: Calling)
    requires p < |s.procs| && Run(s, acts).Next? && Serves(s.procs[p].pc, g)
    ensures |Run(s, acts).s.procs| == |s.procs| && Serves(Run(s, acts).s.procs[p].pc, CallOf(s, acts, p, g))
    decreases |acts|
  {
    hide DoStep, DoBegin, DoPick, Serves;
    if acts != [] {
      match Do(s, acts[0])
      case Blocked => RunServes(s, acts[1..], p, g);
      case Next(s') =>
        match acts[0]
        case Begin(r, call) =>
          BeginServes(s, r, call);
          RunServes(s', acts[1..], p, if r == p then Calling(call, s.procs[p].pc == Out(true)) else g);
        case Step(r) =>
          StepServes(s, r, p, g);
          RunServes(s', acts[1..], p, g);
        case Pick(r) =>
          PickServes(s, r, p, g);
          RunServes(s', acts[1..], p, g);
        case SchedRelease => RunServes(s', acts[1..], p, g);
    }
  }

  lemma CanGoOn(s: Sys, p: nat)
    requires Inv(s) && p < |s.procs| && (s.pt == Held(p) || (s.inner == Held(p) && s.pt == Free))
    ensures DoStep(s, p).Next?
  {
    hide ProcOk;
    StepNoPanic(s, p);
    assert PlaceOk(s, p);
    HolderDoesNotWait(s, p);
  }

  // ----- what can happen next

  predicate WantsInner(pc: Pc) {
    pc.AcqSpin? || pc.SleepAgain? || pc.RelSpin? || pc.HoldSpin?
  }

  predicate WantsPt(pc: Pc) {
    pc.SleepSpin? || pc.WakeSpin? || pc.KillSpin? || pc.YieldSpin?
  }

  // Outside any call, or switched out.
  predicate OffCode(pc: Pc) {
    pc.Out? || pc.SleepOff? || pc.YieldOff?
  }

  lemma CodeWants(s: Sys, p: nat)
    requires p < |s.procs|
    ensures var pc := s.procs[p].pc;
            && (Code(s, p).Wait? <==> OffCode(pc)) && (Code(s, p).TakeInner? <==> WantsInner(pc))
            && (Code(s, p).TakePt? <==> WantsPt(pc))
  {
  }

  /** In every reachable state, exactly these actions go ahead: a process on a CPU waits only for a spinlock that is not
      free, a process switched out only until it is RUNNABLE and picked, one outside may make any call but to acquire
      what it owns or release what it does not. */
  lemma GoesAhead(s: Sys, a: Act)
    requires Inv(s)
    ensures Do(s, a).Next? <==>
      match a
      case Begin(p, call) =>
        p < |s.procs| && s.procs[p].pc.Out? && (call.Acquire? ==> !s.procs[p].pc.owns)
        && (call.Release? ==> s.procs[p].pc.owns)
      case Step(p) =>
        p < |s.procs| && !OffCode(s.procs[p].pc) && (WantsInner(s.procs[p].pc) ==> s.inner == Free)
        && (WantsPt(s.procs[p].pc) ==> s.pt == Free)
      case Pick(p) => p < |s.procs| && !s.pt.Held? && s.procs[p].state == RUNNABLE
      case SchedRelease => s.pt == Sched
  {
    hide Inv, Code;
    ActKeepsInv(s, a);
    if a.Step? && a.p < |s.procs| {
      CodeWants(s, a.p);
    }
  }

  /** No deadlock at all: when nothing can happen but a new call, both spinlocks are free, every process is outside or
      asleep, and nobody is asleep on the sleep lock unless a process owns it. */
  lemma StuckMeansWaiting(n: nat, acts: seq<Act>)
    ensures Run(Init(n), acts).Next?
    ensures var s := Run(Init(n), acts).s;
            (forall a: Act {:trigger Do(s, a)} :: Do(s, a).Next? ==> a.Begin?) ==>
              && s.inner == Free && s.pt == Free
              && (forall p {:trigger s.procs[p]} :: 0 <= p < |s.procs| ==>
                    s.procs[p].pc.Out? || (s.procs[p].pc.SleepOff? && s.procs[p].state == SLEEPING))
              && (forall p {:trigger s.procs[p]} :: 0 <= p < |s.procs| && GoingToSleep(s.procs[p]) ==>
                    exists r {:trigger s.procs[r]} :: 0 <= r < |s.procs| && Owns(s.procs[r].pc))
  {
    InitInv(n);
    RunKeepsInv(Init(n), acts);
    TakenMeansOwned(n, acts);
    NoLostWakeup(n, acts);
    var s := Run(Init(n), acts).s;
    if forall a: Act {:trigger Do(s, a)} :: Do(s, a).Next? ==> a.Begin? {
      NobodyHolds(s);
      forall p | 0 <= p < |s.procs|
        ensures s.procs[p].pc.Out? || (s.procs[p].pc.SleepOff? && s.procs[p].state == SLEEPING)
      {
        StuckProcess(s, p);
      }
    }
  }

  lemma NobodyHolds(s: Sys)
    requires Inv(s) && forall a: Act {:trigger Do(s, a)} :: Do(s, a).Next? ==> a.Begin?
    ensures s.inner == Free && s.pt == Free
  {
    hide DoStep, ProcOk, PlaceOk;
    assert s.pt == Sched ==> Do(s, SchedRelease).Next?;
    if s.pt.Held? {
      NoStep(s, s.pt.p);
      CanGoOn(s, s.pt.p);
    } else if s.inner.Held? && s.pt == Free {
      NoStep(s, s.inner.p);
      CanGoOn(s, s.inner.p);
    }
  }

  lemma NoStep(s: Sys, p: nat)
    requires p < |s.procs| && forall a: Act {:trigger Do(s, a)} :: Do(s, a).Next? ==> a.Begin?
    ensures !DoStep(s, p).Next?
  {
    assert Do(s, Step(p)) == DoStep(s, p);
  }

  lemma StuckProcess(s: Sys, p: nat)
    requires Inv(s) && p < |s.procs| && s.inner == Free && s.pt == Free
    requires forall a: Act {:trigger Do(s, a)} :: Do(s, a).Next? ==> a.Begin?
    ensures s.procs[p].pc.Out? || (s.procs[p].pc.SleepOff? && s.procs[p].state == SLEEPING)
  {
    GoesAhead(s, Step(p));
    GoesAhead(s, Pick(p));
    assert ProcOk(s.procs[p]);
  }

  /** And in any state at all a step panics exactly when it takes a spinlock that the process holds, drops one that it
      does not hold, or enters sched without ptable.lock, with the other spinlock, or still RUNNING. */
  lemma PanicsExactly(s: Sys, p: nat)
    requires p < |s.procs|
    ensures var op := Code(s, p);
            DoStep(s, p).Panic? <==>
              || (op.TakeInner? && s.inner == Held(p)) || (op.DropInner? && s.inner != Held(p))
              || (op.TakePt? && s.pt == Held(p)) || (op.DropPt? && s.pt != Held(p))
              || (op.SwitchOut? && !(s.pt == Held(p) && s.inner != Held(p) && s.procs[p].state != RUNNING))
  {
    hide Code;
  }

  // ----- pid and killed

  // pid is 0 whenever nobody owns the lock, but for the moment before it is cleared.
  predicate PidOk(s: Sys) {
    s.pid == 0 || s.locked || (s.inner.Held? && s.inner.p < |s.procs| && s.procs[s.inner.p].pc.RelPid?)
  }

  // Only processes that a kill was called for are marked, or about to be.
  ghost predicate KillsOk(s: Sys, asked: set<nat>) {
    forall p {:trigger s.procs[p]} :: 0 <= p < |s.procs| ==>
      (s.procs[p].killed ==> p + 1 in asked) && (Kills(s.procs[p].pc) ==> s.procs[p].pc.target in asked)
  }

  predicate Kills(pc: Pc) {
    pc.KillSpin? || pc.KillScan? || pc.KillDone?
  }

  function Asked(acts: seq<Act>): set<nat> {
    if acts == [] then {}
    else (if acts[0].Begin? && acts[0].call.Kill? then {acts[0].call.target} else {}) + Asked(acts[1..])
  }

  lemma CodePid(s: Sys, p: nat)
    requires p < |s.procs| && !Code(s, p).Wait?
    ensures var op, pc := Code(s, p), s.procs[p].pc;
            && (op.SetPid? ==> if pc.RelPid? then op.pid == 0 else pc.AcqPid?)
            && (op.SetLocked? && !op.b ==> op.next.RelPid?)
            && (pc.RelPid? ==> op.SetPid?) && (op.DropInner? ==> !pc.RelPid?)
  {
  }

  lemma StepPid(s: Sys, p: nat)
    requires Inv(s) && PidOk(s) && p < |s.procs| && DoStep(s, p).Next?
    ensures PidOk(DoStep(s, p).s)
  {
    hide Code, HoldsInner, HoldsPt, Owns, OneOwner, NoneMissed;
    var s' := DoStep(s, p).s;
    StepShape(s, p);
    InnerEffect(s, p);
    OwnEffect(s, p);
    CodePid(s, p);
    assert PlaceOk(s, p) && ProcOk(s.procs[p]);
    InnerPlaces(s.procs[p].pc);
    PidPlaces(s.procs[p].pc);
    PidPlaces(s'.procs[p].pc);
    if s.inner.Held? && s.inner.p != p {
      StepFrame(s, p, s.inner.p);
    }
  }

  lemma PidPlaces(pc: Pc)
    ensures pc.AcqPid? ==> Owns(pc)
    ensures pc.RelPid? ==> HoldsInner(pc)
  {
  }

  lemma CodeKills(s: Sys, p: nat)
    requires p < |s.procs| && !Code(s, p).Wait?
    ensures var op, pc := Code(s, p), s.procs[p].pc;
            Kills(op.next) ==> Kills(pc) && op.next.target == pc.target
  {
  }

  lemma StepKills(s: Sys, p: nat, asked: set<nat>)
    requires KillsOk(s, asked) && p < |s.procs| && DoStep(s, p).Next?
    ensures KillsOk(DoStep(s, p).s, asked)
  {
    hide DoStep, Code;
    var s' := DoStep(s, p).s;
    assert Kills(s.procs[p].pc) ==> s.procs[p].pc.target in asked;
    ShapeKills(s, p);
    forall r | 0 <= r < |s'.procs|
      ensures (s'.procs[r].killed ==> r + 1 in asked) && (Kills(s'.procs[r].pc) ==> s'.procs[r].pc.target in asked)
    {
      if r == p {
        StepOnItself(s, p);
      } else {
        StepOnOther(s, p, r);
      }
    }
  }

  lemma ShapeKills(s: Sys, p: nat)
    requires p < |s.procs| && DoStep(s, p).Next?
    ensures |DoStep(s, p).s.procs| == |s.procs|
    ensures var pc, pc' := s.procs[p].pc, DoStep(s, p).s.procs[p].pc;
            Kills(pc') ==> Kills(pc) && pc'.target == pc.target
  {
    hide Code;
    StepShape(s, p);
    CodeKills(s, p);
  }

  lemma ActMarks(s: Sys, a: Act, asked: set<nat>)
    requires Inv(s) && PidOk(s) && KillsOk(s, asked) && Do(s, a).Next?
    ensures PidOk(Do(s, a).s) && KillsOk(Do(s, a).s, asked + Asked([a]))
  {
    match a
    case Step(p) =>
      hide DoStep, Inv, PidOk, KillsOk;
      StepPid(s, p);
      StepKills(s, p, asked);
      assert asked + Asked([a]) == asked;
    case Begin(p, call) =>
      BeginMarks(s, p, call, asked);
    case Pick(p) =>
      PickMarks(s, p, asked);
      assert asked + Asked([a]) == asked;
    case SchedRelease =>
      assert asked + Asked([a]) == asked;
  }

  lemma BeginMarks(s: Sys, p: nat, call: Call, asked: set<nat>)
    requires AllOk(s) && PidOk(s) && KillsOk(s, asked) && p < |s.procs| && DoBegin(s, p, call).Next?
    ensures PidOk(DoBegin(s, p, call).s) && KillsOk(DoBegin(s, p, call).s, asked + Asked([Begin(p, call)]))
  {
    hide HoldsInner, HoldsPt, Owns;
    assert [Begin(p, call)][1..] == [];
    PidPlaces(s.procs[p].pc);
  }

  lemma PickMarks(s: Sys, p: nat, asked: set<nat>)
    requires AllOk(s) && PidOk(s) && KillsOk(s, asked) && p < |s.procs| && DoPick(s, p).Next?
    ensures PidOk(DoPick(s, p).s) && KillsOk(DoPick(s, p).s, asked)
  {
    hide HoldsInner, HoldsPt, Owns, ProcOk, PlaceOk;
    PidPlaces(s.procs[p].pc);
  }

  lemma {:induction false} RunMarks(s: Sys, acts: seq<Act>, asked: set<nat>)
    requires Inv(s) && PidOk(s) && KillsOk(s, asked)
    ensures Run(s, acts).Next? && PidOk(Run(s, acts).s) && KillsOk(Run(s, acts).s, asked + Asked(acts))
    decreases |acts|
  {
    if acts == [] {
      assert asked + Asked(acts) == asked;
    } else {
      hide Inv, PidOk, Do;
      ActKeepsInv(s, acts[0]);
      AskedFirst(acts);
      match Do(s, acts[0])
      case Next(s') =>
        ActMarks(s, acts[0], asked);
        RunMarks(s', acts[1..], asked + Asked([acts[0]]));
        assert asked + Asked([acts[0]]) + Asked(acts[1..]) == asked + Asked(acts);
      case Blocked =>
        RunMarks(s, acts[1..], asked);
        KillsMore(Run(s, acts).s, asked + Asked(acts[1..]), asked + Asked(acts));
    }
  }

  lemma AskedFirst(acts: seq<Act>)
    requires acts != []
    ensures Asked(acts) == Asked([acts[0]]) + Asked(acts[1..])
  {
    assert [acts[0]][1..] == [];
  }

  lemma KillsMore(s: Sys, asked: set<nat>, more: set<nat>)
    requires KillsOk(s, asked) && asked <= more
    ensures KillsOk(s, more)
  {
  }

  /** Nobody is marked as killed but by a kill called for it, and the pid of a lock nobody has taken is 0. */
  lemma KilledWasAsked(n: nat, acts: seq<Act>)
    ensures Run(Init(n), acts).Next?
    ensures var s := Run(Init(n), acts).s;
            && (s.inner == Free && !s.locked ==> s.pid == 0)
            && (forall p {:trigger s.procs[p]} :: 0 <= p < |s.procs| && s.procs[p].killed ==> p + 1 in Asked(acts))
  {
    InitInv(n);
    RunMarks(Init(n), acts, {});
    assert {} + Asked(acts) == Asked(acts);
  }

  lemma HolderDoesNotWait(s: Sys, p: nat)
    requires p < |s.procs| && (HoldsPt(s.procs[p].pc) || HoldsInner(s.procs[p].pc))
    ensures !Code(s, p).Wait? && !Code(s, p).TakeInner? && (HoldsPt(s.procs[p].pc) ==> !Code(s, p).TakePt?)
  {
  }
}
