/** The log as a state machine (log.c): operations of many processes interleave, every disk block write is
    one step, and a crash may come between any two steps, also during recovery.
    It refines a file system whose transactions are atomic. */
module LogSystem {
  import opened Blocks
  import opened RedoLog

  // ----- what is promised: an atomic, group-committing store

  datatype Store = Store(durable: Disk, volatile: Disk, active: set<nat>)

  datatype StoreStep =
    | SBegin(p: nat) | SWrite(p: nat, b: nat, data: Block) | SEnd(p: nat)
    | SCommit | SCrash | SStutter

  ghost predicate StoreNext(a: Store, a': Store, step: StoreStep) {
    match step
    case SBegin(p) => p !in a.active && a' == a.(active := a.active + {p})
    case SWrite(p, b, data) => p in a.active && b < |a.volatile| && a' == a.(volatile := a.volatile[b := data])
    case SEnd(p) => p in a.active && a' == a.(active := a.active - {p})
    case SCommit => a.active == {} && a' == a.(durable := a.volatile)
    case SCrash => a' == Store(a.durable, a.durable, {})
    case SStutter => a' == a
  }

  // ----- the implementation

  // A process's operation: the blocks it has logged, and the buffer it is working on.
  datatype Op = Idle | Active(logged: set<nat>, held: Held)
  datatype Held = Nothing | Modified(b: nat) | Checked(b: nat)

  datatype Phase =
    | Down                   // crashed or panicked: only the disk is left
    | Recovering(k: nat)     // initlog: k blocks installed
    | Running
    | WritingLog(k: nat)     // commit: k log blocks written
    | Installing(k: nat)     // commit: header written, k blocks installed
    | Releasing              // commit done, committing still set

  datatype System = System(
    disk: Disk,
    view: Disk,              // what bread would return for a home block
    lh: seq<nat>,
    outstanding: int,
    committing: bool,
    ops: seq<Op>,
    phase: Phase)

  datatype Step =
    | BeginOp(p: nat)
    | Modify(p: nat, b: nat, data: Block)
    | Check(p: nat)
    | Append(p: nat)
    | EndOp(p: nat)
    | CommitWrite
    | Crash
    | Boot
    | RecoverWrite

  function Crashed(s: System): System {
    System(s.disk, s.disk, [], 0, false, seq(|s.ops|, i => Idle), Down)
  }

  // log_write's test, made without the lock.
  predicate TooBig(l: Layout, s: System) {
    |s.lh| >= LOGSIZE || |s.lh| >= l.size - 1
  }

  ghost predicate Enabled(l: Layout, s: System, step: Step)
    requires FitsDisk(l, s.disk)
  {
    match step
    case BeginOp(p) =>
      && !s.phase.Down? && !s.phase.Recovering?
      && p < |s.ops| && s.ops[p].Idle?
      && !s.committing && |s.lh| + (s.outstanding + 1) * MAXOPBLOCKS <= LOGSIZE
    case Modify(p, b, data) =>
      && p < |s.ops| && s.ops[p].Active? && s.ops[p].held.Nothing?
      && HomeBlock(l, s.disk, b)
      && (forall q :: 0 <= q < |s.ops| ==> !Holds(s.ops[q], b))  // the buffer's sleep lock
      && |s.ops[p].logged + {b}| <= MAXOPBLOCKS                  // what the caller promises
    case Check(p) => p < |s.ops| && s.ops[p].Active? && s.ops[p].held.Modified?
    case Append(p) => p < |s.ops| && s.ops[p].Active? && s.ops[p].held.Checked?
    case EndOp(p) => p < |s.ops| && s.ops[p].Active? && s.ops[p].held.Nothing?
    case CommitWrite => s.phase.WritingLog? || s.phase.Installing? || s.phase.Releasing?
    case Crash => true
    case Boot => s.phase.Down?
    case RecoverWrite => s.phase.Recovering?
  }

  predicate Holds(op: Op, b: nat) {
    op.Active? && (op.held == Modified(b) || op.held == Checked(b))
  }

  // install_trans, one block.
  function InstallOne(l: Layout, s: System, k: nat): System
    requires k < |s.lh| && s.lh[k] < |s.disk| == |s.view| && l.start + 1 + k < |s.disk|
  {
    var data := LogBlock(l, s.disk, k);
    s.(disk := s.disk[s.lh[k] := data], view := s.view[s.lh[k] := data])
  }

  // The indices a step may use are in bounds (KeepsInBounds: they always are).
  ghost predicate InBounds(l: Layout, s: System) {
    && Readable(l, s.disk) && |s.view| == |s.disk| && |s.lh| <= LOGSIZE
    && (forall i :: 0 <= i < |s.lh| ==> s.lh[i] < |s.disk|)
  }

  // The disk has no block for entry k of the log: reading it panics.
  predicate PastDisk(l: Layout, s: System, k: nat) {
    l.start + 1 + k >= |s.disk|
  }

  // Every buffer of the cache is pinned, so that commit finds none for a log block: bget panics.
  predicate AllPinned(l: Layout, s: System) {
    |s.lh| >= l.buffers
  }

  ghost predicate Next(l: Layout, s: System, s': System, step: Step) {
    InBounds(l, s) && Enabled(l, s, step) &&
    match step
    case BeginOp(p) =>
      s' == s.(outstanding := s.outstanding + 1, ops := s.ops[p := Active({}, Nothing)])
    case Modify(p, b, data) =>
      s' == s.(view := s.view[b := data], ops := s.ops[p := s.ops[p].(held := Modified(b))])
    case Check(p) =>
      if TooBig(l, s) || s.outstanding < 1 then s' == Crashed(s)  // panic
      else s' == s.(ops := s.ops[p := s.ops[p].(held := Checked(s.ops[p].held.b))])
    case Append(p) =>
      var b := s.ops[p].held.b;
      s' == s.(lh := if b in s.lh then s.lh else s.lh + [b],
               ops := s.ops[p := Active(s.ops[p].logged + {b}, Nothing)])
    case EndOp(p) =>
      var left := s.outstanding - 1;
      if s.committing then s' == Crashed(s)                       // panic
      else if left == 0 then
        s' == s.(outstanding := left, committing := true, ops := s.ops[p := Idle],
                 phase := if |s.lh| > 0 then WritingLog(0) else Releasing)
      else s' == s.(outstanding := left, ops := s.ops[p := Idle])
    case CommitWrite => CommitNext(l, s, s')
    case Crash => s' == Crashed(s)
    case Boot => s' == s.(lh := LogOf(l, s.disk), phase := Recovering(0))
    case RecoverWrite =>
      var k := s.phase.k;
      if k >= |s.lh| then
        s' == s.(lh := [], disk := Emptied(l, s.disk), view := Emptied(l, s.disk), phase := Running)
      else if PastDisk(l, s, k) then s' == Crashed(s)
      else s' == InstallOne(l, s, k).(phase := Recovering(k + 1))
  }

  ghost predicate CommitNext(l: Layout, s: System, s': System)
    requires InBounds(l, s)
  {
    match s.phase
    case WritingLog(k) =>
      if k >= |s.lh| then
        s' == s.(disk := s.disk[l.start := WithHeader(s.disk[l.start], s.lh)], phase := Installing(0))
      else if PastDisk(l, s, k) || AllPinned(l, s) then s' == Crashed(s)
      else s' == s.(disk := s.disk[l.start + 1 + k := s.view[s.lh[k]]], phase := WritingLog(k + 1))
    case Installing(k) =>
      if k >= |s.lh| then s' == s.(lh := [], disk := Emptied(l, s.disk), phase := Releasing)
      else if PastDisk(l, s, k) then s' == Crashed(s)
      else s' == InstallOne(l, s, k).(phase := Installing(k + 1))
    case Releasing => s' == s.(committing := false, phase := Running)
    case _ => false
  }

  // ----- the invariant

  function CountActive(ops: seq<Op>, k: nat): nat
    requires k <= |ops|
  {
    if k == 0 then 0 else CountActive(ops, k - 1) + if ops[k - 1].Active? then 1 else 0
  }

  // Log slots still reserved by the outstanding operations.
  function Unused(ops: seq<Op>, k: nat): int
    requires k <= |ops|
  {
    if k == 0 then 0 else
      Unused(ops, k - 1) + if ops[k - 1].Active? then MAXOPBLOCKS - |ops[k - 1].logged| else 0
  }

  ghost predicate Operations(l: Layout, s: System) {
    && s.outstanding == CountActive(s.ops, |s.ops|)
    && |s.lh| + Unused(s.ops, |s.ops|) <= LOGSIZE
    && (forall p :: 0 <= p < |s.ops| && s.ops[p].Active? ==> WithinReservation(s.ops[p], s.lh))
    && (forall p :: 0 <= p < |s.ops| && s.ops[p].Active? && !s.ops[p].held.Nothing? ==>
          HomeBlock(l, s.disk, s.ops[p].held.b))
    && (forall p, q :: 0 <= p < q < |s.ops| && s.ops[p].Active? && !s.ops[p].held.Nothing? ==>
          !Holds(s.ops[q], s.ops[p].held.b))
  }

  ghost predicate WithinReservation(op: Op, lh: seq<nat>)
    requires op.Active?
  {
    && (forall b :: b in op.logged ==> b in lh)
    && |op.logged| <= MAXOPBLOCKS
    && (!op.held.Nothing? ==> |op.logged + {op.held.b}| <= MAXOPBLOCKS)
  }

  ghost predicate AllIdle(s: System) {
    forall p :: 0 <= p < |s.ops| ==> s.ops[p].Idle?
  }

  // Blocks neither logged nor being modified are the same in the cache and on disk.
  ghost predicate Clean(l: Layout, s: System)
    requires |s.view| == |s.disk|
  {
    forall b: nat :: HomeBlock(l, s.disk, b) && b !in s.lh && (forall p :: 0 <= p < |s.ops| ==> !Holds(s.ops[p], b)) ==>
      s.disk[b] == s.view[b]
  }

  // The log has blocks for all its entries, except before a commit that will find every buffer pinned.
  ghost predicate FewEnough(l: Layout, s: System) {
    |s.lh| < l.size || (l.size >= l.buffers && (s.phase.Running? || s.phase == WritingLog(0)))
  }

  ghost predicate PhaseInv(l: Layout, s: System)
    requires WellFormed(l, s.disk) && |s.view| == |s.disk| && NamesOk(l, s.disk, s.lh) && FewEnough(l, s)
  {
    match s.phase
    case Down => s.lh == [] && s.view == s.disk && AllIdle(s) && !s.committing
    case Recovering(k) =>
      && s.lh == LogOf(l, s.disk) && s.view == s.disk && AllIdle(s) && !s.committing && k <= |s.lh|
      && (forall j :: 0 <= j < k ==> s.disk[s.lh[j]] == LogBlock(l, s.disk, j))
    case Running => HeaderN(s.disk[l.start]) == 0 && Clean(l, s) && !s.committing
    case WritingLog(k) =>
      && HeaderN(s.disk[l.start]) == 0 && Clean(l, s) && s.committing && AllIdle(s) && k <= |s.lh|
      && (forall j :: 0 <= j < k ==> LogBlock(l, s.disk, j) == s.view[s.lh[j]])
    case Installing(k) =>
      && LogOf(l, s.disk) == s.lh && Clean(l, s) && s.committing && AllIdle(s) && k <= |s.lh|
      && (forall j :: 0 <= j < |s.lh| ==> LogBlock(l, s.disk, j) == s.view[s.lh[j]])
      && (forall j :: 0 <= j < k ==> s.disk[s.lh[j]] == LogBlock(l, s.disk, j))
    case Releasing =>
      HeaderN(s.disk[l.start]) == 0 && s.lh == [] && Clean(l, s) && s.committing && AllIdle(s)
  }

  ghost predicate Phases(s: System) {
    match s.phase
    case Down => s.lh == [] && AllIdle(s) && !s.committing
    case Recovering(k) => AllIdle(s) && !s.committing && k <= |s.lh|
    case Running => !s.committing && (AllIdle(s) ==> s.lh == [])   // the last end_op begins a commit
    case WritingLog(k) => AllIdle(s) && s.committing && k <= |s.lh|
    case Installing(k) => AllIdle(s) && s.committing && k <= |s.lh|
    case Releasing => AllIdle(s) && s.committing && s.lh == []
  }

  // What holds however many blocks the log has.
  ghost predicate Bookkeeping(l: Layout, s: System) {
    && Readable(l, s.disk) && |s.view| == |s.disk|
    && NamesOk(l, s.disk, s.lh)
    && Operations(l, s) && Phases(s)
  }

  // A log that is never written past its end: it holds all that reservations allow, or more than the cache can pin
  // and still commit, or nothing ever gets into it.
  predicate NeverOverruns(l: Layout) {
    l.size > LOGSIZE || l.size >= l.buffers || l.size == 1
  }

  ghost predicate NothingChecked(s: System) {
    forall p :: 0 <= p < |s.ops| && s.ops[p].Active? ==> !s.ops[p].held.Checked?
  }

  ghost predicate Inv(l: Layout, s: System) {
    && NeverOverruns(l) && Bookkeeping(l, s)
    && WellFormed(l, s.disk) && FewEnough(l, s)
    && (l.size == 1 ==> NothingChecked(s))
    && PhaseInv(l, s)
  }

  ghost predicate Init(l: Layout, s: System) {
    && FitsDisk(l, s.disk) && HeaderN(s.disk[l.start]) == 0
    && s == Crashed(s)
  }

  // What the implementation stands for.
  ghost function Abs(l: Layout, s: System): Store
    requires Inv(l, s)
  {
    var durable := Home(l, Recovered(l, s.disk));
    Store(durable,
          if s.phase.Down? || s.phase.Recovering? then durable else Home(l, s.view),
          set p | 0 <= p < |s.ops| && s.ops[p].Active?)
  }

  // ----- sums over the process table

  lemma {:induction false} CountActiveUpdate(ops: seq<Op>, p: nat, op: Op, k: nat)
    requires p < |ops| && k <= |ops|
    ensures CountActive(ops[p := op], k) == CountActive(ops, k) +
      if k <= p || ops[p].Active? == op.Active? then 0 else if op.Active? then 1 else -1
  {
    if k > 0 {
      CountActiveUpdate(ops, p, op, k - 1);
    }
  }

  function Share(op: Op): int {
    if op.Active? then MAXOPBLOCKS - |op.logged| else 0
  }

  lemma {:induction false} UnusedUpdate(ops: seq<Op>, p: nat, op: Op, k: nat)
    requires p < |ops| && k <= |ops|
    ensures Unused(ops[p := op], k) == Unused(ops, k) + if k <= p then 0 else Share(op) - Share(ops[p])
  {
    if k > 0 {
      UnusedUpdate(ops, p, op, k - 1);
    }
  }

  lemma {:induction false} UnusedBounds(ops: seq<Op>, k: nat)
    requires k <= |ops|
    requires forall p :: 0 <= p < |ops| && ops[p].Active? ==> |ops[p].logged| <= MAXOPBLOCKS
    ensures 0 <= Unused(ops, k) <= CountActive(ops, k) * MAXOPBLOCKS
    ensures forall p :: 0 <= p < k ==> Share(ops[p]) <= Unused(ops, k)
  {
    if k > 0 {
      UnusedBounds(ops, k - 1);
    }
  }

  lemma {:induction false} CountActiveZero(ops: seq<Op>, k: nat)
    requires k <= |ops|
    ensures CountActive(ops, k) == 0 <==> forall p :: 0 <= p < k ==> ops[p].Idle?
  {
    if k > 0 {
      CountActiveZero(ops, k - 1);
    }
  }

  lemma AllIdleSums(s: System)
    requires AllIdle(s)
    ensures CountActive(s.ops, |s.ops|) == 0 && Unused(s.ops, |s.ops|) == 0
  {
    CountActiveZero(s.ops, |s.ops|);
    UnusedBounds(s.ops, |s.ops|);
  }

  // What a step of process p may change in the process table.
  ghost predicate TableChange(l: Layout, s: System, s': System, p: nat) {
    && p < |s.ops| && |s'.ops| == |s.ops| && |s'.disk| == |s.disk|
    && (forall q :: 0 <= q < |s.ops| && q != p ==> s'.ops[q] == s.ops[q])
    && (forall b :: b in s.lh ==> b in s'.lh)
    && (s'.ops[p].Active? ==> WithinReservation(s'.ops[p], s'.lh))
    && (s'.ops[p].Active? && !s'.ops[p].held.Nothing? ==>
          && HomeBlock(l, s'.disk, s'.ops[p].held.b)
          && forall q :: 0 <= q < |s.ops| && q != p ==> !Holds(s.ops[q], s'.ops[p].held.b))
  }

  lemma TableChangeKeepsOperations(l: Layout, s: System, s': System, p: nat)
    requires Operations(l, s) && TableChange(l, s, s', p)
    requires s'.ops == s.ops[p := s'.ops[p]]
    requires s'.outstanding - s.outstanding ==
             (if s'.ops[p].Active? then 1 else 0) - if s.ops[p].Active? then 1 else 0
    requires |s'.lh| + Share(s'.ops[p]) + Unused(s.ops, |s.ops|) - Share(s.ops[p]) <= LOGSIZE
    ensures Operations(l, s')
  {
    CountActiveUpdate(s.ops, p, s'.ops[p], |s.ops|);
    UnusedUpdate(s.ops, p, s'.ops[p], |s.ops|);
    forall q | 0 <= q < |s'.ops| && s'.ops[q].Active?
      ensures WithinReservation(s'.ops[q], s'.lh)
    {
      if q != p {
        assert WithinReservation(s.ops[q], s.lh);
      }
    }
  }

  // ----- the bookkeeping survives every step, in a log of any size

  lemma CrashKeepsBookkeeping(l: Layout, s: System)
    requires Bookkeeping(l, s)
    ensures Bookkeeping(l, Crashed(s))
  {
    AllIdleSums(Crashed(s));
  }

  lemma ActiveMeansRunning(l: Layout, s: System, p: nat)
    requires Bookkeeping(l, s) && p < |s.ops| && s.ops[p].Active?
    ensures s.outstanding >= 1 && s.phase.Running? && !s.committing
  {
    CountActiveZero(s.ops, |s.ops|);
  }

  // A fresh block always finds a free entry in the header, although the test was made without the lock.
  lemma AppendFits(l: Layout, s: System, p: nat)
    requires Bookkeeping(l, s) && Enabled(l, s, Append(p))
    ensures s.ops[p].held.b !in s.lh ==> |s.lh| < LOGSIZE
  {
    var op := s.ops[p];
    UnusedBounds(s.ops, |s.ops|);
    assert Share(op) <= Unused(s.ops, |s.ops|);
    if op.held.b !in s.lh {
      assert op.held.b !in op.logged;
      assert |op.logged + {op.held.b}| == |op.logged| + 1;
    }
  }

  // end_op never finds a commit in progress: the panic there cannot happen.
  lemma EndOpNeverPanics(l: Layout, s: System, p: nat)
    requires Bookkeeping(l, s) && Enabled(l, s, EndOp(p))
    ensures !s.committing && s.outstanding >= 1
  {
    ActiveMeansRunning(l, s, p);
  }

  lemma BeginKeepsBookkeeping(l: Layout, s: System, s': System, p: nat)
    requires Bookkeeping(l, s) && Next(l, s, s', BeginOp(p))
    ensures Bookkeeping(l, s')
  {
    UnusedBounds(s.ops, |s.ops|);
    assert Share(Active({}, Nothing)) == MAXOPBLOCKS;
    TableChangeKeepsOperations(l, s, s', p);
  }

  lemma ModifyKeepsBookkeeping(l: Layout, s: System, s': System, p: nat, b: nat, data: Block)
    requires Bookkeeping(l, s) && Next(l, s, s', Modify(p, b, data))
    ensures Bookkeeping(l, s')
  {
    ActiveMeansRunning(l, s, p);
    TableChangeKeepsOperations(l, s, s', p);
  }

  lemma CheckKeepsBookkeeping(l: Layout, s: System, s': System, p: nat)
    requires Bookkeeping(l, s) && Next(l, s, s', Check(p))
    ensures Bookkeeping(l, s')
  {
    ActiveMeansRunning(l, s, p);
    if TooBig(l, s) {
      CrashKeepsBookkeeping(l, s);
    } else {
      assert WithinReservation(s.ops[p], s.lh);
      TableChangeKeepsOperations(l, s, s', p);
    }
  }

  lemma AppendKeepsBookkeeping(l: Layout, s: System, s': System, p: nat)
    requires Bookkeeping(l, s) && Next(l, s, s', Append(p))
    ensures Bookkeeping(l, s')
  {
    var op := s.ops[p];
    var b := op.held.b;
    ActiveMeansRunning(l, s, p);
    AppendFits(l, s, p);
    assert WithinReservation(op, s.lh);
    if b !in op.logged {
      assert |op.logged + {b}| == |op.logged| + 1;
    } else {
      assert op.logged + {b} == op.logged;
      assert b in s.lh;
    }
    TableChangeKeepsOperations(l, s, s', p);
  }

  lemma EndOpKeepsBookkeeping(l: Layout, s: System, s': System, p: nat)
    requires Bookkeeping(l, s) && Next(l, s, s', EndOp(p))
    ensures Bookkeeping(l, s') && !s'.phase.Down? && !s'.phase.Recovering?
  {
    ActiveMeansRunning(l, s, p);
    assert WithinReservation(s.ops[p], s.lh);
    TableChangeKeepsOperations(l, s, s', p);
    CountActiveZero(s'.ops, |s'.ops|);
  }

  // Every block written while nobody is active leaves a header that can be read.
  lemma DiskWriteKeepsBookkeeping(l: Layout, s: System, s': System)
    requires Bookkeeping(l, s) && AllIdle(s)
    requires |s'.disk| == |s'.view| == |s.disk| && s'.ops == s.ops && s'.outstanding == s.outstanding
    requires (s'.lh == s.lh || s'.lh == []) && Phases(s')
    requires || s'.disk[l.start] == s.disk[l.start] || s'.disk[l.start] == WithHeader(s.disk[l.start], s.lh)
             || s'.disk[l.start] == WithHeader(s.disk[l.start], [])
    ensures Bookkeeping(l, s')
  {
    HeaderRoundTrip(s.disk[l.start], s.lh);
    HeaderRoundTrip(s.disk[l.start], []);
    AllIdleSums(s);
    assert NamesOk(l, s'.disk, Header(s.disk[l.start]));
    assert NamesOk(l, s'.disk, s.lh) && NamesOk(l, s'.disk, []);
  }

  lemma CommitKeepsBookkeeping(l: Layout, s: System, s': System)
    requires Bookkeeping(l, s) && Next(l, s, s', CommitWrite)
    ensures Bookkeeping(l, s')
  {
    if s' == Crashed(s) {
      CrashKeepsBookkeeping(l, s);
    } else {
      DiskWriteKeepsBookkeeping(l, s, s');
    }
  }

  lemma RecoverKeepsBookkeeping(l: Layout, s: System, s': System)
    requires Bookkeeping(l, s) && Next(l, s, s', RecoverWrite)
    ensures Bookkeeping(l, s')
  {
    if s' == Crashed(s) {
      CrashKeepsBookkeeping(l, s);
    } else {
      DiskWriteKeepsBookkeeping(l, s, s');
    }
  }

  lemma StepKeepsBookkeeping(l: Layout, s: System, s': System, step: Step)
    requires Bookkeeping(l, s) && Next(l, s, s', step)
    ensures Bookkeeping(l, s')
  {
    match step
    case BeginOp(p) => BeginKeepsBookkeeping(l, s, s', p);
    case Modify(p, b, data) => ModifyKeepsBookkeeping(l, s, s', p, b, data);
    case Check(p) => CheckKeepsBookkeeping(l, s, s', p);
    case Append(p) => AppendKeepsBookkeeping(l, s, s', p);
    case EndOp(p) => EndOpKeepsBookkeeping(l, s, s', p);
    case CommitWrite => CommitKeepsBookkeeping(l, s, s');
    case Crash => CrashKeepsBookkeeping(l, s);
    case Boot => AllIdleSums(s');
    case RecoverWrite => RecoverKeepsBookkeeping(l, s, s');
  }

  // A commit begins and runs with no operation under way.
  lemma CommitsWhileIdle(l: Layout, s: System)
    requires Bookkeeping(l, s) && s.committing
    ensures s.outstanding == 0 && AllIdle(s)
  {
    CountActiveZero(s.ops, |s.ops|);
  }

  // The end of the last operation begins a commit, of whatever the operations logged; any other end does not.
  lemma LastEndCommits(l: Layout, s: System, s': System, p: nat)
    requires Bookkeeping(l, s) && Next(l, s, s', EndOp(p))
    ensures s'.ops == s.ops[p := Idle] && s'.lh == s.lh && s'.disk == s.disk && s'.view == s.view
    ensures s'.committing <==> AllIdle(s')
    ensures AllIdle(s') ==> s'.phase == if s.lh == [] then Releasing else WritingLog(0)
    ensures !AllIdle(s') ==> s'.phase == Running
  {
    EndOpNeverPanics(l, s, p);
    ActiveMeansRunning(l, s, p);
    CountActiveUpdate(s.ops, p, Idle, |s.ops|);
    CountActiveZero(s'.ops, |s'.ops|);
  }

  // ----- one lemma per kind of step: the invariant is kept and the step refines a step of the store

  ghost predicate Refines(l: Layout, s: System, s': System, step: StoreStep) {
    Inv(l, s) && Inv(l, s') && StoreNext(Abs(l, s), Abs(l, s'), step)
  }

  lemma CrashRefines(l: Layout, s: System, s': System)
    requires Inv(l, s) && s' == Crashed(s)
    ensures Refines(l, s, s', SCrash)
  {
    AllIdleSums(s');
    assert Abs(l, s').active == {};
  }

  // Changing who is active, but not who holds what, keeps the cache clean.
  lemma SameHolders(l: Layout, s: System, s': System, p: nat)
    requires |s.view| == |s.disk| && s'.disk == s.disk && s'.view == s.view && s'.lh == s.lh
    requires p < |s.ops| == |s'.ops| && s'.ops == s.ops[p := s'.ops[p]]
    requires forall b :: Holds(s'.ops[p], b) == Holds(s.ops[p], b)
    ensures Clean(l, s') == Clean(l, s)
  {
    assert forall q, b :: 0 <= q < |s.ops| ==> Holds(s'.ops[q], b) == Holds(s.ops[q], b);
  }

  lemma BeginOpRefines(l: Layout, s: System, s': System, p: nat)
    requires Inv(l, s) && Next(l, s, s', BeginOp(p))
    ensures Refines(l, s, s', SBegin(p))
  {
    BeginKeepsBookkeeping(l, s, s', p);
    SameHolders(l, s, s', p);
    assert Abs(l, s').active == Abs(l, s).active + {p};
  }

  lemma ModifyKeepsClean(l: Layout, s: System, s': System, p: nat, b: nat)
    requires |s.view| == |s.disk| == |s'.view| && s'.disk == s.disk && s'.lh == s.lh && Clean(l, s)
    requires p < |s.ops| == |s'.ops| && s'.ops == s.ops[p := s'.ops[p]] && Holds(s'.ops[p], b)
    requires (forall c :: !Holds(s.ops[p], c))
    requires forall c :: 0 <= c < |s.view| && c != b ==> s'.view[c] == s.view[c]
    ensures Clean(l, s')
  {
    forall c: nat | HomeBlock(l, s.disk, c) && c !in s.lh && forall q :: 0 <= q < |s.ops| ==> !Holds(s'.ops[q], c)
      ensures s.disk[c] == s'.view[c]
    {
      assert !Holds(s'.ops[p], c);
      assert forall q :: 0 <= q < |s.ops| && q != p ==> s'.ops[q] == s.ops[q];
    }
  }

  lemma ModifyRefines(l: Layout, s: System, s': System, p: nat, b: nat, data: Block)
    requires Inv(l, s) && Next(l, s, s', Modify(p, b, data))
    ensures Refines(l, s, s', SWrite(p, b, data))
  {
    ActiveMeansRunning(l, s, p);
    ModifyKeepsBookkeeping(l, s, s', p, b, data);
    ModifyKeepsClean(l, s, s', p, b);
    hide Bookkeeping, Clean, WellFormed, Recovered;
    assert Home(l, s'.view) == Home(l, s.view)[b := data];
    assert Abs(l, s').active == Abs(l, s).active;
  }

  lemma CheckRefines(l: Layout, s: System, s': System, p: nat)
    requires Inv(l, s) && Next(l, s, s', Check(p))
    ensures Refines(l, s, s', if TooBig(l, s) then SCrash else SStutter)
  {
    ActiveMeansRunning(l, s, p);
    CheckKeepsBookkeeping(l, s, s', p);
    if TooBig(l, s) {
      CrashRefines(l, s, s');
    } else {
      SameHolders(l, s, s', p);
      assert Abs(l, s').active == Abs(l, s).active;
    }
  }

  lemma AppendKeepsClean(l: Layout, s: System, s': System, p: nat)
    requires |s.view| == |s.disk| && s'.disk == s.disk && s'.view == s.view && Clean(l, s)
    requires p < |s.ops| == |s'.ops| && s'.ops == s.ops[p := s'.ops[p]] && s.ops[p].Active? && s.ops[p].held.Checked?
    requires s.ops[p].held.b in s'.lh && forall b :: b in s.lh ==> b in s'.lh
    ensures Clean(l, s')
  {
    forall c: nat | HomeBlock(l, s.disk, c) && c !in s'.lh && forall q :: 0 <= q < |s.ops| ==> !Holds(s'.ops[q], c)
      ensures s.disk[c] == s'.view[c]
    {
      assert !Holds(s.ops[p], c);
      assert forall q :: 0 <= q < |s.ops| && q != p ==> s'.ops[q] == s.ops[q];
    }
  }

  lemma AppendKeepsInv(l: Layout, s: System, s': System, p: nat)
    requires Inv(l, s) && Next(l, s, s', Append(p))
    ensures Inv(l, s') && s'.disk == s.disk && s'.view == s.view && s'.phase == s.phase
  {
    ActiveMeansRunning(l, s, p);
    AppendKeepsBookkeeping(l, s, s', p);
    AppendKeepsClean(l, s, s', p);
  }

  lemma AppendRefines(l: Layout, s: System, s': System, p: nat)
    requires Inv(l, s) && Next(l, s, s', Append(p))
    ensures Refines(l, s, s', SStutter)
  {
    AppendKeepsInv(l, s, s', p);
    assert Abs(l, s').active == Abs(l, s).active;
  }

  lemma EndOpKeepsInv(l: Layout, s: System, s': System, p: nat)
    requires Inv(l, s) && Next(l, s, s', EndOp(p))
    ensures Inv(l, s') && s'.disk == s.disk && s'.view == s.view
    ensures !s'.phase.Down? && !s'.phase.Recovering? && s.phase.Running?
  {
    ActiveMeansRunning(l, s, p);
    EndOpKeepsBookkeeping(l, s, s', p);
    SameHolders(l, s, s', p);
  }

  lemma EndOpRefines(l: Layout, s: System, s': System, p: nat)
    requires Inv(l, s) && Next(l, s, s', EndOp(p))
    ensures Refines(l, s, s', SEnd(p))
  {
    EndOpNeverPanics(l, s, p);
    EndOpKeepsInv(l, s, s', p);
    assert Abs(l, s').active == Abs(l, s).active - {p};
  }

  lemma WriteLogKeepsInv(l: Layout, s: System, s': System)
    requires Inv(l, s) && s.phase.WritingLog? && s.phase.k < |s.lh| < l.buffers && CommitNext(l, s, s')
    ensures Inv(l, s') && s'.view == s.view && s'.ops == s.ops && s'.phase.WritingLog?
    ensures Home(l, Recovered(l, s'.disk)) == Home(l, Recovered(l, s.disk))
  {
    var b := l.start + 1 + s.phase.k;
    LogBlockWriteInvisible(l, s.disk, b, s.view[s.lh[s.phase.k]]);
    assert LegalNames(l, s'.disk, s'.lh);
    AllIdleSums(s);
    assert Clean(l, s');
  }

  lemma WriteLogRefines(l: Layout, s: System, s': System)
    requires Inv(l, s) && s.phase.WritingLog? && s.phase.k < |s.lh| < l.buffers && CommitNext(l, s, s')
    ensures Refines(l, s, s', SStutter)
  {
    WriteLogKeepsInv(l, s, s');
    assert Abs(l, s').active == Abs(l, s).active;
  }

  lemma WriteHeadKeepsInv(l: Layout, s: System, s': System)
    requires Inv(l, s) && s.phase.WritingLog? && s.phase.k == |s.lh| && CommitNext(l, s, s')
    ensures Inv(l, s') && s'.view == s.view && s'.ops == s.ops && s'.phase.Installing?
    ensures Home(l, Recovered(l, s'.disk)) == Home(l, s.view)
  {
    hide Recovered, Operations;
    forall b: nat | HomeBlock(l, s.disk, b) && b !in s.lh
      ensures s.disk[b] == s.view[b]
    {
      assert forall p :: 0 <= p < |s.ops| ==> !Holds(s.ops[p], b);
    }
    HeaderWriteCommits(l, s.disk, s.lh, s.view);
    assert LegalNames(l, s'.disk, s'.lh);
    assert Clean(l, s');
    SameOperations(l, s, s');
  }

  lemma SameOperations(l: Layout, s: System, s': System)
    requires Operations(l, s) && |s'.disk| == |s.disk|
    requires s'.ops == s.ops && s'.lh == s.lh && s'.outstanding == s.outstanding
    ensures Operations(l, s')
  {
  }

  // The header write is where the transaction becomes durable, all of it at once.
  lemma WriteHeadRefines(l: Layout, s: System, s': System)
    requires Inv(l, s) && s.phase.WritingLog? && s.phase.k == |s.lh| && CommitNext(l, s, s')
    ensures Refines(l, s, s', SCommit)
  {
    WriteHeadKeepsInv(l, s, s');
    assert Abs(l, s').active == {};
    assert Abs(l, s).active == {};
  }

  // One more block at home: the earlier ones, the log and everything else stay in place.
  lemma InstalledFurther(l: Layout, s: System, s': System, k: nat)
    requires FitsDisk(l, s.disk) && |s.view| == |s.disk| && LegalNames(l, s.disk, s.lh) && k < |s.lh|
    requires s'.disk == s.disk[s.lh[k] := LogBlock(l, s.disk, k)] && s'.lh == s.lh
    requires forall j :: 0 <= j < k ==> s.disk[s.lh[j]] == LogBlock(l, s.disk, j)
    ensures forall j :: 0 <= j < |s.lh| ==> LogBlock(l, s'.disk, j) == LogBlock(l, s.disk, j)
    ensures forall j :: 0 <= j <= k ==> s'.disk[s'.lh[j]] == LogBlock(l, s'.disk, j)
    ensures s'.view == s.view && s'.ops == s.ops && Clean(l, s) ==> Clean(l, s')
  {
  }

  lemma InstallKeepsInv(l: Layout, s: System, s': System)
    requires Inv(l, s) && s.phase.Installing? && s.phase.k < |s.lh| && CommitNext(l, s, s')
    ensures Inv(l, s') && s'.view == s.view && s'.ops == s.ops && s'.phase.Installing?
    ensures Home(l, Recovered(l, s'.disk)) == Home(l, Recovered(l, s.disk))
  {
    var k := s.phase.k;
    InstallStepInvisible(l, s.disk, k);
    assert LogBlock(l, s.disk, k) == s.view[s.lh[k]];
    InstalledFurther(l, s, s', k);
    assert LegalNames(l, s'.disk, s'.lh);
    AllIdleSums(s);
  }

  lemma InstallRefines(l: Layout, s: System, s': System)
    requires Inv(l, s) && s.phase.Installing? && s.phase.k < |s.lh| && CommitNext(l, s, s')
    ensures Refines(l, s, s', SStutter)
  {
    InstallKeepsInv(l, s, s');
    assert Abs(l, s').active == Abs(l, s).active;
  }

  lemma EraseRefines(l: Layout, s: System, s': System)
    requires Inv(l, s) && s.phase.Installing? && s.phase.k == |s.lh| && CommitNext(l, s, s')
    ensures Refines(l, s, s', SStutter)
  {
    ClearInvisible(l, s.disk);
    AllIdleSums(s');
    forall b: nat | HomeBlock(l, s.disk, b)
      ensures s'.disk[b] == s.view[b]
    {
      assert forall p :: 0 <= p < |s.ops| ==> !Holds(s.ops[p], b);
      if b in s.lh {
        var j :| 0 <= j < |s.lh| && s.lh[j] == b;
      }
    }
    assert LegalNames(l, s'.disk, []);
    assert Operations(l, s');
    assert Clean(l, s');
    assert Abs(l, s').active == Abs(l, s).active;
  }

  lemma CommitRefines(l: Layout, s: System, s': System)
    requires Inv(l, s) && Next(l, s, s', CommitWrite)
    ensures Refines(l, s, s', StoreStepOf(l, s, CommitWrite))
  {
    CommitKeepsBookkeeping(l, s, s');
    match s.phase
    case WritingLog(k) =>
      if k == |s.lh| {
        WriteHeadRefines(l, s, s');
      } else if AllPinned(l, s) {
        CrashRefines(l, s, s');
      } else {
        WriteLogRefines(l, s, s');
      }
    case Installing(k) =>
      if k < |s.lh| { InstallRefines(l, s, s'); } else { EraseRefines(l, s, s'); }
    case Releasing =>
      assert Operations(l, s');
      assert Clean(l, s');
      assert Abs(l, s').active == Abs(l, s).active;
    case _ => assert false;
  }

  lemma BootRefines(l: Layout, s: System, s': System)
    requires Inv(l, s) && Next(l, s, s', Boot)
    ensures Refines(l, s, s', SStutter)
  {
    AllIdleSums(s');
    assert Abs(l, s').active == Abs(l, s).active;
  }

  lemma RecoverInstallKeepsInv(l: Layout, s: System, s': System)
    requires Inv(l, s) && Next(l, s, s', RecoverWrite) && s.phase.k < |s.lh|
    ensures Inv(l, s') && s'.phase.Recovering? && s'.ops == s.ops
    ensures Home(l, Recovered(l, s'.disk)) == Home(l, Recovered(l, s.disk))
  {
    InstallStepInvisible(l, s.disk, s.phase.k);
    InstalledFurther(l, s, s', s.phase.k);
    assert LegalNames(l, s'.disk, s'.lh);
    AllIdleSums(s);
  }

  lemma RecoverClearKeepsInv(l: Layout, s: System, s': System)
    requires Inv(l, s) && Next(l, s, s', RecoverWrite) && s.phase.k == |s.lh|
    ensures Inv(l, s') && s'.phase.Running? && s'.ops == s.ops
    ensures Home(l, Recovered(l, s'.disk)) == Home(l, Recovered(l, s.disk)) == Home(l, s'.view)
  {
    ClearInvisible(l, s.disk);
    assert LegalNames(l, s'.disk, []);
    AllIdleSums(s);
    assert Home(l, s'.disk) == Home(l, s.disk);
  }

  lemma RecoverRefines(l: Layout, s: System, s': System)
    requires Inv(l, s) && Next(l, s, s', RecoverWrite)
    ensures Refines(l, s, s', SStutter)
  {
    if s.phase.k < |s.lh| {
      RecoverInstallKeepsInv(l, s, s');
    } else {
      RecoverClearKeepsInv(l, s, s');
    }
    assert Abs(l, s').active == Abs(l, s).active;
  }

  // ----- whole runs

  // The step of the store that a step of the system stands for.
  ghost function StoreStepOf(l: Layout, s: System, step: Step): StoreStep {
    match step
    case BeginOp(p) => SBegin(p)
    case Modify(p, b, data) => SWrite(p, b, data)
    case Check(p) => if TooBig(l, s) then SCrash else SStutter
    case Append(p) => SStutter
    case EndOp(p) => SEnd(p)
    case CommitWrite =>
      if s.phase.WritingLog? && s.phase.k == |s.lh| then SCommit
      else if s.phase.WritingLog? && AllPinned(l, s) then SCrash else SStutter
    case Crash => SCrash
    case Boot => SStutter
    case RecoverWrite => SStutter
  }

  lemma StepRefines(l: Layout, s: System, s': System, step: Step)
    requires Inv(l, s) && Next(l, s, s', step)
    ensures Refines(l, s, s', StoreStepOf(l, s, step))
  {
    match step
    case BeginOp(p) => BeginOpRefines(l, s, s', p);
    case Modify(p, b, data) => ModifyRefines(l, s, s', p, b, data);
    case Check(p) => CheckRefines(l, s, s', p);
    case Append(p) => AppendRefines(l, s, s', p);
    case EndOp(p) => EndOpRefines(l, s, s', p);
    case CommitWrite => CommitRefines(l, s, s');
    case Crash => CrashRefines(l, s, s');
    case Boot => BootRefines(l, s, s');
    case RecoverWrite => RecoverRefines(l, s, s');
  }

  // No step is ever held back by the bounds.
  lemma KeepsInBounds(l: Layout, s: System)
    requires Bookkeeping(l, s)
    ensures InBounds(l, s)
  {
  }

  lemma InitInv(l: Layout, s: System)
    requires Init(l, s)
    ensures Bookkeeping(l, s)
    ensures NeverOverruns(l) ==> Inv(l, s) && Abs(l, s) == Store(Home(l, s.disk), Home(l, s.disk), {})
  {
    AllIdleSums(s);
    EmptyLogRecovers(l, s.disk);
    if NeverOverruns(l) {
      assert Abs(l, s).active == {};
    }
  }

  // A run, newest state last.
  datatype Run = Start(s: System) | Then(before: Run, step: Step, s: System)

  ghost predicate ValidRun(l: Layout, r: Run) {
    match r
    case Start(s) => Init(l, s)
    case Then(before, step, s) => ValidRun(l, before) && Next(l, before.s, s, step)
  }

  lemma {:induction false} RunKeepsBookkeeping(l: Layout, r: Run)
    requires ValidRun(l, r)
    ensures Bookkeeping(l, r.s)
  {
    match r
    case Start(s) => InitInv(l, s);
    case Then(before, step, s) =>
      RunKeepsBookkeeping(l, before);
      StepKeepsBookkeeping(l, before.s, s, step);
  }

  lemma {:induction false} RunKeepsInv(l: Layout, r: Run)
    requires ValidRun(l, r) && NeverOverruns(l)
    ensures Inv(l, r.s)
  {
    match r
    case Start(s) => InitInv(l, s);
    case Then(before, step, s) =>
      RunKeepsInv(l, before);
      StepRefines(l, before.s, s, step);
  }

  // The step from s writes the header of a commit.
  predicate CommitPoint(s: System, step: Step) {
    step.CommitWrite? && s.phase.WritingLog? && s.phase.k >= |s.lh|
  }

  // What was in the cache when the run last wrote the header of a commit, or on disk when it began.
  ghost function LastCommitted(l: Layout, r: Run): Disk {
    match r
    case Start(s) => Home(l, s.disk)
    case Then(before, step, s) =>
      if CommitPoint(before.s, step) then Home(l, before.s.view) else LastCommitted(l, before)
  }

  // A step leaves what recovery yields as it was, or commits the contents of the cache.
  lemma DurableFrom(a: Store, a': Store, step: StoreStep)
    requires StoreNext(a, a', step)
    ensures a'.durable == if step.SCommit? then a.volatile else a.durable
  {
  }

  /** Crash atomicity over every run: whatever happened, and wherever it stopped, recovery brings back exactly what
      was in the cache at the last header write, when no operation was under way (CommitsWhileIdle): each operation
      whole or not at all, and none that was committed lost. */
  lemma {:induction false} RecoveryIsAtomic(l: Layout, r: Run)
    requires ValidRun(l, r) && NeverOverruns(l)
    ensures Inv(l, r.s) && Home(l, Recovered(l, r.s.disk)) == LastCommitted(l, r)
  {
    RunKeepsInv(l, r);
    match r
    case Start(s) => InitInv(l, s);
    case Then(before, step, s) =>
      RecoveryIsAtomic(l, before);
      StepRefines(l, before.s, s, step);
      DurableFrom(Abs(l, before.s), Abs(l, s), StoreStepOf(l, before.s, step));
  }

  lemma AllClean(l: Layout, s: System)
    requires |s.view| == |s.disk| && Clean(l, s) && AllIdle(s) && s.lh == []
    ensures Home(l, s.disk) == Home(l, s.view)
  {
    forall b: nat | HomeBlock(l, s.disk, b)
      ensures s.disk[b] == s.view[b]
    {
      assert forall p :: 0 <= p < |s.ops| ==> !Holds(s.ops[p], b);
    }
  }

  /** Nothing finished is left uncommitted: whenever no operation is under way and no commit either, the log is empty,
      recovery gives all that was written, and any process may begin an operation. */
  lemma NothingPending(l: Layout, r: Run)
    requires ValidRun(l, r) && NeverOverruns(l) && r.s.phase.Running? && AllIdle(r.s)
    ensures Inv(l, r.s) && r.s.lh == [] && Home(l, Recovered(l, r.s.disk)) == Home(l, r.s.view)
    ensures forall p :: 0 <= p < |r.s.ops| ==> Enabled(l, r.s, BeginOp(p))
  {
    RunKeepsInv(l, r);
    AllIdleSums(r.s);
    EmptyLogRecovers(l, r.s.disk);
    AllClean(l, r.s);
  }

  /** A crash may come in any state, and a step of the code ends in a panic exactly in these cases. In a log that is
      never overrun only log_write's size test and a commit with every buffer pinned are left of them. */
  lemma PanicsExactly(l: Layout, s: System, s': System, step: Step)
    requires Next(l, s, s', step) && !s.phase.Down?
    ensures Next(l, s, Crashed(s), Crash)
    ensures s'.phase.Down? <==>
      match step
      case Crash => true
      case Check(p) => TooBig(l, s) || s.outstanding < 1
      case EndOp(p) => s.committing
      case CommitWrite =>
        if s.phase.Releasing? || s.phase.k >= |s.lh| then false
        else PastDisk(l, s, s.phase.k) || (s.phase.WritingLog? && AllPinned(l, s))
      case RecoverWrite => s.phase.k < |s.lh| && PastDisk(l, s, s.phase.k)
      case _ => false
    ensures Inv(l, s) && s'.phase.Down? && !step.Crash? ==>
      (step.Check? && TooBig(l, s)) || (step.CommitWrite? && s.phase.WritingLog? && AllPinned(l, s))
  {
    hide Inv, InBounds;
    if Inv(l, s) {
      FewPanics(l, s, step);
    }
  }

  lemma FewPanics(l: Layout, s: System, step: Step)
    requires Inv(l, s) && Enabled(l, s, step)
    ensures step.Check? ==> s.outstanding >= 1
    ensures step.EndOp? ==> !s.committing
    ensures step.RecoverWrite? && s.phase.k < |s.lh| ==> !PastDisk(l, s, s.phase.k)
    ensures step.CommitWrite? && s.phase.Installing? && s.phase.k < |s.lh| ==> !PastDisk(l, s, s.phase.k)
    ensures step.CommitWrite? && s.phase.WritingLog? && s.phase.k < |s.lh| && PastDisk(l, s, s.phase.k) ==>
      AllPinned(l, s)
  {
    if step.Check? || step.EndOp? {
      ActiveMeansRunning(l, s, step.p);
    }
  }

  // begin_op waits exactly while there is a commit, or no room for what one more operation may log.
  lemma BeginWaitsExactly(l: Layout, s: System, p: nat)
    requires Bookkeeping(l, s) && p < |s.ops| && s.ops[p].Idle? && !s.phase.Down? && !s.phase.Recovering?
    ensures Enabled(l, s, BeginOp(p)) <==>
      s.phase.Running? && |s.lh| + (CountActive(s.ops, |s.ops|) + 1) * MAXOPBLOCKS <= LOGSIZE
  {
  }

  // Disk writes and the release still to come in a commit.
  function CommitLeft(s: System): nat
    requires Phases(s)
  {
    match s.phase
    case WritingLog(k) => 2 * |s.lh| - k + 3
    case Installing(k) => |s.lh| - k + 2
    case Releasing => 1
    case _ => 0
  }

  // r' is r with only steps of the commit after it.
  ghost predicate CommitsOn(r: Run, r': Run) {
    r' == r || (r'.Then? && r'.step == CommitWrite && CommitsOn(r, r'.before))
  }

  // The step takes a commit one write further and leaves the cache as it was.
  ghost predicate Further(l: Layout, s: System, s': System) {
    && Next(l, s, s', CommitWrite) && Phases(s) && Phases(s') && CommitLeft(s') < CommitLeft(s)
    && s'.view == s.view && AllIdle(s') && (s'.committing || s'.phase.Running?)
    && (s'.phase.WritingLog? ==> s'.lh == s.lh)
  }

  lemma WriteFurther(l: Layout, s: System) returns (s': System)
    requires Inv(l, s) && s.phase.WritingLog? && !AllPinned(l, s)
    ensures Further(l, s, s')
  {
    hide Clean, Operations, Recovered;
    var k := s.phase.k;
    if k >= |s.lh| {
      s' := s.(disk := s.disk[l.start := WithHeader(s.disk[l.start], s.lh)], phase := Installing(0));
    } else {
      s' := s.(disk := s.disk[l.start + 1 + k := s.view[s.lh[k]]], phase := WritingLog(k + 1));
    }
  }

  lemma InstallFurther(l: Layout, s: System) returns (s': System)
    requires Inv(l, s) && s.phase.Installing?
    ensures Further(l, s, s')
  {
    hide Operations, Recovered;
    var k := s.phase.k;
    if k >= |s.lh| {
      s' := s.(lh := [], disk := Emptied(l, s.disk), phase := Releasing);
    } else {
      s' := InstallOne(l, s, k).(phase := Installing(k + 1));
      assert Clean(l, s) && LogBlock(l, s.disk, k) == s.view[s.lh[k]];
      assert s'.view == s.view;
    }
  }

  lemma CommitStepTaken(l: Layout, s: System) returns (s': System)
    requires Inv(l, s) && s.committing && (s.phase.WritingLog? ==> !AllPinned(l, s))
    ensures Further(l, s, s') && Inv(l, s')
  {
    hide Inv, Further;
    CommittingPhase(l, s);
    if s.phase.WritingLog? {
      s' := WriteFurther(l, s);
    } else if s.phase.Installing? {
      s' := InstallFurther(l, s);
    } else {
      s' := s.(committing := false, phase := Running);
      Released(l, s, s');
    }
    FurtherKeepsInv(l, s, s');
  }

  lemma CommittingPhase(l: Layout, s: System)
    requires Inv(l, s) && s.committing
    ensures s.phase.WritingLog? || s.phase.Installing? || s.phase.Releasing?
  {
  }

  lemma FurtherKeepsInv(l: Layout, s: System, s': System)
    requires Inv(l, s) && Further(l, s, s')
    ensures Inv(l, s')
  {
    CommitRefines(l, s, s');
  }

  lemma Released(l: Layout, s: System, s': System)
    requires Inv(l, s) && s.phase.Releasing? && s' == s.(committing := false, phase := Running)
    ensures Further(l, s, s')
  {
  }

  lemma {:induction false} CommitGoesOn(l: Layout, start: Run, r: Run) returns (r': Run)
    requires ValidRun(l, r) && CommitsOn(start, r) && r.s.view == start.s.view
    requires Inv(l, r.s) && AllIdle(r.s) && (r.s.committing || r.s.phase.Running?)
    requires r.s.phase.WritingLog? ==> !AllPinned(l, r.s)
    ensures ValidRun(l, r') && CommitsOn(start, r') && r'.s.phase.Running? && AllIdle(r'.s)
    ensures r'.s.view == start.s.view
    decreases CommitLeft(r.s)
  {
    if r.s.phase.Running? {
      r' := r;
    } else {
      var s' := CommitStepTaken(l, r.s);
      r' := CommitGoesOn(l, start, Then(r, CommitWrite, s'));
    }
  }

  /** A commit that has begun can run to its end, and then all that was in the cache when the last operation ended is
      on disk. */
  lemma CommitCompletes(l: Layout, r: Run) returns (r': Run)
    requires ValidRun(l, r) && NeverOverruns(l) && r.s.committing && (r.s.phase.WritingLog? ==> !AllPinned(l, r.s))
    ensures ValidRun(l, r') && CommitsOn(r, r')
    ensures r'.s.phase.Running? && r'.s.lh == [] && r'.s.view == r.s.view
    ensures Home(l, r'.s.disk) == Home(l, r.s.view)
  {
    RunKeepsInv(l, r);
    CommitsWhileIdle(l, r.s);
    r' := CommitGoesOn(l, r, r);
    NothingPending(l, r');
    EmptyLogRecovers(l, r'.s.disk);
    RunKeepsInv(l, r');
  }

  // r' is r with only steps of recovery after it.
  ghost predicate RecoversOn(r: Run, r': Run) {
    r' == r || (r'.Then? && r'.step == RecoverWrite && RecoversOn(r, r'.before))
  }

  lemma RecoverStepTaken(l: Layout, s: System) returns (s': System)
    requires Inv(l, s) && s.phase.Recovering?
    ensures Next(l, s, s', RecoverWrite) && Inv(l, s')
    ensures Home(l, Recovered(l, s'.disk)) == Home(l, Recovered(l, s.disk))
    ensures if s.phase.k < |s.lh| then s'.phase == Recovering(s.phase.k + 1) && s'.lh == s.lh
            else s'.phase.Running? && Home(l, s'.view) == Home(l, Recovered(l, s.disk))
  {
    s' := RecoverStep(l, s);
    if s.phase.k < |s.lh| {
      RecoverInstallKeepsInv(l, s, s');
    } else {
      RecoverClearKeepsInv(l, s, s');
    }
  }

  lemma RecoverStep(l: Layout, s: System) returns (s': System)
    requires Inv(l, s) && s.phase.Recovering?
    ensures Next(l, s, s', RecoverWrite) && s'.lh == (if s.phase.k < |s.lh| then s.lh else [])
    ensures s'.phase == if s.phase.k < |s.lh| then Recovering(s.phase.k + 1) else Running
  {
    hide Recovered, Operations, Clean;
    if s.phase.k < |s.lh| {
      s' := InstallOne(l, s, s.phase.k).(phase := Recovering(s.phase.k + 1));
    } else {
      s' := s.(lh := [], disk := Emptied(l, s.disk), view := Emptied(l, s.disk), phase := Running);
    }
  }

  lemma {:induction false} RecoveryGoesOn(l: Layout, start: Run, r: Run) returns (r': Run)
    requires ValidRun(l, r) && RecoversOn(start, r) && Inv(l, r.s) && Inv(l, start.s) && r.s.phase.Recovering?
    requires r.s.phase.k <= |r.s.lh|
    requires Home(l, Recovered(l, r.s.disk)) == Home(l, Recovered(l, start.s.disk))
    ensures ValidRun(l, r') && RecoversOn(start, r') && r'.s.phase.Running?
    ensures Home(l, r'.s.view) == Home(l, Recovered(l, start.s.disk))
    decreases |r.s.lh| - r.s.phase.k
  {
    hide Inv, Next, Recovered;
    var s' := RecoverStepTaken(l, r.s);
    r' := Then(r, RecoverWrite, s');
    if r.s.phase.k < |r.s.lh| {
      r' := RecoveryGoesOn(l, start, r');
    }
  }

  /** Recovery can run to its end after any crash, and then the file system sees what recovery promises: what was
      committed last. */
  lemma RecoveryCompletes(l: Layout, r: Run) returns (r': Run)
    requires ValidRun(l, r) && NeverOverruns(l) && r.s.phase.Recovering?
    ensures ValidRun(l, r') && RecoversOn(r, r') && r'.s.phase.Running?
    ensures Home(l, r'.s.view) == LastCommitted(l, r)
  {
    RecoveryIsAtomic(l, r);
    RecoveringWithin(l, r.s);
    r' := RecoveryGoesOn(l, r, r);
  }

  lemma RecoveringWithin(l: Layout, s: System)
    requires Inv(l, s) && s.phase.Recovering?
    ensures s.phase.k <= |s.lh|
  {
  }

  /** Around one commit: from the first log block write to the release of `committing`, recovery gives either
      all of the state before the commit or all of the state it commits, whichever steps have been taken. */
  lemma CommitIsAllOrNothing(l: Layout, s: System)
    requires Inv(l, s) && s.committing
    ensures s.outstanding == 0 && AllIdle(s)
    ensures s.phase.WritingLog? ==> Home(l, Recovered(l, s.disk)) == Home(l, s.disk)
    ensures !s.phase.WritingLog? ==> Home(l, Recovered(l, s.disk)) == Home(l, s.view)
  {
    AllIdleSums(s);
    if s.phase.Installing? {
      forall b: nat | HomeBlock(l, s.disk, b) && b !in s.lh
        ensures s.disk[b] == s.view[b]
      {
        assert forall p :: 0 <= p < |s.ops| ==> !Holds(s.ops[p], b);
      }
      RecoveredIsView(l, s.disk, s.view);
    } else {
      EmptyLogRecovers(l, s.disk);
      if s.phase.Releasing? {
        forall b: nat | HomeBlock(l, s.disk, b)
          ensures s.disk[b] == s.view[b]
        {
          assert forall p :: 0 <= p < |s.ops| ==> !Holds(s.ops[p], b);
        }
        assert Home(l, s.disk) == Home(l, s.view);
      }
    }
  }
}
