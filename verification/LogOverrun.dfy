/** Why the log's size matters (log.c, log_write): its test is made without the lock, so two operations can both pass
    it with one block left. A log of two to LOGSIZE blocks is then written past its end, over a block of the file
    system, and atomicity is lost, unless that many blocks pin the whole cache and commit panics first. A larger log,
    or one with no block but the header, never is. The log of mkfs.c has LOGSIZE blocks, and the cache as many. */
module LogOverrun {
  import opened Blocks
  import opened RedoLog
  import opened LogSystem
  import opened LogCapacity

  // The step from s to s' writes a log block of a commit.
  ghost predicate LogWrite(l: Layout, s: System, s': System) {
    Next(l, s, s', CommitWrite) && s.phase.WritingLog? && s'.phase.WritingLog?
  }

  // No commit of any run writes a log block outside the log.
  ghost predicate CommitsStayInLog(l: Layout) {
    forall s: System, s': System :: Reachable(l, s) && LogWrite(l, s, s') ==> InLog(l, l.start + 1 + s.phase.k)
  }

  // Wherever a run stops, recovery brings back what was last committed.
  ghost predicate AlwaysAtomic(l: Layout) {
    forall r: Run :: ValidRun(l, r) ==>
      WellFormed(l, r.s.disk) && Home(l, Recovered(l, r.s.disk)) == LastCommitted(l, r)
  }

  function Different(b: Block): (c: Block)
    ensures c != b
  {
    b[0 := if b[0] == 0 then 1 else 0]
  }

  // ----- two operations pass the test together

  // The last block the log is overrun with.
  function Last(l: Layout): nat
    requires l.size >= 2
  {
    Name(l, l.size - 1)
  }

  // The cache once its contents have been changed, to something that the first home block after the log is not.
  function Changed(l: Layout, d: Disk): (view: Disk)
    requires l.size >= 2 && Last(l) < |d|
    ensures |view| == |d|
  {
    d[Last(l) := Different(d[Name(l, 0)])]
  }

  // Three operations, and one block more in the log than it has room for.
  ghost function Overfull(l: Layout, d: Disk, procs: nat): System
    requires procs >= 3 && 2 <= l.size <= LOGSIZE && Roomy(l, d)
  {
    Filled(l, d, procs, l.size).(view := Changed(l, d))
  }

  // p and q hold the next two blocks.
  ghost function Holding(l: Layout, d: Disk, procs: nat, view: Disk, p: nat, a: Op, q: nat, b: Op): System
    requires procs >= 3 && 2 <= l.size <= LOGSIZE && p < 3 && q < 3
  {
    var s := Filled(l, d, procs, l.size - 2);
    s.(view := view, ops := s.ops[p := a][q := b])
  }

  lemma NamesTwo(l: Layout, n: nat)
    ensures Name(l, n) !in Names(l, n) && Name(l, n + 1) !in Names(l, n) + [Name(l, n)] && Name(l, n) != Name(l, n + 1)
    ensures Names(l, n) + [Name(l, n)] + [Name(l, n + 1)] == Names(l, n + 2)
  {
  }

  lemma TwoFit(l: Layout, n: nat)
    requires n + 1 < LOGSIZE
    ensures var p, q := n % 3, (n + 1) % 3;
            && p != q && Name(l, n) != Name(l, n + 1)
            && |Logged(l, p, n) + {Name(l, n)}| <= MAXOPBLOCKS && |Logged(l, q, n) + {Name(l, n + 1)}| <= MAXOPBLOCKS
            && Logged(l, p, n) + {Name(l, n)} == Logged(l, p, n + 2)
            && Logged(l, q, n) + {Name(l, n + 1)} == Logged(l, q, n + 2)
            && (forall r :: 0 <= r < 3 && r != p && r != q ==> Logged(l, r, n) == Logged(l, r, n + 2))
  {
    hide Logged, Name;
    NextFits(l, n);
    NextFits(l, n + 1);
    NamesTwo(l, n);
  }

  lemma BothModify(l: Layout, d: Disk, procs: nat)
    requires procs >= 3 && 2 <= l.size <= LOGSIZE && Roomy(l, d)
    ensures var n := l.size - 2;
            var p, q, b, c := n % 3, (n + 1) % 3, Name(l, n), Name(l, n + 1);
            ReachedWith(l, Holding(l, d, procs, Changed(l, d), p, Active(Logged(l, p, n), Modified(b)),
              q, Active(Logged(l, q, n), Modified(c))), Home(l, d))
  {
    var n := l.size - 2;
    var p, q, b, c := n % 3, (n + 1) % 3, Name(l, n), Name(l, n + 1);
    FilledReached(l, d, procs, n);
    TwoFit(l, n);
    MayModify(l, d, procs, n, p, b);
    LastIn(l, d);
    var s := Filled(l, d, procs, n);
    var s1 := s.(ops := s.ops[p := Active(Logged(l, p, n), Modified(b))]);
    var x := Different(d[Name(l, 0)]);
    var s2 := s1.(view := d[c := x], ops := s1.ops[q := Active(Logged(l, q, n), Modified(c))]);
    OneHolds(l, procs, n, p, b);
    hide Logged, FilledOps, Roomy, ReachedWith, Name, Names, InBounds;
    ModifyReached(l, s1, q, Logged(l, q, n), c, x, Home(l, d));
    assert s2 == Holding(l, d, procs, Changed(l, d), p, Active(Logged(l, p, n), Modified(b)),
                   q, Active(Logged(l, q, n), Modified(c)));
  }

  lemma LastIn(l: Layout, d: Disk)
    requires 2 <= l.size <= LOGSIZE && Roomy(l, d)
    ensures HomeBlock(l, d, Last(l)) && HomeBlock(l, d, Name(l, 0)) && Last(l) == Name(l, l.size - 2 + 1)
  {
  }

  // Only p holds a block.
  lemma OneHolds(l: Layout, procs: nat, n: nat, p: nat, b: nat)
    requires procs >= 3 && n <= LOGSIZE && p < 3
    ensures var ops := FilledOps(l, procs, n)[p := Active(Logged(l, p, n), Modified(b))];
            && (forall q :: 0 <= q < 3 && q != p ==> ops[q] == Active(Logged(l, q, n), Nothing))
            && (forall q, c :: 0 <= q < procs && c != b ==> !Holds(ops[q], c))
  {
  }

  lemma ModifyReached(l: Layout, s: System, p: nat, logged: set<nat>, b: nat, data: Block, home: Disk)
    requires ReachedWith(l, s, home) && InBounds(l, s) && HomeBlock(l, s.disk, b)
    requires p < |s.ops| && s.ops[p] == Active(logged, Nothing) && |logged + {b}| <= MAXOPBLOCKS
    requires forall q :: 0 <= q < |s.ops| ==> !Holds(s.ops[q], b)
    ensures ReachedWith(l, s.(view := s.view[b := data], ops := s.ops[p := Active(logged, Modified(b))]), home)
  {
    hide ReachedWith;
    ReachedStep(l, s, s.(view := s.view[b := data], ops := s.ops[p := Active(logged, Modified(b))]),
      Modify(p, b, data), home);
  }

  lemma CheckReached(l: Layout, s: System, p: nat, logged: set<nat>, b: nat, home: Disk)
    requires ReachedWith(l, s, home) && InBounds(l, s) && !TooBig(l, s) && s.outstanding >= 1
    requires p < |s.ops| && s.ops[p] == Active(logged, Modified(b))
    ensures ReachedWith(l, s.(ops := s.ops[p := Active(logged, Checked(b))]), home)
  {
    hide ReachedWith, InBounds;
    ReachedStep(l, s, s.(ops := s.ops[p := Active(logged, Checked(b))]), Check(p), home);
  }

  lemma SameBounds(l: Layout, s: System, s': System)
    requires InBounds(l, s) && s'.disk == s.disk && s'.view == s.view && s'.lh == s.lh
    ensures InBounds(l, s')
  {
  }

  lemma BothCheck(l: Layout, d: Disk, procs: nat)
    requires procs >= 3 && 2 <= l.size <= LOGSIZE && Roomy(l, d)
    ensures var n := l.size - 2;
            var p, q, b, c := n % 3, (n + 1) % 3, Name(l, n), Name(l, n + 1);
            ReachedWith(l, Holding(l, d, procs, Changed(l, d), p, Active(Logged(l, p, n), Checked(b)),
              q, Active(Logged(l, q, n), Checked(c))), Home(l, d))
  {
    var n := l.size - 2;
    var p, q, b, c := n % 3, (n + 1) % 3, Name(l, n), Name(l, n + 1);
    BothModify(l, d, procs);
    EmptyLogRecovers(l, d);
    var view, mine, other := Changed(l, d), Active(Logged(l, p, n), Checked(b)), Active(Logged(l, q, n), Modified(c));
    var s2 := Holding(l, d, procs, view, p, Active(Logged(l, p, n), Modified(b)), q, other);
    var s3 := Holding(l, d, procs, view, p, mine, q, other);
    var s4 := Holding(l, d, procs, view, p, mine, q, Active(Logged(l, q, n), Checked(c)));
    assert |s2.lh| == n && InBounds(l, s2) && !TooBig(l, s2);
    hide Logged, FilledOps, Names, Name, Roomy, InBounds;
    assert s3 == s2.(ops := s2.ops[p := mine]);
    CheckReached(l, s2, p, Logged(l, p, n), b, Home(l, d));
    assert s4 == s3.(ops := s3.ops[q := Active(Logged(l, q, n), Checked(c))]);
    SameBounds(l, s2, s3);
    CheckReached(l, s3, q, Logged(l, q, n), c, Home(l, d));
  }

  lemma FilledOpsTwo(l: Layout, procs: nat, n: nat)
    requires procs >= 3 && n + 1 < LOGSIZE
    ensures var p, q := n % 3, (n + 1) % 3;
            FilledOps(l, procs, n)[p := Active(Logged(l, p, n) + {Name(l, n)}, Nothing)]
              [q := Active(Logged(l, q, n) + {Name(l, n + 1)}, Nothing)] == FilledOps(l, procs, n + 2)
  {
    hide Logged, Name;
    TwoFit(l, n);
    var p, q := n % 3, (n + 1) % 3;
    var was := FilledOps(l, procs, n);
    var ops := was[p := Active(Logged(l, p, n + 2), Nothing)][q := Active(Logged(l, q, n + 2), Nothing)];
    forall r | 0 <= r < procs
      ensures ops[r] == FilledOps(l, procs, n + 2)[r]
    {
    }
  }

  lemma BothAppend(l: Layout, d: Disk, procs: nat)
    requires procs >= 3 && 2 <= l.size <= LOGSIZE && Roomy(l, d)
    ensures ReachedWith(l, Overfull(l, d, procs), Home(l, d))
  {
    var n := l.size - 2;
    var p, q, b, c := n % 3, (n + 1) % 3, Name(l, n), Name(l, n + 1);
    BothCheck(l, d, procs);
    EmptyLogRecovers(l, d);
    NamesTwo(l, n);
    FilledOpsTwo(l, procs, n);
    var view, mine, other := Changed(l, d), Active(Logged(l, p, n), Checked(b)), Active(Logged(l, q, n), Checked(c));
    var s4 := Holding(l, d, procs, view, p, mine, q, other);
    var s5 := s4.(lh := s4.lh + [b], ops := s4.ops[p := Active(Logged(l, p, n) + {b}, Nothing)]);
    var s6 := s5.(lh := s5.lh + [c], ops := s5.ops[q := Active(Logged(l, q, n) + {c}, Nothing)]);
    hide Logged, Changed, FilledOps, Names, Name;
    OpsCommute(FilledOps(l, procs, n), p, mine, Active(Logged(l, p, n) + {b}, Nothing),
      q, other, Active(Logged(l, q, n) + {c}, Nothing));
    assert s6 == Overfull(l, d, procs);
    RoomFor(l, d, n + 1);
    AppendReached(l, s4, p, Logged(l, p, n), b, Home(l, d));
    AppendReached(l, s5, q, Logged(l, q, n), c, Home(l, d));
  }

  lemma RoomFor(l: Layout, d: Disk, n: nat)
    requires Roomy(l, d) && n <= LOGSIZE
    ensures forall i :: 0 <= i < n ==> Names(l, n)[i] < |d|
    ensures n > 0 ==> Names(l, n - 1) + [Name(l, n - 1)] == Names(l, n)
  {
  }

  lemma AppendReached(l: Layout, s: System, p: nat, logged: set<nat>, b: nat, home: Disk)
    requires ReachedWith(l, s, home) && InBounds(l, s)
    requires p < |s.ops| && s.ops[p] == Active(logged, Checked(b)) && b !in s.lh
    ensures ReachedWith(l, s.(lh := s.lh + [b], ops := s.ops[p := Active(logged + {b}, Nothing)]), home)
  {
    hide ReachedWith, InBounds;
    ReachedStep(l, s, s.(lh := s.lh + [b], ops := s.ops[p := Active(logged + {b}, Nothing)]), Append(p), home);
  }

  lemma OpsCommute(ops: seq<Op>, p: nat, a: Op, a': Op, q: nat, b: Op, b': Op)
    requires p < |ops| && q < |ops| && p != q
    ensures ops[p := a][q := b][p := a'][q := b'] == ops[p := a'][q := b']
  {
  }

  // ----- and the commit goes past the end

  ghost function LogWritten(l: Layout, d: Disk, k: nat): (w: Disk)
    requires 2 <= l.size <= LOGSIZE && k <= l.size && Roomy(l, d)
    ensures |w| == |d| && w[l.start] == d[l.start]
  {
    if k == 0 then d else LogWritten(l, d, k - 1)[l.start + k := Changed(l, d)[Name(l, k - 1)]]
  }

  ghost function Committing(l: Layout, d: Disk, procs: nat, k: nat): System
    requires 2 <= l.size <= LOGSIZE && k <= l.size && Roomy(l, d)
  {
    System(LogWritten(l, d, k), Changed(l, d), Names(l, l.size), 0, true, seq(procs, i => Idle), WritingLog(k))
  }

  lemma AllEnd(l: Layout, d: Disk, procs: nat)
    requires procs >= 3 && 2 <= l.size <= LOGSIZE && Roomy(l, d)
    ensures ReachedWith(l, Committing(l, d, procs, 0), Home(l, d))
  {
    BothAppend(l, d, procs);
    EmptyLogRecovers(l, d);
    var s6 := Overfull(l, d, procs);
    var s7 := s6.(outstanding := 2, ops := s6.ops[0 := Idle]);
    ReachedStep(l, s6, s7, EndOp(0), Home(l, d));
    var s8 := s7.(outstanding := 1, ops := s7.ops[1 := Idle]);
    ReachedStep(l, s7, s8, EndOp(1), Home(l, d));
    var s9 := s8.(outstanding := 0, committing := true, ops := s8.ops[2 := Idle], phase := WritingLog(0));
    ReachedStep(l, s8, s9, EndOp(2), Home(l, d));
    assert s9.ops == seq(procs, i => Idle);
    assert s9 == Committing(l, d, procs, 0);
  }

  lemma {:induction false} CommittingReached(l: Layout, d: Disk, procs: nat, k: nat)
    requires procs >= 3 && 2 <= l.size <= LOGSIZE && l.size < l.buffers && k <= l.size && Roomy(l, d)
    ensures ReachedWith(l, Committing(l, d, procs, k), Home(l, d))
  {
    if k == 0 {
      AllEnd(l, d, procs);
    } else {
      CommittingReached(l, d, procs, k - 1);
      CommittingStep(l, d, procs, k);
      hide Committing, Roomy, Next;
      ReachedStep(l, Committing(l, d, procs, k - 1), Committing(l, d, procs, k), CommitWrite, Home(l, d));
    }
  }

  lemma CommittingStep(l: Layout, d: Disk, procs: nat, k: nat)
    requires procs >= 3 && 2 <= l.size <= LOGSIZE && l.size < l.buffers && 0 < k <= l.size && Roomy(l, d)
    ensures var s := Committing(l, d, procs, k - 1);
            Next(l, s, Committing(l, d, procs, k), CommitWrite) && !CommitPoint(s, CommitWrite)
  {
    var s := Committing(l, d, procs, k - 1);
    EmptyLogRecovers(l, s.disk);
    hide Changed;
    assert forall i :: 0 <= i < l.size ==> Names(l, l.size)[i] == Name(l, i) < |d|;
  }

  // The log block written is not one of the log's.
  ghost predicate PastEnd(l: Layout, s: System, s': System) {
    Reachable(l, s) && LogWrite(l, s, s') && l.start + 1 + s.phase.k == l.start + l.size
  }

  // The run stops with nothing committed, and recovery changes the block after the log all the same.
  ghost predicate Torn(l: Layout, d: Disk, r: Run) {
    && ValidRun(l, r) && WellFormed(l, r.s.disk) && LastCommitted(l, r) == Home(l, d)
    && |r.s.disk| == |d| && l.start + l.size < |d|
    && Home(l, Recovered(l, r.s.disk))[l.start + l.size] == Different(d[l.start + l.size])
  }

  /** The overrun: one block of the file system gets another's new contents, and nothing is committed. */
  lemma Overruns(l: Layout, d: Disk, procs: nat)
    requires procs >= 3 && 2 <= l.size <= LOGSIZE && l.size < l.buffers && Roomy(l, d)
    ensures exists s: System, s': System :: PastEnd(l, s, s')
    ensures exists r: Run :: Torn(l, d, r)
  {
    hide Roomy, Next, Init, ReachedWith, Reachable, HeaderN;
    CommittingReached(l, d, procs, l.size - 1);
    ReachedIsReachable(l, Committing(l, d, procs, l.size - 1), Home(l, d));
    CommittingStep(l, d, procs, l.size);
    assert PastEnd(l, Committing(l, d, procs, l.size - 1), Committing(l, d, procs, l.size));
    CommittingReached(l, d, procs, l.size);
    OverrunIsTorn(l, d, procs);
  }

  lemma OverrunIsTorn(l: Layout, d: Disk, procs: nat)
    requires 2 <= l.size <= LOGSIZE && Roomy(l, d) && ReachedWith(l, Committing(l, d, procs, l.size), Home(l, d))
    ensures exists r: Run :: Torn(l, d, r)
  {
    var s := Committing(l, d, procs, l.size);
    var r: Run :| ValidRun(l, r) && r.s == s && LastCommitted(l, r) == Home(l, d);
    OverwrittenBlock(l, d, procs);
    hide Next, Init, ValidRun, LastCommitted, Committing, Roomy, Different;
    EmptyLogRecovers(l, s.disk);
    assert Torn(l, d, r);
  }

  lemma OverwrittenBlock(l: Layout, d: Disk, procs: nat)
    requires 2 <= l.size <= LOGSIZE && Roomy(l, d)
    ensures var w := Committing(l, d, procs, l.size).disk;
            && |w| == |d| && FitsDisk(l, w) && HeaderN(w[l.start]) == 0 && l.start + l.size < |d|
            && w[l.start + l.size] == Different(d[l.start + l.size])
  {
    var w := LogWritten(l, d, l.size);
    assert w[l.start + l.size] == Changed(l, d)[Last(l)];
    hide LogWritten;
  }

  lemma TornIsNotAtomic(l: Layout, d: Disk, r: Run)
    requires Torn(l, d, r)
    ensures Home(l, Recovered(l, r.s.disk)) != LastCommitted(l, r)
  {
    assert Home(l, d)[l.start + l.size] == d[l.start + l.size];
  }

  /** On a disk with room and a table of at least three processes, commits stay inside the log, and crashes are atomic,
      exactly when the log has more than LOGSIZE blocks, or no fewer than the cache, or only its header. */
  lemma LogIsSafeExactly(l: Layout, d: Disk, procs: nat)
    requires procs >= 3 && Roomy(l, d)
    ensures CommitsStayInLog(l) <==> NeverOverruns(l)
    ensures AlwaysAtomic(l) <==> NeverOverruns(l)
  {
    hide Roomy, Next, Init, Recovered, Home, LastCommitted, ValidRun, Inv;
    if NeverOverruns(l) {
      StaysInLog(l);
      forall r: Run | ValidRun(l, r)
        ensures WellFormed(l, r.s.disk) && Home(l, Recovered(l, r.s.disk)) == LastCommitted(l, r)
      {
        RecoveryIsAtomic(l, r);
        InvIsWellFormed(l, r.s);
      }
    } else {
      HasBlocks(l, d);
      Overruns(l, d, procs);
      var s: System, s': System :| PastEnd(l, s, s');
      assert !InLog(l, l.start + 1 + s.phase.k);
      var r: Run :| Torn(l, d, r);
      TornIsNotAtomic(l, d, r);
    }
  }

  lemma InvIsWellFormed(l: Layout, s: System)
    requires Inv(l, s)
    ensures WellFormed(l, s.disk)
  {
  }

  lemma HasBlocks(l: Layout, d: Disk)
    requires Roomy(l, d)
    ensures l.size >= 1
  {
  }

  // A log of two to LOGSIZE blocks can be committed with one entry more than it has blocks: with as many buffers in the
  // cache, all of them are pinned, and commit panics.
  lemma LogFillsUp(l: Layout, d: Disk, procs: nat)
    requires procs >= 3 && 2 <= l.size <= LOGSIZE && Roomy(l, d)
    ensures exists s: System :: Reachable(l, s) && s.phase == WritingLog(0) && |s.lh| == l.size
  {
    AllEnd(l, d, procs);
    ReachedIsReachable(l, Committing(l, d, procs, 0), Home(l, d));
  }

  // What mkfs.c and param.h make is safe, by a panic; one buffer more in the cache, and it would not be.
  lemma ShippedLogIsSafe(start: nat, d: Disk, procs: nat, buffers: nat)
    requires procs >= 3 && Roomy(Layout(start, LOGSIZE, buffers), d)
    ensures AlwaysAtomic(Layout(start, LOGSIZE, buffers)) <==> buffers <= LOGSIZE
  {
    LogIsSafeExactly(Layout(start, LOGSIZE, buffers), d, procs);
  }

  lemma StaysInLog(l: Layout)
    requires NeverOverruns(l)
    ensures CommitsStayInLog(l)
  {
    forall s: System, s': System | Reachable(l, s) && LogWrite(l, s, s')
      ensures InLog(l, l.start + 1 + s.phase.k)
    {
      var r: Run :| ValidRun(l, r) && r.s == s;
      RunKeepsInv(l, r);
    }
  }
}
