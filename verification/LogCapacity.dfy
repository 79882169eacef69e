/** How much a log holds (log.c, begin_op's reservation against log_write's test, which is made without the lock): a
    fresh block of an operation within its reservation always fits exactly when the log has more than LOGSIZE blocks;
    a smaller log of two blocks or more can be written past its end; and a full log refuses even blocks it holds. */
module LogCapacity {
  import opened Blocks
  import opened RedoLog
  import opened LogSystem

  // ----- with more than LOGSIZE blocks

  // log_write's test fails only at a completely used log, and then only on a block the operation has logged before.
  lemma CheckRefusesOnlyWhenFull(l: Layout, s: System, p: nat)
    requires Bookkeeping(l, s) && l.size > LOGSIZE && Enabled(l, s, Check(p))
    ensures TooBig(l, s) <==> |s.lh| == LOGSIZE
    ensures TooBig(l, s) ==> s.ops[p].held.b in s.ops[p].logged
  {
    var op := s.ops[p];
    UnusedBounds(s.ops, |s.ops|);
    assert WithinReservation(op, s.lh);
    assert op.held.b !in op.logged ==> |op.logged + {op.held.b}| == |op.logged| + 1;
    assert TooBig(l, s) ==> Share(op) <= 0;
  }

  // ----- runs that fill the log

  // Three operations that have logged n distinct blocks between them, taking turns.
  ghost function Filled(l: Layout, d: Disk, procs: nat, n: nat): System
    requires procs >= 3 && n <= LOGSIZE
  {
    System(d, d, Names(l, n), 3, false, FilledOps(l, procs, n), Running)
  }

  function Name(l: Layout, i: nat): nat {
    l.start + l.size + i
  }

  function Names(l: Layout, n: nat): seq<nat> {
    seq(n, i requires 0 <= i < n => Name(l, i))
  }

  ghost function FilledOps(l: Layout, procs: nat, n: nat): seq<Op>
    requires procs >= 3
  {
    seq(procs, q requires 0 <= q < procs => if q < 3 then Active(Logged(l, q, n), Nothing) else Idle)
  }

  ghost function Logged(l: Layout, q: nat, n: nat): set<nat> {
    set i: nat | i < n && i % 3 == q :: Name(l, i)
  }

  lemma LoggedStep(l: Layout, q: nat, n: nat)
    ensures Name(l, n) !in Logged(l, q, n)
    ensures Logged(l, q, n + 1) == Logged(l, q, n) + if n % 3 == q then {Name(l, n)} else {}
  {
  }

  // How many of the first n turns are q's.
  function Turns(q: nat, n: nat): nat
    requires q < 3
  {
    (n + 2 - q) / 3
  }

  lemma TurnsStep(q: nat, n: nat)
    requires q < 3
    ensures Turns(q, 0) == 0 && Turns(q, n + 1) == Turns(q, n) + if n % 3 == q then 1 else 0
  {
  }

  lemma LoggedNone(l: Layout, q: nat)
    requires q < 3
    ensures |Logged(l, q, 0)| == Turns(q, 0)
  {
    assert Logged(l, q, 0) == {};
  }

  lemma {:induction false} LoggedSize(l: Layout, q: nat, n: nat)
    requires q < 3
    ensures |Logged(l, q, n)| == Turns(q, n)
  {
    hide Logged, Turns, Name;
    if n == 0 {
      LoggedNone(l, q);
    } else {
      LoggedSize(l, q, n - 1);
      LoggedStep(l, q, n - 1);
      TurnsStep(q, n - 1);
    }
  }

  // Enough room for the log and for LOGSIZE + 1 blocks after it, and an empty log.
  ghost predicate Roomy(l: Layout, d: Disk) {
    && FitsDisk(l, d) && l.start + l.size + LOGSIZE < |d|
    && HeaderN(d[l.start]) == 0 && Emptied(l, d) == d
  }

  ghost predicate Reachable(l: Layout, s: System) {
    exists r: Run :: ValidRun(l, r) && r.s == s
  }

  // And with `home` the contents last committed.
  ghost predicate ReachedWith(l: Layout, s: System, home: Disk) {
    exists r: Run :: ValidRun(l, r) && r.s == s && LastCommitted(l, r) == home
  }

  lemma ReachedStep(l: Layout, s: System, s': System, step: Step, home: Disk)
    requires ReachedWith(l, s, home) && Next(l, s, s', step) && !CommitPoint(s, step)
    ensures ReachedWith(l, s', home)
  {
    var r: Run :| ValidRun(l, r) && r.s == s && LastCommitted(l, r) == home;
    assert ValidRun(l, Then(r, step, s')) && LastCommitted(l, Then(r, step, s')) == home;
  }

  lemma ReachedIsReachable(l: Layout, s: System, home: Disk)
    requires ReachedWith(l, s, home)
    ensures Reachable(l, s)
  {
  }

  ghost function Booted(d: Disk, procs: nat): System {
    System(d, d, [], 0, false, seq(procs, i => Idle), Running)
  }

  // From here on: what is reached with nothing committed since the disk was d.
  lemma BootedReached(l: Layout, d: Disk, procs: nat)
    requires Roomy(l, d)
    ensures ReachedWith(l, Booted(d, procs), Home(l, d))
  {
    var s0 := Booted(d, procs).(phase := Down);
    assert Crashed(s0) == s0;
    assert ValidRun(l, Start(s0)) && Start(s0).s == s0 && LastCommitted(l, Start(s0)) == Home(l, d);
    EmptyLogRecovers(l, d);
    assert LogOf(l, d) == [];
    var s1 := s0.(phase := Recovering(0));
    ReachedStep(l, s0, s1, Boot, Home(l, d));
    ReachedStep(l, s1, Booted(d, procs), RecoverWrite, Home(l, d));
  }

  lemma ThreeBegun(l: Layout, d: Disk, procs: nat)
    requires procs >= 3 && Roomy(l, d)
    ensures ReachedWith(l, Filled(l, d, procs, 0), Home(l, d))
  {
    BootedReached(l, d, procs);
    EmptyLogRecovers(l, d);
    var s2 := Booted(d, procs);
    var begun := Active({}, Nothing);
    var s3 := s2.(outstanding := 1, ops := s2.ops[0 := begun]);
    ReachedStep(l, s2, s3, BeginOp(0), Home(l, d));
    var s4 := s3.(outstanding := 2, ops := s3.ops[1 := begun]);
    ReachedStep(l, s3, s4, BeginOp(1), Home(l, d));
    var s5 := s4.(outstanding := 3, ops := s4.ops[2 := begun]);
    ReachedStep(l, s4, s5, BeginOp(2), Home(l, d));
    assert forall q :: 0 <= q < 3 ==> Logged(l, q, 0) == {};
    assert s5.ops == FilledOps(l, procs, 0);
    assert s5 == Filled(l, d, procs, 0);
  }

  // A process of a filled state may take up a block: any block, if its reservation allows it.
  lemma MayModify(l: Layout, d: Disk, procs: nat, n: nat, p: nat, b: nat)
    requires procs >= 3 && Roomy(l, d) && n <= LOGSIZE && p < 3 && ReachedWith(l, Filled(l, d, procs, n), Home(l, d))
    requires HomeBlock(l, d, b) && |Logged(l, p, n) + {b}| <= MAXOPBLOCKS
    ensures var s := Filled(l, d, procs, n);
            var s' := s.(ops := s.ops[p := Active(Logged(l, p, n), Modified(b))]);
            ReachedWith(l, s', Home(l, d)) && InBounds(l, s') && Enabled(l, s', Check(p))
  {
    var s := Filled(l, d, procs, n);
    EmptyLogRecovers(l, d);
    assert d[b := d[b]] == d;
    var s' := s.(ops := s.ops[p := Active(Logged(l, p, n), Modified(b))]);
    assert Next(l, s, s', Modify(p, b, d[b]));
    ReachedStep(l, s, s', Modify(p, b, d[b]), Home(l, d));
  }

  // The process next in line, and the next block, stay within the reservation.
  lemma NextFits(l: Layout, n: nat)
    requires n < LOGSIZE
    ensures Name(l, n) !in Logged(l, n % 3, n)
    ensures |Logged(l, n % 3, n) + {Name(l, n)}| <= MAXOPBLOCKS
    ensures Logged(l, n % 3, n) + {Name(l, n)} == Logged(l, n % 3, n + 1)
    ensures forall q :: 0 <= q < 3 && q != n % 3 ==> Logged(l, q, n) == Logged(l, q, n + 1)
  {
    LoggedSize(l, n % 3, n);
  }

  lemma {:induction false} FilledReached(l: Layout, d: Disk, procs: nat, n: nat)
    requires procs >= 3 && Roomy(l, d) && n <= LOGSIZE && n < l.size
    ensures ReachedWith(l, Filled(l, d, procs, n), Home(l, d))
  {
    if n == 0 {
      ThreeBegun(l, d, procs);
    } else {
      FilledReached(l, d, procs, n - 1);
      FillOneMore(l, d, procs, n - 1);
    }
  }

  lemma FillOneMore(l: Layout, d: Disk, procs: nat, n: nat)
    requires procs >= 3 && Roomy(l, d) && n < LOGSIZE && n < l.size - 1
    requires ReachedWith(l, Filled(l, d, procs, n), Home(l, d))
    ensures ReachedWith(l, Filled(l, d, procs, n + 1), Home(l, d))
  {
    var s := Filled(l, d, procs, n);
    var p, b := n % 3, Name(l, n);
    NextFits(l, n);
    MayModify(l, d, procs, n, p, b);
    var s1 := s.(ops := s.ops[p := Active(Logged(l, p, n), Modified(b))]);
    var s2 := s.(ops := s.ops[p := Active(Logged(l, p, n), Checked(b))]);
    ReachedStep(l, s1, s2, Check(p), Home(l, d));
    AppendFills(l, d, procs, n, s2);
  }

  lemma AppendFills(l: Layout, d: Disk, procs: nat, n: nat, s2: System)
    requires procs >= 3 && Roomy(l, d) && n < LOGSIZE && n < l.size - 1
    requires var p := n % 3;
             var ops := FilledOps(l, procs, n)[p := Active(Logged(l, p, n), Checked(Name(l, n)))];
             s2 == Filled(l, d, procs, n).(ops := ops)
    requires ReachedWith(l, s2, Home(l, d)) && InBounds(l, s2)
    ensures ReachedWith(l, Filled(l, d, procs, n + 1), Home(l, d))
  {
    var p, b := n % 3, Name(l, n);
    var s3 := Filled(l, d, procs, n + 1);
    FilledOpsStep(l, procs, n);
    FilledNames(l, d, procs, n);
    hide FilledOps, Logged, Name, ReachedWith, Roomy, InBounds;
    assert s3 == s2.(lh := s2.lh + [b], ops := s2.ops[p := Active(Logged(l, p, n) + {b}, Nothing)]);
    ReachedStep(l, s2, s3, Append(p), Home(l, d));
  }

  lemma FilledNames(l: Layout, d: Disk, procs: nat, n: nat)
    requires procs >= 3 && n < LOGSIZE
    ensures Name(l, n) !in Filled(l, d, procs, n).lh
    ensures Filled(l, d, procs, n).lh + [Name(l, n)] == Filled(l, d, procs, n + 1).lh
  {
  }

  lemma FilledOpsStep(l: Layout, procs: nat, n: nat)
    requires procs >= 3 && n < LOGSIZE
    ensures var p := n % 3;
            && Logged(l, p, n) + {Name(l, n)} == Logged(l, p, n + 1)
            && FilledOps(l, procs, n)[p := Active(Logged(l, p, n + 1), Nothing)] == FilledOps(l, procs, n + 1)
  {
    NextFits(l, n);
  }

  // ----- the exact condition

  // No reachable log_write of a block not yet in the log is refused.
  ghost predicate FreshBlocksFit(l: Layout) {
    forall s: System, p: nat ::
      Reachable(l, s) && InBounds(l, s) && Enabled(l, s, Check(p)) && s.ops[p].held.b !in s.lh ==> !TooBig(l, s)
  }

  // On a disk with room and a table of at least three processes, fresh blocks fit exactly when the log
  // has more than LOGSIZE blocks. mkfs.c makes it LOGSIZE.
  lemma FreshBlocksFitIff(l: Layout, d: Disk, procs: nat)
    requires procs >= 3 && Roomy(l, d)
    ensures FreshBlocksFit(l) <==> l.size > LOGSIZE
  {
    if l.size > LOGSIZE {
      forall s: System, p: nat
        | Reachable(l, s) && InBounds(l, s) && Enabled(l, s, Check(p)) && s.ops[p].held.b !in s.lh
        ensures !TooBig(l, s)
      {
        var r: Run :| ValidRun(l, r) && r.s == s;
        RunKeepsBookkeeping(l, r);
        CheckRefusesOnlyWhenFull(l, s, p);
        assert WithinReservation(s.ops[p], s.lh);
      }
    } else {
      var n := l.size - 1;
      var p, b := n % 3, Name(l, n);
      FilledReached(l, d, procs, n);
      NextFits(l, n);
      MayModify(l, d, procs, n, p, b);
      var s := Filled(l, d, procs, n);
      var s1 := s.(ops := s.ops[p := Active(Logged(l, p, n), Modified(b))]);
      ReachedIsReachable(l, s1, Home(l, d));
      assert s1.ops[p].held.b !in s1.lh && TooBig(l, s1);
    }
  }

  // A full log is reachable, and there a block that needs no new entry is refused all the same.
  lemma FullLogRefusesAbsorption(l: Layout, d: Disk, procs: nat)
    requires procs >= 3 && Roomy(l, d) && l.size > LOGSIZE
    ensures exists s: System, p: nat ::
              Reachable(l, s) && InBounds(l, s) && Enabled(l, s, Check(p)) && s.ops[p].held.b in s.lh && TooBig(l, s)
  {
    FilledReached(l, d, procs, LOGSIZE);
    var s := Filled(l, d, procs, LOGSIZE);
    var b := Name(l, 0);
    LoggedSize(l, 0, LOGSIZE);
    assert b in Logged(l, 0, LOGSIZE);
    assert Logged(l, 0, LOGSIZE) + {b} == Logged(l, 0, LOGSIZE);
    MayModify(l, d, procs, LOGSIZE, 0, b);
    var s1 := s.(ops := s.ops[0 := Active(Logged(l, 0, LOGSIZE), Modified(b))]);
    assert s1.lh[0] == b;
    ReachedIsReachable(l, s1, Home(l, d));
    assert s1.ops[0].held.b in s1.lh && TooBig(l, s1);
  }
}
