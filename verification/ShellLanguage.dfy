/** Which token sequences are command lines, and of which trees, said apart from the parser; and that the parser of sh.c
    accepts exactly these, with these trees. */
module ShellLanguage {
  import opened ShellGrammar

  // ----- the grammar

  // The redirection that the token op stands for.
  predicate Redirects<W>(op: Token<W>, mode: nat, fd: nat) {
    || (op == Sym('<') && mode == O_RDONLY && fd == 0)
    || ((op == Sym('>') || op == Append) && mode == O_WRONLY_CREATE && fd == 1)
  }

  /** A simple command: a line in parentheses, or nothing, with arguments (only without parentheses, and fewer than
      MAXARGS of them) and redirections after it in any order, each around what stands before it. */
  ghost predicate Command<W(!new)>(block: bool, t: Cmd<W>, ts: seq<Token<W>>)
    decreases |ts|, 0
  {
    var n := |ts|;
    || (!block && ts == [] && t == Exec([]))
    || (block && n >= 2 && ts[0] == Sym('(') && ts[n - 1] == Sym(')') && Line(t, ts[1..n - 1]))
    || (t.Redir? && n >= 2 && ts[n - 1] == Word(t.file) && Redirects(ts[n - 2], t.mode, t.fd)
        && Command(block, t.cmd, ts[..n - 2]))
    || (!block && n >= 1 && ts[n - 1].Word? && exists c {:trigger AddArg(c, ts[n - 1].w)} ::
          t == AddArg(c, ts[n - 1].w) && Argc(c) + 1 < MAXARGS && Command(false, c, ts[..n - 1]))
  }

  // Commands joined by |, which group to the right.
  ghost predicate Pipeline<W(!new)>(t: Cmd<W>, ts: seq<Token<W>>)
    decreases |ts|, 1, 1
  {
    || AnyCommand(t, ts)
    || (t.Pipe? && exists i {:trigger ts[i]} ::
          0 <= i < |ts| && ts[i] == Sym('|') && AnyCommand(t.left, ts[..i]) && Pipeline(t.right, ts[i + 1..]))
  }

  ghost predicate AnyCommand<W(!new)>(t: Cmd<W>, ts: seq<Token<W>>)
    decreases |ts|, 1, 0
  {
    Command(false, t, ts) || Command(true, t, ts)
  }

  // A pipeline with any number of & after it.
  ghost predicate Part<W(!new)>(t: Cmd<W>, ts: seq<Token<W>>)
    decreases |ts|, 2
  {
    || Pipeline(t, ts)
    || (t.Back? && ts != [] && ts[|ts| - 1] == Sym('&') && Part(t.cmd, ts[..|ts| - 1]))
  }

  // Parts joined by ;, which group to the right.
  ghost predicate Line<W(!new)>(t: Cmd<W>, ts: seq<Token<W>>)
    decreases |ts|, 3
  {
    || Part(t, ts)
    || (t.List? && exists i {:trigger ts[i]} ::
          0 <= i < |ts| && ts[i] == Sym(';') && Part(t.left, ts[..i]) && Line(t.right, ts[i + 1..]))
  }

  // ----- what the grammar allows is parsed

  lemma RedirectsIs<W>(c: Cmd<W>, op: Token<W>, w: W, mode: nat, fd: nat)
    requires Redirects(op, mode, fd)
    ensures Redirected(c, op, w) == Redir(c, w, mode, fd) && NextRedir([op])
  {
  }

  lemma AfterOneRedir<W>(c: Cmd<W>, op: Token<W>, w: W, more: seq<Token<W>>)
    requires NextRedir([op])
    ensures ParseRedirs(c, [op, Word(w)] + more) == ParseRedirs(Redirected(c, op, w), more)
  {
    var ts := [op, Word(w)] + more;
    assert ts[2..] == more;
  }

  lemma AfterOneWord<W>(c: Cmd<W>, w: W, more: seq<Token<W>>)
    requires 0 <= Argc(c) && Argc(c) + 1 < MAXARGS && Argc(AddArg(c, w)) == Argc(c) + 1
    ensures After(c, [Word(w)] + more) == After(AddArg(c, w), more)
  {
    var ts := [Word(w)] + more;
    assert ts[1..] == more;
  }

  lemma {:induction false} AddArgArgc<W>(c: Cmd<W>, w: W)
    ensures Argc(AddArg(c, w)) == if Argc(c) >= 0 then Argc(c) + 1 else -1
  {
    if c.Redir? {
      AddArgArgc(c.cmd, w);
    }
  }

  // What parseexec has done once it has read a command.
  function Done<W>(block: bool, t: Cmd<W>, more: seq<Token<W>>): Res<W> {
    if block then ParseRedirs(t, more) else After(t, more)
  }

  lemma {:induction false} CommandArgc<W(!new)>(t: Cmd<W>, ts: seq<Token<W>>)
    requires Command(false, t, ts)
    ensures Argc(t) >= 0
    decreases |ts|
  {
    var n := |ts|;
    if t.Redir? && n >= 2 && Command(false, t.cmd, ts[..n - 2]) {
      CommandArgc(t.cmd, ts[..n - 2]);
    } else if ts != [] {
      var c :| t == AddArg(c, ts[n - 1].w) && Command(false, c, ts[..n - 1]);
      CommandArgc(c, ts[..n - 1]);
      AddArgArgc(c, ts[n - 1].w);
    }
  }

  lemma {:induction false} CommandParse<W(!new)>(block: bool, t: Cmd<W>, ts: seq<Token<W>>, more: seq<Token<W>>)
    requires Command(block, t, ts) && !Next(more, ['('])
    ensures ParseExec(ts + more) == Done(block, t, more)
    decreases |ts|, 0
  {
    hide ParseRedirs, ParseArgs, ParseLine, Argc, Line, After;
    var n := |ts|;
    if !block && ts == [] && t == Exec([]) {
      NoTokens(more);
    } else if block && n >= 2 && ts[0] == Sym('(') && ts[n - 1] == Sym(')') && Line(t, ts[1..n - 1]) {
      var end := [Sym(')')] + more;
      LineParsed(t, ts[1..n - 1], end);
      assert ts + more == [Sym('(')] + (ts[1..n - 1] + end);
      assert end[1..] == more;
    } else if t.Redir? && n >= 2 && ts[n - 1] == Word(t.file) && Redirects(ts[n - 2], t.mode, t.fd)
              && Command(block, t.cmd, ts[..n - 2]) {
      var next := [ts[n - 2], Word(t.file)] + more;
      CommandParse(block, t.cmd, ts[..n - 2], next);
      assert ts + more == ts[..n - 2] + next;
      RedirectsIs(t.cmd, ts[n - 2], t.file, t.mode, t.fd);
      AfterOneRedir(t.cmd, ts[n - 2], t.file, more);
      RedirDone(block, t, ts[n - 2], more);
    } else {
      var c :| t == AddArg(c, ts[n - 1].w) && Argc(c) + 1 < MAXARGS && Command(false, c, ts[..n - 1]);
      CommandArgc(c, ts[..n - 1]);
      AddArgArgc(c, ts[n - 1].w);
      var next := [Word(ts[n - 1].w)] + more;
      CommandParse(false, c, ts[..n - 1], next);
      AfterOneWord(c, ts[n - 1].w, more);
      assert ts + more == ts[..n - 1] + next;
    }
  }

  lemma NoTokens<W>(more: seq<Token<W>>)
    requires !Next(more, ['('])
    ensures ParseExec([] + more) == After(Exec([]), more)
  {
    assert [] + more == more;
  }

  lemma RedirDone<W>(block: bool, t: Cmd<W>, op: Token<W>, more: seq<Token<W>>)
    requires t.Redir? && NextRedir([op]) && Redirected(t.cmd, op, t.file) == t
    ensures Done(block, t.cmd, [op, Word(t.file)] + more) == Done(block, t, more)
  {
    AfterOneRedir(t.cmd, op, t.file, more);
  }

  lemma DoneStops<W>(block: bool, t: Cmd<W>, rest: seq<Token<W>>)
    requires rest == [] || Next(rest, ['|', ')', '&', ';'])
    ensures Done(block, t, rest) == Ok(t, rest)
  {
  }

  lemma OneCommand<W(!new)>(t: Cmd<W>, ts: seq<Token<W>>, rest: seq<Token<W>>)
    requires AnyCommand(t, ts)
    requires rest == [] || Next(rest, ['|', ')', '&', ';'])
    ensures ParseExec(ts + rest) == Ok(t, rest)
    decreases |ts|, 1
  {
    hide ParseExec, Done, Command;
    var block := Command(true, t, ts);
    CommandParse(block, t, ts, rest);
    DoneStops(block, t, rest);
  }

  lemma {:induction false} PipelineParse<W(!new)>(t: Cmd<W>, ts: seq<Token<W>>, rest: seq<Token<W>>)
    requires Pipeline(t, ts) && (rest == [] || Next(rest, [')', '&', ';']))
    ensures ParsePipe(ts + rest) == Ok(t, rest)
    decreases |ts|, 2
  {
    hide ParseExec, AnyCommand;
    if AnyCommand(t, ts) {
      OneCommand(t, ts, rest);
    } else {
      var i :| 0 <= i < |ts| && ts[i] == Sym('|') && AnyCommand(t.left, ts[..i]) && Pipeline(t.right, ts[i + 1..]);
      hide Pipeline;
      var next := [Sym('|')] + (ts[i + 1..] + rest);
      OneCommand(t.left, ts[..i], next);
      assert ts + rest == ts[..i] + next;
      assert next[1..] == ts[i + 1..] + rest;
      PipelineParse(t.right, ts[i + 1..], rest);
    }
  }

  lemma {:induction false} PartParse<W(!new)>(t: Cmd<W>, ts: seq<Token<W>>, rest: seq<Token<W>>)
    requires Part(t, ts) && (rest == [] || Next(rest, [')', '&', ';']))
    ensures ParseLine(ts + rest) == FinishLine(t, rest)
    decreases |ts|, 3
  {
    hide ParsePipe, Pipeline;
    if Pipeline(t, ts) {
      PipelineParse(t, ts, rest);
    } else {
      var next := [Sym('&')] + rest;
      PartParse(t.cmd, ts[..|ts| - 1], next);
      assert ts + rest == ts[..|ts| - 1] + next;
      assert next[1..] == rest;
    }
  }

  lemma {:induction false} LineParsed<W(!new)>(t: Cmd<W>, ts: seq<Token<W>>, rest: seq<Token<W>>)
    requires Line(t, ts) && (rest == [] || Next(rest, [')']))
    ensures ParseLine(ts + rest) == Ok(t, rest)
    decreases |ts|, 4
  {
    hide ParseLine, Part;
    if Part(t, ts) {
      PartParse(t, ts, rest);
    } else {
      var i :| 0 <= i < |ts| && ts[i] == Sym(';') && Part(t.left, ts[..i]) && Line(t.right, ts[i + 1..]);
      var next := [Sym(';')] + (ts[i + 1..] + rest);
      PartParse(t.left, ts[..i], next);
      assert ts + rest == ts[..i] + next;
      assert next[1..] == ts[i + 1..] + rest;
      LineParsed(t.right, ts[i + 1..], rest);
    }
  }

  // ----- what is parsed the grammar allows

  // The parser has read from ts on, and left rest.
  ghost predicate Took<W>(ts: seq<Token<W>>, rest: seq<Token<W>>) {
    |rest| <= |ts| && rest == ts[|ts| - |rest|..]
  }

  function Taken<W>(ts: seq<Token<W>>, rest: seq<Token<W>>): seq<Token<W>>
    requires |rest| <= |ts|
  {
    ts[..|ts| - |rest|]
  }

  lemma {:induction false} RedirsAllowed<W(!new)>(block: bool, c: Cmd<W>, before: seq<Token<W>>, ts: seq<Token<W>>)
    requires Command(block, c, before) && ParseRedirs(c, ts).Ok?
    ensures var r := ParseRedirs(c, ts);
            Took(ts, r.rest) && Command(block, r.cmd, before + Taken(ts, r.rest))
    decreases |ts|
  {
    hide Command;
    if NextRedir(ts) {
      var c1 := Redirected(c, ts[0], ts[1].w);
      var done := before + ts[..2];
      OneRedirAllowed(block, c, before, ts[0], ts[1].w);
      assert done == before + [ts[0], Word(ts[1].w)];
      RedirsAllowed(block, c1, done, ts[2..]);
      var rest := ParseRedirs(c, ts).rest;
      assert done + Taken(ts[2..], rest) == before + Taken(ts, rest);
    } else {
      assert before + Taken(ts, ts) == before;
    }
  }

  lemma OneRedirAllowed<W(!new)>(block: bool, c: Cmd<W>, before: seq<Token<W>>, op: Token<W>, w: W)
    requires Command(block, c, before) && NextRedir([op])
    ensures Command(block, Redirected(c, op, w), before + [op, Word(w)])
  {
    var ts := before + [op, Word(w)];
    assert ts[..|ts| - 2] == before;
  }

  lemma OneWordAllowed<W(!new)>(c: Cmd<W>, before: seq<Token<W>>, w: W)
    requires Command(false, c, before) && Argc(c) + 1 < MAXARGS
    ensures Command(false, AddArg(c, w), before + [Word(w)])
  {
    var ts := before + [Word(w)];
    assert ts[..|ts| - 1] == before && ts[|ts| - 1].w == w;
    assert AddArg(c, ts[|ts| - 1].w) == AddArg(c, w);
  }

  lemma {:induction false} RedirsArgc<W>(c: Cmd<W>, ts: seq<Token<W>>)
    requires ParseRedirs(c, ts).Ok?
    ensures Argc(ParseRedirs(c, ts).cmd) == Argc(c)
    decreases |ts|
  {
    if NextRedir(ts) {
      RedirsArgc(Redirected(c, ts[0], ts[1].w), ts[2..]);
    }
  }

  // One turn of parseexec's loop.
  lemma OneArgAllowed<W(!new)>(c: Cmd<W>, before: seq<Token<W>>, ts: seq<Token<W>>)
    requires Command(false, c, before) && 0 <= Argc(c) && Argc(c) + 1 < MAXARGS && ts != [] && ts[0].Word?
    requires ParseRedirs(AddArg(c, ts[0].w), ts[1..]).Ok?
    ensures var r := ParseRedirs(AddArg(c, ts[0].w), ts[1..]);
            Took(ts, r.rest) && Command(false, r.cmd, before + Taken(ts, r.rest)) && Argc(r.cmd) == Argc(c) + 1
  {
    hide Command, ParseRedirs;
    var w := ts[0].w;
    var done := before + [Word(w)];
    OneWordAllowed(c, before, w);
    AddArgArgc(c, w);
    RedirsAllowed(false, AddArg(c, w), done, ts[1..]);
    RedirsArgc(AddArg(c, w), ts[1..]);
    var r := ParseRedirs(AddArg(c, w), ts[1..]);
    assert done + Taken(ts[1..], r.rest) == before + Taken(ts, r.rest);
  }

  lemma TakenTwice<W>(before: seq<Token<W>>, ts: seq<Token<W>>, mid: seq<Token<W>>, rest: seq<Token<W>>)
    requires Took(ts, mid) && Took(mid, rest)
    ensures Took(ts, rest) && (before + Taken(ts, mid)) + Taken(mid, rest) == before + Taken(ts, rest)
  {
  }

  lemma {:induction false} ArgsAllowed<W(!new)>(c: Cmd<W>, before: seq<Token<W>>, ts: seq<Token<W>>)
    requires Command(false, c, before) && Argc(c) >= 0 && ParseArgs(c, Argc(c), ts).Ok?
    ensures var r := ParseArgs(c, Argc(c), ts);
            Took(ts, r.rest) && Command(false, r.cmd, before + Taken(ts, r.rest))
    decreases |ts|
  {
    hide Command, ParseRedirs, Took, Argc;
    if ts == [] || Next(ts, ['|', ')', '&', ';']) {
      TookNothing(ts);
      assert before + Taken(ts, ts) == before;
    } else {
      var r := ParseRedirs(AddArg(c, ts[0].w), ts[1..]);
      OneArgAllowed(c, before, ts);
      ArgsAllowed(r.cmd, before + Taken(ts, r.rest), r.rest);
      TakenTwice(before, ts, r.rest, ParseArgs(c, Argc(c), ts).rest);
    }
  }

  lemma TookNothing<W>(ts: seq<Token<W>>)
    ensures Took(ts, ts)
  {
  }

  lemma {:induction false} ExecAllowed<W(!new)>(ts: seq<Token<W>>) returns (block: bool)
    requires ParseExec(ts).Ok?
    ensures var r := ParseExec(ts);
            Took(ts, r.rest) && Command(block, r.cmd, Taken(ts, r.rest))
    decreases |ts|, 0
  {
    hide Line, ParseRedirs, ParseArgs, ParseLine, Command;
    block := Next(ts, ['(']);
    var rest := ParseExec(ts).rest;
    if block {
      LineAllowed(ts[1..]);
      var r := ParseLine(ts[1..]);
      var before := [Sym('(')] + Taken(ts[1..], r.rest) + [Sym(')')];
      ParenAllowed(r.cmd, Taken(ts[1..], r.rest));
      RedirsAllowed(true, r.cmd, before, r.rest[1..]);
      assert before + Taken(r.rest[1..], rest) == Taken(ts, rest);
    } else {
      NothingAllowed<W>();
      RedirsAllowed(false, Exec([]), [], ts);
      RedirsArgc(Exec([]), ts);
      var r := ParseRedirs(Exec([]), ts);
      var before := [] + Taken(ts, r.rest);
      ArgsAllowed(r.cmd, before, r.rest);
      assert before + Taken(r.rest, rest) == Taken(ts, rest);
    }
  }

  lemma NothingAllowed<W(!new)>()
    ensures Command<W>(false, Exec([]), [])
  {
  }

  lemma ParenAllowed<W(!new)>(t: Cmd<W>, ts: seq<Token<W>>)
    requires Line(t, ts)
    ensures Command(true, t, [Sym('(')] + ts + [Sym(')')])
  {
    var all := [Sym('(')] + ts + [Sym(')')];
    assert all[1..|all| - 1] == ts;
  }

  lemma {:induction false} PipelineAllowed<W(!new)>(ts: seq<Token<W>>)
    requires ParsePipe(ts).Ok?
    ensures var r := ParsePipe(ts);
            Took(ts, r.rest) && Pipeline(r.cmd, Taken(ts, r.rest))
    decreases |ts|, 1
  {
    hide ParseExec, Command;
    var block := ExecAllowed(ts);
    var r := ParseExec(ts);
    if Next(r.rest, ['|']) {
      PipelineAllowed(r.rest[1..]);
      var rest := ParsePipe(ts).rest;
      var i := |ts| - |r.rest|;
      var all := Taken(ts, rest);
      assert all[i] == Sym('|') && all[..i] == Taken(ts, r.rest) && all[i + 1..] == Taken(r.rest[1..], rest);
    }
  }

  lemma {:induction false} FinishAllowed<W(!new)>(c: Cmd<W>, before: seq<Token<W>>, ts: seq<Token<W>>)
    requires Part(c, before) && FinishLine(c, ts).Ok?
    ensures var r := FinishLine(c, ts);
            Took(ts, r.rest) && Line(r.cmd, before + Taken(ts, r.rest))
    decreases |ts|, 2
  {
    hide ParseLine, Pipeline;
    var rest := FinishLine(c, ts).rest;
    if Next(ts, ['&']) {
      var done := before + [Sym('&')];
      assert done[..|done| - 1] == before;
      FinishAllowed(Back(c), done, ts[1..]);
      assert done + Taken(ts[1..], rest) == before + Taken(ts, rest);
    } else if Next(ts, [';']) {
      LineAllowed(ts[1..]);
      var all := before + Taken(ts, rest);
      var i := |before|;
      assert all[i] == Sym(';') && all[..i] == before && all[i + 1..] == Taken(ts[1..], rest);
    } else {
      assert before + Taken(ts, ts) == before;
    }
  }

  lemma {:induction false} LineAllowed<W(!new)>(ts: seq<Token<W>>)
    requires ParseLine(ts).Ok?
    ensures var r := ParseLine(ts);
            Took(ts, r.rest) && Line(r.cmd, Taken(ts, r.rest))
    decreases |ts|, 3
  {
    hide ParsePipe, FinishLine, Part, Pipeline;
    PipelineAllowed(ts);
    var r := ParsePipe(ts);
    assert Part(r.cmd, Taken(ts, r.rest)) by { PipelineIsPart(r.cmd, Taken(ts, r.rest)); }
    FinishAllowed(r.cmd, Taken(ts, r.rest), r.rest);
    var rest := ParseLine(ts).rest;
    assert Taken(ts, r.rest) + Taken(r.rest, rest) == Taken(ts, rest);
  }

  lemma PipelineIsPart<W(!new)>(t: Cmd<W>, ts: seq<Token<W>>)
    requires Pipeline(t, ts)
    ensures Part(t, ts)
  {
  }

  // ----- the language

  /** The parser reads ts, all of it, as the tree t exactly when the grammar makes ts a line of t. */
  lemma LineExactly<W(!new)>(ts: seq<Token<W>>, t: Cmd<W>)
    ensures ParseLine(ts) == Ok(t, []) <==> Line(t, ts)
  {
    if ParseLine(ts) == Ok(t, []) {
      LineAllowed(ts);
      assert Taken(ts, []) == ts;
    }
    if Line(t, ts) {
      LineParsed(t, ts, []);
      assert ts + [] == ts;
    }
  }

  /** So the grammar is not ambiguous, and a line is refused exactly when it is a line of no tree. */
  lemma LineOnce<W(!new)>(ts: seq<Token<W>>)
    ensures forall t, u :: Line(t, ts) && Line(u, ts) ==> t == u
    ensures (exists t :: Line(t, ts)) <==> ParseLine(ts).Ok? && ParseLine(ts).rest == []
  {
    forall t | Line(t, ts)
      ensures ParseLine(ts) == Ok(t, [])
    {
      LineExactly(ts, t);
    }
    if ParseLine(ts).Ok? && ParseLine(ts).rest == [] {
      LineExactly(ts, ParseLine(ts).cmd);
    }
  }
}
