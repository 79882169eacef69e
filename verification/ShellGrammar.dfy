/** The shell's grammar (sh.c), over tokens: what the parser makes of them, and that it undoes printing.
    W is what a word is: its text, or where it lies in the line. */
module ShellGrammar {
  const MAXARGS: nat := 10
  const O_RDONLY: nat := 0
  const O_WRONLY_CREATE: nat := 0x201

  datatype Token<W> = Sym(c: char) | Append | Word(w: W)

  datatype Cmd<W> =
    | Exec(argv: seq<W>)
    | Redir(cmd: Cmd<W>, file: W, mode: nat, fd: nat)
    | Pipe(left: Cmd<W>, right: Cmd<W>)
    | List(left: Cmd<W>, right: Cmd<W>)
    | Back(cmd: Cmd<W>)

  // Panic: the parser prints a message and exits.
  datatype Res<W> = Ok(cmd: Cmd<W>, rest: seq<Token<W>>) | Panic

  // peek: the next token is one of these characters.
  predicate Next<W>(ts: seq<Token<W>>, cs: seq<char>) {
    ts != [] && ts[0].Sym? && ts[0].c in cs
  }

  predicate NextRedir<W>(ts: seq<Token<W>>) {
    Next(ts, ['<', '>']) || (ts != [] && ts[0].Append?)
  }

  // Fills the next argument of the EXEC node below the redirections.
  function AddArg<W>(c: Cmd<W>, w: W): Cmd<W> {
    match c
    case Exec(argv) => Exec(argv + [w])
    case Redir(sub, file, mode, fd) => Redir(AddArg(sub, w), file, mode, fd)
    case _ => c
  }

  function Redirected<W>(c: Cmd<W>, op: Token<W>, w: W): Cmd<W> {
    if op.Sym? && op.c == '<' then Redir(c, w, O_RDONLY, 0) else Redir(c, w, O_WRONLY_CREATE, 1)
  }

  // ----- the parser

  function ParseLine<W>(ts: seq<Token<W>>): (r: Res<W>)
    ensures r.Ok? ==> |r.rest| <= |ts|
    decreases |ts|, 5
  {
    match ParsePipe(ts)
    case Panic => Panic
    case Ok(c, ts1) => FinishLine(c, ts1)
  }

  function FinishLine<W>(c: Cmd<W>, ts: seq<Token<W>>): (r: Res<W>)
    ensures r.Ok? ==> |r.rest| <= |ts|
    decreases |ts|, 4
  {
    if Next(ts, ['&']) then FinishLine(Back(c), ts[1..])
    else if Next(ts, [';']) then
      match ParseLine(ts[1..])
      case Panic => Panic
      case Ok(c2, ts2) => Ok(List(c, c2), ts2)
    else Ok(c, ts)
  }

  function ParsePipe<W>(ts: seq<Token<W>>): (r: Res<W>)
    ensures r.Ok? ==> |r.rest| <= |ts|
    decreases |ts|, 3
  {
    match ParseExec(ts)
    case Panic => Panic
    case Ok(c, ts1) =>
      if Next(ts1, ['|']) then
        match ParsePipe(ts1[1..])
        case Panic => Panic
        case Ok(c2, ts2) => Ok(Pipe(c, c2), ts2)
      else Ok(c, ts1)
  }

  function ParseExec<W>(ts: seq<Token<W>>): (r: Res<W>)
    ensures r.Ok? ==> |r.rest| <= |ts|
    decreases |ts|, 2
  {
    if Next(ts, ['(']) then
      match ParseLine(ts[1..])
      case Panic => Panic
      case Ok(c, ts1) => if Next(ts1, [')']) then ParseRedirs(c, ts1[1..]) else Panic
    else
      match ParseRedirs(Exec([]), ts)
      case Panic => Panic
      case Ok(c, ts1) => ParseArgs(c, 0, ts1)
  }

  function ParseRedirs<W>(c: Cmd<W>, ts: seq<Token<W>>): (r: Res<W>)
    ensures r.Ok? ==> |r.rest| <= |ts|
    decreases |ts|
  {
    if !NextRedir(ts) then Ok(c, ts)
    else if |ts| < 2 || !ts[1].Word? then Panic
    else ParseRedirs(Redirected(c, ts[0], ts[1].w), ts[2..])
  }

  function ParseArgs<W>(c: Cmd<W>, argc: nat, ts: seq<Token<W>>): (r: Res<W>)
    ensures r.Ok? ==> |r.rest| <= |ts|
    decreases |ts|
  {
    if ts == [] || Next(ts, ['|', ')', '&', ';']) then Ok(c, ts)
    else if !ts[0].Word? || argc + 1 >= MAXARGS then Panic
    else
      match ParseRedirs(AddArg(c, ts[0].w), ts[1..])
      case Panic => Panic
      case Ok(c1, ts1) => ParseArgs(c1, argc + 1, ts1)
  }

  // ----- the printer: parentheses only where the grammar needs them

  function Words<W>(ws: seq<W>): (r: seq<Token<W>>)
    ensures |r| == |ws|
  {
    if ws == [] then [] else [Word(ws[0])] + Words(ws[1..])
  }

  function RedirToks<W>(w: W, fd: nat): seq<Token<W>> {
    [Sym(if fd == 0 then '<' else '>'), Word(w)]
  }

  function LineToks<W>(t: Cmd<W>): seq<Token<W>>
    decreases t, 0
  {
    match t
    case Exec(argv) => Words(argv)
    case Redir(c, file, mode, fd) => ExecToks(c) + RedirToks(file, fd)
    case Pipe(l, r) => ExecToks(l) + [Sym('|')] + PipeToks(r)
    case List(l, r) => BackToks(l) + [Sym(';')] + LineToks(r)
    case Back(c) => BackToks(c) + [Sym('&')]
  }

  function Paren<W>(t: Cmd<W>): seq<Token<W>>
    decreases t, 1
  {
    [Sym('(')] + LineToks(t) + [Sym(')')]
  }

  function BackToks<W>(t: Cmd<W>): seq<Token<W>>
    decreases t, 2
  {
    if t.List? then Paren(t) else LineToks(t)
  }

  function PipeToks<W>(t: Cmd<W>): seq<Token<W>>
    decreases t, 2
  {
    if t.List? || t.Back? then Paren(t) else LineToks(t)
  }

  function ExecToks<W>(t: Cmd<W>): seq<Token<W>>
    decreases t, 2
  {
    if t.List? || t.Back? || t.Pipe? then Paren(t) else LineToks(t)
  }

  // Fewer than MAXARGS arguments, and redirections as the shell makes them.
  predicate Legal<W>(t: Cmd<W>) {
    match t
    case Exec(argv) => |argv| < MAXARGS
    case Redir(c, file, mode, fd) => Legal(c) && ((mode == O_RDONLY && fd == 0) || (mode == O_WRONLY_CREATE && fd == 1))
    case Pipe(l, r) => Legal(l) && Legal(r)
    case List(l, r) => Legal(l) && Legal(r)
    case Back(c) => Legal(c)
  }

  // ----- parsing undoes printing

  // The number of arguments so far of a command that is still taking them; -1 for one in parentheses.
  function Argc<W>(t: Cmd<W>): (n: int)
    ensures n >= -1
  {
    match t
    case Exec(argv) => |argv|
    case Redir(c, file, mode, fd) => Argc(c)
    case _ => -1
  }

  // What parseexec does with the tokens after those of t.
  function After<W>(t: Cmd<W>, more: seq<Token<W>>): Res<W> {
    match ParseRedirs(t, more)
    case Panic => Panic
    case Ok(c, ts) => if Argc(t) >= 0 then ParseArgs(c, Argc(t), ts) else Ok(c, ts)
  }

  lemma WordParse<W>(pre: seq<W>, w: W, rest: seq<Token<W>>)
    requires |pre| + 1 < MAXARGS
    ensures After(Exec(pre), [Word(w)] + rest) == After(Exec(pre + [w]), rest)
  {
    var ts := [Word(w)] + rest;
    assert ts[1..] == rest;
  }

  lemma WordsMore<W>(ws: seq<W>, more: seq<Token<W>>)
    ensures Words(ws) + more == if ws == [] then more else [Word(ws[0])] + (Words(ws[1..]) + more)
  {
  }

  lemma {:induction false} WordsParse<W>(pre: seq<W>, ws: seq<W>, more: seq<Token<W>>)
    requires |pre| + |ws| < MAXARGS
    ensures After(Exec(pre), Words(ws) + more) == After(Exec(pre + ws), more)
    decreases |ws|
  {
    hide After;
    WordsMore(ws, more);
    hide Words;
    if ws == [] {
      assert Words(ws) + more == more && pre + ws == pre;
    } else {
      WordParse(pre, ws[0], Words(ws[1..]) + more);
      WordsParse(pre + [ws[0]], ws[1..], more);
      assert pre + [ws[0]] + ws[1..] == pre + ws;
    }
  }

  lemma ExecWords<W>(argv: seq<W>, more: seq<Token<W>>)
    requires |argv| < MAXARGS && !Next(more, ['('])
    ensures ParseExec(Words(argv) + more) == After(Exec(argv), more)
  {
    WordsParse([], argv, more);
    assert [] + argv == argv;
    assert !Next(Words(argv) + more, ['(']);
  }

  lemma AfterRedir<W>(c: Cmd<W>, file: W, mode: nat, fd: nat, more: seq<Token<W>>)
    requires Legal(Redir(c, file, mode, fd))
    ensures After(c, RedirToks(file, fd) + more) == After(Redir(c, file, mode, fd), more)
  {
    var ts := RedirToks(file, fd) + more;
    assert ts[2..] == more && ts[1] == Word(file);
  }

  lemma AfterStop<W>(t: Cmd<W>, rest: seq<Token<W>>)
    requires rest == [] || Next(rest, ['|', ')', '&', ';'])
    ensures After(t, rest) == Ok(t, rest)
  {
  }

  // The four levels of the grammar call each other, with the same tree only down this ladder.
  function Rank<W>(t: Cmd<W>, level: nat): nat {
    match level
    case 0 => if t.Exec? || t.Redir? then 0 else 3
    case 1 => 2
    case 2 => if t.List? || t.Back? then 4 else 1
    case _ => 5
  }

  lemma {:induction false} ExecParse<W>(t: Cmd<W>, more: seq<Token<W>>)
    requires Legal(t) && !Next(more, ['('])
    ensures ParseExec(ExecToks(t) + more) == After(t, more)
    decreases t, Rank(t, 0)
  {
    hide ParseRedirs, ParseArgs, LineToks, After;
    match t
    case Exec(argv) =>
      ExecWords(argv, more);
      assert LineToks(t) == Words(argv) by { ToksOf(t); }
    case Redir(c, file, mode, fd) =>
      ToksOf(t);
      ExecParse(c, RedirToks(file, fd) + more);
      AfterRedir(c, file, mode, fd, more);
      assert ExecToks(t) + more == ExecToks(c) + (RedirToks(file, fd) + more);
    case _ =>
      LineParse(t, [Sym(')')] + more);
      AfterParen(t, more);
  }

  lemma ToksOf<W>(t: Cmd<W>)
    ensures t.Exec? ==> LineToks(t) == Words(t.argv)
    ensures t.Redir? ==> LineToks(t) == ExecToks(t.cmd) + RedirToks(t.file, t.fd)
    ensures t.Pipe? ==> LineToks(t) == ExecToks(t.left) + [Sym('|')] + PipeToks(t.right)
    ensures t.List? ==> LineToks(t) == BackToks(t.left) + [Sym(';')] + LineToks(t.right)
    ensures t.Back? ==> LineToks(t) == BackToks(t.cmd) + [Sym('&')]
  {
  }

  lemma AfterParen<W>(t: Cmd<W>, more: seq<Token<W>>)
    requires !t.Exec? && !t.Redir? && ParseLine(LineToks(t) + ([Sym(')')] + more)) == Ok(t, [Sym(')')] + more)
    ensures ParseExec(ExecToks(t) + more) == After(t, more)
  {
    hide ParseLine, ParseRedirs, LineToks;
    var ts := [Sym(')')] + more;
    assert ExecToks(t) + more == [Sym('(')] + (LineToks(t) + ts);
    assert ts[1..] == more;
  }

  lemma {:induction false} PipeParse<W>(t: Cmd<W>, rest: seq<Token<W>>)
    requires Legal(t) && (rest == [] || Next(rest, [')', '&', ';']))
    ensures ParsePipe(PipeToks(t) + rest) == Ok(t, rest)
    decreases t, Rank(t, 2)
  {
    hide ParseExec, LineToks, After;
    if t.Pipe? {
      ToksOf(t);
      var ts := [Sym('|')] + (PipeToks(t.right) + rest);
      ExecParse(t.left, ts);
      AfterStop(t.left, ts);
      assert PipeToks(t) + rest == ExecToks(t.left) + ts;
      assert ts[1..] == PipeToks(t.right) + rest;
      PipeParse(t.right, rest);
    } else {
      ExecParse(t, rest);
      AfterStop(t, rest);
    }
  }

  lemma {:induction false} BackParse<W>(t: Cmd<W>, rest: seq<Token<W>>)
    requires Legal(t) && (rest == [] || Next(rest, [')', '&', ';']))
    ensures ParseLine(BackToks(t) + rest) == FinishLine(t, rest)
    decreases t, Rank(t, 3)
  {
    hide ParsePipe, LineToks;
    if t.Back? {
      ToksOf(t);
      var ts := [Sym('&')] + rest;
      BackParse(t.cmd, ts);
      assert BackToks(t) + rest == BackToks(t.cmd) + ts;
      assert ts[1..] == rest;
    } else {
      PipeParse(t, rest);
    }
  }

  /** Whatever tree is printed, the parser gives it back and stops where the print ends. */
  lemma {:induction false} LineParse<W>(t: Cmd<W>, rest: seq<Token<W>>)
    requires Legal(t) && (rest == [] || Next(rest, [')']))
    ensures ParseLine(LineToks(t) + rest) == Ok(t, rest)
    decreases t, Rank(t, 1)
  {
    hide ParsePipe, LineToks;
    ToksOf(t);
    match t
    case List(l, r) =>
      var ts := [Sym(';')] + (LineToks(r) + rest);
      BackParse(l, ts);
      assert LineToks(t) + rest == BackToks(l) + ts;
      assert ts[1..] == LineToks(r) + rest;
      LineParse(r, rest);
    case Back(c) =>
      var ts := [Sym('&')] + rest;
      BackParse(c, ts);
      assert LineToks(t) + rest == BackToks(c) + ts;
      assert ts[1..] == rest;
    case _ =>
      PipeParse(t, rest);
  }

  /** Every tree the parser makes is legal, so printing it and parsing the print gives it back. */
  lemma ParseShowParse<W>(ts: seq<Token<W>>)
    requires ParseLine(ts).Ok?
    ensures Legal(ParseLine(ts).cmd) && ParseLine(LineToks(ParseLine(ts).cmd)) == Ok(ParseLine(ts).cmd, [])
  {
    LineLegal(ts);
    var t := ParseLine(ts).cmd;
    LineParse(t, []);
    assert LineToks(t) + [] == LineToks(t);
  }

  lemma {:induction false} RedirsLegal<W>(c: Cmd<W>, ts: seq<Token<W>>)
    requires Legal(c) && ParseRedirs(c, ts).Ok?
    ensures Legal(ParseRedirs(c, ts).cmd) && Argc(ParseRedirs(c, ts).cmd) == Argc(c)
    decreases |ts|
  {
    if NextRedir(ts) {
      RedirsLegal(Redirected(c, ts[0], ts[1].w), ts[2..]);
    }
  }

  lemma {:induction false} AddLegal<W>(c: Cmd<W>, w: W)
    requires Legal(c) && 0 <= Argc(c) < MAXARGS - 1
    ensures Legal(AddArg(c, w)) && Argc(AddArg(c, w)) == Argc(c) + 1
  {
    if c.Redir? {
      AddLegal(c.cmd, w);
    }
  }

  lemma {:induction false} ArgsLegal<W>(c: Cmd<W>, ts: seq<Token<W>>)
    requires Legal(c) && Argc(c) >= 0 && ParseArgs(c, Argc(c), ts).Ok?
    ensures Legal(ParseArgs(c, Argc(c), ts).cmd)
    decreases |ts|
  {
    if !(ts == [] || Next(ts, ['|', ')', '&', ';'])) {
      AddLegal(c, ts[0].w);
      var r := ParseRedirs(AddArg(c, ts[0].w), ts[1..]);
      RedirsLegal(AddArg(c, ts[0].w), ts[1..]);
      ArgsLegal(r.cmd, r.rest);
    }
  }

  lemma {:induction false} ExecLegal<W>(ts: seq<Token<W>>)
    requires ParseExec(ts).Ok?
    ensures Legal(ParseExec(ts).cmd)
    decreases |ts|, 2
  {
    if Next(ts, ['(']) {
      LineLegal(ts[1..]);
      var r := ParseLine(ts[1..]);
      RedirsLegal(r.cmd, r.rest[1..]);
    } else {
      RedirsLegal(Exec([]), ts);
      var r := ParseRedirs(Exec([]), ts);
      ArgsLegal(r.cmd, r.rest);
    }
  }

  lemma {:induction false} PipeLegal<W>(ts: seq<Token<W>>)
    requires ParsePipe(ts).Ok?
    ensures Legal(ParsePipe(ts).cmd)
    decreases |ts|, 3
  {
    ExecLegal(ts);
    var r := ParseExec(ts);
    if Next(r.rest, ['|']) {
      PipeLegal(r.rest[1..]);
    }
  }

  lemma {:induction false} LineLegal<W>(ts: seq<Token<W>>)
    requires ParseLine(ts).Ok?
    ensures Legal(ParseLine(ts).cmd)
    decreases |ts|, 5
  {
    PipeLegal(ts);
    FinishLegal(ParsePipe(ts).cmd, ParsePipe(ts).rest);
  }

  lemma {:induction false} FinishLegal<W>(c: Cmd<W>, ts: seq<Token<W>>)
    requires Legal(c) && FinishLine(c, ts).Ok?
    ensures Legal(FinishLine(c, ts).cmd)
    decreases |ts|, 4
  {
    if Next(ts, ['&']) {
      FinishLegal(Back(c), ts[1..]);
    } else if Next(ts, [';']) {
      LineLegal(ts[1..]);
    }
  }

  // ----- no word is lost, invented or used twice

  ghost function TokWords<W>(ts: seq<Token<W>>): multiset<W> {
    if ts == [] then multiset{} else (if ts[0].Word? then multiset{ts[0].w} else multiset{}) + TokWords(ts[1..])
  }

  ghost function CmdWords<W>(c: Cmd<W>): multiset<W> {
    match c
    case Exec(argv) => multiset(argv)
    case Redir(sub, file, mode, fd) => CmdWords(sub) + multiset{file}
    case Pipe(l, r) => CmdWords(l) + CmdWords(r)
    case List(l, r) => CmdWords(l) + CmdWords(r)
    case Back(sub) => CmdWords(sub)
  }

  lemma {:induction false} RedirsWords<W>(c: Cmd<W>, ts: seq<Token<W>>)
    requires ParseRedirs(c, ts).Ok?
    ensures CmdWords(ParseRedirs(c, ts).cmd) + TokWords(ParseRedirs(c, ts).rest) == CmdWords(c) + TokWords(ts)
    ensures Argc(ParseRedirs(c, ts).cmd) == Argc(c)
    decreases |ts|
  {
    if NextRedir(ts) {
      RedirsWords(Redirected(c, ts[0], ts[1].w), ts[2..]);
      assert ts[1..][1..] == ts[2..];
    }
  }

  lemma {:induction false} AddWords<W>(c: Cmd<W>, w: W)
    requires Argc(c) >= 0
    ensures CmdWords(AddArg(c, w)) == CmdWords(c) + multiset{w} && Argc(AddArg(c, w)) >= 0
  {
    if c.Redir? {
      AddWords(c.cmd, w);
    }
  }

  lemma {:induction false} ArgsWords<W>(c: Cmd<W>, argc: nat, ts: seq<Token<W>>)
    requires Argc(c) >= 0 && ParseArgs(c, argc, ts).Ok?
    ensures CmdWords(ParseArgs(c, argc, ts).cmd) + TokWords(ParseArgs(c, argc, ts).rest) == CmdWords(c) + TokWords(ts)
    decreases |ts|
  {
    if !(ts == [] || Next(ts, ['|', ')', '&', ';'])) {
      AddWords(c, ts[0].w);
      RedirsWords(AddArg(c, ts[0].w), ts[1..]);
      var r := ParseRedirs(AddArg(c, ts[0].w), ts[1..]);
      ArgsWords(r.cmd, argc + 1, r.rest);
    }
  }

  lemma {:induction false} ExecWordsKept<W>(ts: seq<Token<W>>)
    requires ParseExec(ts).Ok?
    ensures CmdWords(ParseExec(ts).cmd) + TokWords(ParseExec(ts).rest) == TokWords(ts)
    decreases |ts|, 2
  {
    if Next(ts, ['(']) {
      LineWordsKept(ts[1..]);
      var r := ParseLine(ts[1..]);
      RedirsWords(r.cmd, r.rest[1..]);
    } else {
      RedirsWords(Exec([]), ts);
      var r := ParseRedirs(Exec([]), ts);
      ArgsWords(r.cmd, 0, r.rest);
    }
  }

  lemma {:induction false} PipeWordsKept<W>(ts: seq<Token<W>>)
    requires ParsePipe(ts).Ok?
    ensures CmdWords(ParsePipe(ts).cmd) + TokWords(ParsePipe(ts).rest) == TokWords(ts)
    decreases |ts|, 3
  {
    ExecWordsKept(ts);
    var r := ParseExec(ts);
    if Next(r.rest, ['|']) {
      PipeWordsKept(r.rest[1..]);
    }
  }

  /** The words of the tree and of what is left are the words of the line. */
  lemma {:induction false} LineWordsKept<W>(ts: seq<Token<W>>)
    requires ParseLine(ts).Ok?
    ensures CmdWords(ParseLine(ts).cmd) + TokWords(ParseLine(ts).rest) == TokWords(ts)
    decreases |ts|, 5
  {
    PipeWordsKept(ts);
    FinishWordsKept(ParsePipe(ts).cmd, ParsePipe(ts).rest);
  }

  lemma {:induction false} FinishWordsKept<W>(c: Cmd<W>, ts: seq<Token<W>>)
    requires FinishLine(c, ts).Ok?
    ensures CmdWords(FinishLine(c, ts).cmd) + TokWords(FinishLine(c, ts).rest) == CmdWords(c) + TokWords(ts)
    decreases |ts|, 4
  {
    if Next(ts, ['&']) {
      FinishWordsKept(Back(c), ts[1..]);
    } else if Next(ts, [';']) {
      LineWordsKept(ts[1..]);
    }
  }

  // ----- appending is lost

  // Every >> written as >.
  function Overwriting<W>(ts: seq<Token<W>>): (r: seq<Token<W>>)
    ensures |r| == |ts|
    ensures Append !in r && forall i :: 0 <= i < |r| && r[i] != ts[i] ==> ts[i] == Append && r[i] == Sym('>')
  {
    seq(|ts|, i requires 0 <= i < |ts| => if ts[i].Append? then Sym('>') else ts[i])
  }

  function OverwritingRest<W>(r: Res<W>): Res<W> {
    match r
    case Ok(c, rest) => Ok(c, Overwriting(rest))
    case Panic => Panic
  }

  lemma OverwritingFrom<W>(ts: seq<Token<W>>, n: nat)
    requires n <= |ts|
    ensures Overwriting(ts)[n..] == Overwriting(ts[n..])
  {
  }

  lemma {:induction false} RedirsOverwrite<W>(c: Cmd<W>, ts: seq<Token<W>>)
    ensures ParseRedirs(c, Overwriting(ts)) == OverwritingRest(ParseRedirs(c, ts))
    decreases |ts|
  {
    if NextRedir(ts) && |ts| >= 2 && ts[1].Word? {
      OverwritingFrom(ts, 2);
      RedirsOverwrite(Redirected(c, ts[0], ts[1].w), ts[2..]);
    }
  }

  lemma {:induction false} ArgsOverwrite<W>(c: Cmd<W>, argc: nat, ts: seq<Token<W>>)
    ensures ParseArgs(c, argc, Overwriting(ts)) == OverwritingRest(ParseArgs(c, argc, ts))
    decreases |ts|
  {
    hide ParseRedirs, AddArg;
    if !(ts == [] || Next(ts, ['|', ')', '&', ';'])) && ts[0].Word? && argc + 1 < MAXARGS {
      OverwritingFrom(ts, 1);
      var r := ParseRedirs(AddArg(c, ts[0].w), ts[1..]);
      RedirsOverwrite(AddArg(c, ts[0].w), ts[1..]);
      if r.Ok? {
        ArgsOverwrite(r.cmd, argc + 1, r.rest);
      }
    }
  }

  lemma {:induction false} ExecOverwrite<W>(ts: seq<Token<W>>)
    ensures ParseExec(Overwriting(ts)) == OverwritingRest(ParseExec(ts))
    decreases |ts|, 2
  {
    hide ParseLine, ParseRedirs, ParseArgs;
    if Next(ts, ['(']) {
      OverwritingFrom(ts, 1);
      LineOverwrite(ts[1..]);
      var r := ParseLine(ts[1..]);
      if r.Ok? && Next(r.rest, [')']) {
        OverwritingFrom(r.rest, 1);
        RedirsOverwrite(r.cmd, r.rest[1..]);
      }
    } else {
      RedirsOverwrite(Exec([]), ts);
      var r := ParseRedirs(Exec([]), ts);
      if r.Ok? {
        ArgsOverwrite(r.cmd, 0, r.rest);
      }
    }
  }

  lemma {:induction false} PipeOverwrite<W>(ts: seq<Token<W>>)
    ensures ParsePipe(Overwriting(ts)) == OverwritingRest(ParsePipe(ts))
    decreases |ts|, 3
  {
    hide ParseExec;
    ExecOverwrite(ts);
    var r := ParseExec(ts);
    if r.Ok? && Next(r.rest, ['|']) {
      OverwritingFrom(r.rest, 1);
      PipeOverwrite(r.rest[1..]);
    }
  }

  /** Appending is lost on the parser: a line is read alike, or refused alike, whether its redirections are > or >>. */
  lemma {:induction false} LineOverwrite<W>(ts: seq<Token<W>>)
    ensures ParseLine(Overwriting(ts)) == OverwritingRest(ParseLine(ts))
    decreases |ts|, 5
  {
    hide ParsePipe, FinishLine;
    PipeOverwrite(ts);
    if ParsePipe(ts).Ok? {
      FinishOverwrite(ParsePipe(ts).cmd, ParsePipe(ts).rest);
    }
  }

  lemma {:induction false} FinishOverwrite<W>(c: Cmd<W>, ts: seq<Token<W>>)
    ensures FinishLine(c, Overwriting(ts)) == OverwritingRest(FinishLine(c, ts))
    decreases |ts|, 4
  {
    hide ParseLine;
    if Next(ts, ['&']) {
      OverwritingFrom(ts, 1);
      FinishOverwrite(Back(c), ts[1..]);
    } else if Next(ts, [';']) {
      OverwritingFrom(ts, 1);
      LineOverwrite(ts[1..]);
    }
  }
}
