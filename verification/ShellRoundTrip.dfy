/** The shell's parser on text: a printed command is read back as the command it was. */
module ShellRoundTrip {
  import opened ShellGrammar
  import opened ShellParser

  // ----- from places in the line to text

  function Text(b: string, w: Span): string {
    if w.q <= w.eq <= |b| then b[w.q..w.eq] else ""
  }

  function TextTok(b: string, t: Token<Span>): Token<string> {
    match t
    case Sym(c) => Sym(c)
    case Append => Append
    case Word(w) => Word(Text(b, w))
  }

  function TextToks(b: string, ts: seq<Token<Span>>): (r: seq<Token<string>>)
    ensures |r| == |ts|
  {
    seq(|ts|, i requires 0 <= i < |ts| => TextTok(b, ts[i]))
  }

  function TextWords(b: string, ws: seq<Span>): (r: seq<string>)
    ensures |r| == |ws|
  {
    seq(|ws|, i requires 0 <= i < |ws| => Text(b, ws[i]))
  }

  function TextCmd(b: string, c: Cmd<Span>): Cmd<string> {
    match c
    case Exec(argv) => Exec(TextWords(b, argv))
    case Redir(sub, file, mode, fd) => Redir(TextCmd(b, sub), Text(b, file), mode, fd)
    case Pipe(l, r) => Pipe(TextCmd(b, l), TextCmd(b, r))
    case List(l, r) => List(TextCmd(b, l), TextCmd(b, r))
    case Back(sub) => Back(TextCmd(b, sub))
  }

  function TextRes(b: string, r: Res<Span>): Res<string> {
    match r
    case Ok(c, rest) => Ok(TextCmd(b, c), TextToks(b, rest))
    case Panic => Panic
  }

  // ----- the parser does not look inside words

  lemma TextRest(b: string, ts: seq<Token<Span>>, n: nat)
    requires n <= |ts|
    ensures TextToks(b, ts)[n..] == TextToks(b, ts[n..])
  {
  }

  lemma {:induction false} AddArgText(b: string, c: Cmd<Span>, w: Span)
    ensures TextCmd(b, AddArg(c, w)) == AddArg(TextCmd(b, c), Text(b, w))
  {
    match c
    case Exec(argv) => assert TextWords(b, argv + [w]) == TextWords(b, argv) + [Text(b, w)];
    case Redir(sub, file, mode, fd) => AddArgText(b, sub, w);
    case _ =>
  }

  lemma {:induction false} RedirsText(b: string, c: Cmd<Span>, ts: seq<Token<Span>>)
    ensures ParseRedirs(TextCmd(b, c), TextToks(b, ts)) == TextRes(b, ParseRedirs(c, ts))
    decreases |ts|
  {
    if NextRedir(ts) && |ts| >= 2 && ts[1].Word? {
      RedirsText(b, Redirected(c, ts[0], ts[1].w), ts[2..]);
      TextRest(b, ts, 2);
    }
  }

  lemma {:induction false} ArgsText(b: string, c: Cmd<Span>, argc: nat, ts: seq<Token<Span>>)
    ensures ParseArgs(TextCmd(b, c), argc, TextToks(b, ts)) == TextRes(b, ParseArgs(c, argc, ts))
    decreases |ts|
  {
    hide ParseRedirs, AddArg;
    if !(ts == [] || Next(ts, ['|', ')', '&', ';'])) && ts[0].Word? && argc + 1 < MAXARGS {
      AddArgText(b, c, ts[0].w);
      TextRest(b, ts, 1);
      var c1 := AddArg(c, ts[0].w);
      RedirsText(b, c1, ts[1..]);
      if ParseRedirs(c1, ts[1..]).Ok? {
        ArgsText(b, ParseRedirs(c1, ts[1..]).cmd, argc + 1, ParseRedirs(c1, ts[1..]).rest);
      }
    }
  }

  lemma {:induction false} ExecText(b: string, ts: seq<Token<Span>>)
    ensures ParseExec(TextToks(b, ts)) == TextRes(b, ParseExec(ts))
    decreases |ts|, 2
  {
    hide ParseLine, ParseRedirs, ParseArgs;
    if Next(ts, ['(']) {
      TextRest(b, ts, 1);
      LineText(b, ts[1..]);
      var r := ParseLine(ts[1..]);
      if r.Ok? && Next(r.rest, [')']) {
        TextRest(b, r.rest, 1);
        RedirsText(b, r.cmd, r.rest[1..]);
      }
    } else {
      assert TextCmd(b, Exec([])) == Exec([]);
      RedirsText(b, Exec([]), ts);
      var r := ParseRedirs(Exec([]), ts);
      if r.Ok? {
        ArgsText(b, r.cmd, 0, r.rest);
      }
    }
  }

  lemma {:induction false} PipeText(b: string, ts: seq<Token<Span>>)
    ensures ParsePipe(TextToks(b, ts)) == TextRes(b, ParsePipe(ts))
    decreases |ts|, 3
  {
    hide ParseExec;
    ExecText(b, ts);
    var r := ParseExec(ts);
    if r.Ok? && Next(r.rest, ['|']) {
      TextRest(b, r.rest, 1);
      PipeText(b, r.rest[1..]);
    }
  }

  lemma {:induction false} LineText(b: string, ts: seq<Token<Span>>)
    ensures ParseLine(TextToks(b, ts)) == TextRes(b, ParseLine(ts))
    decreases |ts|, 5
  {
    hide ParsePipe, FinishLine;
    PipeText(b, ts);
    if ParsePipe(ts).Ok? {
      FinishText(b, ParsePipe(ts).cmd, ParsePipe(ts).rest);
    }
  }

  lemma {:induction false} FinishText(b: string, c: Cmd<Span>, ts: seq<Token<Span>>)
    ensures FinishLine(TextCmd(b, c), TextToks(b, ts)) == TextRes(b, FinishLine(c, ts))
    decreases |ts|, 4
  {
    hide ParseLine;
    if Next(ts, ['&']) {
      TextRest(b, ts, 1);
      FinishText(b, Back(c), ts[1..]);
    } else if Next(ts, [';']) {
      TextRest(b, ts, 1);
      LineText(b, ts[1..]);
    }
  }

  // ----- printing, and reading the print

  function TokText(t: Token<string>): string {
    match t
    case Sym(c) => [c]
    case Append => ">>"
    case Word(w) => w
  }

  function ShowToks(ts: seq<Token<string>>): string {
    if ts == [] then "" else TokText(ts[0]) + " " + ShowToks(ts[1..])
  }

  function Show(t: Cmd<string>): string {
    ShowToks(LineToks(t))
  }

  predicate LegalWord(w: string) {
    w != "" && forall k :: 0 <= k < |w| ==> WordChar(w[k])
  }

  predicate LegalTok(t: Token<string>) {
    match t
    case Sym(c) => Symbol(c)
    case Append => true
    case Word(w) => LegalWord(w)
  }

  predicate LegalToks(ts: seq<Token<string>>) {
    forall k :: 0 <= k < |ts| ==> LegalTok(ts[k])
  }

  lemma {:induction false} SkipWordTo(b: string, s: nat, e: nat)
    requires s <= e < |b| && !WordChar(b[e]) && forall k :: s <= k < e ==> WordChar(b[k])
    ensures SkipWord(b, s) == e
    decreases e - s
  {
    if s < e {
      SkipWordTo(b, s + 1, e);
    }
  }

  // The token printed at s is the token read there.
  lemma LexShown(b: string, s: nat, t: Token<string>)
    requires LegalTok(t) && s + |TokText(t)| < |b|
    requires b[s..s + |TokText(t)|] == TokText(t) && b[s + |TokText(t)|] == ' '
    ensures s < |b| && !White(b[s]) && TextTok(b, LexAt(b, s).0) == t && LexAt(b, s).1 == s + |TokText(t)|
  {
    var e := s + |TokText(t)|;
    forall k | s <= k < e
      ensures b[k] == TokText(t)[k - s]
    {
      assert b[s..e][k - s] == b[k];
    }
    match t
    case Sym(c) => assert b[s] == c;
    case Append => assert b[s] == '>' && b[s + 1] == '>';
    case Word(w) =>
      assert b[s] == w[0];
      SkipWordTo(b, s, e);
  }

  lemma SplitShown(b: string, s: nat, text: string, tail: string)
    requires s <= |b| && b[s..] == text + " " + tail
    ensures s + |text| < |b| && b[s..s + |text|] == text && b[s + |text|] == ' ' && b[s + |text| + 1..] == tail
  {
    assert b[s..][..|text|] == text && b[s..][|text|] == ' ' && b[s..][|text| + 1..] == tail;
  }

  // A blank after a token is skipped.
  lemma ToksShown(b: string, s: nat)
    requires s < |b| && !White(b[s]) && LexAt(b, s).1 < |b| && b[LexAt(b, s).1] == ' '
    ensures Toks(b, s) == [LexAt(b, s).0] + Toks(b, LexAt(b, s).1 + 1)
  {
    hide LexAt;
    var e := LexAt(b, s).1;
    assert SkipWhite(b, s) == s && SkipWhite(b, e) == SkipWhite(b, e + 1);
    SkipWhiteAgain(b, e);
    SkipWhiteAgain(b, e + 1);
  }

  lemma {:induction false} ReadShown(b: string, s: nat, ts: seq<Token<string>>)
    requires LegalToks(ts) && s <= |b| && b[s..] == ShowToks(ts)
    ensures TextToks(b, Toks(b, s)) == ts
    decreases |ts|
  {
    hide LexAt, SkipWhite, TokText, LegalTok;
    if ts != [] {
      SplitShown(b, s, TokText(ts[0]), ShowToks(ts[1..]));
      LexShown(b, s, ts[0]);
      ToksShown(b, s);
      var e := LexAt(b, s).1 + 1;
      ReadShown(b, e, ts[1..]);
      TextRest(b, Toks(b, s), 1);
      assert Toks(b, s)[1..] == Toks(b, e);
      assert ts == [ts[0]] + ts[1..];
    } else {
      NothingShown(b);
    }
  }

  lemma NothingShown(b: string)
    ensures Toks(b, |b|) == []
  {
  }

  // Words as the tokenizer can return them.
  predicate LegalWords(t: Cmd<string>) {
    match t
    case Exec(argv) => forall k :: 0 <= k < |argv| ==> LegalWord(argv[k])
    case Redir(c, file, mode, fd) => LegalWords(c) && LegalWord(file)
    case Pipe(l, r) => LegalWords(l) && LegalWords(r)
    case List(l, r) => LegalWords(l) && LegalWords(r)
    case Back(c) => LegalWords(c)
  }

  lemma {:induction false} WordsLegal(ws: seq<string>)
    requires forall k :: 0 <= k < |ws| ==> LegalWord(ws[k])
    ensures LegalToks(Words(ws))
  {
    if ws != [] {
      WordsLegal(ws[1..]);
    }
  }

  lemma {:induction false} PrintLegal(t: Cmd<string>)
    requires LegalWords(t)
    ensures LegalToks(LineToks(t)) && LegalToks(Paren(t))
    ensures LegalToks(ExecToks(t)) && LegalToks(PipeToks(t)) && LegalToks(BackToks(t))
  {
    match t
    case Exec(argv) => WordsLegal(argv);
    case Redir(c, file, mode, fd) => PrintLegal(c);
    case Pipe(l, r) => PrintLegal(l); PrintLegal(r);
    case List(l, r) => PrintLegal(l); PrintLegal(r);
    case Back(c) => PrintLegal(c);
  }

  /** Round trip: parsing the print of any command tree, with parentheses only where the grammar needs them,
      consumes all of it and gives the tree back. */
  lemma RoundTrip(t: Cmd<string>)
    requires Legal(t) && LegalWords(t)
    ensures var b := Show(t);
            ParseLine(Toks(b, 0)).Ok? && ParseLine(Toks(b, 0)).rest == [] && TextCmd(b, ParseLine(Toks(b, 0)).cmd) == t
  {
    var b := Show(t);
    PrintLegal(t);
    assert b[0..] == ShowToks(LineToks(t));
    ReadShown(b, 0, LineToks(t));
    LineText(b, Toks(b, 0));
    LineParse(t, []);
    assert LineToks(t) + [] == LineToks(t);
  }
}
