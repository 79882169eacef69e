/** The shell's parser on its character buffer (sh.c): reading the line, and cutting it in place. */
module ShellParser {
  import opened ShellGrammar

  // A word of the line: from q up to eq.
  datatype Span = Span(q: nat, eq: nat)

  predicate White(c: char) {
    c in [' ', '\t', '\r', '\n', '\U{B}']
  }

  predicate Symbol(c: char) {
    c in ['<', '|', '>', '&', ';', '(', ')']
  }

  predicate WordChar(c: char) {
    !White(c) && !Symbol(c)
  }

  // ----- the tokens of a line

  function SkipWhite(b: string, s: nat): (t: nat)
    requires s <= |b|
    ensures s <= t <= |b| && (t < |b| ==> !White(b[t]))
    decreases |b| - s
  {
    if s < |b| && White(b[s]) then SkipWhite(b, s + 1) else s
  }

  function SkipWord(b: string, s: nat): (t: nat)
    requires s <= |b|
    ensures s <= t <= |b| && (t < |b| ==> !WordChar(b[t])) && forall k :: s <= k < t ==> WordChar(b[k])
    decreases |b| - s
  {
    if s < |b| && WordChar(b[s]) then SkipWord(b, s + 1) else s
  }

  // The token that starts at q, and where it ends.
  function LexAt(b: string, q: nat): (r: (Token<Span>, nat))
    requires q < |b| && !White(b[q])
    ensures q < r.1 <= |b|
  {
    if b[q] == '>' && q + 1 < |b| && b[q + 1] == '>' then (Append, q + 2)
    else if Symbol(b[q]) then (Sym(b[q]), q + 1)
    else (Word(Span(q, SkipWord(b, q))), SkipWord(b, q))
  }

  function Toks(b: string, s: nat): seq<Token<Span>>
    requires s <= |b|
    decreases |b| - s
  {
    var q := SkipWhite(b, s);
    if q == |b| then [] else [LexAt(b, q).0] + Toks(b, LexAt(b, q).1)
  }

  lemma {:induction false} SkipWhiteAgain(b: string, s: nat)
    requires s <= |b|
    ensures Toks(b, SkipWhite(b, s)) == Toks(b, s)
  {
    assert SkipWhite(b, SkipWhite(b, s)) == SkipWhite(b, s);
  }

  // Words are maximal runs of word characters.
  predicate SpanOk(b: string, w: Span) {
    && w.q < w.eq <= |b|
    && (forall k :: w.q <= k < w.eq ==> WordChar(b[k]))
    && (w.eq < |b| ==> !WordChar(b[w.eq]))
  }

  lemma {:induction false} WordsAreSpans(b: string, s: nat, w: Span)
    requires s <= |b| && w in TokWords(Toks(b, s))
    ensures SpanOk(b, w)
    decreases |b| - s
  {
    var q := SkipWhite(b, s);
    var ts := Toks(b, s);
    assert ts[1..] == Toks(b, LexAt(b, q).1);
    if ts[0] != Word(w) {
      WordsAreSpans(b, LexAt(b, q).1, w);
    }
  }

  // ----- cutting the words off

  ghost predicate HasWord(c: Cmd<Span>, w: Span) {
    w in CmdWords(c)
  }

  ghost predicate EndsAt(c: Cmd<Span>, k: nat) {
    exists w :: HasWord(c, w) && w.eq == k
  }

  // The C string at q.
  function CStringAt(s: seq<char>, q: nat): string
    decreases |s| - q
  {
    if q >= |s| || s[q] == '\0' then "" else [s[q]] + CStringAt(s, q + 1)
  }

  lemma {:induction false} CStringIsWord(s: seq<char>, b: string, q: nat, e: nat)
    requires q <= e < |s| && e <= |b| && s[e] == '\0'
    requires forall k :: q <= k < e ==> s[k] == b[k] != '\0'
    ensures CStringAt(s, q) == b[q..e]
    decreases e - q
  {
    if q < e {
      CStringIsWord(s, b, q + 1, e);
      assert b[q..e] == [b[q]] + b[q + 1..e];
    }
  }

  // No cut falls inside another word.
  lemma CutsMissWords(b: string, c: Cmd<Span>, s: seq<char>, w: Span)
    requires ParseLine(Toks(b, 0)) == Ok(c, []) && HasWord(c, w) && |s| > |b|
    requires forall k :: 0 <= k < |b| ==> b[k] != '\0'
    requires forall k: nat :: k < |s| ==> (if EndsAt(c, k) then s[k] == '\0' else k < |b| ==> s[k] == b[k])
    ensures SpanOk(b, w) && CStringAt(s, w.q) == b[w.q..w.eq]
  {
    LineWordsKept(Toks(b, 0));
    WordsAreSpans(b, 0, w);
    assert EndsAt(c, w.eq);
    forall k: nat | w.q <= k < w.eq
      ensures s[k] == b[k]
    {
      if EndsAt(c, k) {
        var v :| HasWord(c, v) && v.eq == k;
        WordsAreSpans(b, 0, v);
      }
    }
    CStringIsWord(s, b, w.q, w.eq);
  }

  // ----- the parser

  datatype Out = Parsed(cmd: Cmd<Span>) | Stopped

  predicate Agrees(r: Out, spec: Res<Span>, rest: seq<Token<Span>>) {
    match r
    case Parsed(c) => spec == Ok(c, rest)
    case Stopped => spec == Panic
  }

  datatype Got = Eof | Tok(tok: Token<Span>)

  class Parser {
    const buf: array<char>
    const es: nat
    var s: nat

    ghost predicate Valid()
      reads this, buf
    {
      s <= es < buf.Length && buf[es] == '\0' && forall k :: 0 <= k < es ==> buf[k] != '\0'
    }

    // The tokens still to be read.
    ghost function Rest(): seq<Token<Span>>
      reads this, buf
      requires Valid()
    {
      Toks(buf[..es], s)
    }

    constructor (buf: array<char>)
      requires '\0' in buf[..]
      ensures Valid() && this.buf == buf && s == 0
    {
      var n := 0;
      while buf[n] != '\0'
        invariant 0 <= n < buf.Length && forall k :: 0 <= k < n ==> buf[k] != '\0'
        decreases buf.Length - n
      {
        n := n + 1;
      }
      this.buf, es, s := buf, n, 0;
    }

    method Skip(t0: nat) returns (t: nat)
      requires Valid() && t0 <= es
      ensures t == SkipWhite(buf[..es], t0)
    {
      t := t0;
      while t < es && White(buf[t])
        invariant t0 <= t <= es && SkipWhite(buf[..es], t0) == SkipWhite(buf[..es], t)
      {
        t := t + 1;
      }
    }

    method GetToken() returns (r: Got)
      requires Valid()
      modifies this`s
      ensures Valid()
      ensures old(Rest()) == [] ==> r == Eof && Rest() == []
      ensures old(Rest()) != [] ==> r == Tok(old(Rest())[0]) && Rest() == old(Rest())[1..]
    {
      ghost var b := buf[..es];
      var t := Skip(s);
      var q := t;
      var c := buf[t];
      if c == '\0' {
        r := Eof;
      } else if c in ['|', '(', ')', ';', '&', '<'] {
        t, r := t + 1, Tok(Sym(c));
      } else if c == '>' {
        t, r := t + 1, Tok(Sym(c));
        if buf[t] == '>' {
          t, r := t + 1, Tok(Append);
        }
      } else {
        while t < es && !White(buf[t]) && !Symbol(buf[t])
          invariant q <= t <= es && SkipWord(b, q) == SkipWord(b, t)
        {
          t := t + 1;
        }
        r := Tok(Word(Span(q, t)));
      }
      assert q < es ==> r.Tok? && LexAt(b, q) == (r.tok, t);
      SkipWhiteAgain(b, t);
      s := Skip(t);
    }

    method Peek(toks: seq<char>) returns (r: bool)
      requires Valid() && forall c :: c in toks ==> Symbol(c)
      modifies this`s
      ensures Valid() && Rest() == old(Rest()) && (Rest() == [] <==> s == es)
      ensures r <==> Next(Rest(), toks) || ('>' in toks && Rest() != [] && Rest()[0].Append?)
    {
      SkipWhiteAgain(buf[..es], s);
      s := Skip(s);
      r := buf[s] != '\0' && buf[s] in toks;
    }

    method DoLine() returns (r: Out)
      requires Valid()
      modifies this`s
      ensures Valid() && Agrees(r, ParseLine(old(Rest())), Rest())
      decreases |Rest()|, 5
    {
      hide ParsePipe, Toks;
      r := DoPipe();
      if r == Stopped {
        return;
      }
      var more := Peek(['&']);
      while more
        invariant Valid() && r.Parsed? && |Rest()| <= |old(Rest())|
        invariant ParseLine(old(Rest())) == FinishLine(r.cmd, Rest())
        invariant more <==> Next(Rest(), ['&'])
        decreases |Rest()|
      {
        var t := GetToken();
        r := Parsed(Back(r.cmd));
        more := Peek(['&']);
      }
      var semi := Peek([';']);
      if semi {
        var t := GetToken();
        var r2 := DoLine();
        r := if r2 == Stopped then Stopped else Parsed(List(r.cmd, r2.cmd));
      }
    }

    method DoPipe() returns (r: Out)
      requires Valid()
      modifies this`s
      ensures Valid() && Agrees(r, ParsePipe(old(Rest())), Rest())
      decreases |Rest()|, 3
    {
      hide ParseExec, Toks;
      r := DoExec();
      if r == Stopped {
        return;
      }
      var more := Peek(['|']);
      if more {
        var t := GetToken();
        var r2 := DoPipe();
        r := if r2 == Stopped then Stopped else Parsed(Pipe(r.cmd, r2.cmd));
      }
    }

    method DoRedirs(c0: Cmd<Span>) returns (r: Out)
      requires Valid()
      modifies this`s
      ensures Valid() && Agrees(r, ParseRedirs(c0, old(Rest())), Rest())
    {
      hide Toks;
      var c := c0;
      var more := Peek(['<', '>']);
      while more
        invariant Valid() && ParseRedirs(c0, old(Rest())) == ParseRedirs(c, Rest())
        invariant more <==> NextRedir(Rest())
        decreases |Rest()|
      {
        var op := GetToken();
        var file := GetToken();
        if !(file.Tok? && file.tok.Word?) {
          return Stopped;
        }
        if op.tok.Sym? && op.tok.c == '<' {
          c := Redir(c, file.tok.w, O_RDONLY, 0);
        } else {
          // > and >> alike
          c := Redir(c, file.tok.w, O_WRONLY_CREATE, 1);
        }
        more := Peek(['<', '>']);
      }
      r := Parsed(c);
    }

    method DoBlock() returns (r: Out)
      requires Valid() && Next(Rest(), ['('])
      modifies this`s
      ensures Valid() && Agrees(r, ParseExec(old(Rest())), Rest())
      decreases |Rest()|, 1
    {
      var open := Peek(['(']);
      var t := GetToken();
      r := DoLine();
      if r == Stopped {
        return;
      }
      var closed := Peek([')']);
      if !closed {
        return Stopped;
      }
      t := GetToken();
      r := DoRedirs(r.cmd);
    }

    method DoExec() returns (r: Out)
      requires Valid()
      modifies this`s
      ensures Valid() && Agrees(r, ParseExec(old(Rest())), Rest())
      decreases |Rest()|, 2
    {
      hide ParseRedirs, Toks;
      var block := Peek(['(']);
      if block {
        r := DoBlock();
        return;
      }
      var argc := 0;
      r := DoRedirs(Exec([]));
      if r == Stopped {
        return;
      }
      var stop := Peek(['|', ')', '&', ';']);
      while !stop
        invariant Valid() && r.Parsed? && argc < MAXARGS
        invariant ParseExec(old(Rest())) == ParseArgs(r.cmd, argc, Rest())
        invariant stop <==> Next(Rest(), ['|', ')', '&', ';'])
        decreases |Rest()|, !stop
      {
        var t := GetToken();
        if t == Eof {
          return;
        }
        if !t.tok.Word? {
          return Stopped;
        }
        r := Parsed(AddArg(r.cmd, t.tok.w));
        argc := argc + 1;
        if argc >= MAXARGS {
          return Stopped;
        }
        r := DoRedirs(r.cmd);
        if r == Stopped {
          return;
        }
        stop := Peek(['|', ')', '&', ';']);
      }
    }

    // Put a NUL after every word of c.
    method NulTerminate(c: Cmd<Span>)
      requires forall w :: HasWord(c, w) ==> w.eq < buf.Length
      modifies buf
      ensures forall k: nat :: k < buf.Length ==> buf[k] == if EndsAt(c, k) then '\0' else old(buf[k])
      decreases c
    {
      match c
      case Exec(argv) =>
        var i := 0;
        while i < |argv|
          invariant 0 <= i <= |argv|
          invariant forall k: nat :: k < buf.Length ==>
              buf[k] == if EndsAt(Exec(argv[..i]), k) then '\0' else old(buf[k])
        {
          ExecEnds(argv, i);
          buf[argv[i].eq] := '\0';
          i := i + 1;
        }
        assert argv[..|argv|] == argv;
      case Redir(sub, file, mode, fd) =>
        NulTerminate(sub);
        assert HasWord(c, file);
        buf[file.eq] := '\0';
      case Pipe(left, right) =>
        NulTerminate(left);
        NulTerminate(right);
      case List(left, right) =>
        NulTerminate(left);
        NulTerminate(right);
      case Back(sub) =>
        NulTerminate(sub);
    }

    /** Parse the whole line, or stop. Afterwards every word of the tree is a C string in the buffer. */
    method ParseCmd() returns (r: Out)
      requires Valid() && s == 0
      modifies this`s, buf
      ensures r.Parsed? ==> ParseLine(old(Rest())) == Ok(r.cmd, [])
      ensures r == Stopped ==> ParseLine(old(Rest())) == Panic || ParseLine(old(Rest())).rest != []
      ensures r.Parsed? ==> forall w :: HasWord(r.cmd, w) ==>
        w.q < w.eq <= es && CStringAt(buf[..], w.q) == old(buf[w.q..w.eq])
      ensures r == Stopped ==> buf[..] == old(buf[..])
    {
      ghost var b := buf[..es];
      r := DoLine();
      if r == Stopped {
        return;
      }
      var p := Peek([]);
      if s != es {
        return Stopped;
      }
      LineWordsKept(Toks(b, 0));
      forall w | HasWord(r.cmd, w)
        ensures w.eq < buf.Length
      {
        WordsAreSpans(b, 0, w);
      }
      ghost var was := buf[..];
      NulTerminate(r.cmd);
      forall w | HasWord(r.cmd, w)
        ensures w.q < w.eq <= es && CStringAt(buf[..], w.q) == was[w.q..w.eq]
      {
        CutsMissWords(b, r.cmd, buf[..], w);
      }
    }
  }

  lemma ExecEnds(argv: seq<Span>, i: nat)
    requires i < |argv|
    ensures forall k: nat :: EndsAt(Exec(argv[..i + 1]), k) <==> EndsAt(Exec(argv[..i]), k) || k == argv[i].eq
  {
    assert argv[..i + 1] == argv[..i] + [argv[i]];
    assert HasWord(Exec(argv[..i + 1]), argv[i]);
  }
}
