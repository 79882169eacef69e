/** The regular expression matcher of grep.c against the language its patterns stand for.
    A pointer into a C string is the rest of the string from there, without the closing NUL. */
module Grep {
  datatype Item = One(c: char) | Star(c: char)
  // `anchored`: a leading ^; `end`: a trailing $.
  datatype Tail = Tail(items: seq<Item>, end: bool)
  datatype Pattern = Pattern(anchored: bool, tail: Tail)

  predicate CString(s: string) {
    forall k :: 0 <= k < |s| ==> s[k] != '\0'
  }

  // A dot stands for any character.
  predicate Fits(c: char, x: char) {
    c == '.' || c == x
  }

  // ----- what a pattern means

  predicate ItemFits(item: Item, piece: string) {
    && (item.One? ==> |piece| == 1)
    && (forall k :: 0 <= k < |piece| ==> Fits(item.c, piece[k]))
  }

  function Flat(pieces: seq<string>): string {
    if pieces == [] then "" else pieces[0] + Flat(pieces[1..])
  }

  ghost predicate Splits(items: seq<Item>, pieces: seq<string>) {
    |pieces| == |items| && forall k {:trigger pieces[k]} :: 0 <= k < |items| ==> ItemFits(items[k], pieces[k])
  }

  // w is in the language of items: it can be cut into one piece for each.
  ghost predicate InLanguage(items: seq<Item>, w: string) {
    exists pieces {:trigger Splits(items, pieces)} :: Splits(items, pieces) && Flat(pieces) == w
  }

  // Some prefix of text is in the language; all of text, if the pattern ends in $.
  ghost predicate PrefixMatches(t: Tail, text: string) {
    exists j {:trigger text[..j]} :: 0 <= j <= |text| && InLanguage(t.items, text[..j]) && (t.end ==> j == |text|)
  }

  // Some substring of text is in the language, from the start if anchored and to the end if the pattern ends in $.
  ghost predicate Matches(p: Pattern, text: string) {
    exists i, j {:trigger text[i..j]} :: 0 <= i <= j <= |text| && InLanguage(p.tail.items, text[i..j])
      && (p.anchored ==> i == 0) && (p.tail.end ==> j == |text|)
  }

  // ----- how a pattern is written

  function ParseTail(re: string): Tail {
    if re == "" then Tail([], false)
    else if |re| >= 2 && re[1] == '*' then
      var t := ParseTail(re[2..]);
      Tail([Star(re[0])] + t.items, t.end)
    else if re == "$" then Tail([], true)
    else
      var t := ParseTail(re[1..]);
      Tail([One(re[0])] + t.items, t.end)
  }

  function Parse(re: string): Pattern {
    if re != "" && re[0] == '^' then Pattern(true, ParseTail(re[1..])) else Pattern(false, ParseTail(re))
  }

  function ShowItems(items: seq<Item>): string {
    if items == [] then "" else (if items[0].One? then [items[0].c] else [items[0].c, '*']) + ShowItems(items[1..])
  }

  function Show(p: Pattern): string {
    (if p.anchored then "^" else "") + ShowItems(p.tail.items) + if p.tail.end then "$" else ""
  }

  lemma {:induction false} ShowParseTail(re: string)
    ensures var t := ParseTail(re);
            ShowItems(t.items) + (if t.end then "$" else "") == re
  {
    if re == "" || (re == "$") {
    } else if |re| >= 2 && re[1] == '*' {
      ShowParseTail(re[2..]);
      var t := ParseTail(re[2..]);
      assert ([Star(re[0])] + t.items)[1..] == t.items;
      assert re == [re[0], '*'] + re[2..];
    } else {
      ShowParseTail(re[1..]);
      var t := ParseTail(re[1..]);
      assert ([One(re[0])] + t.items)[1..] == t.items;
      assert re == [re[0]] + re[1..];
    }
  }

  /** Reading a pattern loses nothing: every string is the written form of what it is read as. */
  lemma ShowParse(re: string)
    ensures Show(Parse(re)) == re
  {
    if re != "" && re[0] == '^' {
      ShowParseTail(re[1..]);
    } else {
      ShowParseTail(re);
    }
  }

  // No item is written so that what comes after it changes how it is read: a plain character before a *, or a plain $
  // in the last place.
  predicate Legible(items: seq<Item>, end: bool) {
    items == [] ||
    (&& Legible(items[1..], end)
     && (items[0].One? && |items| > 1 ==> items[1].c != '*')
     && (items[0] == One('$') ==> |items| > 1 || end))
  }

  // Nor is an unanchored pattern written with a ^ in front.
  predicate Unambiguous(p: Pattern) {
    Legible(p.tail.items, p.tail.end) && (!p.anchored && p.tail.items != [] ==> p.tail.items[0].c != '^')
  }

  function ShowTail(t: Tail): string {
    ShowItems(t.items) + if t.end then "$" else ""
  }

  lemma {:induction false} ParseShowTail(t: Tail)
    ensures ParseTail(ShowTail(t)) == t <==> Legible(t.items, t.end)
    decreases |t.items|
  {
    if t.items != [] {
      var item, rest := t.items[0], Tail(t.items[1..], t.end);
      var re, more := ShowTail(t), ShowTail(rest);
      ParseShowTail(rest);
      ShowFirst(rest);
      assert t.items == [item] + rest.items;
      if item.Star? {
        assert re == [item.c, '*'] + more && re[2..] == more;
        assert ParseTail(re) == Tail([item] + ParseTail(more).items, ParseTail(more).end);
        assert ([item] + ParseTail(more).items)[1..] == ParseTail(more).items;
      } else {
        assert re == [item.c] + more && re[1..] == more;
        if more != "" && more[0] == '*' {
          assert ParseTail(re).items[0] == Star(item.c);
        } else if re != "$" {
          assert ParseTail(re) == Tail([item] + ParseTail(more).items, ParseTail(more).end);
          assert ([item] + ParseTail(more).items)[1..] == ParseTail(more).items;
        }
      }
    }
  }

  lemma ShowFirst(t: Tail)
    ensures ShowTail(t) == "" <==> t.items == [] && !t.end
    ensures ShowTail(t) != "" ==> ShowTail(t)[0] == if t.items == [] then '$' else t.items[0].c
  {
  }

  /** And back: a pattern is read from what is written for it exactly when it is written unambiguously. */
  lemma ParseShow(p: Pattern)
    ensures Parse(Show(p)) == p <==> Unambiguous(p)
  {
    var re := Show(p);
    ParseShowTail(p.tail);
    ShowFirst(p.tail);
    if p.anchored {
      assert re == "^" + ShowTail(p.tail) && re[1..] == ShowTail(p.tail);
    } else {
      assert re == ShowTail(p.tail);
    }
  }

  // ----- the language, one item at a time

  lemma NothingLanguage(w: string)
    ensures InLanguage([], w) <==> w == ""
  {
    if w == "" {
      assert Splits([], []);
    }
  }

  lemma OneLanguage(c: char, rest: seq<Item>, w: string)
    ensures InLanguage([One(c)] + rest, w) <==> w != "" && Fits(c, w[0]) && InLanguage(rest, w[1..])
  {
    var items := [One(c)] + rest;
    if InLanguage(items, w) {
      var pieces :| Splits(items, pieces) && Flat(pieces) == w;
      RestSplits(items, pieces);
      assert items[1..] == rest && |pieces[0]| == 1;
      assert w[1..] == Flat(pieces[1..]);
    }
    if w != "" && Fits(c, w[0]) && InLanguage(rest, w[1..]) {
      var pieces :| Splits(rest, pieces) && Flat(pieces) == w[1..];
      MoreSplits(One(c), rest, [w[0]], pieces);
      assert w == [w[0]] + w[1..];
    }
  }

  // A starred item takes nothing, or one character and then what it might have taken anyway.
  lemma StarLanguage(c: char, rest: seq<Item>, w: string)
    ensures InLanguage([Star(c)] + rest, w) <==>
      InLanguage(rest, w) || (w != "" && Fits(c, w[0]) && InLanguage([Star(c)] + rest, w[1..]))
  {
    hide InLanguage;
    if InLanguage([Star(c)] + rest, w) {
      StarTakes(c, rest, w);
    }
    if InLanguage(rest, w) {
      StarNothing(c, rest, w);
    }
    if w != "" && Fits(c, w[0]) && InLanguage([Star(c)] + rest, w[1..]) {
      StarMore(c, rest, w);
    }
  }

  lemma StarTakes(c: char, rest: seq<Item>, w: string)
    requires InLanguage([Star(c)] + rest, w)
    ensures InLanguage(rest, w) || (w != "" && Fits(c, w[0]) && InLanguage([Star(c)] + rest, w[1..]))
  {
    hide Splits;
    var items := [Star(c)] + rest;
    assert items[1..] == rest;
    var pieces :| Splits(items, pieces) && Flat(pieces) == w;
    RestSplits(items, pieces);
    if pieces[0] == "" {
      assert w == Flat(pieces[1..]);
    } else {
      MoreSplits(Star(c), rest, pieces[0][1..], pieces[1..]);
      assert w[1..] == pieces[0][1..] + Flat(pieces[1..]);
    }
  }

  lemma StarNothing(c: char, rest: seq<Item>, w: string)
    requires InLanguage(rest, w)
    ensures InLanguage([Star(c)] + rest, w)
  {
    hide Splits;
    var pieces :| Splits(rest, pieces) && Flat(pieces) == w;
    MoreSplits(Star(c), rest, "", pieces);
    assert w == "" + w;
  }

  lemma StarMore(c: char, rest: seq<Item>, w: string)
    requires w != "" && Fits(c, w[0]) && InLanguage([Star(c)] + rest, w[1..])
    ensures InLanguage([Star(c)] + rest, w)
  {
    hide Splits;
    var items := [Star(c)] + rest;
    assert items[1..] == rest;
    var pieces :| Splits(items, pieces) && Flat(pieces) == w[1..];
    RestSplits(items, pieces);
    MoreSplits(Star(c), rest, [w[0]] + pieces[0], pieces[1..]);
    assert w == [w[0]] + w[1..] == ([w[0]] + pieces[0]) + Flat(pieces[1..]);
  }

  lemma RestSplits(items: seq<Item>, pieces: seq<string>)
    requires items != [] && Splits(items, pieces)
    ensures |pieces| > 0 && ItemFits(items[0], pieces[0]) && Splits(items[1..], pieces[1..])
  {
  }

  lemma MoreSplits(item: Item, rest: seq<Item>, piece: string, pieces: seq<string>)
    requires ItemFits(item, piece) && Splits(rest, pieces)
    ensures Splits([item] + rest, [piece] + pieces) && Flat([piece] + pieces) == piece + Flat(pieces)
  {
    assert ([piece] + pieces)[1..] == pieces;
  }

  // ----- the same for the prefixes of a text

  lemma PrefixNothing(text: string)
    ensures PrefixMatches(Tail([], false), text)
    ensures PrefixMatches(Tail([], true), text) <==> text == ""
  {
    NothingLanguage(text[..0]);
    NothingLanguage(text[..|text|]);
    assert text[..|text|] == text;
  }

  lemma PrefixOne(c: char, t: Tail, text: string)
    ensures PrefixMatches(Tail([One(c)] + t.items, t.end), text) <==>
      text != "" && Fits(c, text[0]) && PrefixMatches(t, text[1..])
  {
    var whole := Tail([One(c)] + t.items, t.end);
    if PrefixMatches(whole, text) {
      var j :| 0 <= j <= |text| && InLanguage(whole.items, text[..j]) && (t.end ==> j == |text|);
      OneLanguage(c, t.items, text[..j]);
      assert text[..j][1..] == text[1..][..j - 1];
    }
    if text != "" && Fits(c, text[0]) && PrefixMatches(t, text[1..]) {
      var j :| 0 <= j <= |text[1..]| && InLanguage(t.items, text[1..][..j]) && (t.end ==> j == |text[1..]|);
      OneLanguage(c, t.items, text[..j + 1]);
      assert text[..j + 1][1..] == text[1..][..j];
    }
  }

  lemma PrefixStar(c: char, t: Tail, text: string)
    ensures var whole := Tail([Star(c)] + t.items, t.end);
            PrefixMatches(whole, text) <==>
              PrefixMatches(t, text) || (text != "" && Fits(c, text[0]) && PrefixMatches(whole, text[1..]))
  {
    var whole := Tail([Star(c)] + t.items, t.end);
    if PrefixMatches(whole, text) {
      var j :| 0 <= j <= |text| && InLanguage(whole.items, text[..j]) && (t.end ==> j == |text|);
      StarLanguage(c, t.items, text[..j]);
      if !InLanguage(t.items, text[..j]) {
        assert text[..j][1..] == text[1..][..j - 1];
      }
    }
    if PrefixMatches(t, text) {
      var j :| 0 <= j <= |text| && InLanguage(t.items, text[..j]) && (t.end ==> j == |text|);
      StarLanguage(c, t.items, text[..j]);
    }
    if text != "" && Fits(c, text[0]) && PrefixMatches(whole, text[1..]) {
      var j :| 0 <= j <= |text[1..]| && InLanguage(whole.items, text[1..][..j]) && (t.end ==> j == |text[1..]|);
      StarLanguage(c, t.items, text[..j + 1]);
      assert text[..j + 1][1..] == text[1..][..j];
    }
  }

  // A match somewhere is a prefix match of some suffix.
  lemma MatchesFromSuffix(p: Pattern, text: string)
    ensures Matches(p, text) <==> exists i ::
        0 <= i <= |text| && PrefixMatches(p.tail, text[i..]) && (p.anchored ==> i == 0)
  {
    if Matches(p, text) {
      var i, j :| 0 <= i <= j <= |text| && InLanguage(p.tail.items, text[i..j]) && (p.anchored ==> i == 0)
           && (p.tail.end ==> j == |text|);
      assert text[i..][..j - i] == text[i..j];
    }
    if i :| 0 <= i <= |text| && PrefixMatches(p.tail, text[i..]) && (p.anchored ==> i == 0) {
      var j :| 0 <= j <= |text[i..]| && InLanguage(p.tail.items, text[i..][..j]) && (p.tail.end ==> j == |text[i..]|);
      assert text[i..][..j] == text[i..i + j];
    }
  }

  // ----- the matcher

  /** Search for re at the beginning of text. */
  method MatchHere(re: string, text: string) returns (r: bool)
    requires CString(re) && CString(text)
    ensures r <==> PrefixMatches(ParseTail(re), text)
    decreases |re|, 0
  {
    PrefixNothing(text);
    if re == "" {
      return true;
    }
    if |re| >= 2 && re[1] == '*' {
      r := MatchStar(re[0], re[2..], text);
      return;
    }
    if re[0] == '$' && |re| == 1 {
      return text == "";
    }
    PrefixOne(re[0], ParseTail(re[1..]), text);
    if text != "" && (re[0] == '.' || re[0] == text[0]) {
      r := MatchHere(re[1..], text[1..]);
      return;
    }
    return false;
  }

  /** Search for c*re at the beginning of text. */
  method MatchStar(c: char, re: string, text0: string) returns (r: bool)
    requires CString(re) && CString(text0)
    ensures r <==> PrefixMatches(Tail([Star(c)] + ParseTail(re).items, ParseTail(re).end), text0)
    decreases |re|, 1
  {
    var text := text0;
    ghost var t := ParseTail(re);
    ghost var whole := Tail([Star(c)] + t.items, t.end);
    while true
      invariant CString(text) && (PrefixMatches(whole, text0) <==> PrefixMatches(whole, text))
      decreases |text|
    {
      PrefixStar(c, t, text);
      r := MatchHere(re, text);
      if r {
        return true;
      }
      if text == "" || !(text[0] == c || c == '.') {
        return false;
      }
      text := text[1..];
    }
  }

  /** grep's match: whether a line contains a string of the pattern's language. */
  method Match(re: string, text0: string) returns (r: bool)
    requires CString(re) && CString(text0)
    ensures r <==> Matches(Parse(re), text0)
  {
    MatchesFromSuffix(Parse(re), text0);
    if re != "" && re[0] == '^' {
      assert text0[0..] == text0;
      r := MatchHere(re[1..], text0);
      return;
    }
    var text := text0;
    ghost var k := 0;
    while true
      invariant 0 <= k <= |text0| && text == text0[k..] && CString(text)
      invariant forall i :: 0 <= i < k ==> !PrefixMatches(ParseTail(re), text0[i..])
      decreases |text|
    {
      r := MatchHere(re, text);
      if r {
        return true;
      }
      if text == "" {
        return false;
      }
      text, k := text[1..], k + 1;
    }
  }
}
