/**
 The two printers of quoted text, sh_single_quote (readline-6.2/shell.c) and quote_breaks (readline-6.2/histexpand.c),
 and what splitting their output into words (module Tokenizer) gives back.
*/
module Quoting {
  import opened Text
  import opened Characters
  import opened Tokenizer

  predicate IsBreak(c: char) { IsBlank(c) || c == '\n' }

  /** What one character of the text becomes.  With breaks, each blank and newline is left outside the quotes. */
  function Piece(c: char, breaks: bool): string {
    if c == '\'' then "'\\''" else if breaks && IsBreak(c) then "'" + [c] + "'" else [c]
  }

  function Body(s: string, breaks: bool): string {
    if s == [] then [] else Piece(s[0], breaks) + Body(s[1..], breaks)
  }

  function Quoted(s: string): string { "'" + (Body(s, false) + "'") }

  function Broken(s: string): string { "'" + (Body(s, true) + "'") }

  // ----- reading quoted text back -----

  /**
   Removing single quotes and backslashes from a word, sections 2.2.1, 2.2.2 and 2.6.7 of POSIX.1-2008 XCU: inside
   single quotes everything is literal, and outside them a backslash stands for the character behind it, a
   backslash-newline for nothing.
  */
  function Unquote(q: string, inside: bool): string
    decreases |q|
  {
    if q == [] then []
    else if inside then (if q[0] == '\'' then Unquote(q[1..], false) else [q[0]] + Unquote(q[1..], true))
    else if q[0] == '\'' then Unquote(q[1..], true)
    else if q[0] == '\\' && |q| > 1 then (if q[1] == '\n' then [] else [q[1]]) + Unquote(q[2..], false)
    else [q[0]] + Unquote(q[1..], false)
  }

  lemma UnquoteEscape(rest: string)
    ensures Unquote("'\\''" + rest, true) == "'" + Unquote(rest, true)
  {
    assert ("'\\''" + rest)[1..] == "\\''" + rest;
    assert ("\\''" + rest)[2..] == "'" + rest;
    assert Unquote("\\''" + rest, false) == "'" + Unquote("'" + rest, false);
    assert ("'" + rest)[1..] == rest;
  }

  lemma {:induction false} UnquoteBody(s: string)
    ensures Unquote(Body(s, false) + "'", true) == s
  {
    if s == [] {
      assert Body(s, false) + "'" == "'";
      assert "'"[1..] == "";
    } else {
      var rest := Body(s[1..], false) + "'";
      assert Body(s, false) + "'" == Piece(s[0], false) + rest;
      UnquoteBody(s[1..]);
      UnquoteEscape(rest);
      assert ([s[0]] + rest)[1..] == rest;
    }
  }

  function RemoveQuotes(q: string): string { Unquote(q, false) }

  /** Quote removal undoes quoting. */
  lemma UnquoteQuoted(s: string)
    ensures RemoveQuotes(Quoted(s)) == s
  {
    UnquoteBody(s);
    assert Quoted(s)[1..] == Body(s, false) + "'";
  }

  // ----- tokens of quoted text -----

  lemma BodyPeels(s: string, breaks: bool, tail: string)
    requires s != []
    ensures Body(s, breaks) + tail == Piece(s[0], breaks) + (Body(s[1..], breaks) + tail)
  {
  }

  /** The closing quote, and then the end or a break between words. */
  predicate Closes(tail: string, delims: string) {
    tail != [] && tail[0] == '\'' && (|tail| > 1 ==> IsBreak(tail[1]) && tail[1] in delims)
  }

  /** The scanner inside single quotes leaves quoted text behind its closing quote. */
  lemma {:induction false} ScanBody(q: string, i: nat, s: string, tail: string, delims: string)
    requires i <= |q| && q[i..] == Body(s, false) + tail
    requires '\'' !in delims && Closes(tail, delims)
    ensures WordLoop(q, i, '\'', 0, delims) == |q| + 1 - |tail|
    decreases |s|
  {
    if s == [] {
      ScanClosing(q, i, tail, delims);
    } else {
      var rest := Body(s[1..], false) + tail;
      BodyPeels(s, false, tail);
      Peel(q, i, Piece(s[0], false), rest);
      if s[0] == '\'' {
        ScanBody(q, i + 4, s[1..], tail, delims);
        ScanEscape(q, i, delims);
      } else if Escapes(q, i, '\'') {
        NextIsNewline(q, i, s, tail);
        NewlinePeels(q, i + 1, s[1..], tail);
        ScanBody(q, i + 2, s[1..][1..], tail, delims);
      } else {
        ScanPlain(q, i, s[0], delims);
        ScanBody(q, i + 1, s[1..], tail, delims);
      }
    }
  }

  lemma ScanClosing(q: string, i: nat, tail: string, delims: string)
    requires i <= |q| && q[i..] == [] + tail && Closes(tail, delims)
    ensures WordLoop(q, i, '\'', 0, delims) == |q| + 1 - |tail|
  {
    Peel(q, i, [], tail);
    assert q[i..] == tail && q[i] == q[i..][0];
    assert |tail| > 1 ==> q[i + 1] == q[i..][1];
    assert WordLoop(q, i + 1, NUL, 0, delims) == i + 1;
  }

  lemma ScanPlain(q: string, i: nat, c: char, delims: string)
    requires i < |q| && q[i] == c != '\'' && !Escapes(q, i, '\'')
    ensures WordLoop(q, i, '\'', 0, delims) == WordLoop(q, i + 1, '\'', 0, delims)
  {
  }

  lemma NewlinePeels(q: string, i: nat, s: string, tail: string)
    requires i <= |q| && s != [] && s[0] == '\n' && q[i..] == Body(s, false) + tail
    ensures i < |q| && q[i + 1..] == Body(s[1..], false) + tail
  {
    BodyPeels(s, false, tail);
    Peel(q, i, Piece(s[0], false), Body(s[1..], false) + tail);
  }

  lemma ScanEscape(q: string, i: nat, delims: string)
    requires i + 4 <= |q| && q[i..i + 4] == "'\\''" && '\'' !in delims
    ensures WordLoop(q, i, '\'', 0, delims) == WordLoop(q, i + 4, '\'', 0, delims)
  {
    assert q[i] == q[i..i + 4][0] && q[i + 1] == q[i..i + 4][1] && q[i + 3] == q[i..i + 4][3];
    assert WordLoop(q, i + 1, NUL, 0, delims) == WordLoop(q, i + 3, NUL, 0, delims);
  }

  lemma NextIsNewline(q: string, i: nat, s: string, tail: string)
    requires s != [] && i + 1 <= |q| && At(q, i + 1) == '\n'
    requires q[i + 1..] == Body(s[1..], false) + tail && tail != [] && tail[0] == '\''
    ensures |s| > 1 && s[1] == '\n'
  {
    assert q[i + 1] == q[i + 1..][0];
    if |s| > 1 {
      BodyPeels(s[1..], false, tail);
    }
  }

  lemma Rebracket(a: string, b: string, c: string, d: string)
    ensures a + (b + c) + d == a + (b + (c + d))
  {
  }

  lemma QuotedEnds(q: string, i: nat, s: string, rest: string, delims: string)
    requires i <= |q| && q[i..] == Quoted(s) + rest
    requires '\'' !in delims && (rest != [] ==> IsBreak(rest[0]) && rest[0] in delims)
    ensures |q| == i + |Quoted(s)| + |rest| && q[i] == '\'' && SkipBlanks(q, i) == i
    ensures TokenEnd(q, i, delims) == i + |Quoted(s)|
  {
    Rebracket("'", Body(s, false), "'", rest);
    Peel(q, i, "'", Body(s, false) + ("'" + rest));
    ScanBody(q, i + 1, s, "'" + rest, delims);
    WordOfQuote(q, i, delims);
  }

  lemma WordOfQuote(q: string, i: nat, delims: string)
    requires i < |q| && q[i] == '\''
    ensures SkipBlanks(q, i) == i && WordEnd(q, i, delims) == WordLoop(q, i + 1, '\'', 0, delims)
  {
  }

  /** Whatever the text, its quoted form is one word, unless quotes start comments. */
  lemma QuotedIsOneToken(s: string, comment: char, delims: string)
    requires '\'' !in delims
    ensures Contained(Quoted(s), 0, comment, delims)
    ensures Tokens(Quoted(s), 0, comment, delims) == if comment == '\'' then [] else [Span(0, |Quoted(s)|)]
  {
    var q := Quoted(s);
    assert q[0..] == q + [];
    QuotedEnds(q, 0, s, [], delims);
    assert SkipBlanks(q, |q|) == |q|;
  }

  // ----- tokens of broken text -----

  /** The first blank or newline. */
  function BreakAt(s: string): (k: nat)
    ensures k <= |s|
    ensures forall j | 0 <= j < k :: s[j] != ' ' && s[j] != '\t' && s[j] != '\n'
    ensures k < |s| ==> s[k] == ' ' || s[k] == '\t' || s[k] == '\n'
  {
    if s == [] || IsBreak(s[0]) then 0 else 1 + BreakAt(s[1..])
  }

  /** A word, the newline behind it if that is what follows, and the other words. */
  function Followed(word: string, c: char, ws: seq<string>): seq<string> {
    if c == '\n' then [word, "\n"] + ws else [word] + ws
  }

  /** The words of quote_breaks: the quoted fields between the breaks, and each newline. */
  function BrokenWords(s: string): seq<string> {
    var k := BreakAt(s);
    if k == |s| then [Quoted(s)]
    else Followed(Quoted(s[..k]), s[k], BrokenWords(s[k + 1..]))
  }

  function Texts(q: string, ts: seq<Span>): seq<string> {
    if ts == [] then [] else [Slice(q, ts[0])] + Texts(q, ts[1..])
  }

  function Slice(q: string, t: Span): string {
    if t.start <= t.end <= |q| then q[t.start..t.end] else []
  }

  lemma {:induction false} BodySplits(s: string, k: nat, tail: string)
    requires k == BreakAt(s)
    ensures k == |s| ==> Body(s, true) == Body(s, false)
    ensures k < |s| ==>
      Body(s, true) + tail == Body(s[..k], false) + ("'" + ([s[k]] + ("'" + (Body(s[k + 1..], true) + tail))))
  {
    if k > 0 {
      BodySplits(s[1..], k - 1, tail);
      if k < |s| {
        assert s[..k][1..] == s[1..][..k - 1];
        assert s[1..][k..] == s[k + 1..];
        BodyPeels(s[..k], false, "'" + ([s[k]] + ("'" + (Body(s[k + 1..], true) + tail))));
        BodyPeels(s, true, tail);
      }
    }
  }

  /** Broken text up to and over its first break. */
  lemma BrokenSplits(s: string, k: nat)
    requires k == BreakAt(s) < |s|
    ensures Broken(s) == Quoted(s[..k]) + ([s[k]] + Broken(s[k + 1..]))
  {
    BodySplits(s, k, "'");
    Rebracket("'", Body(s[..k], false), "'", [s[k]] + Broken(s[k + 1..]));
  }

  lemma FirstField(q: string, i: nat, s: string, k: nat, delims: string) returns (e: nat)
    requires From(q, i, Broken(s)) && k == BreakAt(s) < |s|
    requires ' ' in delims && '\t' in delims && '\n' in delims && '\'' !in delims
    ensures i < e && e + 1 < |q| && q[i] == '\'' && SkipBlanks(q, i) == i && TokenEnd(q, i, delims) == e
    ensures q[i..e] == Quoted(s[..k]) && q[e] == s[k]
    ensures q[e + 1] == '\'' && From(q, e + 1, Broken(s[k + 1..]))
  {
    BrokenSplits(s, k);
    e := i + |Quoted(s[..k])|;
    FieldEnds(q, i, s[..k], s[k], Broken(s[k + 1..]), delims);
  }

  /** A quoted field, a break and something quoted. */
  lemma FieldEnds(q: string, i: nat, field: string, c: char, later: string, delims: string)
    requires From(q, i, Quoted(field) + ([c] + later)) && IsBreak(c) && c in delims && '\'' !in delims
    requires later != [] && later[0] == '\''
    ensures var e := i + |Quoted(field)|;
      && i < e && e + 1 < |q| && q[i] == '\'' && SkipBlanks(q, i) == i && TokenEnd(q, i, delims) == e
      && q[i..e] == Quoted(field) && q[e] == c && q[e + 1] == '\'' && From(q, e + 1, later)
  {
    var e := i + |Quoted(field)|;
    FromIs(q, i, Quoted(field) + ([c] + later));
    QuotedEnds(q, i, field, [c] + later, delims);
    Peel(q, i, Quoted(field), [c] + later);
    Peel(q, e, [c], later);
    assert q[e] == q[e..e + 1][0] && q[e + 1] == q[e + 1..][0];
    FromIs(q, e + 1, later);
  }

  lemma LastField(q: string, i: nat, s: string, comment: char, delims: string)
    requires From(q, i, Broken(s)) && BreakAt(s) == |s|
    requires '\'' !in delims && comment != '\''
    ensures Contained(q, i, comment, delims)
    ensures Texts(q, Tokens(q, i, comment, delims)) == [Quoted(s)]
  {
    FromIs(q, i, Broken(s));
    BodySplits(s, |s|, []);
    assert q[i..] == Quoted(s) + [];
    QuotedEnds(q, i, s, [], delims);
    assert Tokens(q, i, comment, delims) == [Span(i, |q|)] + [];
    FirstTexts(q, Span(i, |q|), []);
    assert q[i..|q|] == Quoted(s);
  }

  /** A blank between words is dropped, a newline is a word of its own. */
  lemma PastField(q: string, i: nat, e: nat, comment: char, delims: string)
    requires i < e && e + 1 < |q| && SkipBlanks(q, i) == i && TokenEnd(q, i, delims) == e
    requires IsBreak(q[e]) && !IsBlank(q[e + 1])
    requires comment != '\n' && comment != q[i] && Contained(q, e + 1, comment, delims)
    ensures Contained(q, i, comment, delims)
    ensures Texts(q, Tokens(q, i, comment, delims)) ==
      Followed(q[i..e], q[e], Texts(q, Tokens(q, e + 1, comment, delims)))
  {
    PastBreak(q, e, comment, delims);
    OneToken(q, i, e, comment, delims);
    if q[e] == '\n' {
      OneToken(q, e, e + 1, comment, delims);
      assert q[e..e + 1] == "\n";
    }
  }

  lemma OneToken(q: string, i: nat, e: nat, comment: char, delims: string)
    requires i < e <= |q| && SkipBlanks(q, i) == i && TokenEnd(q, i, delims) == e
    requires comment != q[i] && Contained(q, e, comment, delims)
    ensures Contained(q, i, comment, delims)
    ensures Texts(q, Tokens(q, i, comment, delims)) == [q[i..e]] + Texts(q, Tokens(q, e, comment, delims))
  {
    FirstTexts(q, Span(i, e), Tokens(q, e, comment, delims));
  }

  lemma FirstTexts(q: string, t: Span, ts: seq<Span>)
    ensures Texts(q, [t] + ts) == [Slice(q, t)] + Texts(q, ts)
  {
  }

  lemma PastBreak(q: string, e: nat, comment: char, delims: string)
    requires e + 1 < |q| && IsBreak(q[e]) && !IsBlank(q[e + 1])
    requires comment != '\n' && Contained(q, e + 1, comment, delims)
    ensures Contained(q, e, comment, delims)
    ensures q[e] == '\n' ==> SkipBlanks(q, e) == e && TokenEnd(q, e, delims) == e + 1
    ensures q[e] != '\n' ==> Tokens(q, e, comment, delims) == Tokens(q, e + 1, comment, delims)
  {
    if q[e] == '\n' {
      assert SkipBlanks(q, e) == e;
      assert TokenEnd(q, e, delims) == e + 1;
    } else {
      assert SkipBlanks(q, e) == SkipBlanks(q, e + 1);
    }
  }

  /** The first field, what is behind it, and the rest. */
  lemma FieldStep(q: string, i: nat, s: string, k: nat, comment: char, delims: string) returns (e: nat)
    requires From(q, i, Broken(s)) && k == BreakAt(s) < |s|
    requires ' ' in delims && '\t' in delims && '\n' in delims && '\'' !in delims
    requires comment != '\'' && comment != '\n'
    ensures e + 1 <= |q| && From(q, e + 1, Broken(s[k + 1..]))
    ensures Contained(q, e + 1, comment, delims) ==>
      && Contained(q, i, comment, delims)
      && Texts(q, Tokens(q, i, comment, delims)) ==
         Followed(Quoted(s[..k]), s[k], Texts(q, Tokens(q, e + 1, comment, delims)))
  {
    e := FirstField(q, i, s, k, delims);
    if Contained(q, e + 1, comment, delims) {
      PastField(q, i, e, comment, delims);
    }
  }

  lemma {:induction false} TokensOfBroken(q: string, i: nat, s: string, comment: char, delims: string)
    requires From(q, i, Broken(s))
    requires ' ' in delims && '\t' in delims && '\n' in delims && '\'' !in delims
    requires comment != '\'' && comment != '\n'
    ensures Contained(q, i, comment, delims)
    ensures Texts(q, Tokens(q, i, comment, delims)) == BrokenWords(s)
    decreases |s|
  {
    var k := BreakAt(s);
    if k == |s| {
      LastField(q, i, s, comment, delims);
    } else {
      var e := FieldStep(q, i, s, k, comment, delims);
      TokensOfBroken(q, e + 1, s[k + 1..], comment, delims);
    }
  }

  /** The fields between breaks. */
  function Fields(s: string): (fs: seq<string>)
    ensures |fs| > 0
  {
    var k := BreakAt(s);
    if k == |s| then [s] else [s[..k]] + Fields(s[k + 1..])
  }

  function Map(f: string -> string, xs: seq<string>): seq<string> {
    if xs == [] then [] else [f(xs[0])] + Map(f, xs[1..])
  }

  /** For text without newlines the words are exactly the quoted fields, and quote removal gives the fields back. */
  lemma {:induction false} BrokenWordsAreFields(s: string)
    requires '\n' !in s
    ensures BrokenWords(s) == Map(Quoted, Fields(s))
    ensures Map(RemoveQuotes, BrokenWords(s)) == Fields(s)
  {
    var k := BreakAt(s);
    UnquoteQuoted(s[..k]);
    assert s[..|s|] == s;
    if k < |s| {
      BrokenWordsAreFields(s[k + 1..]);
    }
  }

  lemma BreaksSurviveSplitting(s: string, comment: char, delims: string)
    requires ' ' in delims && '\t' in delims && '\n' in delims && '\'' !in delims
    requires comment != '\'' && comment != '\n'
    ensures var q := Broken(s);
      && Contained(q, 0, comment, delims)
      && Texts(q, Tokens(q, 0, comment, delims)) == BrokenWords(s)
  {
    var q := Broken(s);
    assert From(q, 0, q) by {
      FromIs(q, 0, q);
    }
    TokensOfBroken(q, 0, s, comment, delims);
  }

  // ----- the printers -----

  /** What is left to print, with p characters of the text done, starts at r of the result. */
  ghost predicate Left(full: string, r: nat, s: string, p: nat, breaks: bool) {
    r <= |full| && p <= |s| && full[r..] == Body(s[p..], breaks) + "'"
  }

  lemma LeftStep(full: string, r: nat, s: string, p: nat, breaks: bool)
    requires Left(full, r, s, p, breaks) && p < |s|
    ensures Left(full, r + |Piece(s[p], breaks)|, s, p + 1, breaks)
    ensures r + |Piece(s[p], breaks)| < |full|
    ensures forall j | 0 <= j < |Piece(s[p], breaks)| :: full[r + j] == Piece(s[p], breaks)[j]
  {
    BodyPeels(s[p..], breaks, "'");
    assert s[p..][1..] == s[p + 1..];
    Peel(full, r, Piece(s[p], breaks), Body(s[p + 1..], breaks) + "'");
  }

  /** The characters to print next. */
  lemma PrintsPlain(full: string, r: nat, s: string, p: nat, breaks: bool)
    requires Left(full, r, s, p, breaks) && p < |s| && s[p] != '\'' && !(breaks && IsBreak(s[p]))
    ensures Left(full, r + 1, s, p + 1, breaks) && r + 1 < |full| && full[r] == s[p]
  {
    LeftStep(full, r, s, p, breaks);
    assert full[r + 0] == Piece(s[p], breaks)[0];
  }

  lemma PrintsBreak(full: string, r: nat, s: string, p: nat)
    requires Left(full, r, s, p, true) && p < |s| && s[p] != '\'' && IsBreak(s[p])
    ensures Left(full, r + 3, s, p + 1, true) && r + 3 < |full|
    ensures full[r] == '\'' && full[r + 1] == s[p] && full[r + 2] == '\''
  {
    LeftStep(full, r, s, p, true);
    var piece := Piece(s[p], true);
    assert full[r + 0] == piece[0] && full[r + 1] == piece[1] && full[r + 2] == piece[2];
  }

  lemma PrintsQuote(full: string, r: nat, s: string, p: nat, breaks: bool)
    requires Left(full, r, s, p, breaks) && p < |s| && s[p] == '\''
    ensures Left(full, r + 4, s, p + 1, breaks) && r + 4 < |full|
    ensures full[r] == '\'' && full[r + 1] == '\\' && full[r + 2] == '\'' && full[r + 3] == '\''
  {
    LeftStep(full, r, s, p, breaks);
    var piece := Piece(s[p], breaks);
    assert full[r + 0] == piece[0] && full[r + 1] == piece[1] && full[r + 2] == piece[2] && full[r + 3] == piece[3];
  }

  lemma LeftNothing(full: string, r: nat, s: string, breaks: bool)
    requires Left(full, r, s, |s|, breaks)
    ensures |full| == r + 1 && full[r] == '\''
  {
    Peel(full, r, "'", []);
  }

  /** sh_single_quote: the buffer of 3 + 4n characters is large enough, and NUL ends the result. */
  method ShSingleQuote(s: string) returns (result: array<char>)
    ensures |Quoted(s)| < result.Length == 3 + 4 * |s|
    ensures result[..|Quoted(s)|] == Quoted(s) && result[|Quoted(s)|] == NUL
  {
    result := new char[3 + 4 * |s|];
    ghost var full := Quoted(s);
    var i := 0;
    var r := Emit(result, 0, '\'', full);
    while i < |s|
      invariant 0 <= i <= |s| && 1 <= r <= 1 + 4 * i
      invariant Left(full, r, s, i, false)
      invariant Agrees(result, r, full)
    {
      r := QuoteNext(result, r, s, i, full);
      i := i + 1;
    }
    LeftNothing(full, r, s, false);
    r := Emit(result, r, '\'', full);
    result[r] := NUL;
  }

  /** The body of its loop. */
  method QuoteNext(result: array<char>, r: nat, s: string, i: nat, ghost full: string) returns (next: nat)
    requires i < |s| && Left(full, r, s, i, false) && Agrees(result, r, full) && r + 4 < result.Length
    modifies result
    ensures r < next <= r + 4 && Left(full, next, s, i + 1, false) && Agrees(result, next, full)
  {
    var c := s[i];
    if c == '\'' {
      PrintsQuote(full, r, s, i, false);
    } else {
      PrintsPlain(full, r, s, i, false);
    }
    next := Emit(result, r, c, full);
    if c == '\'' {
      next := Emit(result, next, '\\', full);
      next := Emit(result, next, '\'', full);
      next := Emit(result, next, '\'', full);
    }
  }

  /** The length that quote_breaks counts first. */
  method CountBroken(s: string) returns (len: nat)
    ensures len == |Broken(s)| + 1
  {
    len := 3;
    var p := 0;
    while p < |s|
      invariant 0 <= p <= |s| && len + |Body(s[p..], true)| == |Broken(s)| + 1
    {
      assert s[p..][1..] == s[p + 1..];
      len := len + if s[p] == '\'' then 4 else if IsBreak(s[p]) then 3 else 1;
      p := p + 1;
    }
  }

  /** One character of quote_breaks. */
  method PrintBroken(ret: array<char>, r: nat, s: string, p: nat, ghost full: string) returns (next: nat)
    requires p < |s| && Left(full, r, s, p, true) && Agrees(ret, r, full) && |full| <= ret.Length
    modifies ret
    ensures Left(full, next, s, p + 1, true) && Agrees(ret, next, full)
  {
    next := r;
    if s[p] == '\'' {
      PrintsQuote(full, r, s, p, true);
      next := Emit(ret, next, '\'', full);
      next := Emit(ret, next, '\\', full);
      next := Emit(ret, next, '\'', full);
      next := Emit(ret, next, '\'', full);
    } else if IsBreak(s[p]) {
      PrintsBreak(full, r, s, p);
      next := Emit(ret, next, '\'', full);
      next := Emit(ret, next, s[p], full);
      next := Emit(ret, next, '\'', full);
    } else {
      PrintsPlain(full, r, s, p, true);
      next := Emit(ret, next, s[p], full);
    }
  }

  /** quote_breaks: the buffer is filled to its last character. */
  method QuoteBreaks(s: string) returns (ret: array<char>)
    ensures ret.Length == |Broken(s)| + 1 && ret[..|Broken(s)|] == Broken(s) && ret[|Broken(s)|] == NUL
  {
    var len := CountBroken(s);
    ret := new char[len];
    ghost var full := Broken(s);
    var p := 0;
    var r := Emit(ret, 0, '\'', full);
    while p < |s|
      invariant 0 <= p <= |s|
      invariant Left(full, r, s, p, true) && Agrees(ret, r, full)
    {
      r := PrintBroken(ret, r, s, p, full);
      p := p + 1;
    }
    LeftNothing(full, r, s, true);
    r := Emit(ret, r, '\'', full);
    ret[r] := NUL;
  }
}
