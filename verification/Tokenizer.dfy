/**
 Splitting a history line into words (readline-6.2/histexpand.c).

 The functions describe the scanner position by position; the methods are its loops.  Reading a string at its length
 gives NUL, as in C.
*/
module Tokenizer {
  import opened Options
  import opened Characters

  const DELIMITERS := " \t\n;&()|<>"

  predicate IsQuote(c: char) { c == '"' || c == '\'' || c == '`' }

  /** member. */
  predicate Member(c: char, set_: string) { c != NUL && c in set_ }

  // ----- history_tokenize_word -----

  /** A backslash that takes the next character with it. */
  predicate Escapes(s: string, i: nat, delim: char)
    requires i < |s|
  {
    s[i] == '\\' && (At(s, i + 1) == '\n' || delim != '\'')
  }

  /**
   Where the word ends when the scanner is at i, inside the quote delim (NUL for none), nest parentheses deep.  A
   backslash that is the last character takes the NUL with it, and the end is behind the string.
  */
  function WordLoop(s: string, i: nat, delim: char, nest: nat, delims: string): (e: nat)
    requires i <= |s| + 1
    ensures i <= e <= |s| + 1
    decreases |s| + 1 - i
  {
    if i >= |s| then i
    else if Escapes(s, i, delim) then WordLoop(s, i + 2, delim, nest, delims)
    else if nest > 0 && s[i] == '(' then WordLoop(s, i + 1, delim, nest + 1, delims)
    else if nest > 0 && s[i] == delim then
      WordLoop(s, i + 1, if nest == 1 then NUL else delim, nest - 1, delims)
    else if delim != NUL && s[i] == delim then WordLoop(s, i + 1, NUL, nest, delims)
    else if delim == NUL && Member(s[i], delims) then i
    else WordLoop(s, i + 1, if delim == NUL && IsQuote(s[i]) then s[i] else delim, nest, delims)
  }

  /** What a word starts with: an operator of some length, or text from some place on inside some quote. */
  datatype WordStart = Operator(length: nat) | Text(skip: nat, delim: char, nest: nat)

  function StartOf(s: string, i: nat): (w: WordStart)
    requires i < |s|
    ensures w.Operator? ==> 0 < w.length && i + w.length <= |s|
    ensures w.Text? ==> i + w.skip <= |s|
  {
    var c, peek := s[i], At(s, i + 1);
    if Member(c, "()\n") then Operator(1)
    else if Member(c, "<>;&|$") && peek == c && peek != '$' && c != NUL then
      Operator(if peek == '<' && (At(s, i + 2) == '-' || At(s, i + 2) == '<') then 3 else 2)
    else if (peek == '&' && (c == '>' || c == '<')) || (peek == '>' && c == '&') then Operator(2)
    else if peek == '(' && (c == '>' || c == '<' || c == '$') then Text(2, ')', 1)
    else if Member(c, "<>;&|") then Operator(1)
    else if Member(c, "!@?+*") && peek == '(' then Text(2, ')', 1)
    else if IsQuote(c) then Text(1, c, 0)
    else Text(0, NUL, 0)
  }

  function WordEnd(s: string, i: nat, delims: string): (e: nat)
    requires i < |s|
    ensures i <= e <= |s| + 1
  {
    match StartOf(s, i)
    case Operator(length) => i + length
    case Text(skip, delim, nest) => WordLoop(s, i + skip, delim, nest, delims)
  }

  // ----- history_tokenize_internal -----

  function SkipBlanks(s: string, i: nat): (j: nat)
    requires i <= |s|
    ensures i <= j <= |s|
    ensures forall k | i <= k < j :: s[k] == ' ' || s[k] == '\t'
    ensures j < |s| ==> s[j] != ' ' && s[j] != '\t'
    decreases |s| - i
  {
    if i < |s| && IsBlank(s[i]) then SkipBlanks(s, i + 1) else i
  }

  function SkipMembers(s: string, i: nat, delims: string): (j: nat)
    requires i <= |s|
    ensures i <= j <= |s|
    decreases |s| - i
  {
    if i < |s| && Member(s[i], delims) then SkipMembers(s, i + 1, delims) else i
  }

  /** The end of the token that starts at i: a delimiter that starts no word is taken together with those after it. */
  function TokenEnd(s: string, i: nat, delims: string): (e: nat)
    requires i < |s|
    ensures i < e <= |s| + 1
  {
    var e := WordEnd(s, i, delims);
    if e == i then SkipMembers(s, i + 1, delims) else e
  }

  /** No token runs over the end of the line. */
  predicate Contained(s: string, i: nat, comment: char, delims: string)
    requires i <= |s|
    decreases |s| - i
  {
    var j := SkipBlanks(s, i);
    j == |s| || s[j] == comment ||
    (TokenEnd(s, j, delims) <= |s| && Contained(s, TokenEnd(s, j, delims), comment, delims))
  }

  datatype Span = Span(start: nat, end: nat)

  function Tokens(s: string, i: nat, comment: char, delims: string): (ts: seq<Span>)
    requires i <= |s| && Contained(s, i, comment, delims)
    decreases |s| - i
  {
    var j := SkipBlanks(s, i);
    if j == |s| || s[j] == comment then []
    else
      var e := TokenEnd(s, j, delims);
      [Span(j, e)] + Tokens(s, e, comment, delims)
  }

  // ----- what the tokens are -----

  /** Only blanks from one place to another. */
  predicate BlanksOnly(s: string, from: nat, to: nat)
    requires to <= |s|
  {
    forall k | from <= k < to :: s[k] == ' ' || s[k] == '\t'
  }

  /** Where the rest of the line is not tokenized any more: at the end, or at a comment. */
  predicate Stops(s: string, i: nat, comment: char)
    requires i <= |s|
  {
    var j := SkipBlanks(s, i);
    j == |s| || s[j] == comment
  }

  /** Non-empty slices of the line, in order, with nothing but blanks before each of them, and no comment starts one. */
  ghost predicate Partition(s: string, from: nat, ts: seq<Span>, comment: char)
    requires from <= |s|
    decreases |ts|
  {
    if ts == [] then Stops(s, from, comment)
    else
      && from <= ts[0].start < ts[0].end <= |s|
      && BlanksOnly(s, from, ts[0].start)
      && !IsBlank(s[ts[0].start]) && s[ts[0].start] != comment
      && Partition(s, ts[0].end, ts[1..], comment)
  }

  lemma {:induction false} TokensPartition(s: string, i: nat, comment: char, delims: string)
    requires i <= |s| && Contained(s, i, comment, delims)
    ensures Partition(s, i, Tokens(s, i, comment, delims), comment)
    decreases |s| - i
  {
    var j := SkipBlanks(s, i);
    if j < |s| && s[j] != comment {
      TokensPartition(s, TokenEnd(s, j, delims), comment, delims);
    }
  }

  /** In a partition, every position before the stop is a blank or in a token. */
  lemma {:induction false} PartitionCovers(s: string, from: nat, ts: seq<Span>, comment: char, k: nat)
    requires from <= |s| && Partition(s, from, ts, comment)
    requires from <= k < if ts == [] then from else ts[|ts| - 1].end
    ensures k < |s|
    ensures IsBlank(s[k]) || exists t :: 0 <= t < |ts| && ts[t].start <= k < ts[t].end
    decreases |ts|
  {
    FirstAfter(s, from, ts, comment, |ts| - 1);
    if k >= ts[0].end {
      PartitionCovers(s, ts[0].end, ts[1..], comment, k);
      if t :| 0 <= t < |ts[1..]| && ts[1..][t].start <= k < ts[1..][t].end {
        assert ts[t + 1] == ts[1..][t];
      }
    } else if k >= ts[0].start {
      assert ts[0].start <= k < ts[0].end;
    }
  }

  lemma {:induction false} PartitionOrdered(s: string, from: nat, ts: seq<Span>, comment: char, t: nat, u: nat)
    requires from <= |s| && Partition(s, from, ts, comment) && t < u < |ts|
    ensures ts[t].end <= ts[u].start
    decreases |ts|
  {
    if t > 0 {
      PartitionOrdered(s, ts[0].end, ts[1..], comment, t - 1, u - 1);
    } else {
      FirstAfter(s, ts[0].end, ts[1..], comment, u - 1);
    }
  }

  lemma {:induction false} FirstAfter(s: string, from: nat, ts: seq<Span>, comment: char, u: nat)
    requires from <= |s| && Partition(s, from, ts, comment) && u < |ts|
    ensures from <= ts[u].start < ts[u].end <= |s|
    decreases |ts|
  {
    if u > 0 {
      FirstAfter(s, ts[0].end, ts[1..], comment, u - 1);
    }
  }

  // ----- lines whose last word stays inside -----

  /** The first n characters end in an odd number of backslashes. */
  predicate OddTail(s: string, n: nat)
    requires n <= |s|
  {
    n > 0 && s[n - 1] == '\\' && !OddTail(s, n - 1)
  }

  /** The quote that is open where the word ends; NUL if none is. */
  function OpenQuote(s: string, i: nat, delim: char, nest: nat, delims: string): char
    requires i <= |s| + 1
    decreases |s| + 1 - i
  {
    if i >= |s| then delim
    else if Escapes(s, i, delim) then OpenQuote(s, i + 2, delim, nest, delims)
    else if nest > 0 && s[i] == '(' then OpenQuote(s, i + 1, delim, nest + 1, delims)
    else if nest > 0 && s[i] == delim then
      OpenQuote(s, i + 1, if nest == 1 then NUL else delim, nest - 1, delims)
    else if delim != NUL && s[i] == delim then OpenQuote(s, i + 1, NUL, nest, delims)
    else if delim == NUL && Member(s[i], delims) then delim
    else OpenQuote(s, i + 1, if delim == NUL && IsQuote(s[i]) then s[i] else delim, nest, delims)
  }

  /** The word that starts at i ends with a single quote open. */
  predicate EndsInQuotes(s: string, i: nat, delims: string)
    requires i < |s|
  {
    match StartOf(s, i)
    case Operator(_) => false
    case Text(skip, delim, nest) => OpenQuote(s, i + skip, delim, nest, delims) == '\''
  }

  /** From i on, the end of the line is in a comment, or inside single quotes. */
  predicate Sheltered(s: string, i: nat, comment: char, delims: string)
    requires i <= |s|
    decreases |s| - i
  {
    var j := SkipBlanks(s, i);
    j < |s| &&
    (s[j] == comment ||
     if TokenEnd(s, j, delims) < |s| then Sheltered(s, TokenEnd(s, j, delims), comment, delims)
     else EndsInQuotes(s, j, delims))
  }

  /**
   Outside single quotes the scanner never stands right after an unpaired backslash.  It runs over the end exactly if
   the last backslash is unpaired and no single quote is open.
  */
  lemma {:induction false} WordLoopPairs(s: string, i: nat, delim: char, nest: nat, delims: string)
    requires i <= |s| && '\\' !in delims && (delim == '\'' || !OddTail(s, i))
    ensures var e := WordLoop(s, i, delim, nest, delims);
      && (e < |s| ==> !OddTail(s, e))
      && (e >= |s| ==> (e == |s| <==> !OddTail(s, |s|) || OpenQuote(s, i, delim, nest, delims) == '\''))
    decreases |s| - i
  {
    if i == |s| {
    } else if Escapes(s, i, delim) {
      if i + 2 <= |s| {
        assert !OddTail(s, i + 2);
        WordLoopPairs(s, i + 2, delim, nest, delims);
      } else {
        assert delim != '\'' && OddTail(s, |s|);
      }
    } else if nest > 0 && s[i] == '(' {
      WordLoopPairs(s, i + 1, delim, nest + 1, delims);
    } else if nest > 0 && s[i] == delim {
      WordLoopPairs(s, i + 1, if nest == 1 then NUL else delim, nest - 1, delims);
    } else if delim != NUL && s[i] == delim {
      WordLoopPairs(s, i + 1, NUL, nest, delims);
    } else if !(delim == NUL && Member(s[i], delims)) {
      WordLoopPairs(s, i + 1, if delim == NUL && IsQuote(s[i]) then s[i] else delim, nest, delims);
    }
  }

  lemma {:induction false} SkipMembersPairs(s: string, i: nat, delims: string)
    requires i <= |s| && '\\' !in delims && !OddTail(s, i)
    ensures !OddTail(s, SkipMembers(s, i, delims))
    decreases |s| - i
  {
    if i < |s| && Member(s[i], delims) {
      assert s[i] != '\\';
      SkipMembersPairs(s, i + 1, delims);
    }
  }

  lemma {:induction false} TokenEndPairs(s: string, i: nat, delims: string)
    requires i < |s| && '\\' !in delims && !OddTail(s, i)
    ensures var e := TokenEnd(s, i, delims);
      && (e < |s| ==> !OddTail(s, e))
      && (e >= |s| ==> (e == |s| <==> !OddTail(s, |s|) || EndsInQuotes(s, i, delims)))
  {
    match StartOf(s, i)
    case Operator(length) =>
      assert s[i + length - 1] != '\\';
    case Text(skip, delim, nest) =>
      assert skip > 0 ==> s[i + skip - 1] != '\\';
      WordLoopPairs(s, i + skip, delim, nest, delims);
      if WordLoop(s, i + skip, delim, nest, delims) == i {
        EmptyWord(s, i, delims);
        SkipMembersPairs(s, i + 1, delims);
      }
  }

  /** A word is empty only in front of a delimiter. */
  lemma EmptyWord(s: string, i: nat, delims: string)
    requires i < |s| && WordEnd(s, i, delims) == i
    ensures Member(s[i], delims)
  {
  }

  /**
   A word runs over the end of the line if and only if the line ends in an unpaired backslash that is neither in a
   comment nor inside single quotes.
  */
  lemma {:induction false} UnpairedRunsOver(s: string, i: nat, comment: char, delims: string)
    requires i <= |s| && '\\' !in delims && !OddTail(s, i)
    ensures Contained(s, i, comment, delims) <==> !OddTail(s, |s|) || Sheltered(s, i, comment, delims)
    decreases |s| - i
  {
    var j := SkipBlanks(s, i);
    if j > i {
      assert IsBlank(s[j - 1]);
    }
    assert !OddTail(s, j);
    if j < |s| && s[j] != comment {
      var e := TokenEnd(s, j, delims);
      TokenEndPairs(s, j, delims);
      if e < |s| {
        UnpairedRunsOver(s, e, comment, delims);
      } else if e == |s| {
        assert SkipBlanks(s, e) == |s|;
      }
    }
  }

  /** Inside single quotes the last backslash is an ordinary character; outside it takes the end of the line along. */
  lemma QuotedBackslashStays()
    ensures OddTail("'\\", 2) && Contained("'\\", 0, NUL, DELIMITERS)
    ensures OddTail("\\", 1) && !Contained("\\", 0, NUL, DELIMITERS)
  {
    var q, b := "'\\", "\\";
    assert SkipBlanks(q, 0) == 0;
    assert WordLoop(q, 2, '\'', 0, DELIMITERS) == 2;
    assert !Escapes(q, 1, '\'');
    assert WordLoop(q, 1, '\'', 0, DELIMITERS) == 2;
    assert TokenEnd(q, 0, DELIMITERS) == 2;
    assert SkipBlanks(q, 2) == 2;
    assert Contained(q, 2, NUL, DELIMITERS);
    assert OddTail(q, 2);
    assert SkipBlanks(b, 0) == 0;
    assert Escapes(b, 0, NUL);
    assert WordLoop(b, 0, NUL, 0, DELIMITERS) == 2;
    assert TokenEnd(b, 0, DELIMITERS) == 2;
  }

  /** Splitting a line that does not end in an unpaired backslash partitions it. */
  lemma SplitsTheLine(s: string, comment: char, delims: string)
    requires '\\' !in delims && !OddTail(s, |s|)
    ensures Contained(s, 0, comment, delims)
    ensures Partition(s, 0, Tokens(s, 0, comment, delims), comment)
  {
    UnpairedRunsOver(s, 0, comment, delims);
    TokensPartition(s, 0, comment, delims);
  }

  // ----- what is inside of one word -----

  /** Where a word ends: at the end of the line, or in front of a delimiter. */
  predicate EndsWord(s: string, e: nat, delims: string) {
    e == |s| || (e < |s| && s[e] != '\\' && Member(s[e], delims))
  }

  /** From i to e nothing but characters without a meaning, and characters behind a backslash. */
  predicate Plain(s: string, i: nat, e: nat, delims: string)
    requires e <= |s|
    decreases e - i
  {
    if i >= e then i == e
    else if s[i] == '\\' then i + 2 <= e && Plain(s, i + 2, e, delims)
    else s[i] != '"' && s[i] != '\'' && s[i] != '`' && !Member(s[i], delims) && Plain(s, i + 1, e, delims)
  }

  lemma {:induction false} LoopPlain(s: string, i: nat, e: nat, delims: string)
    requires i <= e <= |s| && Plain(s, i, e, delims)
    ensures WordLoop(s, i, NUL, 0, delims) == WordLoop(s, e, NUL, 0, delims)
    decreases e - i
  {
    if i < e {
      LoopPlain(s, if s[i] == '\\' then i + 2 else i + 1, e, delims);
    }
  }

  /** From i to c there is no closing quote; outside single quotes one behind a backslash does not count. */
  predicate Inside(s: string, i: nat, c: nat, quote: char)
    requires c <= |s|
    decreases c - i
  {
    if i >= c then i == c
    else if s[i] == '\\' && quote != '\'' then i + 2 <= c && Inside(s, i + 2, c, quote)
    else s[i] != quote && Inside(s, i + 1, c, quote)
  }

  /** The closing quote is the next one of its kind; delimiters and other quotes before it do not count. */
  lemma {:induction false} LoopQuoted(s: string, i: nat, c: nat, quote: char, delims: string)
    requires i <= c < |s| && IsQuote(quote) && s[c] == quote && Inside(s, i, c, quote)
    ensures WordLoop(s, i, quote, 0, delims) == WordLoop(s, c + 1, NUL, 0, delims)
    decreases c - i
  {
    if i < c {
      if Escapes(s, i, quote) {
        assert i + 2 <= c && Inside(s, i + 2, c, quote);
        LoopQuoted(s, i + 2, c, quote, delims);
      } else {
        LoopQuoted(s, i + 1, c, quote, delims);
      }
    }
  }

  /** The parenthesis before e closes the outermost one of n that are open at i. */
  predicate ClosesAt(s: string, i: nat, e: nat, n: nat)
    requires n > 0
    decreases |s| - i
  {
    && i < e <= |s|
    && if s[i] == '\\' then i + 2 < e && ClosesAt(s, i + 2, e, n)
       else if s[i] == '(' then ClosesAt(s, i + 1, e, n + 1)
       else if s[i] == ')' then (if n == 1 then i + 1 == e else ClosesAt(s, i + 1, e, n - 1))
       else ClosesAt(s, i + 1, e, n)
  }

  /** Inside parentheses neither delimiters nor quotes count. */
  lemma {:induction false} LoopNested(s: string, i: nat, e: nat, n: nat, delims: string)
    requires n > 0 && ClosesAt(s, i, e, n)
    ensures WordLoop(s, i, ')', n, delims) == WordLoop(s, e, NUL, 0, delims)
    decreases |s| - i
  {
    if s[i] == '\\' {
      LoopNested(s, i + 2, e, n, delims);
    } else if s[i] == '(' {
      LoopNested(s, i + 1, e, n + 1, delims);
    } else if s[i] == ')' {
      if n > 1 {
        LoopNested(s, i + 1, e, n - 1, delims);
      }
    } else {
      LoopNested(s, i + 1, e, n, delims);
    }
  }

  /** A plain word ends where the next delimiter is that is not behind a backslash. */
  lemma PlainWord(s: string, i: nat, e: nat, delims: string)
    requires i < e <= |s| && Plain(s, i, e, delims) && EndsWord(s, e, delims)
    requires !Member(s[i], "()\n<>;&|$!@?+*")
    ensures TokenEnd(s, i, delims) == e
  {
    LoopPlain(s, i, e, delims);
    assert StartOf(s, i) == Text(0, NUL, 0);
  }

  /** Text in quotes, whatever it holds but its closing quote, is in one word. */
  lemma QuotedWord(s: string, i: nat, c: nat, delims: string)
    requires i < c < |s| && (s[i] == '"' || s[i] == '\'' || s[i] == '`') && s[c] == s[i]
    requires Inside(s, i + 1, c, s[i]) && EndsWord(s, c + 1, delims)
    ensures TokenEnd(s, i, delims) == c + 1
  {
    LoopQuoted(s, i + 1, c, s[i], delims);
    assert StartOf(s, i) == Text(1, s[i], 0);
  }

  /** A substitution or an extended pattern, up to its own closing parenthesis, is one word. */
  lemma SubstitutionWord(s: string, i: nat, e: nat, delims: string)
    requires i + 2 < e <= |s| && Member(s[i], "$<>!@?+*") && s[i + 1] == '('
    requires ClosesAt(s, i + 2, e, 1) && EndsWord(s, e, delims)
    ensures TokenEnd(s, i, delims) == e
  {
    LoopNested(s, i + 2, e, 1, delims);
    assert StartOf(s, i) == Text(2, ')', 1);
  }

  lemma {:induction false} SkipMembersTo(s: string, i: nat, e: nat, delims: string)
    requires i <= e <= |s| && (forall k | i <= k < e :: Member(s[k], delims)) && (e < |s| ==> !Member(s[e], delims))
    ensures SkipMembers(s, i, delims) == e
    decreases e - i
  {
    if i < e {
      SkipMembersTo(s, i + 1, e, delims);
    }
  }

  /** Delimiters without another meaning are taken together, up to the next character that is none. */
  lemma DelimiterRun(s: string, i: nat, e: nat, delims: string)
    requires i < e <= |s| && !Member(s[i], "()\n<>;&|$!@?+*\"'`\\")
    requires (forall k | i <= k < e :: Member(s[k], delims)) && (e < |s| ==> !Member(s[e], delims))
    ensures TokenEnd(s, i, delims) == e
  {
    var special := "()\n<>;&|$!@?+*\"'`\\";
    assert special[14] == '"' && special[15] == '\'' && special[16] == '`' && special[17] == '\\';
    assert StartOf(s, i) == Text(0, NUL, 0);
    assert WordLoop(s, i, NUL, 0, delims) == i;
    SkipMembersTo(s, i + 1, e, delims);
  }

  /** The operators of the shell are words of their own, the longest one that is there. */
  lemma OperatorWord(s: string, i: nat, delims: string)
    requires i < |s|
    ensures var c, d, e, n := s[i], At(s, i + 1), At(s, i + 2), TokenEnd(s, i, delims) - i;
            && (c == '(' || c == ')' || c == '\n' ==> n == 1)
            && (c == '<' && d == '<' ==> n == if e == '-' || e == '<' then 3 else 2)
            && (c == d && (c == '>' || c == ';' || c == '&' || c == '|') ==> n == 2)
            && ((c == '<' || c == '>') && d == '&' ==> n == 2)
            && (c == '&' && d == '>' ==> n == 2)
            && ((c == '<' || c == '>') && d != c && d != '&' && d != '(' ==> n == 1)
            && (c == '&' && d != '&' && d != '>' ==> n == 1)
            && ((c == ';' || c == '|') && d != c ==> n == 1)
  {
    assert WordEnd(s, i, delims) == match StartOf(s, i)
                                    case Operator(length) => i + length
                                    case Text(skip, delim, nest) => WordLoop(s, i + skip, delim, nest, delims);
  }

  // ----- the loops -----

  /** history_tokenize_word. */
  method TokenizeWord(s: string, ind: nat, delims: string) returns (i: nat)
    requires ind < |s|
    ensures i == WordEnd(s, ind, delims)
  {
    var delimiter, nestDelim := NUL, 0;
    i := ind;
    if Member(s[i], "()\n") {
      i := i + 1;
      return;
    }
    if Member(s[i], "<>;&|$") {
      var peek := At(s, i + 1);
      if peek == s[i] && peek != '$' {
        if peek == '<' && At(s, i + 2) == '-' {
          i := i + 1;
        } else if peek == '<' && At(s, i + 2) == '<' {
          i := i + 1;
        }
        i := i + 2;
        return;
      } else if (peek == '&' && (s[i] == '>' || s[i] == '<')) || (peek == '>' && s[i] == '&') {
        i := i + 2;
        return;
      } else if (peek == '(' && (s[i] == '>' || s[i] == '<')) || (peek == '(' && s[i] == '$') {
        i := GetWord(s, i + 2, ')', 1, delims);
        return;
      }
      if s[i] != '$' {
        i := i + 1;
        return;
      }
    }
    if Member(s[i], "!@?+*") {
      if At(s, i + 1) == '(' {
        i, delimiter, nestDelim := i + 2, ')', 1;
      }
    }
    if delimiter == NUL && IsQuote(s[i]) {
      delimiter := s[i];
      i := i + 1;
    }
    i := GetWord(s, i, delimiter, nestDelim, delims);
  }

  /** The loop at get_word. */
  method GetWord(s: string, from: nat, open: char, depth: nat, delims: string) returns (i: nat)
    requires from <= |s|
    ensures i == WordLoop(s, from, open, depth, delims)
  {
    var delimiter, nestDelim := open, depth;
    i := from;
    while i < |s|
      invariant from <= i <= |s| + 1
      invariant WordLoop(s, i, delimiter, nestDelim, delims) == WordLoop(s, from, open, depth, delims)
      decreases |s| + 1 - i
    {
      if s[i] == '\\' && At(s, i + 1) == '\n' {
        i := i + 1;
      } else if s[i] == '\\' && delimiter != '\'' {
        i := i + 1;
      } else if nestDelim > 0 && s[i] == '(' {
        nestDelim := nestDelim + 1;
      } else if nestDelim > 0 && s[i] == delimiter {
        nestDelim := nestDelim - 1;
        if nestDelim == 0 {
          delimiter := NUL;
        }
      } else if delimiter != NUL && s[i] == delimiter {
        delimiter := NUL;
      } else {
        if delimiter == NUL && Member(s[i], delims) {
          break;
        }
        if delimiter == NUL && IsQuote(s[i]) {
          delimiter := s[i];
        }
      }
      i := i + 1;
    }
  }

  /** The blanks before a token. */
  method SkipWhitespace(s: string, from: nat) returns (i: nat)
    requires from <= |s|
    ensures i == SkipBlanks(s, from)
  {
    i := from;
    while i < |s| && IsBlank(s[i])
      invariant from <= i <= |s| && SkipBlanks(s, i) == SkipBlanks(s, from)
    {
      i := i + 1;
    }
  }

  /** One field: a word, or a run of delimiters that starts none. */
  method NextField(s: string, start: nat, delims: string) returns (i: nat)
    requires start < |s|
    ensures i == TokenEnd(s, start, delims)
  {
    i := TokenizeWord(s, start, delims);
    if i == start {
      i := i + 1;
      while i < |s| && Member(s[i], delims)
        invariant start < i <= |s| && SkipMembers(s, i, delims) == SkipMembers(s, start + 1, delims)
      {
        i := i + 1;
      }
    }
  }

  /** The fields found so far: their texts, and which of them wind is in. */
  predicate Found(s: string, ts: seq<Span>, words: seq<string>, wind: int, indp: int) {
    && |words| == |ts|
    && (forall t | 0 <= t < |ts| :: ts[t].start <= ts[t].end <= |s| && words[t] == s[ts[t].start..ts[t].end])
    && -1 <= indp < |ts|
    && (indp >= 0 ==> ts[indp].start <= wind < ts[indp].end)
    && (indp == -1 ==> forall t | 0 <= t < |ts| :: !(ts[t].start <= wind < ts[t].end))
  }

  lemma FoundNext(s: string, ts: seq<Span>, words: seq<string>, wind: int, indp: int, t: Span)
    requires Found(s, ts, words, wind, indp) && t.start < t.end <= |s|
    ensures Found(s, ts + [t], words + [s[t.start..t.end]], wind,
      if t.start <= wind < t.end then |words| else indp)
  {
  }

  /** The line read up to i gave these tokens. */
  predicate ReadTo(s: string, i: nat, ts: seq<Span>, comment: char, delims: string) {
    && Contained(s, 0, comment, delims)
    && i <= |s| && Contained(s, i, comment, delims)
    && Tokens(s, 0, comment, delims) == ts + Tokens(s, i, comment, delims)
  }

  lemma ReadOn(s: string, i: nat, ts: seq<Span>, comment: char, delims: string)
    requires ReadTo(s, i, ts, comment, delims)
    ensures Stops(s, i, comment) ==> ts == Tokens(s, 0, comment, delims)
    ensures !Stops(s, i, comment) ==>
      var j := SkipBlanks(s, i);
      var e := TokenEnd(s, j, delims);
      j < e <= |s| && ReadTo(s, e, ts + [Span(j, e)], comment, delims)
  {
    if !Stops(s, i, comment) {
      var j := SkipBlanks(s, i);
      var e := TokenEnd(s, j, delims);
      assert ts + ([Span(j, e)] + Tokens(s, e, comment, delims)) == ts + [Span(j, e)] + Tokens(s, e, comment, delims);
    } else {
      assert ts + [] == ts;
    }
  }

  /** history_tokenize_internal: the tokens, and the number of the one that position wind is in. */
  method TokenizeInternal(s: string, wind: int, comment: char, delims: string)
    returns (result: seq<string>, indp: int)
    requires Contained(s, 0, comment, delims)
    ensures Found(s, Tokens(s, 0, comment, delims), result, wind, indp)
  {
    var i := 0;
    ghost var ts := [];
    indp, result := -1, [];
    while i < |s|
      invariant ReadTo(s, i, ts, comment, delims)
      invariant Found(s, ts, result, wind, indp)
      decreases |s| - i
    {
      ReadOn(s, i, ts, comment, delims);
      var start := SkipWhitespace(s, i);
      if start == |s| || s[start] == comment {
        return;
      }
      i := NextField(s, start, delims);
      FoundNext(s, ts, result, wind, indp, Span(start, i));
      if wind != -1 && wind >= start && wind < i {
        indp := |result|;
      }
      result := result + [s[start..i]];
      ts := ts + [Span(start, i)];
    }
    ReadOn(s, i, ts, comment, delims);
  }

  /** The token t holds position ind, and w is its text. */
  predicate IsWordAt(line: string, t: Span, ind: nat, w: string) {
    t.start <= ind < t.end <= |line| && w == line[t.start..t.end]
  }

  /** The word of the token that position ind is in, or none exactly if there is no such token. */
  predicate WordFound(line: string, ts: seq<Span>, ind: nat, word: Option<string>) {
    match word
    case Some(w) => exists t | 0 <= t < |ts| :: IsWordAt(line, ts[t], ind, w)
    case None => forall t | 0 <= t < |ts| :: !(ts[t].start <= ind < ts[t].end)
  }

  lemma FoundWord(line: string, ts: seq<Span>, words: seq<string>, ind: nat, wind: int)
    requires Found(line, ts, words, ind, wind)
    ensures WordFound(line, ts, ind, if wind == -1 then None else Some(words[wind]))
  {
    if wind != -1 {
      assert words[wind] == line[ts[wind].start..ts[wind].end];
      assert IsWordAt(line, ts[wind], ind, words[wind]);
    }
  }

  /** history_find_word: the word that the character at ind belongs to. */
  method FindWord(line: string, ind: nat, comment: char, delims: string) returns (word: Option<string>)
    requires Contained(line, 0, comment, delims)
    ensures WordFound(line, Tokens(line, 0, comment, delims), ind, word)
  {
    var words, wind := TokenizeInternal(line, ind, comment, delims);
    FoundWord(line, Tokens(line, 0, comment, delims), words, ind, wind);
    if wind == -1 {
      return None;
    }
    return Some(words[wind]);
  }
}
