/**
 Searching the history (readline-6.2/histsearch.c, and the prefix search of readline-6.2/search.c).
*/
module Searching {
  import opened Options

  // ----- one line -----

  predicate IsAt(line: string, i: nat, s: string): (r: bool)
    ensures r ==> i + |s| <= |line|
    decreases |s|
  {
    if s == [] then i <= |line| else i < |line| && line[i] == s[0] && IsAt(line, i + 1, s[1..])
  }

  lemma {:induction false} IsAtSlice(line: string, i: nat, s: string)
    requires i + |s| <= |line|
    ensures IsAt(line, i, s) <==> line[i..i + |s|] == s
    decreases |s|
  {
    if s != [] {
      IsAtSlice(line, i + 1, s[1..]);
      assert line[i..i + |s|] == [line[i]] + line[i + 1..i + |s|] && s == [s[0]] + s[1..];
    }
  }

  /** The first place at or behind i. */
  function FirstIn(line: string, s: string, i: nat): (r: int)
    ensures -1 <= r
    decreases |line| - i
  {
    if i + |s| > |line| then -1 else if IsAt(line, i, s) then i else FirstIn(line, s, i + 1)
  }

  /** The last place at or before i. */
  function LastIn(line: string, s: string, i: int): (r: int)
    ensures -1 <= r
    decreases i + 1
  {
    if i < 0 then -1 else if IsAt(line, i, s) then i else LastIn(line, s, i - 1)
  }

  lemma {:induction false} FirstInIsFirst(line: string, s: string, i: nat)
    ensures var r := FirstIn(line, s, i);
      if r == -1 then forall j: nat | i <= j :: !IsAt(line, j, s)
      else i <= r && IsAt(line, r, s) && forall j | i <= j < r :: !IsAt(line, j, s)
    decreases |line| - i
  {
    if i + |s| <= |line| && !IsAt(line, i, s) {
      FirstInIsFirst(line, s, i + 1);
    }
  }

  lemma {:induction false} LastInIsLast(line: string, s: string, i: int)
    ensures var r := LastIn(line, s, i);
      if r == -1 then forall j: nat | j <= i :: !IsAt(line, j, s)
      else r <= i && IsAt(line, r, s) && forall j | r < j <= i :: !IsAt(line, j, s)
    decreases i + 1
  {
    if i >= 0 && !IsAt(line, i, s) {
      LastInIsLast(line, s, i - 1);
    }
  }

  /** Where a line matches, or -1: at its start if the search is anchored, else the nearest place in its direction. */
  function MatchIn(line: string, s: string, anchored: bool, reverse: bool): (r: int)
    ensures -1 <= r
  {
    if |s| > |line| then -1
    else if anchored then (if IsAt(line, 0, s) then 0 else -1)
    else if reverse then LastIn(line, s, |line| - |s|)
    else FirstIn(line, s, 0)
  }

  predicate MatchesAt(line: string, j: nat, s: string, anchored: bool) {
    j <= |line| && IsAt(line, j, s) && (anchored ==> j == 0)
  }

  /** Whether a line matches does not depend on the direction. */
  lemma MatchesEitherWay(line: string, s: string, anchored: bool, reverse: bool)
    ensures MatchIn(line, s, anchored, reverse) >= 0 <==> exists j: nat :: MatchesAt(line, j, s, anchored)
  {
    FirstInIsFirst(line, s, 0);
    LastInIsLast(line, s, |line| - |s|);
    if j: nat :| MatchesAt(line, j, s, anchored) {
      assert j <= |line| - |s|;
    }
    var r := MatchIn(line, s, anchored, reverse);
    if r >= 0 {
      assert MatchesAt(line, r, s, anchored);
    }
  }

  /** STREQN at a place of the line. */
  predicate StandsAt(line: string, j: nat, s: string) {
    j + |s| <= |line| && line[j..j + |s|] == s
  }

  lemma StandsIsAt(line: string, j: nat, s: string)
    ensures StandsAt(line, j, s) <==> IsAt(line, j, s)
  {
    if j + |s| <= |line| {
      IsAtSlice(line, j, s);
    }
  }

  /** The string is at r: at the start if the search is anchored, and else nowhere nearer in the direction. */
  predicate NearestAt(line: string, r: nat, s: string, anchored: bool, reverse: bool) {
    && StandsAt(line, r, s)
    && if anchored then r == 0
       else if reverse then forall j: nat | r < j <= |line| :: !StandsAt(line, j, s)
       else forall j: nat | j < r :: !StandsAt(line, j, s)
  }

  lemma MatchIsNearest(line: string, s: string, anchored: bool, reverse: bool)
    ensures var r := MatchIn(line, s, anchored, reverse); r >= 0 ==> NearestAt(line, r, s, anchored, reverse)
  {
    var r := MatchIn(line, s, anchored, reverse);
    if r >= 0 {
      FirstInIsFirst(line, s, 0);
      LastInIsLast(line, s, |line| - |s|);
      forall j: nat
        ensures StandsAt(line, j, s) <==> IsAt(line, j, s)
      {
        StandsIsAt(line, j, s);
      }
    }
  }

  // ----- the lines -----

  function Step(reverse: bool): int { if reverse then -1 else 1 }

  /** All the matching lines from i on, in the direction of the search. */
  function Hits(lines: seq<string>, s: string, anchored: bool, i: int, reverse: bool): (hits: seq<nat>)
    ensures forall k | 0 <= k < |hits| :: hits[k] < |lines|
    decreases if reverse then i + 1 else |lines| - i
  {
    if i < 0 || i >= |lines| then []
    else if MatchIn(lines[i], s, anchored, reverse) < 0 then Hits(lines, s, anchored, i + Step(reverse), reverse)
    else [i] + Hits(lines, s, anchored, i + Step(reverse), reverse)
  }

  /** Every matching line from i on is a hit, and nothing else. */
  lemma {:induction false} HitsAreMatches(lines: seq<string>, s: string, anchored: bool, i: int, reverse: bool, k: int)
    requires if reverse then -1 <= i < |lines| else 0 <= i <= |lines|
    ensures k in Hits(lines, s, anchored, i, reverse) <==>
      0 <= k < |lines| && MatchIn(lines[k], s, anchored, reverse) >= 0 && (if reverse then k <= i else i <= k)
    decreases if reverse then i + 1 else |lines| - i
  {
    if 0 <= i < |lines| {
      HitsAreMatches(lines, s, anchored, i + Step(reverse), reverse, k);
    }
  }

  /** The hits come in the direction of the search. */
  lemma {:induction false} HitsInOrder(lines: seq<string>, s: string, anchored: bool, i: int, reverse: bool,
                                       a: nat, b: nat)
    requires if reverse then -1 <= i < |lines| else 0 <= i <= |lines|
    requires a < b < |Hits(lines, s, anchored, i, reverse)|
    ensures var hits := Hits(lines, s, anchored, i, reverse);
      if reverse then hits[b] < hits[a] else hits[a] < hits[b]
    decreases if reverse then i + 1 else |lines| - i
  {
    if 0 <= i < |lines| {
      var hits := Hits(lines, s, anchored, i, reverse);
      var later := Hits(lines, s, anchored, i + Step(reverse), reverse);
      if MatchIn(lines[i], s, anchored, reverse) < 0 {
        assert hits == later;
        HitsInOrder(lines, s, anchored, i + Step(reverse), reverse, a, b);
      } else {
        assert hits == [i] + later && hits[b] == later[b - 1];
        if a > 0 {
          HitsInOrder(lines, s, anchored, i + Step(reverse), reverse, a - 1, b - 1);
        } else {
          assert later[b - 1] in later;
          HitsAreMatches(lines, s, anchored, i + Step(reverse), reverse, later[b - 1]);
        }
      }
    }
  }

  /** Behind a hit come the hits from the next line on. */
  lemma {:induction false} HitsBehind(lines: seq<string>, s: string, anchored: bool, i: int, reverse: bool)
    requires Hits(lines, s, anchored, i, reverse) != []
    ensures var hits := Hits(lines, s, anchored, i, reverse);
      hits == [hits[0]] + Hits(lines, s, anchored, hits[0] + Step(reverse), reverse)
    decreases if reverse then i + 1 else |lines| - i
  {
    if MatchIn(lines[i], s, anchored, reverse) < 0 {
      HitsBehind(lines, s, anchored, i + Step(reverse), reverse);
    }
  }

  // ----- what count times in a direction selects -----

  /** The text of a line. */
  function Text(lines: seq<string>, h: nat): string {
    if h < |lines| then lines[h] else []
  }

  /** The hits without those whose text is that of the line found before them. */
  function Fresh(lines: seq<string>, hits: seq<nat>, prev: Option<string>): (fs: seq<nat>)
    ensures |fs| <= |hits|
  {
    if hits == [] then []
    else if prev == Some(Text(lines, hits[0])) then Fresh(lines, hits[1..], prev)
    else [hits[0]] + Fresh(lines, hits[1..], Some(Text(lines, hits[0])))
  }

  /** Fresh lines are hits, and no two in a row have the same text. */
  lemma {:induction false} FreshAreHits(lines: seq<string>, hits: seq<nat>, prev: Option<string>)
    ensures forall f | f in Fresh(lines, hits, prev) :: f in hits
    ensures Fresh(lines, hits, prev) != [] ==> prev != Some(Text(lines, Fresh(lines, hits, prev)[0]))
    ensures forall k | 0 < k < |Fresh(lines, hits, prev)| ::
      Text(lines, Fresh(lines, hits, prev)[k - 1]) != Text(lines, Fresh(lines, hits, prev)[k])
  {
    if hits != [] {
      var text := Text(lines, hits[0]);
      FreshAreHits(lines, hits[1..], if prev == Some(text) then prev else Some(text));
    }
  }

  /** Only a text that repeats the one before it is left out. */
  lemma {:induction false} FreshOfDistinct(lines: seq<string>, hits: seq<nat>, prev: Option<string>)
    requires hits != [] ==> prev != Some(Text(lines, hits[0]))
    requires forall k | 0 < k < |hits| :: Text(lines, hits[k - 1]) != Text(lines, hits[k])
    ensures Fresh(lines, hits, prev) == hits
  {
    if hits != [] {
      var rest := hits[1..];
      assert rest != [] ==> Text(lines, hits[1 - 1]) != Text(lines, hits[1]);
      forall k | 0 < k < |rest|
        ensures Text(lines, rest[k - 1]) != Text(lines, rest[k])
      {
        assert Text(lines, hits[k + 1 - 1]) != Text(lines, hits[k + 1]);
      }
      FreshOfDistinct(lines, rest, Some(Text(lines, hits[0])));
    }
  }

  /** A hit is left out exactly if it has the text of the hit before it. */
  lemma {:induction false} FreshOrRepeated(lines: seq<string>, hits: seq<nat>, prev: Option<string>, k: nat)
    requires k < |hits| && forall i, j | 0 <= i < j < |hits| :: hits[i] != hits[j]
    ensures hits[k] in Fresh(lines, hits, prev) <==>
              (if k == 0 then prev else Some(Text(lines, hits[k - 1]))) != Some(Text(lines, hits[k]))
  {
    var text := Text(lines, hits[0]);
    var later := Fresh(lines, hits[1..], Some(text));
    assert Fresh(lines, hits, prev) == if prev == Some(text) then later else [hits[0]] + later;
    FreshAreHits(lines, hits[1..], Some(text));
    assert hits[0] !in hits[1..];
    if k > 0 {
      forall i, j | 0 <= i < j < |hits[1..]|
        ensures hits[1..][i] != hits[1..][j]
      {
        assert hits[i + 1] != hits[j + 1];
      }
      FreshOrRepeated(lines, hits[1..], Some(text), k - 1);
      assert hits[k] != hits[0];
    }
  }

  /** The line that is selected: the count-th fresh one, or the farthest hit if there are fewer. */
  function Selected(lines: seq<string>, hits: seq<nat>, prev: Option<string>, count: nat): (r: Option<nat>)
    ensures r.Some? <==> count > 0 && hits != []
    ensures r.Some? && count <= |Fresh(lines, hits, prev)| ==> r.value == Fresh(lines, hits, prev)[count - 1]
    ensures r.Some? && count > |Fresh(lines, hits, prev)| ==> r.value == hits[|hits| - 1]
  {
    var fs := Fresh(lines, hits, prev);
    if count == 0 || hits == [] then None
    else Some(if count <= |fs| then fs[count - 1] else hits[|hits| - 1])
  }

  /** The text that further searches do not stop at. */
  function Remembered(lines: seq<string>, hits: seq<nat>, prev: Option<string>, count: nat): Option<string> {
    var fs := Fresh(lines, hits, prev);
    if count == 0 || fs == [] then prev
    else Some(Text(lines, fs[if count <= |fs| then count - 1 else |fs| - 1]))
  }

  /** One hit is found: the rest is selected from the hits behind it. */
  lemma SelectedNext(lines: seq<string>, h: nat, rest: seq<nat>, prev: Option<string>, count: nat,
                     later: Option<string>, left: nat)
    requires count > 0
    requires if prev == Some(Text(lines, h)) then later == prev && left == count
             else later == Some(Text(lines, h)) && left == count - 1
    ensures Selected(lines, [h] + rest, prev, count) ==
      if Selected(lines, rest, later, left).Some? then Selected(lines, rest, later, left) else Some(h)
    ensures Remembered(lines, [h] + rest, prev, count) == Remembered(lines, rest, later, left)
  {
    var fs := Fresh(lines, rest, later);
    assert ([h] + rest)[1..] == rest;
    assert Fresh(lines, [h] + rest, prev) == if prev == Some(Text(lines, h)) then fs else [h] + fs;
  }

  /** Going through the hits: what is found last and what is remembered, when left more are to be counted. */
  function Walk(lines: seq<string>, hits: seq<nat>, prev: Option<string>, left: nat, found: Option<nat>)
    : (Option<nat>, Option<string>)
  {
    if left == 0 || hits == [] then (found, prev)
    else
      var text := Text(lines, hits[0]);
      if prev == Some(text) then Walk(lines, hits[1..], prev, left, Some(hits[0]))
      else Walk(lines, hits[1..], Some(text), left - 1, Some(hits[0]))
  }

  lemma WalkOn(lines: seq<string>, h: nat, rest: seq<nat>, prev: Option<string>, left: nat, found: Option<nat>)
    requires left > 0
    ensures var text := Text(lines, h);
            Walk(lines, [h] + rest, prev, left, found) ==
            if prev == Some(text) then Walk(lines, rest, prev, left, Some(h))
            else Walk(lines, rest, Some(text), left - 1, Some(h))
  {
    assert ([h] + rest)[1..] == rest;
  }

  /** It selects the count-th fresh line or the last hit. */
  lemma {:induction false} WalkSelects(lines: seq<string>, hits: seq<nat>, prev: Option<string>, left: nat,
                                       found: Option<nat>)
    ensures var chosen := Selected(lines, hits, prev, left);
            Walk(lines, hits, prev, left, found) ==
            (if chosen.Some? then chosen else found, Remembered(lines, hits, prev, left))
  {
    if left > 0 && hits != [] {
      var h, rest, text := hits[0], hits[1..], Text(lines, hits[0]);
      assert hits == [h] + rest;
      var later, n := if prev == Some(text) then prev else Some(text), if prev == Some(text) then left else left - 1;
      SelectedNext(lines, h, rest, prev, left, later, n);
      WalkSelects(lines, rest, later, n, Some(h));
    }
  }

  /** The hits of a search string from a position. */
  function FoundFrom(lines: seq<string>, s: string, pos: int, reverse: bool): seq<nat> {
    var from := if reverse && pos == |lines| then pos - 1 else pos;
    if pos < 0 || pos > |lines| || |s| == 0 || (|s| == 1 && s[0] == '^') then []
    else if s[0] == '^' then Hits(lines, s[1..], true, from, reverse)
    else Hits(lines, s, false, from, reverse)
  }

  /** A caret at the front of the search string stands for the start of the line. */
  ghost predicate LineMatches(line: string, s: string) {
    if s != [] && s[0] == '^' then |s| > 1 && StandsAt(line, 0, s[1..])
    else s != [] && exists j: nat :: StandsAt(line, j, s)
  }

  /** The hits are the lines that match from the position on, in the direction of the search. */
  lemma FoundAreMatches(lines: seq<string>, s: string, pos: nat, reverse: bool, k: nat)
    requires pos <= |lines| && k < |lines|
    ensures k in FoundFrom(lines, s, pos, reverse) <==>
              LineMatches(lines[k], s) && if reverse then k <= pos else pos <= k
  {
    var from := if reverse && pos == |lines| then pos - 1 else pos;
    if s != [] && s[0] == '^' {
      if |s| > 1 {
        HitsAreMatches(lines, s[1..], true, from, reverse, k);
        MatchStands(lines[k], s[1..], true, reverse);
      }
    } else if s != [] {
      HitsAreMatches(lines, s, false, from, reverse, k);
      MatchStands(lines[k], s, false, reverse);
    }
  }

  lemma MatchStands(line: string, s: string, anchored: bool, reverse: bool)
    ensures MatchIn(line, s, anchored, reverse) >= 0 <==>
              if anchored then StandsAt(line, 0, s) else exists j: nat :: StandsAt(line, j, s)
  {
    MatchesEitherWay(line, s, anchored, reverse);
    if j: nat :| MatchesAt(line, j, s, anchored) {
      StandsIsAt(line, j, s);
    }
    if j: nat :| StandsAt(line, j, s) && (anchored ==> j == 0) {
      StandsIsAt(line, j, s);
      assert MatchesAt(line, j, s, anchored);
    }
  }

  lemma FoundPrefix(lines: seq<string>, prefix: string, pos: int, reverse: bool)
    requires prefix != [] && if reverse then pos < |lines| else 0 <= pos
    ensures FoundFrom(lines, ['^'] + prefix, pos, reverse) == Hits(lines, prefix, true, pos, reverse)
  {
    assert (['^'] + prefix)[1..] == prefix;
  }

  // ----- the searches -----

  class Searcher {
    /** The history and the position in it. */
    const lines: seq<string>
    var historyOffset: nat
    /** rl_history_search_pos and prev_line_found. */
    var searchPos: int
    var prevLineFound: Option<string>

    ghost predicate Valid()
      reads this
    {
      historyOffset <= |lines| && 0 <= searchPos <= |lines|
    }

    constructor (history: seq<string>, offset: nat)
      requires offset <= |history|
      ensures Valid() && lines == history && historyOffset == searchPos == offset && prevLineFound == None
    {
      lines, historyOffset, searchPos, prevLineFound := history, offset, offset, None;
    }

    /** history_set_pos */
    method HistorySetPos(pos: int) returns (ok: bool)
      modifies this`historyOffset
      ensures ok == (0 <= pos <= |lines|)
      ensures historyOffset == if ok then pos else old(historyOffset)
    {
      if pos > |lines| || pos < 0 {
        return false;
      }
      historyOffset := pos;
      return true;
    }

    /** The scans of one line. */
    static method ScanLine(line: string, s: string, anchored: bool, reverse: bool) returns (r: int)
      ensures r == MatchIn(line, s, anchored, reverse)
      ensures r >= 0 ==> NearestAt(line, r, s, anchored, reverse)
    {
      MatchIsNearest(line, s, anchored, reverse);
      var lineIndex := |line|;
      if |s| > lineIndex {
        return -1;
      }
      if anchored {
        IsAtSlice(line, 0, s);
        assert line[0..|s|] == line[..|s|];
        return if line[..|s|] == s then 0 else -1;
      }
      if reverse {
        lineIndex := lineIndex - |s|;
        while lineIndex >= 0
          invariant -1 <= lineIndex <= |line| - |s|
          invariant LastIn(line, s, lineIndex) == LastIn(line, s, |line| - |s|)
        {
          IsAtSlice(line, lineIndex, s);
          if line[lineIndex..lineIndex + |s|] == s {
            return lineIndex;
          }
          lineIndex := lineIndex - 1;
        }
      } else {
        var limit := lineIndex - |s| + 1;
        lineIndex := 0;
        while lineIndex < limit
          invariant 0 <= lineIndex <= limit && FirstIn(line, s, lineIndex) == FirstIn(line, s, 0)
        {
          IsAtSlice(line, lineIndex, s);
          if line[lineIndex..lineIndex + |s|] == s {
            return lineIndex;
          }
          lineIndex := lineIndex + 1;
        }
      }
      return -1;
    }

    /** history_search_internal: the nearest matching line in the direction; the position moves only if there is one. */
    method HistorySearchInternal(s: string, direction: int, anchored: bool) returns (r: int)
      requires historyOffset <= |lines|
      modifies this`historyOffset
      ensures var reverse := direction < 0;
        var from := if reverse && old(historyOffset) == |lines| then |lines| - 1 else old(historyOffset);
        var hits := if |s| == 0 then [] else Hits(lines, s, anchored, from, reverse);
        if hits == [] then r == -1 && historyOffset == old(historyOffset)
        else historyOffset == hits[0] && 0 <= r == MatchIn(Text(lines, hits[0]), s, anchored, reverse)
      ensures r >= 0 ==> historyOffset < |lines| && NearestAt(lines[historyOffset], r, s, anchored, direction < 0)
    {
      var i: int, reverse := historyOffset, direction < 0;
      if |s| == 0 {
        return -1;
      }
      if |lines| == 0 || (i >= |lines| && !reverse) {
        return -1;
      }
      if reverse && i >= |lines| {
        i := |lines| - 1;
      }
      i, r := NearestMatch(s, i, reverse, anchored);
      if r >= 0 {
        historyOffset := i;
      }
    }

    /** The loop over the lines. */
    method NearestMatch(s: string, from: int, reverse: bool, anchored: bool) returns (i: int, r: int)
      requires 0 <= from < |lines|
      ensures var hits := Hits(lines, s, anchored, from, reverse);
        if hits == [] then r == -1
        else i == hits[0] < |lines| && 0 <= r == MatchIn(lines[i], s, anchored, reverse)
      ensures r >= 0 ==> 0 <= i < |lines| && NearestAt(lines[i], r, s, anchored, reverse)
    {
      i := from;
      while true
        invariant -1 <= i <= |lines|
        invariant Hits(lines, s, anchored, i, reverse) == Hits(lines, s, anchored, from, reverse)
        decreases if reverse then i + 1 else |lines| - i
      {
        if (reverse && i < 0) || (!reverse && i == |lines|) {
          return i, -1;
        }
        r := ScanLine(lines[i], s, anchored, reverse);
        if r >= 0 {
          return;
        }
        i := i + Step(reverse);
      }
    }

    /** noninc_search_from_pos: a search from a position, which leaves the position in the history as it was. */
    method NonincSearchFromPos(s: string, pos: int, dir: int) returns (r: int)
      requires historyOffset <= |lines|
      modifies this`historyOffset
      ensures historyOffset == old(historyOffset)
      ensures var hits := FoundFrom(lines, s, pos, dir < 0);
        r == if hits == [] then -1 else hits[0]
    {
      if pos < 0 {
        return -1;
      }
      var place := historyOffset;
      var ok := HistorySetPos(pos);
      if !ok {
        return -1;
      }
      if |s| > 0 && s[0] == '^' {
        r := HistorySearchInternal(s[1..], dir, true);
      } else {
        r := HistorySearchInternal(s, dir, false);
      }
      if r != -1 {
        r := historyOffset;
      }
      ok := HistorySetPos(place);
    }

    /** A line that is not the one found before is counted, and remembered. */
    static method Count(text: string, prev: Option<string>, n: nat) returns (later: Option<string>, left: nat)
      requires n > 0
      ensures if prev == Some(text) then later == prev && left == n else later == Some(text) && left == n - 1
    {
      later, left := prev, n;
      if !(prev.Some? && prev.value == text) {
        later, left := Some(text), n - 1;
      }
    }

    /** One turn of its loop: the next hit, which is counted if it is new. */
    method FindNext(prefix: string, dir: int, n: nat, ghost found: Option<nat>) returns (r: int, left: nat)
      requires Valid() && prefix != [] && (dir == 1 || dir == -1) && n > 0
      modifies this`historyOffset, this`searchPos, this`prevLineFound
      ensures Valid() && historyOffset == old(historyOffset)
      ensures old(Ahead(prefix, dir)) == [] ==>
                r == -1 && left == n && searchPos == old(searchPos) && prevLineFound == old(prevLineFound)
      ensures old(Ahead(prefix, dir)) != [] ==>
                r == searchPos && (if dir < 0 then r < old(searchPos) else old(searchPos) < r) &&
                Walk(lines, Ahead(prefix, dir), prevLineFound, left, Some(r))
                  == Walk(lines, old(Ahead(prefix, dir)), old(prevLineFound), n, found)
    {
      left := n;
      r := NextLine(prefix, dir);
      if r != -1 {
        WalkOn(lines, r, Ahead(prefix, dir), prevLineFound, n, found);
        prevLineFound, left := Count(lines[r], prevLineFound, n);
      }
    }

    /** The hits that are still ahead. */
    ghost function Ahead(prefix: string, dir: int): seq<nat>
      reads this
    {
      Hits(lines, prefix, true, searchPos + dir, dir < 0)
    }

    /**
     rl_history_search_internal, up to the line that is made current: the search string is a caret and the text to find
     at the start of a line.
    */
    method HistorySearch(prefix: string, count: nat, dir: int) returns (found: Option<nat>)
      requires Valid() && prefix != [] && (dir == 1 || dir == -1)
      modifies this
      ensures Valid() && historyOffset == old(historyOffset)
      ensures var hits := Hits(lines, prefix, true, old(searchPos) + dir, dir < 0);
        && found == Selected(lines, hits, old(prevLineFound), count)
        && prevLineFound == Remembered(lines, hits, old(prevLineFound), count)
        && searchPos == if found.Some? then found.value else old(searchPos)
    {
      var n := count;
      found := None;
      ghost var all, first := Ahead(prefix, dir), prevLineFound;
      WalkSelects(lines, all, first, count, None);
      while n > 0
        invariant Valid() && historyOffset == old(historyOffset)
        invariant Walk(lines, Ahead(prefix, dir), prevLineFound, n, found) == Walk(lines, all, first, count, None)
        invariant searchPos == if found.Some? then found.value else old(searchPos)
        decreases if dir < 0 then searchPos else |lines| - searchPos
      {
        var r;
        r, n := FindNext(prefix, dir, n, found);
        if r == -1 {
          break;
        }
        found := Some(r);
      }
    }

    /** The next matching line becomes the position of the search. */
    method NextLine(prefix: string, dir: int) returns (r: int)
      requires Valid() && prefix != [] && (dir == 1 || dir == -1)
      modifies this`historyOffset, this`searchPos
      ensures Valid() && historyOffset == old(historyOffset)
      ensures var hits := Hits(lines, prefix, true, old(searchPos) + dir, dir < 0);
        if hits == [] then r == -1 && searchPos == old(searchPos)
        else r == hits[0] == searchPos < |lines| && (if dir < 0 then r < old(searchPos) else old(searchPos) < r) &&
             hits == [hits[0]] + Hits(lines, prefix, true, searchPos + dir, dir < 0)
    {
      var at := searchPos + dir;
      FoundPrefix(lines, prefix, at, dir < 0);
      ghost var hits := Hits(lines, prefix, true, at, dir < 0);
      if hits != [] {
        HitsBehind(lines, prefix, true, at, dir < 0);
        HitsAreMatches(lines, prefix, true, at, dir < 0, hits[0]);
      }
      r := NonincSearchFromPos(['^'] + prefix, at, dir);
      if r != -1 {
        searchPos := r;
      }
    }
  }
}
