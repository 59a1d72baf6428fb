/**
 Writing the history list to a file and reading it back (readline-6.2/histfile.c): the part on buffers, with the file as
 the characters of a buffer.
*/
module HistoryFile {
  import opened HistoryStore
  import opened Options
  import opened Text
  import opened Characters

  predicate IsDigit(c: char) { '0' <= c <= '9' }

  /** HIST_TIMESTAMP_START */
  predicate StampAt(b: string, i: nat, comment: char) {
    i < |b| && b[i] == comment && IsDigit(At(b, i + 1))
  }

  predicate IsStamp(s: string, comment: char) {
    s != [] && StampAt(s, 0, comment)
  }

  // ----- reading -----

  /** The first newline at or behind i, or the end. */
  function LineEnd(b: string, i: nat): (e: nat)
    requires i <= |b|
    ensures i <= e <= |b| && (e < |b| ==> b[e] == '\n')
    decreases |b| - i
  {
    if i == |b| || b[i] == '\n' then i else LineEnd(b, i + 1)
  }

  /** The first NUL from i on, before e. */
  function StringEnd(b: string, i: nat, e: nat): (k: nat)
    requires i <= e <= |b|
    ensures i <= k <= e
    decreases e - i
  {
    if i == e || b[i] == NUL then i else StringEnd(b, i + 1, e)
  }

  function Extract(b: string, i: nat, k: nat): (s: string)
    requires i <= k <= |b|
    ensures |s| == k - i
    decreases k - i
  {
    if i == k then [] else [b[i]] + Extract(b, i + 1, k)
  }

  lemma {:induction false} ExtractIs(b: string, i: nat, k: nat)
    requires i <= k <= |b|
    ensures Extract(b, i, k) == b[i..k]
    decreases k - i
  {
    if i < k {
      ExtractIs(b, i + 1, k);
    }
  }

  /** The line from i to its newline at e as a C string; a carriage return before the newline is cut off. */
  function Cooked(b: string, i: nat, e: nat): string
    requires i <= e < |b|
  {
    Extract(b, i, StringEnd(b, i, if e > i && b[e - 1] == '\r' then e - 1 else e))
  }

  /** Passing over lines: where reading starts and the number counted. */
  function Skip(b: string, i: nat, current: int, from: int, comment: char): (r: (nat, int))
    requires i <= |b|
    ensures i <= r.0 <= |b|
    decreases |b| - i
  {
    var e := LineEnd(b, i);
    if current >= from || e == |b| then (i, current)
    else Skip(b, e + 1, if StampAt(b, e + 1, comment) then current else current + 1, from, comment)
  }

  /** The time that is waiting for its line, after a line was read. */
  function Waiting(s: string, ts: Option<string>, comment: char): Option<string> {
    if s == [] then ts else if IsStamp(s, comment) then Some(s) else None
  }

  /** The entry that a line makes. */
  function Made(s: string, ts: Option<string>, comment: char, now: string): seq<Entry> {
    if s == [] || IsStamp(s, comment) then [] else [Entry(s, if ts.Some? then ts.value else now)]
  }

  function Prepend(made: seq<Entry>, rest: seq<Entry>): seq<Entry> {
    if made == [] then rest else made + rest
  }

  /** The lines of the file from i on; text behind the last newline is not a line. */
  function FileLines(b: string, i: nat): seq<string>
    requires i <= |b|
    decreases |b| - i
  {
    var e := LineEnd(b, i);
    if e == |b| then [] else [Cooked(b, i, e)] + FileLines(b, e + 1)
  }

  /** The entries that lines make, until as many as asked for are counted. */
  function Gobble(ls: seq<string>, current: int, to: int, comment: char, now: string, ts: Option<string>): seq<Entry> {
    if ls == [] then []
    else
      var next := if IsStamp(ls[0], comment) then current else current + 1;
      Prepend(Made(ls[0], ts, comment, now),
              if next >= to then [] else Gobble(ls[1..], next, to, comment, now, Waiting(ls[0], ts, comment)))
  }

  /** read_history_range: a negative end stands for the number of characters. */
  function ReadRange(b: string, from: int, to: int, comment: char, now: string): seq<Entry> {
    var (i, current) := Skip(b, 0, 0, from, comment);
    Gobble(FileLines(b, i), current, if to < 0 then |b| else to, comment, now, None)
  }

  /** read_history */
  function ReadAll(b: string, comment: char, now: string): seq<Entry> {
    ReadRange(b, 0, -1, comment, now)
  }

  // ----- writing -----

  predicate Stamped(e: Entry, times: bool) { times && e.timestamp != [] }

  function Lines(e: Entry, times: bool): string {
    (if Stamped(e, times) then e.timestamp + "\n" else []) + (e.line + "\n")
  }

  function Written(es: seq<Entry>, n: nat, times: bool): string
    requires n <= |es|
    decreases |es| - n
  {
    if n == |es| then [] else Lines(es[n], times) + Written(es, n + 1, times)
  }

  // ----- the round trip -----

  predicate NoNewline(s: string) {
    forall k | 0 <= k < |s| :: s[k] != '\n'
  }

  predicate OneLine(s: string) {
    NoNewline(s) && NoNul(s)
  }

  predicate EndsInCR(s: string) {
    s != [] && s[|s| - 1] == '\r'
  }

  /** A line that comes back. */
  predicate Fits(s: string, comment: char) {
    s != [] && NoNewline(s) && !EndsInCR(s) && !(|s| > 1 && s[0] == comment && '0' <= s[1] <= '9')
  }

  /** What reading makes of a line. */
  function Cut(s: string): string {
    if EndsInCR(s) then s[..|s| - 1] else s
  }

  lemma {:induction false} LineEndAt(b: string, i: nat, e: nat)
    requires i <= e < |b| && b[e] == '\n' && forall j | i <= j < e :: b[j] != '\n'
    ensures LineEnd(b, i) == e
    decreases e - i
  {
    if i < e {
      LineEndAt(b, i + 1, e);
    }
  }

  lemma {:induction false} NoStringEnd(b: string, i: nat, e: nat)
    requires i <= e <= |b| && forall j | i <= j < e :: b[j] != NUL
    ensures StringEnd(b, i, e) == e
    decreases e - i
  {
    if i < e {
      NoStringEnd(b, i + 1, e);
    }
  }

  /** A text and a newline are at i. */
  predicate LineAt(b: string, i: nat, s: string): (r: bool)
    ensures r ==> i + |s| < |b|
    decreases |s|
  {
    i < |b| && if s == [] then b[i] == '\n' else b[i] == s[0] && LineAt(b, i + 1, s[1..])
  }

  lemma {:induction false} LineIs(b: string, i: nat, s: string)
    requires LineAt(b, i, s)
    ensures b[i + |s|] == '\n' && b[i..i + |s|] == s
    ensures s != [] ==> b[i + |s| - 1] == s[|s| - 1]
    decreases |s|
  {
    if s != [] {
      LineIs(b, i + 1, s[1..]);
      assert b[i..i + |s|] == [b[i]] + b[i + 1..i + |s|] && s == [s[0]] + s[1..];
    }
  }

  lemma {:induction false} LineIsOne(b: string, i: nat, s: string)
    requires OneLine(s) && LineAt(b, i, s)
    ensures forall j | i <= j < i + |s| :: b[j] != '\n' && b[j] != NUL
    decreases |s|
  {
    if s != [] {
      assert forall k | 0 <= k < |s| - 1 :: s[1..][k] == s[k + 1];
      LineIsOne(b, i + 1, s[1..]);
    }
  }

  lemma {:induction false} LineOf(b: string, i: nat, s: string)
    requires i + |s| < |b| && b[i + |s|] == '\n' && forall j | 0 <= j < |s| :: b[i + j] == s[j]
    ensures LineAt(b, i, s)
    decreases |s|
  {
    if s != [] {
      assert b[i + 0] == s[0];
      forall j | 0 <= j < |s[1..]|
        ensures b[i + 1 + j] == s[1..][j]
      {
        assert b[i + (j + 1)] == s[j + 1];
      }
      LineOf(b, i + 1, s[1..]);
    }
  }

  /** A written line is found again, without a carriage return at its end. */
  lemma ReadLine(b: string, i: nat, s: string)
    requires OneLine(s) && LineAt(b, i, s)
    ensures LineEnd(b, i) == i + |s| && Cooked(b, i, i + |s|) == Cut(s)
  {
    LineIs(b, i, s);
    LineIsOne(b, i, s);
    LineEndAt(b, i, i + |s|);
    CookedIs(b, i, i + |s|, i + |Cut(s)|);
    CutSlice(b, i, s);
  }

  /** A line without a NUL up to where it is cut off. */
  lemma CookedIs(b: string, i: nat, e: nat, cut: nat)
    requires i <= cut <= e < |b| && cut == (if e > i && b[e - 1] == '\r' then e - 1 else e)
    requires forall j | i <= j < cut :: b[j] != NUL
    ensures Cooked(b, i, e) == b[i..cut]
  {
    NoStringEnd(b, i, cut);
    ExtractIs(b, i, cut);
  }

  lemma CutSlice(b: string, i: nat, s: string)
    requires i + |s| <= |b| && b[i..i + |s|] == s
    ensures b[i..i + |Cut(s)|] == Cut(s)
  {
    assert b[i..i + |Cut(s)|] == b[i..i + |s|][..|Cut(s)|];
  }

  /** Reading a whole file, without the count. */
  function GobbleAll(ls: seq<string>, comment: char, now: string, ts: Option<string>): seq<Entry> {
    if ls == [] then []
    else Prepend(Made(ls[0], ts, comment, now), GobbleAll(ls[1..], comment, now, Waiting(ls[0], ts, comment)))
  }

  lemma {:induction false} GobbleIsAll(ls: seq<string>, current: int, to: int, comment: char, now: string,
                                       ts: Option<string>)
    requires current + |ls| <= to
    ensures Gobble(ls, current, to, comment, now, ts) == GobbleAll(ls, comment, now, ts)
  {
    if ls != [] {
      var next := if IsStamp(ls[0], comment) then current else current + 1;
      if next >= to {
        assert ls[1..] == [];
      } else {
        GobbleIsAll(ls[1..], next, to, comment, now, Waiting(ls[0], ts, comment));
      }
    }
  }

  /** There are no more lines than characters, so that the count never stops the reading of a whole file. */
  lemma {:induction false} FewerLines(b: string, i: nat)
    requires i <= |b|
    ensures |FileLines(b, i)| <= |b| - i
    decreases |b| - i
  {
    if LineEnd(b, i) < |b| {
      FewerLines(b, LineEnd(b, i) + 1);
    }
  }

  lemma CountNeverStops(b: string, comment: char, now: string)
    ensures ReadAll(b, comment, now) == GobbleAll(FileLines(b, 0), comment, now, None)
  {
    FewerLines(b, 0);
    GobbleIsAll(FileLines(b, 0), 0, |b|, comment, now, None);
  }

  /** What comes back of entries whose lines are single lines and whose times are times. */
  function Relived(es: seq<Entry>, n: nat, times: bool, comment: char, now: string, ts: Option<string>): seq<Entry>
    requires n <= |es|
    decreases |es| - n
  {
    if n == |es| then []
    else
      var seen := if Stamped(es[n], times) then Some(es[n].timestamp) else ts;
      var s := Cut(es[n].line);
      Prepend(Made(s, seen, comment, now), Relived(es, n + 1, times, comment, now, Waiting(s, seen, comment)))
  }

  /** Times that are written are recognized as times. */
  predicate TimesFit(es: seq<Entry>, times: bool, comment: char) {
    forall e | e in es :: TimeFits(e, times, comment)
  }

  predicate TimeFits(e: Entry, times: bool, comment: char) {
    Stamped(e, times) ==> OneLine(e.timestamp) && IsStamp(e.timestamp, comment) && !EndsInCR(e.timestamp)
  }

  /** The lines that are found in what is written for the entries. */
  function WrittenLines(es: seq<Entry>, n: nat, times: bool): seq<string>
    requires n <= |es|
    decreases |es| - n
  {
    if n == |es| then []
    else Before(es[n], times, WrittenLines(es, n + 1, times))
  }

  function Before(e: Entry, times: bool, later: seq<string>): seq<string> {
    if Stamped(e, times) then [e.timestamp] + ([Cut(e.line)] + later) else [Cut(e.line)] + later
  }

  lemma FirstLine(b: string, i: nat, s: string)
    requires OneLine(s) && LineAt(b, i, s)
    ensures FileLines(b, i) == [Cut(s)] + FileLines(b, i + |s| + 1)
  {
    ReadLine(b, i, s);
  }

  lemma EntryLines(b: string, i: nat, e: Entry, times: bool, comment: char)
    requires EntryAt(b, i, e, times) && OneLine(e.line) && TimeFits(e, times, comment)
    ensures i + EntryLength(e, times) <= |b|
    ensures FileLines(b, i) == Before(e, times, FileLines(b, i + EntryLength(e, times)))
  {
    if Stamped(e, times) {
      FirstLine(b, i, e.timestamp);
      FirstLine(b, i + |e.timestamp| + 1, e.line);
    } else {
      FirstLine(b, i, e.line);
    }
  }

  lemma {:induction false} FileLinesWritten(b: string, i: nat, es: seq<Entry>, n: nat, times: bool, comment: char)
    requires n <= |es| && i <= |b| && WrittenAt(b, i, es, n, times)
    requires (forall e | e in es :: OneLine(e.line)) && TimesFit(es, times, comment)
    ensures FileLines(b, i) == WrittenLines(es, n, times)
    decreases |es| - n
  {
    if n < |es| {
      assert es[n] in es;
      EntryLines(b, i, es[n], times, comment);
      FileLinesWritten(b, i + EntryLength(es[n], times), es, n + 1, times, comment);
    }
  }

  lemma GobbleFirst(l: string, ls: seq<string>, comment: char, now: string, ts: Option<string>)
    ensures GobbleAll([l] + ls, comment, now, ts) ==
      Prepend(Made(l, ts, comment, now), GobbleAll(ls, comment, now, Waiting(l, ts, comment)))
  {
    assert ([l] + ls)[1..] == ls;
  }

  lemma {:induction false} GobbleWritten(es: seq<Entry>, n: nat, times: bool, comment: char, now: string,
                                         ts: Option<string>)
    requires n <= |es| && TimesFit(es, times, comment)
    ensures GobbleAll(WrittenLines(es, n, times), comment, now, ts) == Relived(es, n, times, comment, now, ts)
    decreases |es| - n
  {
    if n < |es| {
      var e, seen, later := es[n], ts, WrittenLines(es, n + 1, times);
      assert e in es;
      if Stamped(e, times) {
        GobbleFirst(e.timestamp, [Cut(e.line)] + later, comment, now, ts);
        assert Made(e.timestamp, ts, comment, now) == [];
        seen := Some(e.timestamp);
      }
      GobbleFirst(Cut(e.line), later, comment, now, seen);
      GobbleWritten(es, n + 1, times, comment, now, Waiting(Cut(e.line), seen, comment));
    }
  }

  lemma ReadWritten(es: seq<Entry>, times: bool, comment: char, now: string)
    requires (forall e | e in es :: OneLine(e.line)) && TimesFit(es, times, comment)
    ensures ReadAll(Written(es, 0, times), comment, now) == Relived(es, 0, times, comment, now, None)
  {
    var b := Written(es, 0, times);
    assert b[0..] == b;
    CountNeverStops(b, comment, now);
    WrittenIsAt(b, 0, es, 0, times);
    FileLinesWritten(b, 0, es, 0, times, comment);
    GobbleWritten(es, 0, times, comment, now, None);
  }

  predicate EntryAt(b: string, i: nat, e: Entry, times: bool) {
    if Stamped(e, times) then LineAt(b, i, e.timestamp) && LineAt(b, i + |e.timestamp| + 1, e.line)
    else LineAt(b, i, e.line)
  }

  function EntryLength(e: Entry, times: bool): nat {
    (if Stamped(e, times) then |e.timestamp| + 1 else 0) + |e.line| + 1
  }

  /** From i on the file is what is written for the entries from the n-th on. */
  predicate WrittenAt(b: string, i: nat, es: seq<Entry>, n: nat, times: bool)
    requires n <= |es|
    decreases |es| - n
  {
    if n == |es| then i == |b|
    else EntryAt(b, i, es[n], times) && WrittenAt(b, i + EntryLength(es[n], times), es, n + 1, times)
  }

  lemma PeelLine(b: string, i: nat, s: string, rest: string)
    requires i <= |b| && b[i..] == s + ("\n" + rest)
    ensures LineAt(b, i, s) && b[i + |s| + 1..] == rest
  {
    Peel(b, i, s, "\n" + rest);
    Peel(b, i + |s|, "\n", rest);
    assert b[i + |s| + 0] == '\n';
    LineOf(b, i, s);
  }

  lemma LinesThen(e: Entry, times: bool, rest: string)
    ensures Lines(e, times) + rest ==
      if Stamped(e, times) then e.timestamp + ("\n" + (e.line + ("\n" + rest))) else e.line + ("\n" + rest)
  {
  }

  lemma PeelEntry(b: string, i: nat, e: Entry, times: bool, rest: string)
    requires i <= |b| && b[i..] == Lines(e, times) + rest
    ensures EntryAt(b, i, e, times) && b[i + EntryLength(e, times)..] == rest
  {
    if Stamped(e, times) {
      assert b[i..] == e.timestamp + ("\n" + (e.line + ("\n" + rest))) by {
        LinesThen(e, times, rest);
      }
      PeelLine(b, i, e.timestamp, e.line + ("\n" + rest));
      PeelLine(b, i + |e.timestamp| + 1, e.line, rest);
    } else {
      assert b[i..] == e.line + ("\n" + rest) by {
        LinesThen(e, times, rest);
      }
      PeelLine(b, i, e.line, rest);
    }
  }

  lemma {:induction false} WrittenIsAt(b: string, i: nat, es: seq<Entry>, n: nat, times: bool)
    requires n <= |es| && i <= |b| && b[i..] == Written(es, n, times)
    ensures WrittenAt(b, i, es, n, times)
    decreases |es| - n
  {
    if n < |es| {
      var e, rest := es[n], Written(es, n + 1, times);
      PeelEntry(b, i, e, times, rest);
      WrittenIsAt(b, i + EntryLength(e, times), es, n + 1, times);
    }
  }

  /** The same entries; those without a written time get the time of reading. */
  function Restamped(es: seq<Entry>, n: nat, times: bool, now: string): seq<Entry>
    requires n <= |es|
    decreases |es| - n
  {
    if n == |es| then []
    else [Entry(es[n].line, if Stamped(es[n], times) then es[n].timestamp else now)] + Restamped(es, n + 1, times, now)
  }

  lemma {:induction false} FittingRelived(es: seq<Entry>, n: nat, times: bool, comment: char, now: string)
    requires n <= |es| && forall e | e in es :: Fits(e.line, comment)
    ensures Relived(es, n, times, comment, now, None) == Restamped(es, n, times, now)
    decreases |es| - n
  {
    if n < |es| {
      assert es[n] in es;
      FittingRelived(es, n + 1, times, comment, now);
    }
  }

  /** Writing and reading back keeps the lines, and the times that were written. */
  lemma RoundTrip(es: seq<Entry>, times: bool, comment: char, now: string)
    requires forall e | e in es :: Fits(e.line, comment) && NoNul(e.line)
    requires TimesFit(es, times, comment)
    ensures ReadAll(Written(es, 0, times), comment, now) == Restamped(es, 0, times, now)
    ensures var r := ReadAll(Written(es, 0, times), comment, now);
            |r| == |es| && forall k | 0 <= k < |r| ::
              r[k] == Entry(es[k].line, if times && es[k].timestamp != "" then es[k].timestamp else now)
  {
    ReadWritten(es, times, comment, now);
    FittingRelived(es, 0, times, comment, now);
    RestampedEach(es, 0, times, now);
  }

  lemma {:induction false} RestampedEach(es: seq<Entry>, n: nat, times: bool, now: string)
    requires n <= |es|
    ensures var r := Restamped(es, n, times, now);
            |r| == |es| - n && forall k | 0 <= k < |r| ::
              r[k] == Entry(es[n + k].line, if times && es[n + k].timestamp != "" then es[n + k].timestamp else now)
    decreases |es| - n
  {
    if n < |es| {
      RestampedEach(es, n + 1, times, now);
    }
  }

  // ----- exactly which lines come back -----

  predicate SameLines(r: seq<Entry>, es: seq<Entry>, n: nat)
    requires n <= |es|
    decreases |r|
  {
    if r == [] then n == |es|
    else n < |es| && r[0].line == es[n].line && SameLines(r[1..], es, n + 1)
  }

  lemma {:induction false} SameLinesLength(r: seq<Entry>, es: seq<Entry>, n: nat)
    requires n <= |es| && SameLines(r, es, n)
    ensures |r| == |es| - n
    ensures forall k | 0 <= k < |r| :: r[k].line == es[n + k].line
    decreases |r|
  {
    if r != [] {
      SameLinesLength(r[1..], es, n + 1);
      assert forall k | 0 < k < |r| :: r[k] == r[1..][k - 1] && es[n + k] == es[n + 1 + (k - 1)];
    }
  }

  /** No line of a file contains a newline, and so no entry that is read does. */
  lemma {:induction false} LinesAreClean(b: string, i: nat)
    requires i <= |b|
    ensures forall l | l in FileLines(b, i) :: NoNewline(l)
    decreases |b| - i
  {
    var e := LineEnd(b, i);
    if e < |b| {
      LineEndFirst(b, i);
      ExtractIs(b, i, i + |Cooked(b, i, e)|);
      LinesAreClean(b, e + 1);
    }
  }

  lemma {:induction false} EntriesAreClean(ls: seq<string>, comment: char, now: string, ts: Option<string>)
    requires forall l | l in ls :: NoNewline(l)
    ensures forall e | e in GobbleAll(ls, comment, now, ts) :: NoNewline(e.line)
  {
    if ls != [] {
      EntriesAreClean(ls[1..], comment, now, Waiting(ls[0], ts, comment));
    }
  }

  lemma {:induction false} LineEndFirst(b: string, i: nat)
    requires i <= |b|
    ensures forall j | i <= j < LineEnd(b, i) :: b[j] != '\n'
    decreases |b| - i
  {
    if i < |b| && b[i] != '\n' {
      LineEndFirst(b, i + 1);
    }
  }

  /** Single lines: at most one comes back for each, and all of them only if each one fits. */
  lemma {:induction false} RelivedLines(es: seq<Entry>, n: nat, times: bool, comment: char, now: string,
                                        ts: Option<string>)
    requires n <= |es| && forall e | e in es :: NoNewline(e.line)
    ensures |Relived(es, n, times, comment, now, ts)| <= |es| - n
    ensures SameLines(Relived(es, n, times, comment, now, ts), es, n) <==>
      forall k | n <= k < |es| :: Fits(es[k].line, comment)
    decreases |es| - n
  {
    if n < |es| {
      assert es[n] in es;
      var seen := if Stamped(es[n], times) then Some(es[n].timestamp) else ts;
      var s := Cut(es[n].line);
      var after := Waiting(s, seen, comment);
      RelivedLines(es, n + 1, times, comment, now, after);
      var later, all := Relived(es, n + 1, times, comment, now, after), Relived(es, n, times, comment, now, ts);
      FitsCut(es[n].line, comment);
      if s == [] || IsStamp(s, comment) {
        assert all == later;
        if SameLines(all, es, n) {
          SameLinesLength(all, es, n);
        }
      } else {
        SameLinesNext(all[0], later, es, n);
      }
    }
  }

  lemma SameLinesNext(e: Entry, later: seq<Entry>, es: seq<Entry>, n: nat)
    requires n < |es|
    ensures SameLines([e] + later, es, n) <==> e.line == es[n].line && SameLines(later, es, n + 1)
  {
    assert ([e] + later)[1..] == later;
  }

  /** A single line fits exactly if it is read as itself and makes an entry. */
  lemma FitsCut(line: string, comment: char)
    requires NoNewline(line)
    ensures var s := Cut(line);
      Fits(line, comment) <==> s != [] && !IsStamp(s, comment) && s == line
  {
  }

  /**
   The lines come back if and only if each of them is non-empty, without newline, without a final carriage return and
   does not look like a time.
  */
  lemma LinesComeBack(es: seq<Entry>, times: bool, comment: char, now: string)
    requires (forall e | e in es :: NoNul(e.line)) && TimesFit(es, times, comment)
    ensures SameLines(ReadAll(Written(es, 0, times), comment, now), es, 0) <==>
      forall k | 0 <= k < |es| :: Fits(es[k].line, comment)
  {
    var b := Written(es, 0, times);
    var r := ReadAll(b, comment, now);
    CountNeverStops(b, comment, now);
    LinesAreClean(b, 0);
    EntriesAreClean(FileLines(b, 0), comment, now, None);
    if SameLines(r, es, 0) {
      CleanLines(r, es);
    }
    if forall e | e in es :: NoNewline(e.line) {
      ReadWritten(es, times, comment, now);
      RelivedLines(es, 0, times, comment, now, None);
    } else {
      var e :| e in es && !NoNewline(e.line);
      var k :| 0 <= k < |es| && es[k] == e;
      assert !Fits(es[k].line, comment);
    }
  }

  lemma CleanLines(r: seq<Entry>, es: seq<Entry>)
    requires SameLines(r, es, 0) && forall e | e in r :: NoNewline(e.line)
    ensures forall e | e in es :: NoNewline(e.line)
  {
    SameLinesLength(r, es, 0);
    forall k | 0 <= k < |es|
      ensures NoNewline(es[k].line)
    {
      assert r[k] in r && r[k].line == es[0 + k].line;
    }
  }

  // ----- the buffers -----

  /** strcpy: the NUL goes where the next character will. */
  method StrCpy(buffer: array<char>, j: nat, s: string, ghost full: string)
    requires Agrees(buffer, j, full) && j + |s| < buffer.Length == |full|
    requires forall k | 0 <= k < |s| :: full[j + k] == s[k]
    modifies buffer
    ensures Agrees(buffer, j + |s|, full)
  {
    var k := 0;
    while k < |s|
      invariant 0 <= k <= |s| && Agrees(buffer, j + k, full)
    {
      buffer[j + k] := s[k];
      k := k + 1;
    }
    buffer[j + k] := NUL;
  }

  /** A text and its newline. */
  method PutLine(buffer: array<char>, j: nat, s: string, ghost full: string, ghost rest: string) returns (next: nat)
    requires Agrees(buffer, j, full) && buffer.Length == |full| && full[j..] == s + ("\n" + rest)
    modifies buffer
    ensures next == j + |s| + 1 && Agrees(buffer, next, full) && full[next..] == rest
  {
    Peel(full, j, s, "\n" + rest);
    Peel(full, j + |s|, "\n", rest);
    assert full[j + |s| + 0] == '\n';
    StrCpy(buffer, j, s, full);
    next := j + |s|;
    buffer[next] := '\n';
    next := next + 1;
  }

  /** An entry, after its time if there is one. */
  method PutEntry(buffer: array<char>, j: nat, entry: Entry, times: bool, ghost full: string, ghost rest: string)
    returns (next: nat)
    requires Agrees(buffer, j, full) && buffer.Length == |full| && full[j..] == Lines(entry, times) + rest
    modifies buffer
    ensures Agrees(buffer, next, full) && full[next..] == rest
  {
    LinesThen(entry, times, rest);
    next := j;
    if times && entry.timestamp != [] {
      next := PutLine(buffer, next, entry.timestamp, full, entry.line + ("\n" + rest));
    }
    next := PutLine(buffer, next, entry.line, full, rest);
  }

  /** The total number of characters to write. */
  method CountWritten(history: History, from: nat, times: bool) returns (bufferSize: nat)
    requires history.Valid() && from <= history.length
    ensures bufferSize == |Written(history.contents, from, times)|
  {
    ghost var es := history.contents;
    bufferSize := 0;
    var i := from;
    while i < history.length
      invariant from <= i <= |es| && bufferSize + |Written(es, i, times)| == |Written(es, from, times)|
    {
      var entry := history.slots[i].value;
      if times && entry.timestamp != [] {
        bufferSize := bufferSize + |entry.timestamp| + 1;
      }
      bufferSize := bufferSize + |entry.line| + 1;
      i := i + 1;
    }
  }

  /** history_do_write: the buffer of the last nelements entries is filled exactly. */
  method HistoryDoWrite(history: History, nelements: nat, times: bool) returns (buffer: array<char>)
    requires history.Valid()
    ensures buffer[..] == Written(history.contents,
      history.length - if nelements > history.length then history.length else nelements, times)
  {
    ghost var es := history.contents;
    var n := if nelements > history.length then history.length else nelements;
    var bufferSize := CountWritten(history, history.length - n, times);
    buffer := new char[bufferSize];
    PutEntries(history, history.length - n, buffer, times, Written(es, |es| - n, times));
  }

  /** The loop that fills the buffer. */
  method PutEntries(history: History, from: nat, buffer: array<char>, times: bool, ghost full: string)
    requires history.Valid() && from <= history.length && full == Written(history.contents, from, times)
    requires buffer.Length == |full|
    modifies buffer
    ensures buffer[..] == full
  {
    ghost var es := history.contents;
    var j, i := 0, from;
    assert full[j..] == full;
    while i < history.length
      invariant from <= i <= |es| && 0 <= j <= |full| && full[j..] == Written(es, i, times)
      invariant Agrees(buffer, j, full)
    {
      var entry := history.slots[i].value;
      j := PutEntry(buffer, j, entry, times, full, Written(es, i + 1, times));
      i := i + 1;
    }
  }

  /** Lines are passed over. */
  method SkipLines(buffer: array<char>, from: int, comment: char) returns (lineStart: nat, currentLine: int)
    ensures (lineStart, currentLine) == Skip(buffer[..], 0, 0, from, comment)
  {
    ghost var b := buffer[..];
    var lineEnd := 0;
    lineStart, currentLine := 0, 0;
    while lineEnd < buffer.Length && currentLine < from
      invariant 0 <= lineStart <= lineEnd <= buffer.Length
      invariant LineEnd(b, lineStart) == LineEnd(b, lineEnd)
      invariant lineStart < lineEnd ==> currentLine < from
      invariant Skip(b, lineStart, currentLine, from, comment) == Skip(b, 0, 0, from, comment)
    {
      if buffer[lineEnd] == '\n' {
        var p := lineEnd + 1;
        if !(p < buffer.Length && buffer[p] == comment && p + 1 < buffer.Length && IsDigit(buffer[p + 1])) {
          currentLine := currentLine + 1;
        }
        lineStart := p;
      }
      lineEnd := lineEnd + 1;
    }
  }

  /** The C string from i on, up to the NUL that was put at cut or one before it. */
  method ReadString(buffer: array<char>, i: nat, ghost cut: nat) returns (s: string)
    requires i <= cut < buffer.Length && buffer[cut] == NUL
    ensures s == Extract(buffer[..], i, StringEnd(buffer[..], i, cut))
  {
    ghost var b := buffer[..];
    var k := i;
    while buffer[k] != NUL
      invariant i <= k <= cut && StringEnd(b, k, cut) == StringEnd(b, i, cut)
      decreases cut - k
    {
      k := k + 1;
    }
    s := buffer[i..k];
    ExtractIs(b, i, k);
  }

  /** The NUL that ends a line depends on nothing behind it. */
  lemma {:induction false} SameStringEnd(a: string, b: string, i: nat, e: nat)
    requires i <= e <= |a| && e <= |b| && forall j | i <= j < e :: a[j] == b[j]
    ensures StringEnd(a, i, e) == StringEnd(b, i, e)
    decreases e - i
  {
    if i < e && a[i] != NUL {
      SameStringEnd(a, b, i + 1, e);
    }
  }

  /** The line is cut off at its newline, or at the carriage return before it. */
  method CutLine(buffer: array<char>, lineStart: nat, lineEnd: nat, ghost b: string) returns (s: string)
    requires lineStart <= lineEnd < buffer.Length == |b|
    requires forall j | lineStart <= j < |b| :: buffer[j] == b[j]
    modifies buffer
    ensures s == Cooked(b, lineStart, lineEnd)
    ensures forall j | lineEnd < j < |b| :: buffer[j] == b[j]
  {
    var cut := lineEnd;
    if lineEnd > lineStart && buffer[lineEnd - 1] == '\r' {
      cut := lineEnd - 1;
    }
    buffer[cut] := NUL;
    s := ReadString(buffer, lineStart, cut);
    SameExtract(buffer[..], b, lineStart, cut);
  }

  lemma SameExtract(a: string, b: string, i: nat, cut: nat)
    requires i <= cut <= |a| && cut <= |b| && forall j | i <= j < cut :: a[j] == b[j]
    ensures Extract(a, i, StringEnd(a, i, cut)) == Extract(b, i, StringEnd(b, i, cut))
  {
    SameStringEnd(a, b, i, cut);
    var k := StringEnd(b, i, cut);
    ExtractIs(a, i, k);
    ExtractIs(b, i, k);
    assert a[i..k] == b[i..k];
  }

  lemma KeptLast(c: seq<Entry>, x: Entry, y: Entry, stifled: bool, max: nat)
    requires !(stifled && max == 0)
    ensures var k := Kept(c + [x], stifled, max);
      k != [] && k[|k| - 1] == x && k[|k| - 1 := y] == Kept(c + [y], stifled, max)
  {
  }

  /** A line that is a time waits; any other line is added, and takes the time that waits. */
  method TakeLine(history: History, s: string, comment: char, now: string, lastTs: Option<string>)
    returns (waiting: Option<string>)
    requires history.Valid() && !(history.stifled && history.maxEntries == 0)
    modifies history`slots, history`size, history`length, history`base, history`contents, history.slots
    ensures history.Valid() && (history.slots == old(history.slots) || fresh(history.slots))
    ensures waiting == Waiting(s, lastTs, comment)
    ensures history.contents ==
      Kept(old(history.contents) + Made(s, lastTs, comment, now), history.stifled, history.maxEntries)
  {
    waiting := lastTs;
    if s != [] {
      if !(s[0] == comment && 1 < |s| && IsDigit(s[1])) {
        AddLine(history, s, now, lastTs);
        waiting := None;
      } else {
        waiting := Some(s);
      }
    }
  }

  /** add_history, and add_history_time if a time was read. */
  method AddLine(history: History, s: string, now: string, lastTs: Option<string>)
    requires history.Valid() && !(history.stifled && history.maxEntries == 0)
    modifies history`slots, history`size, history`length, history`base, history`contents, history.slots
    ensures history.Valid() && (history.slots == old(history.slots) || fresh(history.slots))
    ensures history.contents ==
      Kept(old(history.contents) + [Entry(s, if lastTs.Some? then lastTs.value else now)],
           history.stifled, history.maxEntries)
  {
    ghost var was := history.contents;
    history.AddHistory(s, now);
    if lastTs.Some? {
      KeptLast(was, Entry(s, now), Entry(s, lastTs.value), history.stifled, history.maxEntries);
      history.AddHistoryTime(lastTs.value);
    }
  }

  /** With what is made already, the lines that are still to be read give all the entries. */
  predicate Completes(made: seq<Entry>, ls: seq<string>, current: int, to: int, comment: char, now: string,
                      ts: Option<string>, all: seq<Entry>)
    decreases |ls|
  {
    if ls == [] then all == made
    else
      var next, more := if IsStamp(ls[0], comment) then current else current + 1, made + Made(ls[0], ts, comment, now);
      if next >= to then all == more
      else Completes(more, ls[1..], next, to, comment, now, Waiting(ls[0], ts, comment), all)
  }

  lemma {:induction false} GobbleCompletes(made: seq<Entry>, ls: seq<string>, current: int, to: int, comment: char,
                                           now: string, ts: Option<string>)
    ensures Completes(made, ls, current, to, comment, now, ts, made + Gobble(ls, current, to, comment, now, ts))
    decreases |ls|
  {
    if ls != [] {
      var next, first := if IsStamp(ls[0], comment) then current else current + 1, Made(ls[0], ts, comment, now);
      if next < to {
        var waiting := Waiting(ls[0], ts, comment);
        GobbleCompletes(made + first, ls[1..], next, to, comment, now, waiting);
        PrependOnto(made, first, Gobble(ls[1..], next, to, comment, now, waiting));
      } else {
        PrependOnto(made, first, []);
        assert (made + first) + [] == made + first;
      }
    }
  }

  lemma PrependOnto(made: seq<Entry>, first: seq<Entry>, rest: seq<Entry>)
    ensures made + Prepend(first, rest) == (made + first) + rest
  {
    if first == [] {
      assert made + first == made;
    } else {
      Regroup(made, first, rest);
    }
  }

  lemma NothingMade(ls: seq<string>, current: int, to: int, comment: char, now: string)
    ensures Completes([], ls, current, to, comment, now, None, Gobble(ls, current, to, comment, now, None))
  {
    var all := Gobble(ls, current, to, comment, now, None);
    GobbleCompletes([], ls, current, to, comment, now, None);
    assert [] + all == all;
  }

  lemma KeptOn(was: seq<Entry>, done: seq<Entry>, made: seq<Entry>, stifled: bool, max: nat)
    ensures Kept(Kept(was + done, stifled, max) + made, stifled, max) == Kept(was + (done + made), stifled, max)
  {
    KeptTwice(was + done, made, stifled, max);
    Regroup(was, done, made);
  }

  lemma NextLine(b: string, i: nat, rest: seq<string>)
    requires i <= |b| && rest == FileLines(b, i) && LineEnd(b, i) < |b|
    ensures rest != [] && rest[0] == Cooked(b, i, LineEnd(b, i)) && rest[1..] == FileLines(b, LineEnd(b, i) + 1)
  {
  }

  /** One more line is done. */
  lemma LineDone(was: seq<Entry>, done: seq<Entry>, all: seq<Entry>, b: string, i: nat,
                 current: int, to: int, comment: char, now: string, ts: Option<string>, stifled: bool, max: nat,
                 e: nat, s: string, next: int, more: seq<Entry>)
    requires i <= e < |b| && e == LineEnd(b, i)
    requires s == Cooked(b, i, e) && next == if IsStamp(s, comment) then current else current + 1
    requires Completes(done, FileLines(b, i), current, to, comment, now, ts, all)
    requires more == done + Made(s, ts, comment, now)
    ensures if next >= to then all == more
            else Completes(more, FileLines(b, e + 1), next, to, comment, now, Waiting(s, ts, comment), all)
    ensures Kept(Kept(was + done, stifled, max) + Made(s, ts, comment, now), stifled, max) ==
      Kept(was + more, stifled, max)
  {
    NextLine(b, i, FileLines(b, i));
    KeptOn(was, done, Made(s, ts, comment, now), stifled, max);
  }

  /** One line: it is cut off, taken and counted. */
  method GobbleLine(history: History, buffer: array<char>, lineStart: nat, lineEnd: nat, current: int,
                    comment: char, now: string, lastTs: Option<string>, ghost b: string)
    returns (next: int, waiting: Option<string>)
    requires history.Valid() && !(history.stifled && history.maxEntries == 0)
    requires lineStart <= lineEnd < buffer.Length == |b|
    requires forall j | lineStart <= j < |b| :: buffer[j] == b[j]
    modifies history`slots, history`size, history`length, history`base, history`contents, history.slots, buffer
    ensures history.Valid() && (history.slots == old(history.slots) || fresh(history.slots))
    ensures var s := Cooked(b, lineStart, lineEnd);
      && history.contents ==
         Kept(old(history.contents) + Made(s, lastTs, comment, now), history.stifled, history.maxEntries)
      && next == (if IsStamp(s, comment) then current else current + 1)
      && waiting == Waiting(s, lastTs, comment)
    ensures forall j | lineEnd < j < |b| :: buffer[j] == b[j]
  {
    var s := CutLine(buffer, lineStart, lineEnd, b);
    waiting := TakeLine(history, s, comment, now, lastTs);
    next := current;
    if IsStamp(s, comment) {
      next := next - 1;
    }
    next := next + 1;
  }

  /** The scan for the next newline. */
  method FindNewline(buffer: array<char>, from: nat, ghost b: string) returns (lineEnd: nat)
    requires from <= buffer.Length == |b| && forall j | from <= j < |b| :: buffer[j] == b[j]
    ensures lineEnd == LineEnd(b, from)
  {
    lineEnd := from;
    while lineEnd < buffer.Length && buffer[lineEnd] != '\n'
      invariant from <= lineEnd <= |b| && LineEnd(b, lineEnd) == LineEnd(b, from)
    {
      lineEnd := lineEnd + 1;
    }
  }

  /** One turn of the loop over the lines. */
  method Turn(history: History, buffer: array<char>, lineStart: nat, lineEnd: nat, current: int, to: int,
              comment: char, now: string, lastTs: Option<string>,
              ghost b: string, ghost was: seq<Entry>, ghost done: seq<Entry>, ghost all: seq<Entry>)
    returns (next: int, waiting: Option<string>, ghost more: seq<Entry>)
    requires history.Valid() && !(history.stifled && history.maxEntries == 0)
    requires history.contents == Kept(was + done, history.stifled, history.maxEntries)
    requires lineStart <= lineEnd < buffer.Length == |b| && lineEnd == LineEnd(b, lineStart)
    requires forall j | lineStart <= j < |b| :: buffer[j] == b[j]
    requires Completes(done, FileLines(b, lineStart), current, to, comment, now, lastTs, all)
    modifies history`slots, history`size, history`length, history`base, history`contents, history.slots, buffer
    ensures history.Valid() && (history.slots == old(history.slots) || fresh(history.slots))
    ensures history.contents == Kept(was + more, history.stifled, history.maxEntries)
    ensures forall j | lineEnd < j < |b| :: buffer[j] == b[j]
    ensures next >= to ==> all == more
    ensures next < to ==> Completes(more, FileLines(b, lineEnd + 1), next, to, comment, now, waiting, all)
  {
    ghost var s := Cooked(b, lineStart, lineEnd);
    more := done + Made(s, lastTs, comment, now);
    LineDone(was, done, all, b, lineStart, current, to, comment, now, lastTs, history.stifled, history.maxEntries,
      lineEnd, s, if IsStamp(s, comment) then current else current + 1, more);
    next, waiting := GobbleLine(history, buffer, lineStart, lineEnd, current, comment, now, lastTs, b);
  }

  /** The loop over the lines. */
  method GobbleLines(history: History, buffer: array<char>, start: nat, current: int, to: int, comment: char,
                     now: string, ghost b: string, ghost was: seq<Entry>, ghost all: seq<Entry>)
    requires history.Valid() && !(history.stifled && history.maxEntries == 0) && start <= buffer.Length
    requires b == buffer[..] && history.contents == Kept(was + [], history.stifled, history.maxEntries)
    requires Completes([], FileLines(b, start), current, to, comment, now, None, all)
    modifies history`slots, history`size, history`length, history`base, history`contents, history.slots, buffer
    ensures history.Valid() && history.contents == Kept(was + all, history.stifled, history.maxEntries)
  {
    ghost var done := [];
    var lineStart, lastTs, currentLine, more := start, None, current, true;
    while more
      invariant 0 <= lineStart <= buffer.Length == |b|
      invariant forall j | lineStart <= j < |b| :: buffer[j] == b[j]
      invariant history.Valid() && (history.slots == old(history.slots) || fresh(history.slots))
      invariant if more then Completes(done, FileLines(b, lineStart), currentLine, to, comment, now, lastTs, all)
                else done == all
      invariant history.contents == Kept(was + done, history.stifled, history.maxEntries)
      decreases more, |b| - lineStart
    {
      more, lineStart, currentLine, lastTs, done :=
        NextTurn(history, buffer, lineStart, currentLine, to, comment, now, lastTs, b, was, done, all);
    }
  }

  /** The next line, if there is one and not enough were counted. */
  method NextTurn(history: History, buffer: array<char>, lineStart: nat, current: int, to: int, comment: char,
                  now: string, lastTs: Option<string>,
                  ghost b: string, ghost was: seq<Entry>, ghost done: seq<Entry>, ghost all: seq<Entry>)
    returns (more: bool, nextStart: nat, next: int, waiting: Option<string>, ghost made: seq<Entry>)
    requires history.Valid() && !(history.stifled && history.maxEntries == 0)
    requires history.contents == Kept(was + done, history.stifled, history.maxEntries)
    requires lineStart <= buffer.Length == |b| && forall j | lineStart <= j < |b| :: buffer[j] == b[j]
    requires Completes(done, FileLines(b, lineStart), current, to, comment, now, lastTs, all)
    modifies history`slots, history`size, history`length, history`base, history`contents, history.slots, buffer
    ensures history.Valid() && (history.slots == old(history.slots) || fresh(history.slots))
    ensures history.contents == Kept(was + made, history.stifled, history.maxEntries)
    ensures lineStart <= nextStart <= |b| && (more ==> lineStart < nextStart)
    ensures forall j | nextStart <= j < |b| :: buffer[j] == b[j]
    ensures if more then Completes(made, FileLines(b, nextStart), next, to, comment, now, waiting, all)
            else made == all
  {
    more, nextStart, next, waiting, made := false, lineStart, current, lastTs, done;
    var lineEnd := FindNewline(buffer, lineStart, b);
    if lineEnd < buffer.Length {
      next, waiting, made := Turn(history, buffer, lineStart, lineEnd, current, to, comment, now, lastTs,
        b, was, done, all);
      more, nextStart := next < to, lineEnd + 1;
    }
  }

  /** read_history_range, with what the file holds in the buffer. */
  method ReadHistoryRange(history: History, buffer: array<char>, from: int, to: int, comment: char, now: string)
    requires history.Valid() && !(history.stifled && history.maxEntries == 0)
    modifies history`slots, history`size, history`length, history`base, history`contents, history.slots, buffer
    ensures history.Valid()
    ensures history.contents ==
      Kept(old(history.contents) + ReadRange(old(buffer[..]), from, to, comment, now),
           history.stifled, history.maxEntries)
  {
    ghost var b, was := buffer[..], history.contents;
    var lineStart, currentLine := SkipLines(buffer, from, comment);
    var end := if to < 0 then buffer.Length else to;
    ghost var all := Gobble(FileLines(b, lineStart), currentLine, end, comment, now, None);
    NothingMade(FileLines(b, lineStart), currentLine, end, comment, now);
    assert was + [] == was;
    GobbleLines(history, buffer, lineStart, currentLine, end, comment, now, b, was, all);
  }
}
