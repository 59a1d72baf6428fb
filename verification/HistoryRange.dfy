/**
 Reading a range of a history file (readline-6.2/histfile.c): of a file without times, and of one that was written.
*/
module HistoryRange {
  import opened HistoryStore
  import opened HistoryFile
  import opened Options
  import opened Characters

  // ----- ranges of lines -----

  /** No line behind the first looks like a time. */
  predicate Untimed(b: string, i: nat, comment: char)
    requires i <= |b|
    decreases |b| - i
  {
    var e := LineEnd(b, i);
    e == |b| || (!StampAt(b, e + 1, comment) && Untimed(b, e + 1, comment))
  }

  predicate NoStamps(ls: seq<string>, comment: char) {
    forall k | 0 <= k < |ls| :: !IsStamp(ls[k], comment)
  }

  function Least(a: int, b: int): int { if a < b then a else b }

  /** Without times, passing over lines leaves out as many as asked for. */
  lemma {:induction false} SkipDrops(b: string, i: nat, current: int, from: int, comment: char)
    requires i <= |b| && Untimed(b, i, comment) && current <= from
    ensures var (start, reached) := Skip(b, i, current, from, comment);
      var k := Least(from - current, |FileLines(b, i)|);
      FileLines(b, start) == FileLines(b, i)[k..] && reached == current + k
    decreases |b| - i
  {
    var e := LineEnd(b, i);
    if current < from && e < |b| {
      SkipDrops(b, e + 1, current + 1, from, comment);
      var ls, later := FileLines(b, i), FileLines(b, e + 1);
      var k := Least(from - (current + 1), |later|);
      assert ls[k + 1..] == later[k..];
    }
  }

  /** The entries of the lines, without any times. */
  function Entries(ls: seq<string>, now: string): seq<Entry> {
    if ls == [] then []
    else if ls[0] == [] then Entries(ls[1..], now)
    else [Entry(ls[0], now)] + Entries(ls[1..], now)
  }

  /** What the lines behind one that was counted give. */
  function GobbleOn(ls: seq<string>, current: int, to: int, comment: char, now: string): seq<Entry> {
    if current + 1 >= to then [] else Gobble(ls, current + 1, to, comment, now, None)
  }

  /** The first of some lines that are no times. */
  lemma GobbleFirstOf(l: string, ls: seq<string>, current: int, to: int, comment: char, now: string)
    requires !IsStamp(l, comment)
    ensures var rest := GobbleOn(ls, current, to, comment, now);
      Gobble([l] + ls, current, to, comment, now, None) == if l == [] then rest else [Entry(l, now)] + rest
  {
    assert ([l] + ls)[1..] == ls;
  }

  /** Without times, reading takes the lines up to the last one asked for, and always one if there is one. */
  lemma {:induction false} GobbleTakes(ls: seq<string>, current: int, to: int, comment: char, now: string)
    requires NoStamps(ls, comment)
    ensures var m := Least(if to > current then to - current else 1, |ls|);
      Gobble(ls, current, to, comment, now, None) == Entries(ls[..m], now)
    decreases |ls|, 0
  {
    if ls != [] {
      var m := Least(if to > current then to - current else 1, |ls|);
      var l, rest := ls[0], ls[1..];
      assert ls == [l] + rest && ls[..m] == [l] + rest[..m - 1];
      GobbleFirstOf(l, rest, current, to, comment, now);
      EntriesCons(l, rest[..m - 1], now);
      RestTakes(rest, current, to, comment, now, m - 1);
    }
  }

  lemma {:induction false} RestTakes(ls: seq<string>, current: int, to: int, comment: char, now: string, m: nat)
    requires NoStamps(ls, comment) && m + 1 == Least(if to > current then to - current else 1, |ls| + 1)
    ensures GobbleOn(ls, current, to, comment, now) == Entries(ls[..m], now)
    decreases |ls|, 1
  {
    if current + 1 < to {
      GobbleTakes(ls, current + 1, to, comment, now);
    }
  }

  lemma TakesFrom(ls: seq<string>, k: nat, to: int, comment: char, now: string)
    requires k <= |ls| && NoStamps(ls, comment)
    ensures Gobble(ls[k..], k, to, comment, now, None) ==
      Entries(ls[k..Least(if to > k then to else k + 1, |ls|)], now)
  {
    GobbleTakes(ls[k..], k, to, comment, now);
    var m := Least(if to > k then to else k + 1, |ls|);
    assert ls[k..][..m - k] == ls[k..m];
  }

  /** The line behind the last one that is read; one that is not negative but before the start asks for one line. */
  function RangeEnd(k: nat, to: int, n: nat): (m: nat)
    requires k <= n
    ensures k <= m <= n
  {
    if to < 0 then n else Least(if to > k then to else k + 1, n)
  }

  lemma RangeFrom(b: string, ls: seq<string>, k: nat, to: int, comment: char, now: string)
    requires k <= |ls| <= |b| && NoStamps(ls, comment)
    ensures Gobble(ls[k..], k, if to < 0 then |b| else to, comment, now, None) ==
      Entries(ls[k..RangeEnd(k, to, |ls|)], now)
  {
    TakesFrom(ls, k, if to < 0 then |b| else to, comment, now);
  }

  /** A range of the lines of a file without times. */
  lemma RangeWithoutTimes(b: string, from: nat, to: int, comment: char, now: string)
    requires Untimed(b, 0, comment) && NoStamps(FileLines(b, 0), comment)
    ensures var ls := FileLines(b, 0);
      var k := Least(from, |ls|);
      ReadRange(b, from, to, comment, now) == Entries(ls[k..RangeEnd(k, to, |ls|)], now)
  {
    var ls := FileLines(b, 0);
    var k := Least(from, |ls|);
    SkipDrops(b, 0, 0, from, comment);
    FewerLines(b, 0);
    RangeFrom(b, ls, k, to, comment, now);
    var (start, reached) := Skip(b, 0, 0, from, comment);
    assert FileLines(b, start) == ls[k..] && reached == k;
  }

  lemma EntriesCons(l: string, ls: seq<string>, now: string)
    ensures Entries([l] + ls, now) == if l == [] then Entries(ls, now) else [Entry(l, now)] + Entries(ls, now)
  {
    assert ([l] + ls)[1..] == ls;
  }

  lemma {:induction false} EmptyLines(ls: seq<string>, now: string)
    ensures Entries(ls, now) == [] <==> forall j | 0 <= j < |ls| :: ls[j] == []
  {
    if ls != [] {
      EmptyLines(ls[1..], now);
      assert forall j | 0 < j < |ls| :: ls[j] == ls[1..][j - 1];
      assert forall j | 0 <= j < |ls| - 1 :: ls[1..][j] == ls[j + 1];
    }
  }

  /**
   An end that is not negative and lies before the start gives everything from the start on if and only if all lines
   behind the first of them are empty.
  */
  lemma EndBeforeStart(b: string, from: nat, to: int, comment: char, now: string)
    requires Untimed(b, 0, comment) && NoStamps(FileLines(b, 0), comment) && 0 <= to < from
    ensures var ls := FileLines(b, 0);
      var k := Least(from, |ls|);
      ReadRange(b, from, to, comment, now) == Entries(ls[k..], now) <==> forall j | k < j < |ls| :: ls[j] == []
  {
    var ls := FileLines(b, 0);
    var k := Least(from, |ls|);
    RangeWithoutTimes(b, from, to, comment, now);
    assert RangeEnd(k, to, |ls|) == if k < |ls| then k + 1 else k;
    if k < |ls| {
      FirstOnly(ls, k, now);
    } else {
      assert ls[k..] == ls[k..k];
    }
  }

  /** One line gives the same as all from there on exactly if the others are empty. */
  lemma FirstOnly(ls: seq<string>, k: nat, now: string)
    requires k < |ls|
    ensures Entries(ls[k..k + 1], now) == Entries(ls[k..], now) <==> forall j | k < j < |ls| :: ls[j] == []
  {
    var rest := ls[k + 1..];
    assert ls[k..] == [ls[k]] + rest && ls[k..k + 1] == [ls[k]] + [];
    EntriesCons(ls[k], rest, now);
    EntriesCons(ls[k], [], now);
    EmptyLines(rest, now);
    assert forall j | 0 <= j < |rest| :: rest[j] == ls[k + 1 + j];
    assert forall j | k < j < |ls| :: ls[j] == rest[j - k - 1];
  }

  // ----- ranges of a written list -----

  /** Entries that come back: see LinesComeBack. */
  predicate AllFit(es: seq<Entry>, times: bool, comment: char) {
    (forall e | e in es :: Fits(e.line, comment) && NoNul(e.line)) && TimesFit(es, times, comment)
  }

  predicate EntryFits(e: Entry, times: bool, comment: char) {
    Fits(e.line, comment) && (Stamped(e, times) ==> IsStamp(e.timestamp, comment))
  }

  /** The entries from the n-th on come back. */
  predicate FitFrom(es: seq<Entry>, n: nat, times: bool, comment: char)
    requires n <= |es|
    decreases |es| - n
  {
    n == |es| || (EntryFits(es[n], times, comment) && FitFrom(es, n + 1, times, comment))
  }

  lemma {:induction false} AllFitFrom(es: seq<Entry>, n: nat, times: bool, comment: char)
    requires n <= |es| && AllFit(es, times, comment)
    ensures FitFrom(es, n, times, comment)
    decreases |es| - n
  {
    if n < |es| {
      assert es[n] in es;
      AllFitFrom(es, n + 1, times, comment);
    }
  }

  /** At i is the line of the n-th entry, its time being behind already, and then everything that comes later. */
  predicate AtLine(b: string, i: nat, es: seq<Entry>, n: nat, times: bool)
    requires n < |es|
  {
    LineAt(b, i, es[n].line) && WrittenAt(b, i + |es[n].line| + 1, es, n + 1, times)
  }

  /** The entry at which reading starts: one too early if the first entry has a time. */
  function RangeStart(es: seq<Entry>, from: int, times: bool): (s: nat)
    ensures s <= |es|
  {
    if from <= 0 || es == [] then 0
    else Least(if Stamped(es[0], times) then from - 1 else from, |es|)
  }

  /** How many entries are read: always one if a line was passed over, but none if only a time is asked for. */
  function RangeCount(es: seq<Entry>, from: int, to: int, times: bool): (m: nat)
    ensures m <= |es| - RangeStart(es, from, times)
  {
    var left := |es| - RangeStart(es, from, times);
    if to < 0 || es == [] then left
    else if from <= 0 then (if to > 0 then Least(to, left) else if Stamped(es[0], times) then 0 else 1)
    else Least(if to > from then to - from else 1, left)
  }

  /** The first entry without its time, if lines were passed over. */
  function Forgotten(es: seq<Entry>, from: int, now: string): seq<Entry> {
    if es == [] || from <= 0 then es else [Entry(es[0].line, now)] + es[1..]
  }

  /** An entry that was written with its time, if it has one, and read. */
  function Back(e: Entry, times: bool, now: string): Entry {
    Entry(e.line, if Stamped(e, times) then e.timestamp else now)
  }

  /** m entries from the n-th on; those without a written time get the time of reading. */
  function Taken(es: seq<Entry>, n: nat, m: nat, times: bool, now: string): (r: seq<Entry>)
    requires n + m <= |es|
    ensures |r| == m
    decreases m
  {
    if m == 0 then [] else [Back(es[n], times, now)] + Taken(es, n + 1, m - 1, times, now)
  }

  lemma {:induction false} TakenToEnd(es: seq<Entry>, n: nat, times: bool, now: string)
    requires n <= |es|
    ensures Taken(es, n, |es| - n, times, now) == Restamped(es, n, times, now)
    decreases |es| - n
  {
    if n < |es| {
      TakenToEnd(es, n + 1, times, now);
    }
  }

  lemma {:induction false} WrittenLong(es: seq<Entry>, n: nat, times: bool, comment: char)
    requires n <= |es| && FitFrom(es, n, times, comment)
    ensures |Written(es, n, times)| >= 2 * (|es| - n)
    decreases |es| - n
  {
    if n < |es| {
      WrittenLong(es, n + 1, times, comment);
    }
  }

  /** A line that fits is not taken for a time where it is written. */
  lemma FitsNoStamp(b: string, i: nat, s: string, comment: char)
    requires LineAt(b, i, s) && Fits(s, comment)
    ensures !StampAt(b, i, comment) && LineEnd(b, i) == i + |s|
  {
    LineIs(b, i, s);
    assert b[i..i + |s|][0] == s[0] && (|s| > 1 ==> b[i..i + |s|][1] == s[1]);
    forall j | i <= j < i + |s|
      ensures b[j] != '\n'
    {
      assert b[j] == b[i..i + |s|][j - i];
    }
    LineEndAt(b, i, i + |s|);
  }

  lemma TimeStamps(b: string, i: nat, t: string, comment: char)
    requires LineAt(b, i, t) && OneLine(t) && IsStamp(t, comment)
    ensures StampAt(b, i, comment) && LineEnd(b, i) == i + |t|
  {
    LineIs(b, i, t);
    assert b[i..i + |t|][0] == t[0] && b[i..i + |t|][1] == t[1];
    ReadLine(b, i, t);
  }

  /** From the line of one entry to the line of the next. */
  lemma SkipEntry(b: string, i: nat, es: seq<Entry>, n: nat, times: bool, current: int, from: int, comment: char)
    requires n + 1 < |es| && AtLine(b, i, es, n, times) && AllFit(es, times, comment) && current < from
    ensures var i' := i + |es[n].line| + 1 + if Stamped(es[n + 1], times) then |es[n + 1].timestamp| + 1 else 0;
      AtLine(b, i', es, n + 1, times) && Skip(b, i, current, from, comment) == Skip(b, i', current + 1, from, comment)
  {
    assert es[n] in es && es[n + 1] in es;
    FitsNoStamp(b, i, es[n].line, comment);
    var p, e := i + |es[n].line| + 1, es[n + 1];
    if Stamped(e, times) {
      TimeStamps(b, p, e.timestamp, comment);
      FitsNoStamp(b, p + |e.timestamp| + 1, e.line, comment);
    } else {
      FitsNoStamp(b, p, e.line, comment);
    }
  }

  /** From the line of an entry on, each entry is counted. */
  lemma {:induction false} SkipEntries(b: string, i: nat, es: seq<Entry>, n: nat, times: bool, current: int, from: int,
                                       comment: char)
    requires n < |es| && AtLine(b, i, es, n, times) && AllFit(es, times, comment) && current <= from
    ensures var (p, c) := Skip(b, i, current, from, comment);
      var s := n + (from - current);
      if s < |es| then AtLine(b, p, es, s, times) && c == from else p == |b|
    decreases |es| - n
  {
    assert es[n] in es;
    if current < from {
      if n + 1 < |es| {
        SkipEntry(b, i, es, n, times, current, from, comment);
        var i' := i + |es[n].line| + 1 + if Stamped(es[n + 1], times) then |es[n + 1].timestamp| + 1 else 0;
        SkipEntries(b, i', es, n + 1, times, current + 1, from, comment);
      } else {
        FitsNoStamp(b, i, es[n].line, comment);
      }
    }
  }

  /** A time at the start counts as a line. */
  lemma SkipTime(b: string, t: string, s: string, from: int, comment: char)
    requires LineAt(b, 0, t) && OneLine(t) && IsStamp(t, comment)
    requires LineAt(b, |t| + 1, s) && Fits(s, comment) && from > 0
    ensures Skip(b, 0, 0, from, comment) == Skip(b, |t| + 1, 1, from, comment)
  {
    TimeStamps(b, 0, t, comment);
    FitsNoStamp(b, |t| + 1, s, comment);
  }

  /** Where passing over lines ends in what was written. */
  lemma SkipWritten(b: string, es: seq<Entry>, times: bool, from: int, comment: char)
    requires WrittenAt(b, 0, es, 0, times) && AllFit(es, times, comment) && from > 0 && es != []
    ensures var (p, c) := Skip(b, 0, 0, from, comment);
      var s := RangeStart(es, from, times);
      if s < |es| then AtLine(b, p, es, s, times) && c == from else p == |b|
  {
    assert es[0] in es;
    if Stamped(es[0], times) {
      SkipTime(b, es[0].timestamp, es[0].line, from, comment);
      SkipEntries(b, |es[0].timestamp| + 1, es, 0, times, 1, from, comment);
    } else {
      SkipEntries(b, 0, es, 0, times, 0, from, comment);
    }
  }

  lemma GobbleLineOf(l: string, ls: seq<string>, current: int, to: int, comment: char, now: string, ts: Option<string>)
    requires Fits(l, comment)
    ensures var e := Entry(l, if ts.Some? then ts.value else now);
      Gobble([l] + ls, current, to, comment, now, ts) ==
      [e] + GobbleOn(ls, current, to, comment, now)
  {
    assert ([l] + ls)[1..] == ls;
  }

  lemma GobbleTime(t: string, ls: seq<string>, current: int, to: int, comment: char, now: string)
    requires IsStamp(t, comment)
    ensures Gobble([t] + ls, current, to, comment, now, None) ==
      if current >= to then [] else Gobble(ls, current, to, comment, now, Some(t))
  {
    assert ([t] + ls)[1..] == ls;
    assert Made(t, None, comment, now) == [];
  }

  /** An entry is read with its time. */
  lemma GobbleEntry(e: Entry, later: seq<string>, times: bool, current: int, to: int, comment: char, now: string)
    requires EntryFits(e, times, comment) && (current < to || !Stamped(e, times))
    ensures Gobble(Before(e, times, later), current, to, comment, now, None) ==
      [Back(e, times, now)] + if current + 1 >= to then [] else Gobble(later, current + 1, to, comment, now, None)
  {
    if Stamped(e, times) {
      GobbleTime(e.timestamp, [e.line] + later, current, to, comment, now);
      GobbleLineOf(e.line, later, current, to, comment, now, Some(e.timestamp));
    } else {
      GobbleLineOf(e.line, later, current, to, comment, now, None);
    }
  }

  /** The entries from the n-th on are gobbled one after the other, m of them. */
  predicate Gobbles(es: seq<Entry>, n: nat, m: nat, times: bool, current: int, to: int, comment: char, now: string)
    requires n + m <= |es|
  {
    Gobble(WrittenLines(es, n, times), current, to, comment, now, None) == Taken(es, n, m, times, now)
  }

  lemma GobbleOneMore(es: seq<Entry>, n: nat, m: nat, times: bool, current: int, to: int, comment: char, now: string)
    requires 0 < m && n + m <= |es| && EntryFits(es[n], times, comment) && (current < to || !Stamped(es[n], times))
    requires if current + 1 >= to then m == 1 else Gobbles(es, n + 1, m - 1, times, current + 1, to, comment, now)
    ensures Gobbles(es, n, m, times, current, to, comment, now)
  {
    GobbleEntry(es[n], WrittenLines(es, n + 1, times), times, current, to, comment, now);
  }

  /** Of the lines of entries, reading takes as many entries as there are still to count. */
  lemma {:induction false} GobbleSome(es: seq<Entry>, n: nat, m: nat, times: bool, current: int, to: int, comment: char,
                                      now: string)
    requires n + m <= |es| && FitFrom(es, n, times, comment) && current < to
    requires current + m == to || (n + m == |es| && current + m <= to)
    ensures Gobbles(es, n, m, times, current, to, comment, now)
    decreases m
  {
    if m > 0 {
      if current + 1 < to {
        GobbleSome(es, n + 1, m - 1, times, current + 1, to, comment, now);
      }
      GobbleOneMore(es, n, m, times, current, to, comment, now);
    }
  }

  /** The lines behind a line of an entry. */
  lemma LinesFrom(b: string, i: nat, es: seq<Entry>, n: nat, times: bool, comment: char)
    requires n < |es| && AtLine(b, i, es, n, times) && AllFit(es, times, comment)
    ensures FileLines(b, i) == [es[n].line] + WrittenLines(es, n + 1, times)
  {
    assert es[n] in es;
    FirstLine(b, i, es[n].line);
    WrittenInside(b, i + |es[n].line| + 1, es, n + 1, times);
    FileLinesWritten(b, i + |es[n].line| + 1, es, n + 1, times, comment);
  }

  lemma {:induction false} WrittenInside(b: string, i: nat, es: seq<Entry>, n: nat, times: bool)
    requires n <= |es| && WrittenAt(b, i, es, n, times)
    ensures i <= |b|
    decreases |es| - n
  {
    if n < |es| {
      WrittenInside(b, i + EntryLength(es[n], times), es, n + 1, times);
    }
  }

  /** Reading on from a line of an entry: m entries, the first one without its time. */
  lemma GobbleBehind(es: seq<Entry>, s: nat, m: nat, times: bool, from: int, end: int, comment: char, now: string)
    requires s < |es| && FitFrom(es, s, times, comment) && from > 0
    requires m == Least(if end > from then end - from else 1, |es| - s)
    ensures Gobble([es[s].line] + WrittenLines(es, s + 1, times), from, end, comment, now, None) ==
      Forgotten(Taken(es, s, m, times, now), from, now)
  {
    var ls, later := WrittenLines(es, s + 1, times), Taken(es, s + 1, m - 1, times, now);
    OthersTaken(es, s + 1, m - 1, times, from, end, comment, now);
    assert GobbleOn(ls, from, end, comment, now) == later;
    GobbleLineOf(es[s].line, ls, from, end, comment, now, None);
    ForgetFirst(es, s, m, times, from, now);
  }

  /** The entries behind the first one. */
  lemma OthersTaken(es: seq<Entry>, s: nat, m: nat, times: bool, from: int, end: int, comment: char, now: string)
    requires s <= |es| && FitFrom(es, s, times, comment)
    requires m + 1 == Least(if end > from then end - from else 1, |es| - s + 1)
    ensures s + m <= |es|
    ensures GobbleOn(WrittenLines(es, s, times), from, end, comment, now) == Taken(es, s, m, times, now)
  {
    if from + 1 < end {
      GobbleSome(es, s, m, times, from + 1, end, comment, now);
    }
  }

  lemma ForgetFirst(es: seq<Entry>, s: nat, m: nat, times: bool, from: int, now: string)
    requires 0 < m && s + m <= |es| && from > 0
    ensures Forgotten(Taken(es, s, m, times, now), from, now) ==
      [Entry(es[s].line, now)] + Taken(es, s + 1, m - 1, times, now)
  {
  }

  /** A whole file is long enough for all of its entries to be counted. */
  lemma CountBehind(es: seq<Entry>, times: bool, from: int, to: int, size: nat)
    requires from > 0 && RangeStart(es, from, times) < |es| && size >= 2 * |es|
    ensures var end := if to < 0 then size else to;
      RangeCount(es, from, to, times) ==
      Least(if end > from then end - from else 1, |es| - RangeStart(es, from, times))
  {
  }

  /** A range that passes over lines. */
  lemma RangeBehind(b: string, es: seq<Entry>, times: bool, comment: char, now: string, from: int, to: int)
    requires WrittenAt(b, 0, es, 0, times) && AllFit(es, times, comment) && from > 0 && es != [] && |b| >= 2 * |es|
    ensures ReadRange(b, from, to, comment, now) ==
      Forgotten(Taken(es, RangeStart(es, from, times), RangeCount(es, from, to, times), times, now), from, now)
  {
    var s, end := RangeStart(es, from, times), if to < 0 then |b| else to;
    var (p, c) := Skip(b, 0, 0, from, comment);
    SkipWritten(b, es, times, from, comment);
    if s < |es| {
      LinesFrom(b, p, es, s, times, comment);
      CountBehind(es, times, from, to, |b|);
      AllFitFrom(es, s, times, comment);
      GobbleBehind(es, s, RangeCount(es, from, to, times), times, from, end, comment, now);
    }
  }

  /**
   Reading a range of a file that was written: which entries come, and that one behind passed lines comes without its
   time.
  */
  lemma RangeOfWritten(es: seq<Entry>, times: bool, comment: char, now: string, from: int, to: int)
    requires AllFit(es, times, comment)
    ensures ReadRange(Written(es, 0, times), from, to, comment, now) ==
      Forgotten(Taken(es, RangeStart(es, from, times), RangeCount(es, from, to, times), times, now), from, now)
  {
    var b, end := Written(es, 0, times), if to < 0 then |Written(es, 0, times)| else to;
    assert b[0..] == b;
    WrittenIsAt(b, 0, es, 0, times);
    AllFitFrom(es, 0, times, comment);
    WrittenLong(es, 0, times, comment);
    if es == [] {
      assert FileLines(b, 0) == [];
    } else if from > 0 {
      RangeBehind(b, es, times, comment, now, from, to);
    } else {
      assert Skip(b, 0, 0, from, comment) == (0, 0);
      FileLinesWritten(b, 0, es, 0, times, comment);
      if 0 < end {
        GobbleSome(es, 0, RangeCount(es, from, to, times), times, 0, end, comment, now);
      } else if Stamped(es[0], times) {
        assert es[0] in es;
        GobbleTime(es[0].timestamp, [Cut(es[0].line)] + WrittenLines(es, 1, times), 0, end, comment, now);
      } else {
        GobbleOneMore(es, 0, 1, times, 0, end, comment, now);
      }
    }
  }

  lemma {:induction false} TakenEach(es: seq<Entry>, n: nat, m: nat, times: bool, now: string, k: nat)
    requires n + m <= |es| && k < m
    ensures var e := es[n + k];
            Taken(es, n, m, times, now)[k] ==
              Entry(e.line, if times && e.timestamp != "" then e.timestamp else now)
    decreases m
  {
    if k > 0 {
      TakenEach(es, n + 1, m - 1, times, now, k - 1);
    }
  }

  lemma NothingForgotten(es: seq<Entry>, from: int, now: string)
    requires from > 0 && es != [] ==> es[0].timestamp == now
    ensures Forgotten(es, from, now) == es
  {
  }

  /** Where passing over entries is right, a range gives the entries from its start up to its end. */
  lemma RangeIsSlice(es: seq<Entry>, times: bool, comment: char, now: string, from: nat, to: nat)
    requires AllFit(es, times, comment) && from < to <= |es|
    requires from > 0 && times ==> es[0].timestamp == "" && es[from].timestamp == ""
    ensures var r := ReadRange(Written(es, 0, times), from, to, comment, now);
            |r| == to - from && forall k | 0 <= k < |r| ::
              var e := es[from + k]; r[k] == Entry(e.line, if times && e.timestamp != "" then e.timestamp else now)
  {
    RangeIsTaken(es, times, comment, now, from, to);
    TakenAll(es, from, to - from, times, now, ReadRange(Written(es, 0, times), from, to, comment, now));
  }

  lemma RangeIsTaken(es: seq<Entry>, times: bool, comment: char, now: string, from: nat, to: nat)
    requires AllFit(es, times, comment) && from < to <= |es|
    requires from > 0 && times ==> es[0].timestamp == "" && es[from].timestamp == ""
    ensures ReadRange(Written(es, 0, times), from, to, comment, now) == Taken(es, from, to - from, times, now)
  {
    RangeOfWritten(es, times, comment, now, from, to);
    assert RangeStart(es, from, times) == from && RangeCount(es, from, to, times) == to - from;
    TakenEach(es, from, to - from, times, now, 0);
    NothingForgotten(Taken(es, from, to - from, times, now), from, now);
  }

  lemma TakenAll(es: seq<Entry>, n: nat, m: nat, times: bool, now: string, r: seq<Entry>)
    requires n + m <= |es| && r == Taken(es, n, m, times, now)
    ensures |r| == m && forall k | 0 <= k < |r| ::
              var e := es[n + k]; r[k] == Entry(e.line, if times && e.timestamp != "" then e.timestamp else now)
  {
    forall k | 0 <= k < |r|
      ensures var e := es[n + k]; r[k] == Entry(e.line, if times && e.timestamp != "" then e.timestamp else now)
    {
      TakenEach(es, n, m, times, now, k);
    }
  }

  /**
   Passing over k entries is right if and only if there are fewer, or the first entry has no time and neither has the
   one that reading then starts at.  Otherwise reading starts one entry early, or an entry loses its time.
  */
  lemma SkipLosesTime(es: seq<Entry>, times: bool, comment: char, now: string, k: nat)
    requires AllFit(es, times, comment) && k > 0
    ensures ReadRange(Written(es, 0, times), k, -1, comment, now) == Restamped(es, Least(k, |es|), times, now) <==>
      k > |es| ||
      (!Stamped(es[0], times) && (k == |es| || !Stamped(es[k], times) || es[k].timestamp == now))
  {
    RangeOfWritten(es, times, comment, now, k, -1);
    var s, n := RangeStart(es, k, times), Least(k, |es|);
    TakenToEnd(es, s, times, now);
    TakenToEnd(es, n, times, now);
  }

  /** With a time at the only entry, passing over one gives that entry again, without its time. */
  lemma SkipStartsEarly(e: Entry, comment: char, now: string)
    requires AllFit([e], true, comment) && Stamped(e, true)
    ensures ReadRange(Written([e], 0, true), 1, -1, comment, now) == [Entry(e.line, now)]
    ensures Restamped([e], 1, true, now) == []
  {
    RangeOfWritten([e], true, comment, now, 1, -1);
    assert Taken([e], 0, 1, true, now) == [Back(e, true, now)] + Taken([e], 1, 0, true, now);
  }

  /** Such an entry. */
  lemma OneFits()
    ensures var e := Entry("a", "#1"); AllFit([e], true, '#') && Stamped(e, true)
  {
  }

  /** With an end before the start, one of three entries is read and not the last two. */
  lemma EndBeforeStartStops(now: string)
    ensures var es := [Entry("a", ""), Entry("b", ""), Entry("c", "")];
      ReadRange(Written(es, 0, false), 1, 0, '#', now) == [Entry("b", now)]
  {
    var es := [Entry("a", ""), Entry("b", ""), Entry("c", "")];
    assert AllFit(es, false, '#');
    RangeOfWritten(es, false, '#', now, 1, 0);
    assert Taken(es, 1, 1, false, now) == [Back(es[1], false, now)] + Taken(es, 2, 0, false, now);
  }
}
