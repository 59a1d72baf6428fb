/**
 The undo log (readline-6.2/undo.c), as a value.

 Reverting a record takes the text back to what it was when the record was logged.  Before(l, j) is the text that
 the log claims the line had when it held j records; every editing operation must keep all of these.
*/
module Undo {
  datatype UndoCode = UndoDelete | UndoInsert | UndoBegin | UndoEnd

  /** UNDO_LIST without its link: the log is the sequence of records, the newest first. */
  datatype Record = Record(what: UndoCode, start: nat, end: nat, text: string)

  datatype Line = Line(text: string, point: nat, log: seq<Record>)

  const BEGIN := Record(UndoBegin, 0, 0, "")
  const END := Record(UndoEnd, 0, 0, "")

  // ----- taking records back -----

  predicate Fits(r: Record, text: string) {
    match r.what
    case UndoDelete => r.start <= |text|
    case UndoInsert => r.start <= r.end <= |text|
    case _ => true
  }

  function Revert(r: Record, text: string): string
    requires Fits(r, text)
  {
    match r.what
    case UndoDelete => text[..r.start] + r.text + text[r.start..]
    case UndoInsert => text[..r.start] + text[r.end..]
    case _ => text
  }

  /** Every record fits the text it will meet. */
  predicate Sound(text: string, log: seq<Record>)
    decreases |log|
  {
    log == [] || (Fits(log[0], text) && Sound(Revert(log[0], text), log[1..]))
  }

  /** The text after the n newest records were reverted. */
  function Rewind(text: string, log: seq<Record>, n: nat): string
    requires Sound(text, log) && n <= |log|
    decreases n
  {
    if n == 0 then text else Rewind(Revert(log[0], text), log[1..], n - 1)
  }

  /** The text of the line when the log held j records. */
  function Before(l: Line, j: nat): string
    requires Sound(l.text, l.log) && j <= |l.log|
  {
    Rewind(l.text, l.log, |l.log| - j)
  }

  lemma {:induction false} RewindSound(text: string, log: seq<Record>, n: nat)
    requires Sound(text, log) && n <= |log|
    ensures Sound(Rewind(text, log, n), log[n..])
    decreases n
  {
    if n == 0 {
      assert log[0..] == log;
    } else {
      RewindSound(Revert(log[0], text), log[1..], n - 1);
      assert log[1..][n - 1..] == log[n..];
    }
  }

  lemma {:induction false} RewindSplit(text: string, log: seq<Record>, n: nat, k: nat)
    requires Sound(text, log) && n + k <= |log|
    ensures Sound(Rewind(text, log, n), log[n..])
    ensures Rewind(text, log, n + k) == Rewind(Rewind(text, log, n), log[n..], k)
    decreases n
  {
    if n == 0 {
      assert log[0..] == log;
    } else {
      var text1, log1 := Revert(log[0], text), log[1..];
      assert log1[n - 1..] == log[n..];
      RewindSplit(text1, log1, n - 1, k);
    }
  }

  // ----- what an operation must keep -----

  /**
   One operation from a to b.  For every record that was in the log and still is, or has just been taken back, the text
   it stands for is kept; and if records were added, the text that the oldest of them stands for is a's.
  */
  ghost predicate Step(a: Line, b: Line) {
    && Sound(a.text, a.log) && Sound(b.text, b.log)
    && (forall j: nat | j < |a.log| && j <= |b.log| :: Before(b, j) == Before(a, j))
    && (|b.log| > |a.log| ==> Before(b, |a.log|) == a.text)
  }

  /** A run of operations. */
  ghost predicate Run(lines: seq<Line>) {
    |lines| > 0 && forall i | 0 <= i < |lines| - 1 :: Step(lines[i], lines[i + 1])
  }

  /**
   Soundness over runs.  Start with j records, let the first operation log something, and let the log never go below
   that again; whatever happened in between, the record logged first still stands for the text at the start, and once
   it has been taken back the line has that text.
  */
  lemma {:induction false} RunRestores(lines: seq<Line>, j: nat)
    requires Run(lines) && |lines| > 1 && |lines[0].log| == j
    requires forall i | 0 < i < |lines| - 1 :: |lines[i].log| > j
    requires |lines[1].log| > j && |lines[|lines| - 1].log| >= j
    ensures Sound(lines[|lines| - 1].text, lines[|lines| - 1].log)
    ensures Before(lines[|lines| - 1], j) == lines[0].text
    ensures |lines[|lines| - 1].log| == j ==> lines[|lines| - 1].text == lines[0].text
    decreases |lines|
  {
    if |lines| > 2 {
      var most := lines[..|lines| - 1];
      assert most[|most| - 1] == lines[|lines| - 2];
      assert Run(most) by {
        forall i | 0 <= i < |most| - 1 ensures Step(most[i], most[i + 1]) {
          assert Step(lines[i], lines[i + 1]);
        }
      }
      RunRestores(most, j);
      assert Step(lines[|lines| - 2], lines[|lines| - 2 + 1]);
    } else {
      assert Step(lines[0], lines[0 + 1]);
    }
  }

  /** Over any run that starts with an empty log, taking every record back restores the text of the start. */
  lemma {:induction false} RunReverts(lines: seq<Line>)
    requires Run(lines) && lines[0].log == []
    requires forall i | 0 < i < |lines| :: |lines[i].log| > 0
    ensures Sound(lines[|lines| - 1].text, lines[|lines| - 1].log)
    ensures Before(lines[|lines| - 1], 0) == lines[0].text
  {
    if |lines| > 1 {
      RunRestores(lines, 0);
    }
  }

  // ----- groups -----

  /** The number of groups still to be closed after meeting a record while going back. */
  function Waiting(waiting: nat, r: Record): nat {
    match r.what
    case UndoEnd => waiting + 1
    case UndoBegin => if waiting > 0 then waiting - 1 else 0
    case _ => waiting
  }

  /** How many records one rl_do_undo takes back. */
  function PopCount(log: seq<Record>, waiting: nat): (n: nat)
    ensures n <= |log|
    ensures log != [] ==> n > 0
  {
    if log == [] then 0
    else if Waiting(waiting, log[0]) == 0 then 1
    else 1 + PopCount(log[1..], Waiting(waiting, log[0]))
  }

  /** Going back through the log, waiting groups find their beginnings, and open more beginnings have no end yet. */
  predicate Opened(log: seq<Record>, open: nat, waiting: nat) {
    if log == [] then open == 0 && waiting == 0
    else if log[0].what == UndoBegin && waiting == 0 then open > 0 && Opened(log[1..], open - 1, 0)
    else Opened(log[1..], open, Waiting(waiting, log[0]))
  }

  /** Going back through the log, waiting groups are open and all of them find their beginning. */
  predicate Nested(log: seq<Record>, waiting: nat) { Opened(log, 0, waiting) }

  /** An end closes the group that was begun last. */
  lemma {:induction false} EndCloses(log: seq<Record>, open: nat, waiting: nat)
    requires Opened(log, open, waiting) && open > 0
    ensures Opened(log, open - 1, waiting + 1)
  {
    if !(log[0].what == UndoBegin && waiting == 0) {
      EndCloses(log[1..], open, Waiting(waiting, log[0]));
    }
  }

  /** One rl_do_undo takes back an edit, a closed group, or the beginning of the group that is open. */
  lemma {:induction false} PopsOpened(log: seq<Record>, open: nat, waiting: nat)
    requires Opened(log, open, waiting) && log != []
    ensures var n := PopCount(log, waiting);
            Opened(log[n..], if log[0].what == UndoBegin && waiting == 0 then open - 1 else open, 0)
  {
    var n, w := PopCount(log, waiting), Waiting(waiting, log[0]);
    if w > 0 {
      PopsOpened(log[1..], open, w);
      assert log[1..][n - 1..] == log[n..];
    }
  }

  /** Whether an rl_do_undo ends because its group is complete, and not because the log is used up. */
  function Closes(log: seq<Record>, waiting: nat): bool {
    log != [] && (Waiting(waiting, log[0]) == 0 || Closes(log[1..], Waiting(waiting, log[0])))
  }

  /** Every closed group is complete. */
  lemma {:induction false} OpenedCloses(log: seq<Record>, open: nat, waiting: nat)
    requires Opened(log, open, waiting) && log != []
    ensures Closes(log, waiting)
  {
    if Waiting(waiting, log[0]) != 0 {
      OpenedCloses(log[1..], open, Waiting(waiting, log[0]));
    }
  }

  /** With one end too many, everything is taken back and the group is not complete. */
  lemma {:induction false} NeverCloses(log: seq<Record>, waiting: nat)
    requires Nested(log, waiting)
    ensures !Closes(log, waiting + 1) && PopCount(log, waiting + 1) == |log|
  {
    if log != [] {
      NeverCloses(log[1..], Waiting(waiting, log[0]));
    }
  }

  /** One rl_do_undo takes back a single edit, or a group from its end to its beginning; what is left is balanced. */
  lemma {:induction false} PopsOneGroup(log: seq<Record>, waiting: nat)
    requires Nested(log, waiting) && log != []
    ensures var n := PopCount(log, waiting);
            && Nested(log[n..], 0)
            && Nested(log[..n], waiting)
            && (waiting == 0 && n == 1 ==> log[0].what in {UndoDelete, UndoInsert})
            && (n > 1 || waiting > 0 ==> log[n - 1].what == UndoBegin)
            && (waiting == 0 && n > 1 ==> log[0].what == UndoEnd)
    decreases |log|
  {
    var n, w := PopCount(log, waiting), Waiting(waiting, log[0]);
    if w == 0 {
      assert log[..1][1..] == [];
    } else {
      PopsOneGroup(log[1..], w);
      assert log[1..][n - 1..] == log[n..];
      assert log[..n][1..] == log[1..][..n - 1];
    }
  }

  function Weight(r: Record): int {
    if r.what == UndoEnd then 1 else if r.what == UndoBegin then -1 else 0
  }

  /** The ends less the beginnings among the n newest records. */
  function Depth(log: seq<Record>, n: nat): int
    requires n <= |log|
  {
    if n == 0 then 0 else Depth(log[1..], n - 1) + Weight(log[0])
  }

  /**
   One rl_do_undo stops as soon as the groups that it has met the ends of are complete, and not before; it fails exactly
   if the log is used up first.
  */
  lemma {:induction false} PopsBalance(log: seq<Record>, waiting: nat)
    ensures var n := PopCount(log, waiting);
            && (forall k | 0 < k < n :: waiting + Depth(log, k) > 0)
            && (Closes(log, waiting) ==> n > 0 && waiting + Depth(log, n) <= 0)
            && (!Closes(log, waiting) ==> n == |log| && (log != [] ==> waiting + Depth(log, n) > 0))
  {
    if log != [] {
      var n, w := PopCount(log, waiting), Waiting(waiting, log[0]);
      assert Depth(log, 1) == Depth(log[1..], 0) + Weight(log[0]);
      if w > 0 {
        PopsBalance(log[1..], w);
        forall k | 0 < k < n
          ensures waiting + Depth(log, k) > 0
        {
          assert waiting + Depth(log, k) == w + Depth(log[1..], k - 1);
        }
      }
    }
  }

  /** The value of rl_do_undo. */
  function Undone(l: Line): Line
    requires Sound(l.text, l.log)
  {
    var n := PopCount(l.log, 0);
    Line(Rewind(l.text, l.log, n), PointAfter(l.text, l.point, l.log, n), l.log[n..])
  }

  /** Where reverting a record leaves point. */
  function PointAt(r: Record, point: nat): nat {
    match r.what
    case UndoDelete => r.start + |r.text|
    case UndoInsert => r.start
    case _ => point
  }

  /** Where reverting n records leaves point. */
  function PointAfter(text: string, point: nat, log: seq<Record>, n: nat): nat
    requires Sound(text, log) && n <= |log|
    decreases n
  {
    if n == 0 then point
    else PointAfter(Revert(log[0], text), PointAt(log[0], point), log[1..], n - 1)
  }

  lemma {:induction false} PointSnoc(text: string, point: nat, log: seq<Record>, n: nat)
    requires Sound(text, log) && n < |log|
    ensures PointAfter(text, point, log, n + 1) == PointAt(log[n], PointAfter(text, point, log, n))
    decreases n
  {
    if n > 0 {
      PointSnoc(Revert(log[0], text), PointAt(log[0], point), log[1..], n - 1);
    }
  }

  lemma {:induction false} PointSplit(text: string, point: nat, log: seq<Record>, n: nat, k: nat)
    requires Sound(text, log) && 0 < n && n + k <= |log|
    ensures Sound(Rewind(text, log, n), log[n..])
    ensures PointAfter(text, point, log, n + k)
         == PointAfter(Rewind(text, log, n), PointAfter(text, point, log, n), log[n..], k)
    decreases n
  {
    if n > 1 {
      assert log[1..][n - 1..] == log[n..];
      PointSplit(Revert(log[0], text), PointAt(log[0], point), log[1..], n - 1, k);
    }
  }

  /** The place of the oldest of the n newest records that is no mark of a group; -1 if there is none. */
  function OldestEdit(log: seq<Record>, n: nat): (k: int)
    requires n <= |log|
    ensures -1 <= k < n
  {
    if n == 0 then -1
    else if log[n - 1].what == UndoDelete || log[n - 1].what == UndoInsert then n - 1
    else OldestEdit(log, n - 1)
  }

  /** Where point is left by taking back the n newest records: behind text that was put back, or where text was. */
  predicate PointLeft(log: seq<Record>, n: nat, was: nat, now: nat)
    requires n <= |log|
  {
    var k := OldestEdit(log, n);
    if k < 0 then now == was
    else now == log[k].start + if log[k].what == UndoDelete then |log[k].text| else 0
  }

  lemma {:induction false} PointAfterEdits(text: string, point: nat, log: seq<Record>, n: nat)
    requires Sound(text, log) && n <= |log|
    ensures PointLeft(log, n, point, PointAfter(text, point, log, n))
  {
    if n > 0 {
      PointSnoc(text, point, log, n - 1);
      PointAfterEdits(text, point, log, n - 1);
    }
  }

  /** Where one rl_do_undo leaves point. */
  lemma UndonePoint(l: Line)
    requires Sound(l.text, l.log)
    ensures PointLeft(l.log, |l.log| - |Undone(l).log|, l.point, Undone(l).point)
  {
    PointAfterEdits(l.text, l.point, l.log, PopCount(l.log, 0));
  }

  lemma RewindSnoc(text: string, log: seq<Record>, n: nat)
    requires Sound(text, log) && n < |log|
    ensures Fits(log[n], Rewind(text, log, n))
    ensures Rewind(text, log, n + 1) == Revert(log[n], Rewind(text, log, n))
    ensures Sound(Rewind(text, log, n + 1), log[n + 1..])
  {
    RewindSplit(text, log, n, 1);
    RewindSound(text, log, n + 1);
    assert log[n..][0] == log[n];
  }

  /** Undoing is a step, and it restores the text from when the record, or the whole group, was begun. */
  lemma UndoStep(l: Line)
    requires Sound(l.text, l.log)
    ensures Step(l, Undone(l))
    ensures Undone(l).text == Before(l, |Undone(l).log|)
  {
    var n := PopCount(l.log, 0);
    RewindSound(l.text, l.log, n);
    forall j: nat | j < |l.log| && j <= |l.log| - n
      ensures Before(Undone(l), j) == Before(l, j)
    {
      RewindSplit(l.text, l.log, n, |l.log| - n - j);
    }
  }

  // ----- logging -----

  /** Putting a record on the log of a changed text is a step if reverting the record gives the old text back. */
  lemma PushStep(a: Line, b: Line, r: Record)
    requires Sound(a.text, a.log) && b.log == [r] + a.log && Fits(r, b.text) && Revert(r, b.text) == a.text
    ensures Step(a, b)
  {
    assert b.log[1..] == a.log;
    forall j: nat | j <= |a.log|
      ensures Sound(b.text, b.log) && Before(b, j) == Before(a, j)
    {
      assert Before(b, j) == Rewind(a.text, a.log, |a.log| - j);
    }
  }

  /** Changing the newest record together with the text is a step if reverting it gives the same as before. */
  lemma AmendStep(a: Line, b: Line, r: Record)
    requires Sound(a.text, a.log) && a.log != [] && b.log == [r] + a.log[1..]
    requires Fits(r, b.text) && Revert(r, b.text) == Revert(a.log[0], a.text)
    ensures Step(a, b)
  {
    assert b.log[1..] == a.log[1..];
    forall j: nat | j < |a.log|
      ensures Sound(b.text, b.log) && Before(b, j) == Before(a, j)
    {
      assert Before(b, j) == Rewind(Revert(a.log[0], a.text), a.log[1..], |a.log| - 1 - j);
    }
  }

  /** Two steps, the first of which logs something the second does not take back, make one. */
  lemma StepsCompose(a: Line, b: Line, c: Line)
    requires Step(a, b) && Step(b, c) && |a.log| < |b.log| && |a.log| < |c.log|
    ensures Step(a, c)
  {
  }
}
