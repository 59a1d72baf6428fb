/**
 The editing operations of readline-6.2/text.c on a line and its undo log, as functions of the line.

 Each of them is a Step: it keeps what every record of the log stands for.
*/
module Edits {
  import opened Undo
  import opened Characters

  // ----- inserting and deleting -----

  /** Typing one character directly behind the text of the newest record extends that record, up to 20 characters. */
  predicate Coalesces(l: Line, s: string) {
    && |s| == 1 && l.log != []
    && l.log[0].what == UndoInsert && l.log[0].end == l.point && l.log[0].end - l.log[0].start < 20
  }

  /** rl_insert_text. */
  function Inserted(l: Line, s: string): Line
    requires l.point <= |l.text|
  {
    if s == "" then l
    else
      var text := l.text[..l.point] + s + l.text[l.point..];
      var log := if Coalesces(l, s) then [l.log[0].(end := l.log[0].end + 1)] + l.log[1..]
                 else [Record(UndoInsert, l.point, l.point + |s|, "")] + l.log;
      Line(text, l.point + |s|, log)
  }

  function Min(a: nat, b: nat): nat { if a < b then a else b }

  /** rl_delete_text: the bounds may come in either order and may lie behind the end. */
  function Deleted(l: Line, from: nat, to: nat): Line {
    var a, b := Min(Min(from, to), |l.text|), Min(if from > to then from else to, |l.text|);
    Line(l.text[..a] + l.text[b..], l.point, [Record(UndoDelete, a, b, l.text[a..b])] + l.log)
  }

  /** What was typed is at point, which moves behind it; the text behind point has moved on. */
  lemma InsertedText(l: Line, s: string)
    requires l.point <= |l.text|
    ensures var m := Inserted(l, s);
            && |m.text| == |l.text| + |s| && m.point == l.point + |s|
            && (forall i | 0 <= i < l.point :: m.text[i] == l.text[i])
            && (forall i | l.point <= i < m.point :: m.text[i] == s[i - l.point])
            && (forall i | m.point <= i < |m.text| :: m.text[i] == l.text[i - |s|])
  {
  }

  /** The text between the two places, as far as there is any, is gone; the text behind has moved up. */
  lemma DeletedText(l: Line, from: nat, to: nat)
    ensures var t, m := l.text, Deleted(l, from, to);
            && m.point == l.point
            && (from <= to <= |t| ==> m.text == t[..from] + t[to..])
            && (from <= |t| < to ==> m.text == t[..from])
            && (|t| < from && |t| < to ==> m.text == t)
    ensures Deleted(l, from, to).text == Deleted(l, to, from).text
  {
  }

  function Logged(l: Line, r: Record): Line { l.(log := [r] + l.log) }

  lemma CutAndPaste(t: string, start: nat, end: nat)
    requires start <= end <= |t|
    ensures var cut := t[..start] + t[end..];
            cut[..start] + t[start..end] + cut[start..] == t
  {
  }

  lemma CutOut(a: string, s: string, b: string)
    ensures var t := a + s + b;
            t[..|a|] + t[|a| + |s|..] == a + b
  {
  }

  /** Removing a stretch and what was typed behind it is the same as removing the stretch from the old text. */
  lemma ExtendedInsert(t: string, start: nat, end: nat, s: string)
    requires start <= end <= |t|
    ensures var t' := t[..end] + s + t[end..];
            t'[..start] + t'[end + |s|..] == t[..start] + t[end..]
  {
  }

  lemma InsertStep(l: Line, s: string)
    requires Sound(l.text, l.log) && l.point <= |l.text|
    ensures Step(l, Inserted(l, s))
  {
    if s != "" {
      if Coalesces(l, s) {
        CoalescedStep(l, s);
      } else {
        LoggedInsertStep(l, s);
      }
    }
  }

  lemma CoalescedStep(l: Line, s: string)
    requires Sound(l.text, l.log) && l.point <= |l.text| && Coalesces(l, s)
    ensures Step(l, Inserted(l, s))
  {
    ExtendedInsert(l.text, l.log[0].start, l.point, s);
    AmendStep(l, Inserted(l, s), l.log[0].(end := l.log[0].end + 1));
  }

  lemma LoggedInsertStep(l: Line, s: string)
    requires Sound(l.text, l.log) && l.point <= |l.text| && s != "" && !Coalesces(l, s)
    ensures Step(l, Inserted(l, s))
  {
    CutOut(l.text[..l.point], s, l.text[l.point..]);
    assert l.text[..l.point] + l.text[l.point..] == l.text;
    PushStep(l, Inserted(l, s), Record(UndoInsert, l.point, l.point + |s|, ""));
  }

  lemma DeleteStep(l: Line, from: nat, to: nat)
    requires Sound(l.text, l.log)
    ensures Step(l, Deleted(l, from, to))
  {
    var l' := Deleted(l, from, to);
    CutAndPaste(l.text, l'.log[0].start, l'.log[0].end);
    PushStep(l, l', l'.log[0]);
  }

  lemma LogStep(l: Line, r: Record)
    requires Sound(l.text, l.log) && r.what in {UndoBegin, UndoEnd}
    ensures Step(l, Logged(l, r))
  {
    PushStep(l, Logged(l, r), r);
  }

  lemma MoveStep(l: Line, p: nat)
    requires Sound(l.text, l.log)
    ensures Step(l, l.(point := p))
  {
  }

  // ----- _rl_replace_text -----

  function Replaced(l: Line, s: string, start: nat, end: nat): Line
    requires start <= |l.text|
  {
    var l1 := Logged(l, BEGIN);
    var l2 := if start <= end then Deleted(l1, start, end + 1) else l1;
    Logged(Inserted(l2.(point := start), s), END)
  }

  /** The stretch has given way to the new text, and point is behind that. */
  lemma ReplacedText(l: Line, s: string, start: nat, end: nat)
    requires start <= |l.text|
    ensures var t, m := l.text, Replaced(l, s, start, end);
            && m.point == start + |s|
            && (end < start ==> m.text == t[..start] + s + t[start..])
            && (start <= end < |t| ==> m.text == t[..start] + s + t[end + 1..])
            && (start <= end && |t| <= end ==> m.text == t[..start] + s)
  {
    var l1 := Logged(l, BEGIN);
    var l2 := if start <= end then Deleted(l1, start, end + 1) else l1;
    var rest := if end < start then l.text[start..] else if end < |l.text| then l.text[end + 1..] else "";
    assert l2.text == l.text[..start] + rest;
    assert l2.text[..start] == l.text[..start] && l2.text[start..] == rest;
    InsertedAt(l2.(point := start), s);
  }

  lemma InsertedAt(l: Line, s: string)
    requires l.point <= |l.text|
    ensures Inserted(l, s).text == l.text[..l.point] + s + l.text[l.point..]
  {
    assert s == "" ==> l.text[..l.point] + s + l.text[l.point..] == l.text;
  }

  lemma ReplaceStep(l: Line, s: string, start: nat, end: nat)
    requires Sound(l.text, l.log) && start <= |l.text|
    ensures Step(l, Replaced(l, s, start, end))
  {
    var l1 := Logged(l, BEGIN);
    LogStep(l, BEGIN);
    var l2 := if start <= end then Deleted(l1, start, end + 1) else l1;
    if start <= end {
      DeleteStep(l1, start, end + 1);
      StepsCompose(l, l1, l2);
    }
    MoveStep(l2, start);
    StepsCompose(l, l2, l2.(point := start));
    var l3 := Inserted(l2.(point := start), s);
    InsertStep(l2.(point := start), s);
    StepsCompose(l, l2.(point := start), l3);
    LogStep(l3, END);
    StepsCompose(l, l3, Logged(l3, END));
  }

  // ----- words -----

  /** _rl_walphabetic in the C locale. */
  predicate IsWord(c: char) {
    'a' <= c <= 'z' || 'A' <= c <= 'Z' || '0' <= c <= '9'
  }

  /** The first position from p on where being in a word differs from inword. */
  function SkipOn(text: string, p: nat, inword: bool): (q: nat)
    requires p <= |text|
    ensures p <= q <= |text|
    decreases |text| - p
  {
    if p < |text| && IsWord(text[p]) == inword then SkipOn(text, p + 1, inword) else p
  }

  lemma {:induction false} SkipOnStops(text: string, p: nat, inword: bool)
    requires p <= |text|
    ensures var q := SkipOn(text, p, inword);
            && (forall i | p <= i < q :: IsWord(text[i]) == inword)
            && (q < |text| ==> IsWord(text[q]) != inword)
    decreases |text| - p
  {
    if p < |text| && IsWord(text[p]) == inword {
      SkipOnStops(text, p + 1, inword);
    }
  }

  function SkipBack(text: string, p: nat, inword: bool): (q: nat)
    requires p <= |text|
    ensures q <= p
  {
    if p > 0 && IsWord(text[p - 1]) == inword then SkipBack(text, p - 1, inword) else p
  }

  lemma {:induction false} SkipBackStops(text: string, p: nat, inword: bool)
    requires p <= |text|
    ensures var q := SkipBack(text, p, inword);
            && (forall i | q <= i < p :: IsWord(text[i]) == inword)
            && (q > 0 ==> IsWord(text[q - 1]) != inword)
  {
    if p > 0 && IsWord(text[p - 1]) == inword {
      SkipBackStops(text, p - 1, inword);
    }
  }

  /** The end of the next word, and the start of the previous one. */
  function NextWord(text: string, p: nat): (q: nat)
    requires p <= |text|
    ensures p <= q <= |text|
  {
    SkipOn(text, SkipOn(text, p, false), true)
  }

  function PreviousWord(text: string, p: nat): (q: nat)
    requires p <= |text|
    ensures q <= p
  {
    SkipBack(text, SkipBack(text, p, false), true)
  }

  /** rl_forward_word for count >= 0: to the end of the count-th word from p. */
  function ForwardWord(text: string, p: nat, count: nat): (q: nat)
    requires p <= |text|
    ensures p <= q <= |text|
    decreases count
  {
    if count == 0 then p else ForwardWord(text, NextWord(text, p), count - 1)
  }

  /** rl_backward_word for count >= 0: to the start of the count-th word before p. */
  function BackwardWord(text: string, p: nat, count: nat): (q: nat)
    requires p <= |text|
    ensures q <= p
    decreases count
  {
    if count == 0 then p else BackwardWord(text, PreviousWord(text, p), count - 1)
  }

  function MoveWords(text: string, p: nat, count: int): (q: nat)
    requires p <= |text|
    ensures q <= |text| && (count >= 0 ==> p <= q) && (count <= 0 ==> q <= p)
  {
    if count >= 0 then ForwardWord(text, p, count) else BackwardWord(text, p, -count)
  }

  lemma {:induction false} ForwardAtEnd(text: string, count: nat)
    ensures ForwardWord(text, |text|, count) == |text|
  {
    if count > 0 {
      ForwardAtEnd(text, count - 1);
    }
  }

  lemma {:induction false} BackwardAtStart(text: string, count: nat)
    ensures BackwardWord(text, 0, count) == 0
  {
    if count > 0 {
      BackwardAtStart(text, count - 1);
    }
  }

  /** A word ends before i, or starts at i. */
  predicate EndsWord(text: string, i: nat)
    requires 0 < i <= |text|
  {
    IsWord(text[i - 1]) && (i < |text| ==> !IsWord(text[i]))
  }

  predicate StartsWord(text: string, i: nat)
    requires i < |text|
  {
    IsWord(text[i]) && (i > 0 ==> !IsWord(text[i - 1]))
  }

  /** The number of words that end behind p and not behind q. */
  function WordEnds(text: string, p: nat, q: nat): nat
    requires p <= q <= |text|
    decreases q - p
  {
    if p == q then 0 else WordEnds(text, p + 1, q) + if EndsWord(text, p + 1) then 1 else 0
  }

  /** The number of words that start from q on and before p. */
  function WordStarts(text: string, q: nat, p: nat): nat
    requires q <= p <= |text|
    decreases p - q
  {
    if p == q then 0 else WordStarts(text, q, p - 1) + if StartsWord(text, p - 1) then 1 else 0
  }

  lemma {:induction false} EndsSplit(text: string, p: nat, m: nat, q: nat)
    requires p <= m <= q <= |text|
    ensures WordEnds(text, p, q) == WordEnds(text, p, m) + WordEnds(text, m, q)
    decreases m - p
  {
    if p < m {
      EndsSplit(text, p + 1, m, q);
    }
  }

  lemma {:induction false} StartsSplit(text: string, q: nat, m: nat, p: nat)
    requires q <= m <= p <= |text|
    ensures WordStarts(text, q, p) == WordStarts(text, q, m) + WordStarts(text, m, p)
    decreases p - m
  {
    if m < p {
      StartsSplit(text, q, m, p - 1);
    }
  }

  lemma {:induction false} NoEnds(text: string, p: nat, q: nat)
    requires p <= q <= |text| && forall i | p < i <= q :: !EndsWord(text, i)
    ensures WordEnds(text, p, q) == 0
    decreases q - p
  {
    if p < q {
      NoEnds(text, p + 1, q);
    }
  }

  lemma {:induction false} NoStarts(text: string, q: nat, p: nat)
    requires q <= p <= |text| && forall i | q <= i < p :: !StartsWord(text, i)
    ensures WordStarts(text, q, p) == 0
    decreases p - q
  {
    if q < p {
      NoStarts(text, q, p - 1);
    }
  }

  /** The end of the next word is the first one, or there is none. */
  lemma NextWordEnds(text: string, p: nat)
    requires p <= |text|
    ensures var q := NextWord(text, p);
            if q > p && EndsWord(text, q) then WordEnds(text, p, q) == 1
            else q == |text| && WordEnds(text, p, q) == 0
  {
    var b, q := SkipOn(text, p, false), NextWord(text, p);
    SkipOnStops(text, p, false);
    SkipOnStops(text, b, true);
    NoEnds(text, p, b);
    if b < q {
      NoEnds(text, b, q - 1);
      EndsSplit(text, p, b, q);
      EndsSplit(text, b, q - 1, q);
    }
  }

  lemma PreviousWordStarts(text: string, p: nat)
    requires p <= |text|
    ensures var q := PreviousWord(text, p);
            if q < p && StartsWord(text, q) then WordStarts(text, q, p) == 1
            else q == 0 && WordStarts(text, q, p) == 0
  {
    var b, q := SkipBack(text, p, false), PreviousWord(text, p);
    SkipBackStops(text, p, false);
    SkipBackStops(text, b, true);
    NoStarts(text, b, p);
    if q < b {
      NoStarts(text, q + 1, b);
      StartsSplit(text, q, b, p);
      StartsSplit(text, q, q + 1, b);
    }
  }

  /** From p to q there are count words: q is the end of the last of them, or the end of a text with fewer. */
  predicate WordsOn(text: string, p: nat, q: nat, count: nat) {
    && p <= q <= |text|
    && if WordEnds(text, p, q) == count then (if count == 0 then p == q else p < q && EndsWord(text, q))
       else q == |text| && WordEnds(text, p, q) < count
  }

  /** Back from p to q there are count words: q is the start of the last of them, or that of a text with fewer. */
  predicate WordsBack(text: string, p: nat, q: nat, count: nat) {
    && q <= p <= |text|
    && if WordStarts(text, q, p) == count then (if count == 0 then p == q else q < p && StartsWord(text, q))
       else q == 0 && WordStarts(text, q, p) < count
  }

  /** Moving over count words ends at the end of the count-th word from p, or at the end of a text with fewer. */
  lemma {:induction false} ForwardWordCounts(text: string, p: nat, count: nat)
    requires p <= |text|
    ensures WordsOn(text, p, ForwardWord(text, p, count), count)
    decreases count
  {
    if count > 0 {
      var m, q := NextWord(text, p), ForwardWord(text, p, count);
      NextWordEnds(text, p);
      ForwardWordCounts(text, m, count - 1);
      EndsSplit(text, p, m, q);
    }
  }

  /** Moving back over count words ends at the start of the count-th word before p, or at the start of the text. */
  lemma {:induction false} BackwardWordCounts(text: string, p: nat, count: nat)
    requires p <= |text|
    ensures WordsBack(text, p, BackwardWord(text, p, count), count)
    decreases count
  {
    if count > 0 {
      var m, q := PreviousWord(text, p), BackwardWord(text, p, count);
      PreviousWordStarts(text, p);
      BackwardWordCounts(text, m, count - 1);
      StartsSplit(text, q, m, p);
    }
  }

  /** Moving by words, in either direction. */
  lemma MoveWordsCounts(text: string, p: nat, count: int)
    requires p <= |text|
    ensures var q := MoveWords(text, p, count);
            if count >= 0 then WordsOn(text, p, q, count) else WordsBack(text, p, q, -count)
  {
    if count >= 0 {
      ForwardWordCounts(text, p, count);
    } else {
      BackwardWordCounts(text, p, -count);
    }
  }

  /** Words are made of letters and digits. */
  lemma WordCharacters(c: char)
    ensures IsWord(c) <==> c in LOWERCASE || c in UPPERCASE || c in "0123456789"
  {
    if 'a' <= c <= 'z' {
      Letters(c as int - 'a' as int);
    } else if 'A' <= c <= 'Z' {
      Letters(c as int - 'A' as int);
    }
    if c in LOWERCASE || c in UPPERCASE {
      var i :| 0 <= i < 26 && (c == LOWERCASE[i] || c == UPPERCASE[i]);
      Letters(i);
    }
  }

  // ----- rl_change_case -----

  datatype CaseOp = UpCase | DownCase | CapCase

  function Recased(c: char, op: CaseOp, inword: bool): char {
    if !IsWord(c) then c
    else if op == UpCase || (op == CapCase && !inword) then ToUpper(c)
    else ToLower(c)
  }

  /** The case changes of a whole stretch of text: whether a character is inside a word depends on the one before. */
  function CaseMap(s: string, op: CaseOp): (r: string)
    ensures |r| == |s|
    ensures forall i | 0 <= i < |s| :: r[i] == CaseAt(s, i, op)
  {
    seq(|s|, i requires 0 <= i < |s| => CaseAt(s, i, op))
  }

  function CaseAt(s: string, i: nat, op: CaseOp): char
    requires i < |s|
  {
    Recased(s[i], op, i > 0 && IsWord(s[i - 1]))
  }

  /** The characters of a text of which a stretch was recased. */
  lemma RecasedAt(text: string, from: nat, last: nat, op: CaseOp, target: string)
    requires from <= last <= |text| && target == text[..from] + CaseMap(text[from..last], op) + text[last..]
    ensures |target| == |text| && forall i | 0 <= i < from || last <= i < |text| :: target[i] == text[i]
    ensures forall i | from <= i < last :: target[i] == Recased(text[i], op, i > from && IsWord(text[i - 1]))
  {
    var s := text[from..last];
    forall i | from <= i < last
      ensures target[i] == Recased(text[i], op, i > from && IsWord(text[i - 1]))
    {
      assert target[i] == CaseAt(s, i - from, op) && text[i] == s[i - from];
      assert i > from ==> text[i - 1] == s[i - from - 1];
    }
  }

  /** Either the same character, or the other case of the same letter. */
  predicate SameLetter(c: char, d: char) {
    c == d || Partners(c, d) || Partners(d, c)
  }

  /** The character at i after a change of case: words start at from, and behind what is no letter or digit. */
  predicate CasedAt(was: string, now: string, from: nat, i: nat, op: CaseOp)
    requires from <= i < |was| && |now| == |was|
  {
    var first := i == from || !IsWord(was[i - 1]);
    && SameLetter(was[i], now[i])
    && (op == UpCase || (op == CapCase && first) ==> !('a' <= now[i] <= 'z'))
    && (op == DownCase || (op == CapCase && !first) ==> !('A' <= now[i] <= 'Z'))
  }

  /** What a change of case makes of a text: in the stretch all letters get the right case, and nothing else changes. */
  predicate Cased(was: string, now: string, from: nat, last: nat, op: CaseOp) {
    && |now| == |was| && last <= |was|
    && (forall i | 0 <= i < |was| && (i < from || last <= i) :: now[i] == was[i])
    && (forall i | from <= i < last :: CasedAt(was, now, from, i, op))
  }

  lemma RecasedCases(text: string, target: string, from: nat, i: nat, op: CaseOp)
    requires from <= i < |text| && |target| == |text|
    requires target[i] == Recased(text[i], op, i > from && IsWord(text[i - 1]))
    ensures CasedAt(text, target, from, i, op)
  {
    CaseIsPartner(text[i]);
  }

  lemma CaseMapCases(text: string, from: nat, last: nat, op: CaseOp, target: string)
    requires from <= last <= |text| && target == text[..from] + CaseMap(text[from..last], op) + text[last..]
    ensures Cased(text, target, from, last, op)
  {
    RecasedAt(text, from, last, op, target);
    forall i | from <= i < last
      ensures CasedAt(text, target, from, i, op)
    {
      RecasedCases(text, target, from, i, op);
    }
  }

  /** The case to change to determines the text. */
  lemma CasedUnique(was: string, now: string, other: string, from: nat, last: nat, op: CaseOp)
    requires Cased(was, now, from, last, op) && Cased(was, other, from, last, op)
    ensures now == other
  {
    forall i | 0 <= i < |was|
      ensures now[i] == other[i]
    {
      if from <= i < last {
        assert CasedAt(was, now, from, i, op) && CasedAt(was, other, from, i, op);
        OneCase(was[i], now[i], other[i], op == UpCase || (op == CapCase && (i == from || !IsWord(was[i - 1]))));
      }
    }
  }

  /** Of the forms of a character at most one is no lower-case letter, and at most one is no upper-case letter. */
  lemma OneCase(c: char, d: char, e: char, upper: bool)
    requires SameLetter(c, d) && SameLetter(c, e)
    requires if upper then !('a' <= d <= 'z') && !('a' <= e <= 'z') else !('A' <= d <= 'Z') && !('A' <= e <= 'Z')
    ensures d == e
  {
    PartnersAre(c, d);
    PartnersAre(d, c);
    PartnersAre(c, e);
    PartnersAre(e, c);
  }

  /** The change of case on start..end: logged as a group before the text is touched, and only if there is any text. */
  function CaseChanged(l: Line, start: nat, end: nat, op: CaseOp): Line
    requires start <= end <= |l.text|
  {
    var text := l.text[..start] + CaseMap(l.text[start..end], op) + l.text[end..];
    var log := if start == end then l.log
               else [END, Record(UndoInsert, start, end, ""),
                     Record(UndoDelete, start, end, l.text[start..end]), BEGIN] + l.log;
    Line(text, end, log)
  }

  function ChangedCase(l: Line, count: int, op: CaseOp): Line
    requires l.point <= |l.text|
  {
    var q := MoveWords(l.text, l.point, count);
    if count < 0 then CaseChanged(l, q, l.point, op) else CaseChanged(l, l.point, q, op)
  }

  /** The words from point on, or back from it, get the right case, and nothing else changes. */
  lemma ChangedCaseText(l: Line, count: int, op: CaseOp)
    requires l.point <= |l.text|
    ensures var m, q := ChangedCase(l, count, op), MoveWords(l.text, l.point, count);
            if count < 0 then Cased(l.text, m.text, q, l.point, op) && m.point == l.point
            else Cased(l.text, m.text, l.point, q, op) && m.point == q
  {
    var q := MoveWords(l.text, l.point, count);
    CaseMapCases(l.text, Min(q, l.point), if count < 0 then l.point else q, op, ChangedCase(l, count, op).text);
  }

  /** Logging the deletion and the insertion of a stretch makes any rewriting of that stretch undoable. */
  lemma RewriteStep(l: Line, start: nat, end: nat, s: string, p: nat)
    requires Sound(l.text, l.log) && start <= end <= |l.text| && |s| == end - start
    ensures Step(l, Line(l.text[..start] + s + l.text[end..], p,
                         [END, Record(UndoInsert, start, end, ""),
                          Record(UndoDelete, start, end, l.text[start..end]), BEGIN] + l.log))
  {
    var ins, del := Record(UndoInsert, start, end, ""), Record(UndoDelete, start, end, l.text[start..end]);
    var l1 := Logged(l, BEGIN);
    LogStep(l, BEGIN);
    var gone := Line(l.text[..start] + l.text[end..], p, [del] + l1.log);
    CutAndPaste(l.text, start, end);
    PushStep(l1, gone, del);
    StepsCompose(l, l1, gone);
    var back := Line(l.text[..start] + s + l.text[end..], p, [ins] + gone.log);
    CutOut(l.text[..start], s, l.text[end..]);
    PushStep(gone, back, ins);
    StepsCompose(l, gone, back);
    LogStep(back, END);
    StepsCompose(l, back, Logged(back, END));
    assert Logged(back, END).log == [END, ins, del, BEGIN] + l.log;
  }

  lemma ChangeCaseStep(l: Line, count: int, op: CaseOp)
    requires Sound(l.text, l.log) && l.point <= |l.text|
    ensures Step(l, ChangedCase(l, count, op))
  {
    var q := MoveWords(l.text, l.point, count);
    var start, end := if count < 0 then q else l.point, if count < 0 then l.point else q;
    RewriteStep(l, start, end, CaseMap(l.text[start..end], op), end);
    if start == end {
      assert ChangedCase(l, count, op).text == l.text;
    }
  }

  // ----- rl_transpose_words -----

  datatype Words = Words(beg1: nat, end1: nat, beg2: nat, end2: nat)

  /** The two words, found by moving around by words. */
  function WordsAt(text: string, p: nat, count: int): (w: Words)
    requires p <= |text|
    ensures w.beg1 <= w.end1 <= |text| && w.beg2 <= w.end2 <= |text|
  {
    var end2 := MoveWords(text, p, count);
    var beg2 := BackwardWord(text, end2, 1);
    var beg1 := MoveWords(text, beg2, -count);
    Words(beg1, ForwardWord(text, beg1, 1), beg2, end2)
  }

  predicate TwoWords(w: Words) { w.beg1 != w.beg2 && w.end1 <= w.beg2 }

  /** Putting other text in the place of start..end, as rl_transpose_words does with each word. */
  function Swapped(l: Line, start: nat, end: nat, s: string): Line
    requires start <= end <= |l.text|
  {
    Inserted(Deleted(l, start, end).(point := start), s)
  }

  function TransposedBy(l: Line, w: Words): Line
    requires w.beg1 <= w.end1 <= w.beg2 <= w.end2 <= |l.text|
  {
    var l1 := Swapped(Logged(l, BEGIN), w.beg2, w.end2, l.text[w.beg1..w.end1]);
    Logged(Swapped(l1, w.beg1, w.end1, l.text[w.beg2..w.end2]), END).(point := w.end2)
  }

  function Transposed(l: Line, count: int): Line
    requires l.point <= |l.text|
  {
    var w := WordsAt(l.text, l.point, count);
    if count == 0 || !TwoWords(w) then l else TransposedBy(l, w)
  }

  lemma SwappedText(l: Line, start: nat, end: nat, s: string)
    requires start <= end <= |l.text|
    ensures Swapped(l, start, end, s).text == l.text[..start] + s + l.text[end..]
  {
    var gone := l.text[..start] + l.text[end..];
    assert Deleted(l, start, end).text == gone;
    assert gone[..start] == l.text[..start] && gone[start..] == l.text[end..];
    assert s == "" ==> l.text[..start] + s + l.text[end..] == gone;
  }

  /** The two words have changed places, and everything else is where it was. */
  lemma TransposedText(l: Line, w: Words)
    requires w.beg1 <= w.end1 <= w.beg2 <= w.end2 <= |l.text|
    ensures var t := l.text;
            TransposedBy(l, w).text
              == t[..w.beg1] + t[w.beg2..w.end2] + t[w.end1..w.beg2] + t[w.beg1..w.end1] + t[w.end2..]
  {
    var t := l.text;
    var word1, word2 := t[w.beg1..w.end1], t[w.beg2..w.end2];
    var l1 := Swapped(Logged(l, BEGIN), w.beg2, w.end2, word1);
    SwappedText(Logged(l, BEGIN), w.beg2, w.end2, word1);
    SwappedText(l1, w.beg1, w.end1, word2);
    assert t[..w.beg2] == t[..w.beg1] + word1 + t[w.end1..w.beg2];
    Pieces(t[..w.beg1], word1, t[w.end1..w.beg2], word2, t[w.end2..]);
  }

  /** The words that are exchanged: the count-th one from point, and the one count words before it. */
  lemma WordsFound(text: string, p: nat, count: int)
    requires p <= |text|
    ensures var w := WordsAt(text, p, count);
            && (if count >= 0 then WordsOn(text, p, w.end2, count) else WordsBack(text, p, w.end2, -count))
            && WordsBack(text, w.end2, w.beg2, 1)
            && (if count > 0 then WordsBack(text, w.beg2, w.beg1, count) else WordsOn(text, w.beg2, w.beg1, -count))
            && WordsOn(text, w.beg1, w.end1, 1)
  {
    var w := WordsAt(text, p, count);
    MoveWordsCounts(text, p, count);
    BackwardWordCounts(text, w.end2, 1);
    MoveWordsCounts(text, w.beg2, -count);
    ForwardWordCounts(text, w.beg1, 1);
  }

  /** Two different words that do not overlap change places, and point goes behind the second; else nothing happens. */
  lemma TransposedWords(l: Line, count: int)
    requires l.point <= |l.text|
    ensures var w, t := WordsAt(l.text, l.point, count), l.text;
            if count != 0 && w.beg1 != w.beg2 && w.end1 <= w.beg2 then
              w.beg2 <= w.end2 && w.beg1 <= w.end1 && Transposed(l, count).point == w.end2 &&
              Transposed(l, count).text ==
                t[..w.beg1] + t[w.beg2..w.end2] + t[w.end1..w.beg2] + t[w.beg1..w.end1] + t[w.end2..]
            else Transposed(l, count) == l
  {
    var w := WordsAt(l.text, l.point, count);
    if count != 0 && TwoWords(w) {
      TransposedText(l, w);
    }
  }

  lemma Pieces(a: string, word1: string, b: string, word2: string, c: string)
    ensures var t := (a + word1 + b) + word1 + c;
            t[..|a|] + word2 + t[|a| + |word1|..] == a + word2 + b + word1 + c
  {
    var t := (a + word1 + b) + word1 + c;
    assert t[..|a|] == a;
    assert t[|a| + |word1|..] == b + word1 + c;
  }

  lemma SwapStep(l: Line, m: Line, start: nat, end: nat, s: string)
    requires Step(l, m) && |l.log| < |m.log| && start <= end <= |m.text|
    ensures Step(l, Swapped(m, start, end, s)) && |l.log| < |Swapped(m, start, end, s).log|
  {
    var d := Deleted(m, start, end);
    DeleteStep(m, start, end);
    StepsCompose(l, m, d);
    MoveStep(d, start);
    StepsCompose(l, d, d.(point := start));
    InsertStep(d.(point := start), s);
    StepsCompose(l, d.(point := start), Inserted(d.(point := start), s));
  }

  lemma TransposeStep(l: Line, w: Words)
    requires Sound(l.text, l.log) && w.beg1 <= w.end1 <= w.beg2 <= w.end2 <= |l.text|
    ensures Step(l, TransposedBy(l, w))
  {
    var l0 := Logged(l, BEGIN);
    var l1 := Swapped(l0, w.beg2, w.end2, l.text[w.beg1..w.end1]);
    LogStep(l, BEGIN);
    SwapStep(l, l0, w.beg2, w.end2, l.text[w.beg1..w.end1]);
    SwappedText(l0, w.beg2, w.end2, l.text[w.beg1..w.end1]);
    SwapStep(l, l1, w.beg1, w.end1, l.text[w.beg2..w.end2]);
    var l2 := Swapped(l1, w.beg1, w.end1, l.text[w.beg2..w.end2]);
    LogStep(l2, END);
    StepsCompose(l, l2, Logged(l2, END));
    MoveStep(Logged(l2, END), w.end2);
    StepsCompose(l, Logged(l2, END), Logged(l2, END).(point := w.end2));
  }

  // ----- one undo takes one operation back -----

  predicate IsEditRecord(r: Record) { r.what in {UndoDelete, UndoInsert} }

  lemma {:induction false} PopWaiting(mid: seq<Record>, rest: seq<Record>)
    requires forall r | r in mid :: IsEditRecord(r)
    ensures PopCount(mid + [BEGIN] + rest, 1) == |mid| + 1
  {
    var log := mid + [BEGIN] + rest;
    if mid == [] {
      assert log[0] == BEGIN;
    } else {
      assert mid[0] in mid && log[0] == mid[0] && log[1..] == mid[1..] + [BEGIN] + rest;
      PopWaiting(mid[1..], rest);
    }
  }

  /** The new log is the old one and a single record, or a group without groups in it. */
  ghost predicate OneUnit(old_: seq<Record>, new_: seq<Record>) {
    || (exists r: Record :: IsEditRecord(r) && new_ == [r] + old_)
    || (exists mid: seq<Record> :: (forall r | r in mid :: IsEditRecord(r)) && new_ == [END] + mid + [BEGIN] + old_)
  }

  /** Undoing right after an operation that logged a unit gives the text and the log from before it back. */
  lemma UndoInverts(l: Line, m: Line)
    requires Step(l, m) && OneUnit(l.log, m.log)
    ensures Undone(m).text == l.text && Undone(m).log == l.log
  {
    var prefix: seq<Record>;
    if r: Record :| IsEditRecord(r) && m.log == [r] + l.log {
      prefix := [r];
    } else {
      var mid: seq<Record> :| (forall r | r in mid :: IsEditRecord(r)) && m.log == [END] + mid + [BEGIN] + l.log;
      prefix := [END] + mid + [BEGIN];
      assert m.log[1..] == mid + [BEGIN] + l.log;
      PopWaiting(mid, l.log);
    }
    assert PopCount(m.log, 0) == |prefix|;
    Behind(prefix, l.log);
    UndoStep(m);
  }

  lemma Behind(a: seq<Record>, b: seq<Record>)
    ensures (a + b)[|a|..] == b && |a + b| - |a| == |b|
  {
  }

  /** What an insertion logs when it does not extend the newest record. */
  function InsertLog(p: nat, s: string): seq<Record> {
    if s == "" then [] else [Record(UndoInsert, p, p + |s|, "")]
  }

  lemma InsertLogs(l: Line, s: string)
    requires l.point <= |l.text| && (l.log != [] ==> l.log[0].what != UndoInsert)
    ensures Inserted(l, s).log == InsertLog(l.point, s) + l.log
  {
  }

  lemma UnitLogs(old_: seq<Record>, new_: seq<Record>, mid: seq<Record>)
    requires forall r | r in mid :: IsEditRecord(r)
    requires new_ == [END] + mid + [BEGIN] + old_
    ensures OneUnit(old_, new_)
  {
  }

  lemma SingleLogs(old_: seq<Record>, r: Record)
    requires IsEditRecord(r)
    ensures OneUnit(old_, [r] + old_)
  {
  }

  lemma ChangeCaseLogs(l: Line, count: int, op: CaseOp)
    requires l.point <= |l.text|
    ensures var m := ChangedCase(l, count, op); m.log == l.log || OneUnit(l.log, m.log)
  {
    var q := MoveWords(l.text, l.point, count);
    if q != l.point {
      CaseChangeLogs(l, Min(q, l.point), if q < l.point then l.point else q, op);
    }
  }

  lemma CaseChangeLogs(l: Line, start: nat, end: nat, op: CaseOp)
    requires start < end <= |l.text|
    ensures OneUnit(l.log, CaseChanged(l, start, end, op).log)
  {
    var mid := [Record(UndoInsert, start, end, ""), Record(UndoDelete, start, end, l.text[start..end])];
    assert CaseChanged(l, start, end, op).log == [END] + mid + [BEGIN] + l.log;
    UnitLogs(l.log, CaseChanged(l, start, end, op).log, mid);
  }

  lemma ReplaceLogs(l: Line, s: string, start: nat, end: nat)
    requires start <= |l.text|
    ensures OneUnit(l.log, Replaced(l, s, start, end).log)
  {
    var l1 := Logged(l, BEGIN);
    if start <= end {
      var l2 := Deleted(l1, start, end + 1);
      InsertLogs(l2.(point := start), s);
      GroupLogs(l.log, InsertLog(start, s), [l2.log[0]], Replaced(l, s, start, end).log);
    } else {
      InsertLogs(l1.(point := start), s);
      GroupLogs(l.log, InsertLog(start, s), [], Replaced(l, s, start, end).log);
    }
  }

  /** A group of some edit records and some more. */
  lemma GroupLogs(old_: seq<Record>, ins: seq<Record>, dels: seq<Record>, new_: seq<Record>)
    requires (forall r | r in ins :: IsEditRecord(r)) && forall r | r in dels :: IsEditRecord(r)
    requires new_ == [END] + (ins + (dels + ([BEGIN] + old_)))
    ensures OneUnit(old_, new_)
  {
    assert new_ == [END] + (ins + dels) + [BEGIN] + old_;
    UnitLogs(old_, new_, ins + dels);
  }

  lemma SwapLogs(l: Line, start: nat, end: nat, s: string) returns (recs: seq<Record>)
    requires start <= end <= |l.text|
    ensures forall r | r in recs :: IsEditRecord(r)
    ensures Swapped(l, start, end, s).log == recs + l.log
  {
    var d := Deleted(l, start, end);
    InsertLogs(d.(point := start), s);
    recs := InsertLog(start, s) + [d.log[0]];
    assert d.log == [d.log[0]] + l.log;
  }

  lemma TransposeLogs(l: Line, w: Words)
    requires w.beg1 <= w.end1 <= w.beg2 <= w.end2 <= |l.text|
    ensures OneUnit(l.log, TransposedBy(l, w).log)
  {
    var l0 := Logged(l, BEGIN);
    var l1 := Swapped(l0, w.beg2, w.end2, l.text[w.beg1..w.end1]);
    SwappedText(l0, w.beg2, w.end2, l.text[w.beg1..w.end1]);
    var recs1 := SwapLogs(l0, w.beg2, w.end2, l.text[w.beg1..w.end1]);
    var recs2 := SwapLogs(l1, w.beg1, w.end1, l.text[w.beg2..w.end2]);
    assert TransposedBy(l, w).log == [END] + (recs2 + recs1) + [BEGIN] + l.log;
    UnitLogs(l.log, TransposedBy(l, w).log, recs2 + recs1);
  }

  /** Every operation but a coalesced insertion logs nothing or one unit, so that one undo takes it back. */
  lemma LogsOneUnit(l: Line, e: Edit)
    requires Editable(l) && !e.BeginGroup? && !e.EndGroup? && !e.DoUndo?
    requires e.Insert? ==> !Coalesces(l, e.s)
    ensures Edited(l, e).log == l.log || OneUnit(l.log, Edited(l, e).log)
  {
    var m := Edited(l, e);
    match e
    case Insert(s) =>
      if s != "" {
        SingleLogs(l.log, m.log[0]);
      }
    case Delete(_, _) =>
      SingleLogs(l.log, m.log[0]);
    case Replace(t, start, end) =>
      ReplaceLogs(l, t, Min(start, |l.text|), end);
    case ChangeCase(count, op) =>
      ChangeCaseLogs(l, count, op);
    case TransposeWords(count) =>
      var w := WordsAt(l.text, l.point, count);
      if count != 0 && TwoWords(w) {
        TransposeLogs(l, w);
      }
    case MoveTo(_) =>
  }

  // ----- runs -----

  datatype Edit =
    | Insert(s: string)
    | Delete(from: nat, to: nat)
    | Replace(t: string, start: nat, end: nat)
    | ChangeCase(count: int, op: CaseOp)
    | TransposeWords(words: int)
    | MoveTo(p: nat)
    | BeginGroup
    | EndGroup
    | DoUndo

  /** Point lies on the line and the log is sound. */
  predicate Editable(l: Line) {
    l.point <= |l.text| && Sound(l.text, l.log)
  }

  function Edited(l: Line, e: Edit): Line
    requires Editable(l)
  {
    match e
    case Insert(s) => Inserted(l, s)
    case Delete(from, to) => Deleted(l, from, to)
    case Replace(t, start, end) => Replaced(l, t, Min(start, |l.text|), end)
    case ChangeCase(count, op) => ChangedCase(l, count, op)
    case TransposeWords(count) => Transposed(l, count)
    case MoveTo(p) => l.(point := p)
    case BeginGroup => Logged(l, BEGIN)
    case EndGroup => Logged(l, END)
    case DoUndo => Undone(l)
  }

  /** Some operations leave point behind the end; their callers put it back onto the line. */
  function Fixed(l: Line): (m: Line)
    ensures m.text == l.text && m.log == l.log
    ensures if l.point <= |l.text| then m.point == l.point else m.point == |l.text|
  {
    l.(point := Min(l.point, |l.text|))
  }

  function Apply(l: Line, e: Edit): Line
    requires Editable(l)
  {
    Fixed(Edited(l, e))
  }

  lemma FixStep(l: Line, m: Line)
    requires Step(l, m)
    ensures Step(l, Fixed(m)) && Editable(Fixed(m))
  {
    forall j: nat | j <= |m.log|
      ensures Before(Fixed(m), j) == Before(m, j)
    {
    }
  }

  lemma EditStep(l: Line, e: Edit)
    requires Editable(l)
    ensures Step(l, Edited(l, e))
  {
    match e
    case Insert(s) => InsertStep(l, s);
    case Delete(from, to) => DeleteStep(l, from, to);
    case Replace(t, start, end) => ReplaceStep(l, t, Min(start, |l.text|), end);
    case ChangeCase(count, op) => ChangeCaseStep(l, count, op);
    case TransposeWords(count) =>
      var w := WordsAt(l.text, l.point, count);
      if count != 0 && TwoWords(w) {
        TransposeStep(l, w);
      }
    case MoveTo(p) => MoveStep(l, p);
    case BeginGroup => LogStep(l, BEGIN);
    case EndGroup => LogStep(l, END);
    case DoUndo => UndoStep(l);
  }

  lemma ApplyStep(l: Line, e: Edit)
    requires Editable(l)
    ensures Editable(Apply(l, e)) && Step(l, Apply(l, e))
  {
    EditStep(l, e);
    FixStep(l, Edited(l, e));
  }

  /** The states a sequence of edits goes through. */
  function Trace(l: Line, edits: seq<Edit>): (ls: seq<Line>)
    requires Editable(l)
    ensures |ls| == |edits| + 1 && ls[0] == l
    decreases |edits|
  {
    if edits == [] then [l]
    else
      ApplyStep(l, edits[0]);
      [l] + Trace(Apply(l, edits[0]), edits[1..])
  }

  /** The state that a sequence of edits leads to. */
  function TraceEnd(l: Line, edits: seq<Edit>): Line
    requires Editable(l)
    decreases |edits|
  {
    if edits == [] then l
    else
      ApplyStep(l, edits[0]);
      TraceEnd(Apply(l, edits[0]), edits[1..])
  }

  lemma {:induction false} TraceLast(l: Line, edits: seq<Edit>)
    requires Editable(l)
    ensures Trace(l, edits)[|edits|] == TraceEnd(l, edits)
    decreases |edits|
  {
    if edits != [] {
      ApplyStep(l, edits[0]);
      TraceLast(Apply(l, edits[0]), edits[1..]);
    }
  }

  lemma {:induction false} TraceRuns(l: Line, edits: seq<Edit>)
    requires Editable(l)
    ensures Run(Trace(l, edits))
    decreases |edits|
  {
    if edits != [] {
      ApplyStep(l, edits[0]);
      TraceRuns(Apply(l, edits[0]), edits[1..]);
      var ls, rest := Trace(l, edits), Trace(Apply(l, edits[0]), edits[1..]);
      forall i | 0 <= i < |ls| - 1
        ensures Step(ls[i], ls[i + 1])
      {
        if i > 0 {
          assert ls[i] == rest[i - 1] && ls[i + 1] == rest[i - 1 + 1];
        }
      }
    }
  }

  /**
   Undo is sound over every run of edits.  If the first edit logs something on top of j records, and the log never gets
   shorter than j + 1 in between, then when an edit (an undo, that is) takes the log back to j records, the line has the
   text it had at the start.
  */
  lemma UndoRestores(l: Line, edits: seq<Edit>)
    requires Editable(l) && |edits| > 0
    requires forall i | 0 < i < |edits| :: |Trace(l, edits)[i].log| > |l.log|
    requires |Trace(l, edits)[1].log| > |l.log| && |Trace(l, edits)[|edits|].log| == |l.log|
    ensures Trace(l, edits)[|edits|].text == l.text
  {
    TraceRuns(l, edits);
    RunRestores(Trace(l, edits), |l.log|);
  }

  /** Whatever was edited since the log was empty, reverting every record gives the text of that time back. */
  lemma RevertRestores(l: Line, edits: seq<Edit>)
    requires Editable(l) && l.log == []
    requires forall i | 0 < i <= |edits| :: Trace(l, edits)[i].log != []
    ensures var last := Trace(l, edits)[|edits|];
            Sound(last.text, last.log) && Rewind(last.text, last.log, |last.log|) == l.text
  {
    TraceRuns(l, edits);
    RunReverts(Trace(l, edits));
  }

  // ----- groups over runs -----

  /** The number of open groups after an edit; undoing the beginning of a group takes the group back. */
  function OpenAfter(l: Line, e: Edit, open: nat): nat {
    match e
    case BeginGroup => open + 1
    case EndGroup => if open > 0 then open - 1 else 0
    case DoUndo => if l.log != [] && l.log[0].what == UndoBegin && open > 0 then open - 1 else open
    case _ => open
  }

  /** No group is ended that was not begun, and final of them are open in the end. */
  predicate Matched(l: Line, edits: seq<Edit>, open: nat, final: nat)
    requires Editable(l)
    decreases |edits|
  {
    if edits == [] then open == final
    else
      (edits[0] == EndGroup ==> open > 0) &&
      (ApplyStep(l, edits[0]);
       Matched(Apply(l, edits[0]), edits[1..], OpenAfter(l, edits[0], open), final))
  }

  lemma {:induction false} EditsOpen(mid: seq<Record>, rest: seq<Record>, open: nat, waiting: nat)
    requires (forall r | r in mid :: IsEditRecord(r)) && Opened(rest, open, waiting)
    ensures Opened(mid + rest, open, waiting)
  {
    if mid == [] {
      assert mid + rest == rest;
    } else {
      EditsOpen(mid[1..], rest, open, waiting);
      assert (mid + rest)[0] == mid[0] && mid[0] in mid && (mid + rest)[1..] == mid[1..] + rest;
    }
  }

  /** A unit keeps the groups of the log. */
  lemma UnitOpen(old_: seq<Record>, new_: seq<Record>, open: nat)
    requires Opened(old_, open, 0) && OneUnit(old_, new_)
    ensures Opened(new_, open, 0)
  {
    if r: Record :| IsEditRecord(r) && new_ == [r] + old_ {
      assert new_[1..] == old_;
    } else {
      var mid: seq<Record> :| (forall r | r in mid :: IsEditRecord(r)) && new_ == [END] + mid + [BEGIN] + old_;
      var rest := [BEGIN] + old_;
      assert rest[1..] == old_;
      EditsOpen(mid, rest, open, 1);
      assert new_[1..] == mid + rest;
    }
  }

  /** Every operation but the beginning and the end of a group keeps the groups of the log as they are. */
  lemma EditOpens(l: Line, e: Edit, open: nat)
    requires Editable(l) && Opened(l.log, open, 0) && (e == EndGroup ==> open > 0)
    ensures Opened(Apply(l, e).log, OpenAfter(l, e, open), 0)
  {
    if e == BeginGroup {
      assert Logged(l, BEGIN).log[1..] == l.log;
    } else if e == EndGroup {
      EndCloses(l.log, open, 0);
      assert Logged(l, END).log[1..] == l.log;
    } else if e == DoUndo {
      if l.log != [] {
        PopsOpened(l.log, open, 0);
      }
    } else if e.Insert? && Coalesces(l, e.s) {
      assert Inserted(l, e.s).log[1..] == l.log[1..];
    } else {
      LogsOneUnit(l, e);
      if Edited(l, e).log != l.log {
        UnitOpen(l.log, Edited(l, e).log, open);
      }
    }
  }

  /** A run whose groups are matched leaves a log whose groups are. */
  lemma {:induction false} MatchedOpens(l: Line, edits: seq<Edit>, open: nat, final: nat)
    requires Editable(l) && Opened(l.log, open, 0) && Matched(l, edits, open, final)
    ensures Editable(TraceEnd(l, edits)) && Opened(TraceEnd(l, edits).log, final, 0)
    decreases |edits|
  {
    if edits != [] {
      ApplyStep(l, edits[0]);
      EditOpens(l, edits[0], open);
      MatchedOpens(Apply(l, edits[0]), edits[1..], OpenAfter(l, edits[0], open), final);
    }
  }

  /**
   After every run from a balanced log in which groups are matched and all of them ended, the log is balanced, so that
   one undo takes back a single edit or a whole group.
  */
  lemma RunStaysBalanced(l: Line, edits: seq<Edit>)
    requires Editable(l) && Nested(l.log, 0) && Matched(l, edits, 0, 0)
    ensures var m := Trace(l, edits)[|edits|];
            Nested(m.log, 0) && (m.log != [] ==> Nested(m.log[PopCount(m.log, 0)..], 0))
  {
    MatchedOpens(l, edits, 0, 0);
    TraceLast(l, edits);
    var m := Trace(l, edits)[|edits|];
    if m.log != [] {
      PopsOneGroup(m.log, 0);
    }
  }

  /** In such a run, also with groups still open, rl_do_undo fails only if there is nothing to undo. */
  lemma UndoSucceeds(l: Line, edits: seq<Edit>, open: nat)
    requires Editable(l) && Nested(l.log, 0) && Matched(l, edits, 0, open)
    ensures var m := Trace(l, edits)[|edits|]; Closes(m.log, 0) <==> m.log != []
  {
    MatchedOpens(l, edits, 0, open);
    TraceLast(l, edits);
    var m := Trace(l, edits)[|edits|];
    if m.log != [] {
      OpenedCloses(m.log, open, 0);
    }
  }

  /** Ending a group that was not begun makes rl_do_undo take everything back and fail. */
  lemma UnmatchedEndFails(l: Line)
    requires Editable(l) && Nested(l.log, 0)
    ensures var m := Apply(l, EndGroup);
            Editable(m) && !Closes(m.log, 0) && Apply(m, DoUndo).log == []
  {
    var m := Apply(l, EndGroup);
    ApplyStep(l, EndGroup);
    assert m.log[1..] == l.log;
    NeverCloses(l.log, 0);
  }

  lemma UndoAfter(l: Line, m: Line)
    requires Step(l, m) && OneUnit(l.log, m.log) && Editable(m)
    ensures Apply(m, DoUndo).text == l.text && Apply(m, DoUndo).log == l.log
  {
    UndoInverts(l, m);
  }

  /** One undo right after an operation takes back exactly this operation. */
  lemma UndoTakesBack(l: Line, e: Edit)
    requires Editable(l) && !e.BeginGroup? && !e.EndGroup? && !e.DoUndo?
    requires e.Insert? ==> !Coalesces(l, e.s)
    requires Edited(l, e).log != l.log
    ensures Editable(Apply(l, e))
    ensures Apply(Apply(l, e), DoUndo).text == l.text && Apply(Apply(l, e), DoUndo).log == l.log
  {
    ApplyStep(l, e);
    LogsOneUnit(l, e);
    UndoAfter(l, Apply(l, e));
  }
}
