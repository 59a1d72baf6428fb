/**
 Killing and yanking (readline-6.2/kill.c), in emacs mode.

 Every kill command deletes the text between point and some other position.  Consecutive kills collect in one slot of
 the kill ring, which grows at the right end for kills to the right of point and at the left end for kills to the left.
*/
module Kill {
  import opened Options
  import opened Undo
  import opened Characters
  import opened Edits

  /** rl_max_kills. */
  const MAX_KILLS := 10

  /** last is _rl_last_command_was_kill. */
  datatype Kills = Kills(line: Line, mark: nat, ring: seq<string>, index: nat, last: nat)

  datatype KillCommand =
    | KillWord(count: int)
    | BackwardKillWord(back: int)
    | KillLine(direction: int)
    | BackwardKillLine(backDirection: int)
    | UnixWordRubout(words: int)
    | UnixLineDiscard
    | KillRegion

  predicate Usable(k: Kills) {
    && k.line.point <= |k.line.text| && k.mark <= |k.line.text|
    && |k.ring| <= MAX_KILLS
    && (k.ring != [] ==> k.index < |k.ring|)
    && (k.last > 0 ==> k.ring != [])
  }

  // ----- _rl_copy_to_kill_ring and rl_kill_text -----

  /** The ring after a kill: a new last slot, the oldest of ten being dropped, or the last slot extended. */
  function Copied(ring: seq<string>, last: nat, text: string, append: bool): (r: seq<string>)
    requires last > 0 ==> ring != []
    ensures |r| > 0
  {
    if last == 0 then (if |ring| == MAX_KILLS then ring[1..] else ring) + [text]
    else
      var n := |ring| - 1;
      ring[n := if append then ring[n] + text else text + ring[n]]
  }

  /** rl_kill_text; point is left where it is. */
  function Killed(k: Kills, from: nat, to: nat): Kills
    requires Usable(k) && from <= |k.line.text| && to <= |k.line.text|
  {
    if from == to then k.(last := k.last + 1)
    else
      var text := if from < to then k.line.text[from..to] else k.line.text[to..from];
      var ring := Copied(k.ring, k.last, text, from < to);
      Kills(Deleted(k.line, from, to), k.mark, ring, |ring| - 1, k.last + 1)
  }

  // ----- the kill commands -----

  /** The first loop of rl_unix_word_rubout stops behind a character that is no blank, the second one behind a blank. */
  function BackOver(text: string, p: nat, blank: bool): (q: nat)
    requires p <= |text|
    ensures q <= p
  {
    if p > 0 && IsBlank(text[p - 1]) == blank then BackOver(text, p - 1, blank) else p
  }

  lemma {:induction false} BackOverStops(text: string, p: nat, blank: bool)
    requires p <= |text|
    ensures var q := BackOver(text, p, blank);
            && (forall i | q <= i < p :: IsBlank(text[i]) == blank)
            && (q > 0 ==> IsBlank(text[q - 1]) != blank)
  {
    if p > 0 && IsBlank(text[p - 1]) == blank {
      BackOverStops(text, p - 1, blank);
    }
  }

  function RuboutStart(text: string, p: nat, count: nat): (q: nat)
    requires p <= |text|
    ensures q <= p
    decreases count
  {
    if count == 0 then p else RuboutStart(text, BackOver(text, BackOver(text, p, true), false), count - 1)
  }

  /** A word between blanks starts at i. */
  predicate StartsField(text: string, i: nat)
    requires i < |text|
  {
    text[i] != ' ' && text[i] != '\t' && (i > 0 ==> text[i - 1] == ' ' || text[i - 1] == '\t')
  }

  /** The number of words between blanks that start from q on and before p. */
  function FieldStarts(text: string, q: nat, p: nat): nat
    requires q <= p <= |text|
    decreases p - q
  {
    if p == q then 0 else FieldStarts(text, q, p - 1) + if StartsField(text, p - 1) then 1 else 0
  }

  /** Back from p to q there are count words: q is the start of the last of them, or that of a text with fewer. */
  predicate FieldsBack(text: string, p: nat, q: nat, count: nat) {
    && q <= p <= |text|
    && if FieldStarts(text, q, p) == count then (if count == 0 then p == q else q < p && StartsField(text, q))
       else q == 0 && FieldStarts(text, q, p) < count
  }

  lemma {:induction false} FieldsSplit(text: string, q: nat, m: nat, p: nat)
    requires q <= m <= p <= |text|
    ensures FieldStarts(text, q, p) == FieldStarts(text, q, m) + FieldStarts(text, m, p)
    decreases p - m
  {
    if m < p {
      FieldsSplit(text, q, m, p - 1);
    }
  }

  lemma {:induction false} NoFields(text: string, q: nat, p: nat)
    requires q <= p <= |text| && forall i | q <= i < p :: !StartsField(text, i)
    ensures FieldStarts(text, q, p) == 0
    decreases p - q
  {
    if q < p {
      NoFields(text, q, p - 1);
    }
  }

  lemma OneFieldBack(text: string, p: nat)
    requires p <= |text|
    ensures FieldsBack(text, p, BackOver(text, BackOver(text, p, true), false), 1)
  {
    var b := BackOver(text, p, true);
    var q := BackOver(text, b, false);
    BackOverStops(text, p, true);
    BackOverStops(text, b, false);
    NoFields(text, b, p);
    if q < b {
      NoFields(text, q + 1, b);
      FieldsSplit(text, q, b, p);
      FieldsSplit(text, q, q + 1, b);
    }
  }

  /** The loops go back over as many words between blanks as they should. */
  lemma {:induction false} RuboutCounts(text: string, p: nat, count: nat)
    requires p <= |text|
    ensures FieldsBack(text, p, RuboutStart(text, p, count), count)
    decreases count
  {
    if count > 0 {
      var m := BackOver(text, BackOver(text, p, true), false);
      OneFieldBack(text, p);
      RuboutCounts(text, m, count - 1);
      FieldsSplit(text, RuboutStart(text, p, count), m, p);
    }
  }

  /** The other end of what a command kills. */
  function Target(k: Kills, c: KillCommand): (t: nat)
    requires Usable(k)
    ensures t <= |k.line.text|
  {
    var text, p := k.line.text, k.line.point;
    match c
    case KillWord(count) => MoveWords(text, p, count)
    case BackwardKillWord(back) => MoveWords(text, p, -back)
    case KillLine(direction) => if direction < 0 then 0 else |text|
    case BackwardKillLine(direction) => if direction < 0 then |text| else 0
    case UnixWordRubout(words) => RuboutStart(text, p, if words <= 0 then 1 else words)
    case UnixLineDiscard => 0
    case KillRegion => k.mark
  }

  /** Whether a command kills anything. */
  predicate TakesText(k: Kills, c: KillCommand)
    requires Usable(k)
  {
    Target(k, c) != k.line.point
  }

  /** Killing from point to t. */
  function RanTo(k: Kills, t: nat): Kills
    requires Usable(k) && t <= |k.line.text|
  {
    var k1, p := Killed(k, k.line.point, t), Min(k.line.point, t);
    k1.(line := k1.line.(point := p), mark := p)
  }

  /** A kill command that kills something. */
  function Ran(k: Kills, c: KillCommand): Kills
    requires Usable(k)
  {
    var r := RanTo(k, Target(k, c));
    if c.KillRegion? then r.(mark := Min(k.mark, |r.line.text|)) else r
  }

  // ----- what each command kills -----

  /**
   A kill of some text: it makes a new last slot, and the oldest of ten goes; or it is added to the slot of the kill
   just before, behind what is there if it was behind point, and else in front.
  */
  predicate Took(was: Kills, now: Kills, cut: string, behind: bool) {
    var n := |now.ring| - 1;
    && n >= 0 && now.index == n && now.last == was.last + 1
    && if was.last > 0 then
         |was.ring| == n + 1 && now.ring[..n] == was.ring[..n] &&
         now.ring[n] == if behind then was.ring[n] + cut else cut + was.ring[n]
       else now.ring[n] == cut && now.ring[..n] == if |was.ring| == 10 then was.ring[1..] else was.ring
  }

  /** The text between two places was killed and point is where it was; without any text nothing has happened. */
  predicate TookStretch(was: Kills, now: Kills, from: nat, to: nat, behind: bool) {
    var t := was.line.text;
    && from <= to <= |t|
    && now.line.text == t[..from] + t[to..] && now.line.point == from
    && if from < to then Took(was, now, t[from..to], behind)
       else now.ring == was.ring && now.index == was.index && now.last == was.last
  }

  /** From point on, or back from it, so many words were killed. */
  predicate TookWords(was: Kills, now: Kills, count: int) {
    var t, p, n := was.line.text, was.line.point, |was.line.text| - |now.line.text|;
    if count >= 0 then n >= 0 && TookStretch(was, now, p, p + n, true) && WordsOn(t, p, p + n, count)
    else 0 <= n <= p && TookStretch(was, now, p - n, p, false) && WordsBack(t, p, p - n, -count)
  }

  /** From point to the end, or back to the start of the line. */
  predicate TookLine(was: Kills, now: Kills, ahead: bool) {
    var p := was.line.point;
    if ahead then TookStretch(was, now, p, |was.line.text|, true) else TookStretch(was, now, 0, p, false)
  }

  predicate TookFields(was: Kills, now: Kills, count: nat) {
    var t, p, n := was.line.text, was.line.point, |was.line.text| - |now.line.text|;
    0 <= n <= p && TookStretch(was, now, p - n, p, false) && FieldsBack(t, p, p - n, count)
  }

  /** The text between point and mark; a region without text counts as a kill. */
  predicate TookRegion(was: Kills, now: Kills) {
    var p, m := was.line.point, was.mark;
    if p < m then TookStretch(was, now, p, m, true)
    else if m < p then TookStretch(was, now, m, p, false)
    else now == was.(last := was.last + 1)
  }

  /** What a command is to do. */
  predicate Does(c: KillCommand, was: Kills, now: Kills) {
    match c
    case KillWord(count) => TookWords(was, now, count)
    case BackwardKillWord(count) => TookWords(was, now, -count)
    case KillLine(direction) => TookLine(was, now, direction >= 0)
    case BackwardKillLine(direction) => TookLine(was, now, direction < 0)
    case UnixWordRubout(count) => TookFields(was, now, if count <= 0 then 1 else count)
    case UnixLineDiscard => TookLine(was, now, false)
    case KillRegion => TookRegion(was, now)
  }

  /** The state that a command has led to, if the command has done what it is to do. */
  function LedTo(c: KillCommand, was: Kills, now: Kills): Option<Kills> {
    if Does(c, was, now) then Some(now) else None
  }

  /** Point and the rest are as before, but for mark. */
  predicate Untouched(was: Kills, now: Kills) {
    now.line == was.line && now.ring == was.ring && now.index == was.index && now.last == was.last
  }

  /** Everything between point and t was killed. */
  predicate TookTo(was: Kills, now: Kills, t: nat) {
    var p := was.line.point;
    if t < p then TookStretch(was, now, t, p, false) else TookStretch(was, now, p, t, true)
  }

  lemma RanToTakes(k: Kills, t: nat)
    requires Usable(k) && t <= |k.line.text| && t != k.line.point
    ensures TookTo(k, RanTo(k, t), t)
  {
  }

  lemma NothingTaken(k: Kills, now: Kills)
    requires Usable(k) && Untouched(k, now)
    ensures TookTo(k, now, k.line.point)
    ensures TookStretch(k, now, k.line.point, k.line.point, false)
  {
    assert k.line.text == k.line.text[..k.line.point] + k.line.text[k.line.point..];
  }

  lemma StretchLength(was: Kills, now: Kills, from: nat, to: nat, behind: bool)
    requires TookStretch(was, now, from, to, behind)
    ensures |was.line.text| - |now.line.text| == to - from
  {
  }

  lemma TookToWords(k: Kills, now: Kills, count: int)
    requires Usable(k) && TookTo(k, now, MoveWords(k.line.text, k.line.point, count))
    requires Untouched(k, now) || MoveWords(k.line.text, k.line.point, count) != k.line.point
    ensures TookWords(k, now, count)
  {
    var p, q := k.line.point, MoveWords(k.line.text, k.line.point, count);
    MoveWordsCounts(k.line.text, p, count);
    if q < p {
      StretchLength(k, now, q, p, false);
    } else {
      StretchLength(k, now, p, q, true);
      if p == q {
        NothingTaken(k, now);
      }
    }
  }

  lemma TookToFields(k: Kills, now: Kills, count: nat)
    requires Usable(k) && TookTo(k, now, RuboutStart(k.line.text, k.line.point, count))
    requires Untouched(k, now) || RuboutStart(k.line.text, k.line.point, count) != k.line.point
    ensures TookFields(k, now, count)
  {
    var p, q := k.line.point, RuboutStart(k.line.text, k.line.point, count);
    RuboutCounts(k.line.text, p, count);
    if q < p {
      StretchLength(k, now, q, p, false);
    } else {
      NothingTaken(k, now);
    }
  }

  /** The start of the text was killed. */
  lemma FromStart(text: string, p: nat)
    requires p <= |text|
    ensures text[..0] + text[p..] == text[p..] && text[0..p] == text[..p]
  {
  }

  /** Where nothing is taken, both directions are the same. */
  lemma TookToEnd(k: Kills, now: Kills, ahead: bool)
    requires Usable(k) && TookTo(k, now, if ahead then |k.line.text| else 0)
    requires Untouched(k, now) || k.line.point != if ahead then |k.line.text| else 0
    ensures TookLine(k, now, ahead)
  {
    if k.line.point == if ahead then |k.line.text| else 0 {
      NothingTaken(k, now);
    }
  }

  /** A region kill. */
  lemma RegionDoes(k: Kills, now: Kills)
    requires Usable(k) && now == if TakesText(k, KillRegion) then Ran(k, KillRegion) else k.(last := k.last + 1)
    ensures TookRegion(k, now)
  {
    if TakesText(k, KillRegion) {
      RanToTakes(k, k.mark);
    }
  }

  /** Every command but the region kill kills from point to its target. */
  lemma CommandTakes(k: Kills, c: KillCommand, now: Kills)
    requires Usable(k) && if TakesText(k, c) then now == RanTo(k, Target(k, c)) else Untouched(k, now)
    ensures TookTo(k, now, Target(k, c))
  {
    if TakesText(k, c) {
      RanToTakes(k, Target(k, c));
    } else {
      NothingTaken(k, now);
    }
  }

  /** Every command kills what it is to kill. */
  lemma CommandDoes(k: Kills, c: KillCommand, now: Kills)
    requires Usable(k)
    requires if TakesText(k, c) then now == Ran(k, c)
             else if c.KillRegion? then now == k.(last := k.last + 1)
             else Untouched(k, now)
    ensures LedTo(c, k, now) == Some(now)
  {
    if c.KillRegion? {
      RegionDoes(k, now);
    } else {
      CommandTakes(k, c, now);
      TargetDoes(k, c, now);
    }
  }

  lemma TargetDoes(k: Kills, c: KillCommand, now: Kills)
    requires Usable(k) && !c.KillRegion? && TookTo(k, now, Target(k, c))
    requires Untouched(k, now) || Target(k, c) != k.line.point
    ensures LedTo(c, k, now) == Some(now)
  {
    match c
    case KillWord(count) => WordsDo(k, c, now, count);
    case BackwardKillWord(count) => WordsDo(k, c, now, -count);
    case UnixWordRubout(count) => FieldsDo(k, c, now, if count <= 0 then 1 else count);
    case KillLine(direction) => LineDoes(k, c, now, direction >= 0);
    case BackwardKillLine(direction) => LineDoes(k, c, now, direction < 0);
    case UnixLineDiscard => LineDoes(k, c, now, false);
  }

  lemma WordsDo(k: Kills, c: KillCommand, now: Kills, count: int)
    requires Usable(k) && (c == KillWord(count) || c == BackwardKillWord(-count))
    requires TookTo(k, now, MoveWords(k.line.text, k.line.point, count))
    requires Untouched(k, now) || MoveWords(k.line.text, k.line.point, count) != k.line.point
    ensures LedTo(c, k, now) == Some(now)
  {
    TookToWords(k, now, count);
  }

  lemma FieldsDo(k: Kills, c: KillCommand, now: Kills, count: nat)
    requires Usable(k) && c.UnixWordRubout? && count == if c.words <= 0 then 1 else c.words
    requires TookTo(k, now, RuboutStart(k.line.text, k.line.point, count))
    requires Untouched(k, now) || RuboutStart(k.line.text, k.line.point, count) != k.line.point
    ensures LedTo(c, k, now) == Some(now)
  {
    TookToFields(k, now, count);
  }

  lemma LineDoes(k: Kills, c: KillCommand, now: Kills, ahead: bool)
    requires Usable(k)
    requires match c
             case KillLine(direction) => ahead == (direction >= 0)
             case BackwardKillLine(direction) => ahead == (direction < 0)
             case UnixLineDiscard => !ahead
             case _ => false
    requires TookTo(k, now, if ahead then |k.line.text| else 0)
    requires Untouched(k, now) || k.line.point != if ahead then |k.line.text| else 0
    ensures LedTo(c, k, now) == Some(now)
  {
    TookToEnd(k, now, ahead);
  }

  // ----- conservation -----

  /** The text a run of kills started from: the killed text goes back to where point is. */
  function Whole(k: Kills): string
    requires Usable(k)
  {
    var t, p := k.line.text, k.line.point;
    if k.last == 0 then t else t[..p] + k.ring[|k.ring| - 1] + t[p..]
  }

  lemma Forward(a: string, slot: string, cut: string, b: string)
    ensures (a + cut + b)[..|a|] + slot + (a + cut + b)[|a|..] == a + (slot + cut) + b
  {
  }

  lemma Backward(a: string, slot: string, cut: string, b: string)
    ensures (a + cut + b)[..|a| + |cut|] + slot + (a + cut + b)[|a| + |cut|..] == a + (cut + slot) + b
  {
    assert (a + cut + b)[..|a| + |cut|] == a + cut;
    assert (a + cut + b)[|a| + |cut|..] == b;
  }

  /** A kill between point and t loses nothing. */
  lemma KillConserves(k: Kills, t: nat)
    requires Usable(k) && t <= |k.line.text| && t != k.line.point
    ensures var k1 := Killed(k, k.line.point, t);
            var p := Min(k.line.point, t);
            p <= |k1.line.text| && k1.ring != [] &&
            k1.line.text[..p] + k1.ring[|k1.ring| - 1] + k1.line.text[p..] == Whole(k)
  {
    var text, p := k.line.text, k.line.point;
    var lo, hi := Min(p, t), if p < t then t else p;
    var a, cut, b := text[..lo], text[lo..hi], text[hi..];
    var k1 := Killed(k, p, t);
    assert text == a + cut + b;
    assert k1.line.text == a + b;
    assert (a + b)[..lo] == a && (a + b)[lo..] == b;
    if k.last > 0 {
      var slot := k.ring[|k.ring| - 1];
      if p < t {
        Forward(a, slot, cut, b);
      } else {
        Backward(a, slot, cut, b);
      }
    }
  }

  lemma RanToConserves(k: Kills, t: nat)
    requires Usable(k) && t <= |k.line.text| && t != k.line.point
    ensures Usable(RanTo(k, t)) && Whole(RanTo(k, t)) == Whole(k)
    ensures RanTo(k, t).last > 0 && RanTo(k, t).index == |RanTo(k, t).ring| - 1
  {
    KillConserves(k, t);
  }

  lemma CommandConserves(k: Kills, c: KillCommand)
    requires Usable(k) && TakesText(k, c)
    ensures Usable(Ran(k, c)) && Whole(Ran(k, c)) == Whole(k)
    ensures Ran(k, c).last > 0 && Ran(k, c).index == |Ran(k, c).ring| - 1
  {
    RanToConserves(k, Target(k, c));
  }

  /** Every command of the run kills something. */
  predicate AllKill(k: Kills, cs: seq<KillCommand>)
    requires Usable(k)
    decreases |cs|
  {
    cs == [] ||
    (TakesText(k, cs[0]) &&
     (CommandConserves(k, cs[0]);
      AllKill(Ran(k, cs[0]), cs[1..])))
  }

  function RanAll(k: Kills, cs: seq<KillCommand>): (r: Kills)
    requires Usable(k) && AllKill(k, cs)
    decreases |cs|
  {
    if cs == [] then k
    else
      CommandConserves(k, cs[0]);
      RanAll(Ran(k, cs[0]), cs[1..])
  }

  /** After any run of kills, the text before point, the slot and the text after point make up the original text. */
  lemma {:induction false} RunConserves(k: Kills, cs: seq<KillCommand>)
    requires Usable(k) && AllKill(k, cs)
    ensures var r := RanAll(k, cs);
            Usable(r) && Whole(r) == Whole(k) && (cs != [] ==> r.last > 0 && r.index == |r.ring| - 1)
    decreases |cs|
  {
    if cs != [] {
      CommandConserves(k, cs[0]);
      RunConserves(Ran(k, cs[0]), cs[1..]);
    }
  }

  /** rl_yank, when there is something to yank. */
  function Yanked(k: Kills): Kills
    requires k.line.point <= |k.line.text| && k.index < |k.ring|
  {
    k.(line := Inserted(k.line, k.ring[k.index]), mark := k.line.point)
  }

  lemma YankText(k: Kills)
    requires k.line.point <= |k.line.text| && k.index < |k.ring|
    ensures Yanked(k).line.text == k.line.text[..k.line.point] + k.ring[k.index] + k.line.text[k.line.point..]
    ensures Yanked(k).line.point == k.line.point + |k.ring[k.index]|
  {
    var t, p := k.line.text, k.line.point;
    if k.ring[k.index] == "" {
      assert t[..p] + "" + t[p..] == t;
    }
  }

  /** One yank after a run of kills gives what the run started from, wherever that came from. */
  lemma RunYanks(k: Kills, cs: seq<KillCommand>)
    requires Usable(k) && AllKill(k, cs) && cs != []
    ensures var r := RanAll(k, cs);
            Usable(r) && r.ring != [] && Yanked(r).line.text == Whole(k)
  {
    RunConserves(k, cs);
    YankText(RanAll(k, cs));
  }

  /** Whatever a run of kills took away, one yank puts back. */
  lemma YankRestores(k: Kills, cs: seq<KillCommand>)
    requires Usable(k) && AllKill(k, cs) && k.last == 0 && cs != []
    ensures var r := RanAll(k, cs);
            Usable(r) && r.ring != [] && Yanked(r).line.text == k.line.text
  {
    RunYanks(k, cs);
  }

  // ----- the exceptions -----

  /** rl_kill_full_line moves point to the start of the line before it kills. */
  function KilledFullLine(k: Kills): Kills
    requires Usable(k)
  {
    var k0 := k.(line := Logged(k.line, BEGIN).(point := 0));
    var k1 := Killed(k0, 0, |k.line.text|);
    k1.(line := Logged(k1.line, END), mark := 0)
  }

  /** The whole text is killed, if there is any; nothing stays. */
  lemma FullLineTakes(k: Kills)
    requires Usable(k)
    ensures var r := KilledFullLine(k);
            && r.line.text == "" && r.line.point == 0 && r.mark == 0
            && if k.line.text != "" then Took(k, r, k.line.text, true)
               else r.ring == k.ring && r.index == k.index && r.last == k.last + 1
  {
    assert k.line.text[0..|k.line.text|] == k.line.text;
  }

  /** It keeps the original text exactly if the text before point and what was killed so far can change places. */
  lemma FullLineConserves(k: Kills)
    requires Usable(k) && k.line.text != ""
    ensures var r := KilledFullLine(k);
            Usable(r) &&
            (Whole(r) == Whole(k) <==>
             k.last == 0 ||
             var before, slot := k.line.text[..k.line.point], k.ring[|k.ring| - 1];
             before + slot == slot + before)
  {
    var r, text, p := KilledFullLine(k), k.line.text, k.line.point;
    assert r.line.text == "" && text[0..|text|] == text;
    var now := r.ring[|r.ring| - 1];
    assert r.line.text[..0] + now + r.line.text[0..] == now;
    if k.last > 0 {
      var before, after, slot := text[..p], text[p..], k.ring[|k.ring| - 1];
      assert text == before + after;
      assert now == slot + (before + after);
      assert Whole(k) == before + slot + after;
      SwapEqual(before, slot, after);
    }
  }

  lemma SwapEqual(a: string, b: string, c: string)
    ensures b + (a + c) == a + b + c <==> a + b == b + a
  {
    assert b + (a + c) == (b + a) + c;
    if (b + a) + c == (a + b) + c {
      assert ((b + a) + c)[..|a| + |b|] == b + a && ((a + b) + c)[..|a| + |b|] == a + b;
    }
  }

  /** Killing a full line after a kill further along: the two pieces come back in the wrong order. */
  lemma FullLineSwapsText() returns (k: Kills)
    ensures Usable(k) && k.last > 0 && Yanked(KilledFullLine(k)).line.text != Whole(k)
  {
    k := Kills(Line("a", 1, []), 1, ["b"], 0, 1);
    assert "a"[..1] == "a" && "a"[1..] == "" && "a"[0..1] == "a" && "b" + "a" == "ba";
    assert Whole(k) == "ab";
    var r := KilledFullLine(k);
    assert r.ring == ["ba"] && r.line.text == "";
    YankText(r);
    assert Yanked(r).line.text == "ba" && "ba"[0] != "ab"[0];
  }

  /**
   A region kill of no text counts as a kill.  That is harmless exactly if a kill before it has opened a slot, or the
   last slot is empty; and if the ring has no slot the next kill has none to be added to.
  */
  lemma EmptyKillConserves(k: Kills)
    requires Usable(k) && !TakesText(k, KillRegion)
    ensures Usable(Ran(k, KillRegion)) <==> k.ring != []
    ensures k.ring != [] ==>
              (Whole(Ran(k, KillRegion)) == Whole(k) <==> k.last > 0 || k.ring[|k.ring| - 1] == "")
  {
    var t, p := k.line.text, k.line.point;
    assert Ran(k, KillRegion) == k.(last := k.last + 1);
    if k.ring != [] && k.last == 0 {
      var slot := k.ring[|k.ring| - 1];
      assert |t[..p] + slot + t[p..]| == |t| + |slot|;
      if slot == "" {
        assert t[..p] + slot + t[p..] == t;
      }
    }
  }

  /** A run of kills that begins with one of no text: one yank restores the line exactly if the last slot was empty. */
  lemma EmptyKillRestores(k: Kills, k1: Kills, cs: seq<KillCommand>)
    requires Usable(k) && k.last == 0 && k.ring != [] && !TakesText(k, KillRegion) && k1 == Ran(k, KillRegion)
    requires cs != [] && Usable(k1) && AllKill(k1, cs)
    ensures var r := RanAll(k1, cs);
            Usable(r) && r.ring != [] &&
            (Yanked(r).line.text == k.line.text <==> k.ring[|k.ring| - 1] == "")
  {
    EmptyKillConserves(k);
    assert Whole(k) == k.line.text;
    RunYanks(k1, cs);
  }

  /** Killing the full line when there is none is the same kind of kill. */
  lemma EmptyFullLine(k: Kills)
    requires Usable(k) && k.line.text == ""
    ensures Usable(KilledFullLine(k)) <==> k.ring != []
    ensures k.ring != [] ==>
              (Whole(KilledFullLine(k)) == Whole(k) <==> k.last > 0 || k.ring[|k.ring| - 1] == "")
  {
    var r := KilledFullLine(k);
    assert r.ring == k.ring && r.line.text == "" && r.line.point == k.line.point == 0;
    if k.ring != [] {
      var slot := k.ring[|k.ring| - 1];
      assert ""[..0] + slot + ""[0..] == slot;
    }
  }

  /** For example, the next kill is added to an old slot. */
  lemma EmptyKillJoinsOldSlot() returns (k: Kills)
    ensures Usable(k) && k.last == 0 && !TakesText(k, KillRegion)
    ensures var k1 := Ran(k, KillRegion);
            Usable(k1) && TakesText(k1, KillLine(1)) && Yanked(Ran(k1, KillLine(1))).line.text != k.line.text
  {
    k := Kills(Line("b", 0, []), 0, ["a"], 0, 0);
    var k1 := Ran(k, KillRegion);
    assert k1.last == 1 && k1.ring == ["a"] && k1.line == k.line;
    var k2 := Ran(k1, KillLine(1));
    assert "b"[0..1] == "b" && "a" + "b" == "ab";
    assert k2.line.text == "" && k2.ring == ["ab"] && k2.index == 0;
    YankText(k2);
  }

  // ----- rl_yank_pop -----

  /** There is a slot, and its text is before point. */
  predicate CanPop(k: Kills)
    requires Usable(k)
  {
    k.ring != [] &&
    var slot := k.ring[k.index];
    |slot| <= k.line.point && k.line.text[k.line.point - |slot|..k.line.point] == slot
  }

  /** The text just yanked is replaced with the slot before, round the ring; without such a text nothing happens. */
  function YankPopped(k: Kills): Kills
    requires Usable(k)
  {
    if !CanPop(k) then k
    else
      var n := k.line.point - |k.ring[k.index]|;
      var cut := Deleted(k.line, n, k.line.point).(point := n);
      Yanked(k.(line := cut, index := if k.index == 0 then |k.ring| - 1 else k.index - 1))
  }

  /** The text of the slot before point gives way to the slot before it in the ring. */
  lemma PoppedText(k: Kills)
    requires Usable(k) && CanPop(k)
    ensures var r, t, p, n := YankPopped(k), k.line.text, k.line.point, |k.ring[k.index]|;
            && n <= p && t[p - n..p] == k.ring[k.index] && r.ring == k.ring
            && r.index == (if k.index == 0 then |k.ring| - 1 else k.index - 1)
            && r.line.text == t[..p - n] + k.ring[r.index] + t[p..]
            && r.line.point == p - n + |k.ring[r.index]| && r.mark == p - n
  {
    var t, p, n := k.line.text, k.line.point, |k.ring[k.index]|;
    var cut := Deleted(k.line, p - n, p).(point := p - n);
    assert cut.text[..p - n] == t[..p - n] && cut.text[p - n..] == t[p..];
    YankText(k.(line := cut, index := if k.index == 0 then |k.ring| - 1 else k.index - 1));
  }

  /** Just after slot index was yanked between before and after. */
  predicate JustYanked(k: Kills, before: string, after: string) {
    && Usable(k) && k.ring != []
    && k.line.text == before + k.ring[k.index] + after
    && k.line.point == |before| + |k.ring[k.index]|
  }

  /** rl_yank_pop exchanges the yanked text for the slot before. */
  lemma PopReplaces(k: Kills, before: string, after: string)
    requires JustYanked(k, before, after) && k.last == 0
    ensures var r := YankPopped(k);
            JustYanked(r, before, after) && r.last == 0 && r.ring == k.ring &&
            r.index == if k.index == 0 then |k.ring| - 1 else k.index - 1
  {
    var slot, l := k.ring[k.index], |k.ring[k.index]|;
    var n := k.line.point - l;
    assert k.line.text[n..k.line.point] == slot;
    var cut := Deleted(k.line, n, k.line.point).(point := n);
    assert cut.text == before + after && (before + after)[..n] == before && (before + after)[n..] == after;
    YankText(k.(line := cut, index := if k.index == 0 then |k.ring| - 1 else k.index - 1));
  }

  function Pops(k: Kills, n: nat): Kills
    requires Usable(k) && k.ring != [] && k.last == 0
    decreases n
  {
    if n == 0 then k
    else
      var r := YankPopped(k);
      if Usable(r) && r.ring != [] && r.last == 0 then Pops(r, n - 1) else r
  }

  /** n pops show the slot n places before, counting round the ring. */
  lemma {:induction false} PopsRotate(k: Kills, n: nat, before: string, after: string)
    requires JustYanked(k, before, after) && k.last == 0 && n <= |k.ring|
    ensures var r := Pops(k, n);
            JustYanked(r, before, after) && r.ring == k.ring &&
            r.index == if n <= k.index then k.index - n else k.index + |k.ring| - n
    decreases n
  {
    if n > 0 {
      PopReplaces(k, before, after);
      PopsRotate(YankPopped(k), n - 1, before, after);
    }
  }

  /** Popping once round the ring brings the yanked text back. */
  lemma PopsComeRound(k: Kills, before: string, after: string)
    requires JustYanked(k, before, after) && k.last == 0
    ensures Pops(k, |k.ring|).line.text == k.line.text
  {
    var r := Pops(k, |k.ring|);
    PopsRotate(k, |k.ring|, before, after);
    assert r.index == k.index;
    SameYanked(k, r, before, after);
  }

  lemma SameYanked(k: Kills, r: Kills, before: string, after: string)
    requires JustYanked(k, before, after) && JustYanked(r, before, after) && r.ring == k.ring && r.index == k.index
    ensures r.line.text == k.line.text
  {
  }
}
