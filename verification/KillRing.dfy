/**
 The kill commands at work on the line buffer (readline-6.2/kill.c).
*/
module KillRing {
  import opened Options
  import opened Characters
  import opened Edits
  import opened LineEditor
  import opened Kill

  class KillRing {
    const ed: LineEditor
    var slots: seq<string>     // rl_kill_ring
    var index: nat             // rl_kill_index
    var last: nat              // _rl_last_command_was_kill

    constructor (ed: LineEditor)
      requires ed.Valid() && ed.point <= ed.end && ed.mark <= ed.end && !ed.doingUndo
      ensures this.ed == ed && Valid() && slots == [] && last == 0
    {
      this.ed, slots, index, last := ed, [], 0, 0;
    }

    ghost function State(): Kills
      requires ed.Valid()
      reads this, ed, ed.buffer
    {
      Kills(ed.State(), ed.mark, slots, index, last)
    }

    ghost predicate Valid()
      reads this, ed, ed.buffer
    {
      ed.Valid() && !ed.doingUndo && Usable(State())
    }

    /** _rl_copy_to_kill_ring. */
    method CopyToKillRing(text: string, append: bool)
      requires |slots| <= MAX_KILLS && (last > 0 ==> slots != [])
      modifies this`slots, this`index
      ensures slots == Copied(old(slots), last, text, append) && index == |slots| - 1
      ensures last == 0 ==> slots == (if |old(slots)| == 10 then old(slots)[1..] else old(slots)) + [text]
      ensures last > 0 ==>
                slots == old(slots)[index := if append then old(slots)[index] + text else text + old(slots)[index]]
    {
      var slot: nat := 0;
      if last == 0 {
        if slots == [] {
          slots := [""];
        } else {
          slot := |slots|;
          if slot == MAX_KILLS {
            slots := slots[1..] + [""];
            slot := slot - 1;
          } else {
            slots := slots + [""];
          }
        }
        slots := slots[slot := text];
      } else {
        slot := |slots| - 1;
        var joined := if append then slots[slot] + text else text + slots[slot];
        slots := slots[slot := joined];
      }
      index := slot;
    }

    /** rl_kill_text. */
    method KillText(from: nat, to: nat)
      requires ed.Valid() && !ed.doingUndo && from <= ed.end && to <= ed.end
      requires |slots| <= MAX_KILLS && (last > 0 ==> slots != [])
      modifies this`slots, this`index, this`last, ed`end, ed`undoList, ed.buffer
      ensures ed.Valid() && last == old(last) + 1
      ensures from == to ==> ed.State() == old(ed.State()) && slots == old(slots) && index == old(index)
      ensures from != to ==>
                var text := old(ed.Text());
                var cut := if from < to then text[from..to] else text[to..from];
                ed.State() == Deleted(old(ed.State()), from, to) &&
                slots == Copied(old(slots), old(last), cut, from < to) && index == |slots| - 1
    {
      if from == to {
        last := last + 1;
        return;
      }
      var text;
      if from < to {
        text := ed.CopyText(from, to);
      } else {
        text := ed.CopyText(to, from);
      }
      var diff := ed.DeleteText(from, to);
      CopyToKillRing(text, from < to);
      last := last + 1;
    }

    /** What kill commands have in common: kill from where point was to where it is now, and set mark. */
    method KillFrom(origPoint: nat)
      requires Valid() && origPoint <= ed.end && origPoint != ed.point
      modifies this`slots, this`index, this`last, ed`end, ed`point, ed`mark, ed`undoList, ed.buffer
      ensures Valid()
      ensures State() == RanTo(old(State().(line := State().line.(point := origPoint))), old(ed.point))
    {
      ghost var k := State().(line := State().line.(point := origPoint));
      var target := ed.point;
      RanToConserves(k, target);
      KillText(origPoint, target);
      assert ed.State() == Killed(k, origPoint, target).line.(point := target);
      ed.point := if origPoint < target then origPoint else target;
      ed.mark := ed.point;
      assert State() == RanTo(k, target);
    }

    method FinishKill(origPoint: nat, ghost k: Kills, ghost c: KillCommand)
      requires Usable(k) && !c.KillRegion? && Target(k, c) == ed.point && k.line.point == origPoint
      requires Valid() && State() == k.(line := k.line.(point := ed.point))
      modifies this`slots, this`index, this`last, ed`end, ed`point, ed`mark, ed`undoList, ed.buffer
      ensures Valid() && Did(k, c)
    {
      if ed.point != origPoint {
        KillFrom(origPoint);
      }
      ed.mark := ed.point;
    }

    /** rl_kill_word. */
    method KillWord(count: int)
      requires Valid()
      modifies this`slots, this`index, this`last, ed`end, ed`point, ed`mark, ed`undoList, ed.buffer
      ensures Valid() && Did(old(State()), Kill.KillWord(count))
      ensures LedTo(Kill.KillWord(count), old(State()), State()) == Some(State())
      decreases count < 0
    {
      ghost var k := State();
      if count < 0 {
        BackwardKillWord(-count);
      } else {
        KillAhead(count);
      }
      DidDoes(k, Kill.KillWord(count));
    }

    /** The same for a count that is not negative. */
    method KillAhead(count: nat)
      requires Valid()
      modifies this`slots, this`index, this`last, ed`end, ed`point, ed`mark, ed`undoList, ed.buffer
      ensures Valid() && Did(old(State()), Kill.KillWord(count))
    {
      ghost var k := State();
      var origPoint := ed.point;
      ed.ForwardWord(count);
      assert Target(k, Kill.KillWord(count)) == ed.point;
      if ed.point != origPoint {
        KillFrom(origPoint);
      }
      ed.point := origPoint;
      ed.mark := ed.point;
    }

    /** What a command must have done to a state. */
    ghost predicate Did(k: Kills, c: KillCommand)
      requires ed.Valid() && Usable(k)
      reads this, ed, ed.buffer
    {
      if TakesText(k, c) then State() == Ran(k, c)
      else
        ed.State() == k.line && slots == k.ring && index == k.index && ed.mark in {k.mark, k.line.point} &&
        last == if c.KillRegion? then k.last + 1 else k.last
    }

    /** What a command has done is what it is to do. */
    lemma DidDoes(k: Kills, c: KillCommand)
      requires ed.Valid() && Usable(k) && Did(k, c)
      ensures LedTo(c, k, State()) == Some(State())
    {
      CommandDoes(k, c, State());
    }

    /** A count of the other sign does the same in the other direction. */
    lemma DidBackward(k: Kills, count: int)
      requires ed.Valid() && Usable(k) && Did(k, Kill.KillWord(-count))
      ensures Did(k, Kill.BackwardKillWord(count))
    {
      assert Target(k, Kill.KillWord(-count)) == Target(k, Kill.BackwardKillWord(count));
    }

    /** rl_backward_kill_word. */
    method BackwardKillWord(count: int)
      requires Valid()
      modifies this`slots, this`index, this`last, ed`end, ed`point, ed`mark, ed`undoList, ed.buffer
      ensures Valid() && Did(old(State()), Kill.BackwardKillWord(count))
      ensures LedTo(Kill.BackwardKillWord(count), old(State()), State()) == Some(State())
      decreases count < 0
    {
      ghost var k := State();
      if count < 0 {
        KillWord(-count);
        DidBackward(k, count);
      } else {
        KillBack(count);
      }
      DidDoes(k, Kill.BackwardKillWord(count));
    }

    /** The same for a count that is not negative. */
    method KillBack(count: nat)
      requires Valid()
      modifies this`slots, this`index, this`last, ed`end, ed`point, ed`mark, ed`undoList, ed.buffer
      ensures Valid() && Did(old(State()), Kill.BackwardKillWord(count))
    {
      ghost var k := State();
      var origPoint := ed.point;
      ed.BackwardWord(count);
      assert Target(k, Kill.BackwardKillWord(count)) == ed.point;
      FinishKill(origPoint, k, Kill.BackwardKillWord(count));
    }

    /** rl_kill_line. */
    method KillLine(direction: int)
      requires Valid()
      modifies this`slots, this`index, this`last, ed`end, ed`point, ed`mark, ed`undoList, ed.buffer
      ensures Valid() && Did(old(State()), Kill.KillLine(direction))
      ensures LedTo(Kill.KillLine(direction), old(State()), State()) == Some(State())
      decreases direction < 0
    {
      ghost var k := State();
      if direction < 0 {
        BackwardKillLine(1);
      } else {
        KillToEnd(direction);
      }
      DidDoes(k, Kill.KillLine(direction));
    }

    /** The same for a direction that is not negative. */
    method KillToEnd(ghost direction: nat)
      requires Valid()
      modifies this`slots, this`index, this`last, ed`end, ed`point, ed`mark, ed`undoList, ed.buffer
      ensures Valid() && Did(old(State()), Kill.KillLine(direction))
    {
      var origPoint := ed.point;
      ed.point := ed.end;
      if origPoint != ed.point {
        KillFrom(origPoint);
      }
      ed.point := origPoint;
      ed.mark := ed.point;
    }

    /** rl_backward_kill_line. */
    method BackwardKillLine(direction: int)
      requires Valid()
      modifies this`slots, this`index, this`last, ed`end, ed`point, ed`mark, ed`undoList, ed.buffer
      ensures Valid() && Did(old(State()), Kill.BackwardKillLine(direction))
      ensures LedTo(Kill.BackwardKillLine(direction), old(State()), State()) == Some(State())
      decreases direction < 0
    {
      ghost var k := State();
      if direction < 0 {
        KillLine(1);
      } else if ed.point != 0 {
        var origPoint := ed.point;
        ed.point := 0;
        KillFrom(origPoint);
      }
      DidDoes(k, Kill.BackwardKillLine(direction));
    }

    /** rl_unix_word_rubout. */
    method UnixWordRubout(count: int)
      requires Valid()
      modifies this`slots, this`index, this`last, ed`end, ed`point, ed`mark, ed`undoList, ed.buffer
      ensures Valid() && Did(old(State()), Kill.UnixWordRubout(count))
      ensures LedTo(Kill.UnixWordRubout(count), old(State()), State()) == Some(State())
    {
      ghost var k := State();
      if ed.point != 0 {
        RuboutFrom(count);
      }
      DidDoes(k, Kill.UnixWordRubout(count));
    }

    /** The same with text before point. */
    method RuboutFrom(count: int)
      requires Valid() && ed.point != 0
      modifies this`slots, this`index, this`last, ed`end, ed`point, ed`mark, ed`undoList, ed.buffer
      ensures Valid() && Did(old(State()), Kill.UnixWordRubout(count))
    {
      var origPoint := ed.point;
      RuboutWords(if count <= 0 then 1 else count);
      KillFrom(origPoint);
    }

    /** The loop of rl_unix_word_rubout that moves point. */
    method RuboutWords(count: nat)
      requires Valid() && count > 0 && ed.point > 0
      modifies ed`point
      ensures ed.point == RuboutStart(ed.Text(), old(ed.point), count) && ed.point < old(ed.point)
    {
      ghost var text := ed.Text();
      var n := count;
      while n > 0
        invariant ed.point <= ed.end && n <= count
        invariant RuboutStart(text, ed.point, n) == RuboutStart(text, old(ed.point), count)
        invariant n == count ==> ed.point == old(ed.point)
        invariant n < count ==> ed.point < old(ed.point)
      {
        RuboutWord();
        n := n - 1;
      }
    }

    /** The body of that loop. */
    method RuboutWord()
      requires ed.Valid() && ed.point <= ed.end
      modifies ed`point
      ensures ed.point == BackOver(ed.Text(), BackOver(ed.Text(), old(ed.point), true), false) <= old(ed.point)
      ensures old(ed.point) > 0 ==> ed.point < old(ed.point)
    {
      SkipBlanks(true);
      SkipBlanks(false);
    }

    method SkipBlanks(blank: bool)
      requires ed.Valid() && ed.point <= ed.end
      modifies ed`point
      ensures ed.point == BackOver(ed.Text(), old(ed.point), blank)
    {
      ghost var text := ed.Text();
      while ed.point > 0
        invariant ed.point <= ed.end && BackOver(text, ed.point, blank) == BackOver(text, old(ed.point), blank)
        decreases ed.point
      {
        var c := ed.buffer[ed.point - 1];
        if IsBlank(c) != blank {
          break;
        }
        ed.point := ed.point - 1;
      }
    }

    /** rl_unix_line_discard. */
    method UnixLineDiscard()
      requires Valid()
      modifies this`slots, this`index, this`last, ed`end, ed`point, ed`mark, ed`undoList, ed.buffer
      ensures Valid() && Did(old(State()), Kill.UnixLineDiscard)
      ensures ed.Text() == old(ed.Text())[old(ed.point)..] && ed.point == 0
      ensures old(ed.point) > 0 ==> Took(old(State()), State(), old(ed.Text())[..old(ed.point)], false)
      ensures LedTo(Kill.UnixLineDiscard, old(State()), State()) == Some(State())
    {
      ghost var k := State();
      if ed.point != 0 {
        var origPoint := ed.point;
        ed.point := 0;
        KillFrom(origPoint);
      }
      DidDoes(k, Kill.UnixLineDiscard);
      FromStart(k.line.text, k.line.point);
    }

    /**
     rl_kill_region: region_kill_internal, and then putting point and mark back onto the line.  A region without text
     counts as a kill although there may be no slot for the next kill to be added to.
    */
    method KillRegion()
      requires Valid()
      modifies this`slots, this`index, this`last, ed`end, ed`point, ed`mark, ed`undoList, ed.buffer
      ensures ed.Valid() && !ed.doingUndo && Did(old(State()), Kill.KillRegion)
      ensures Valid() <==> TakesText(old(State()), Kill.KillRegion) || old(slots) != []
      ensures LedTo(Kill.KillRegion, old(State()), State()) == Some(State())
      ensures ed.mark == if old(ed.mark) > ed.end then ed.end else old(ed.mark)
    {
      ghost var k := State();
      if ed.mark != ed.point {
        KillMarked();
      } else {
        last := last + 1;
      }
      DidDoes(k, Kill.KillRegion);
    }

    method KillMarked()
      requires Valid() && ed.mark != ed.point
      modifies this`slots, this`index, this`last, ed`end, ed`point, ed`mark, ed`undoList, ed.buffer
      ensures Valid() && State() == Ran(old(State()), Kill.KillRegion)
    {
      ghost var k := State();
      var npoint := if ed.point < ed.mark then ed.point else ed.mark;
      CommandConserves(k, Kill.KillRegion);
      KillText(ed.point, ed.mark);
      assert ed.State() == Killed(k, k.line.point, k.mark).line;
      if ed.mark > ed.end {
        ed.mark := ed.end;
      }
      ed.point := npoint;
    }

    /** rl_kill_full_line. */
    method KillFullLine()
      requires Valid()
      modifies this`slots, this`index, this`last, ed`end, ed`point, ed`mark, ed`undoList, ed`groupLevel, ed.buffer
      ensures ed.Valid() && State() == KilledFullLine(old(State()))
      ensures Valid() <==> old(ed.Text()) != "" || old(slots) != []
    {
      ed.BeginUndoGroup();
      ed.point := 0;
      KillText(ed.point, ed.end);
      ed.mark := 0;
      ed.EndUndoGroup();
    }

    /** rl_yank; false if there is nothing to yank. */
    method Yank() returns (r: bool)
      requires ed.Valid() && !ed.doingUndo && ed.point <= ed.end && (slots != [] ==> index < |slots|)
      modifies ed`buffer, ed`end, ed`point, ed`mark, ed`undoList, ed.buffer
      ensures ed.Valid() && (ed.buffer == old(ed.buffer) || fresh(ed.buffer)) && r == (slots != [])
      ensures State() == if r then Yanked(old(State())) else old(State())
      ensures r ==> var t, p := old(ed.Text()), old(ed.point);
                    ed.Text() == t[..p] + slots[index] + t[p..] && ed.point == p + |slots[index]| && ed.mark == p
    {
      if slots == [] {
        return false;
      }
      YankText(State());
      ed.mark := ed.point;
      var n := ed.InsertText(slots[index]);
      return true;
    }

    /** rl_yank_pop; false if the last command was no yank, the ring is empty or the yanked text is not before point. */
    method YankPop(afterYank: bool) returns (r: bool)
      requires Valid()
      modifies this`index, ed`buffer, ed`end, ed`point, ed`mark, ed`undoList, ed.buffer
      ensures ed.Valid() && (ed.buffer == old(ed.buffer) || fresh(ed.buffer))
      ensures r == (afterYank && CanPop(old(State())))
      ensures State() == if r then YankPopped(old(State())) else old(State())
      ensures r ==> var t, p, slot := old(ed.Text()), old(ed.point), slots[old(index)];
                    && |slot| <= p && t[p - |slot|..p] == slot
                    && index == (if old(index) == 0 then |slots| - 1 else old(index) - 1)
                    && ed.Text() == t[..p - |slot|] + slots[index] + t[p..]
                    && ed.point == p - |slot| + |slots[index]| && ed.mark == p - |slot|
    {
      if !afterYank || slots == [] {
        return false;
      }
      ghost var k := State();
      var l := |slots[index]|;
      if ed.point < l {
        return false;
      }
      var before := ed.CopyText(ed.point - l, ed.point);
      if before != slots[index] {
        return false;
      }
      PoppedText(k);
      r := Exchange(ed.point - l);
    }

    /** The exchanging part of rl_yank_pop. */
    method Exchange(n: nat) returns (r: bool)
      requires Valid() && slots != [] && n <= ed.point
      modifies this`index, ed`buffer, ed`end, ed`point, ed`mark, ed`undoList, ed.buffer
      ensures ed.Valid() && (ed.buffer == old(ed.buffer) || fresh(ed.buffer))
      ensures var k := old(State());
              var cut := Deleted(k.line, n, k.line.point).(point := n);
              r && State() == Yanked(k.(line := cut, index := if k.index == 0 then |k.ring| - 1 else k.index - 1))
    {
      var d := ed.DeleteText(n, ed.point);
      ed.point := n;
      index := if index == 0 then |slots| - 1 else index - 1;
      r := Yank();
    }

    /** One command as the main loop runs it: a command that was no kill ends the run of kills. */
    method Execute(c: KillCommand)
      requires Valid()
      modifies this`slots, this`index, this`last, ed`end, ed`point, ed`mark, ed`undoList, ed.buffer
      ensures ed.Valid() && (TakesText(old(State()), c) ==> Valid() && State() == Ran(old(State()), c))
    {
      var lk := last;
      match c {
        case KillWord(count) => KillWord(count);
        case BackwardKillWord(count) => BackwardKillWord(count);
        case KillLine(direction) => KillLine(direction);
        case BackwardKillLine(direction) => BackwardKillLine(direction);
        case UnixWordRubout(count) => UnixWordRubout(count);
        case UnixLineDiscard => UnixLineDiscard();
        case KillRegion => KillRegion();
      }
      if last == lk {
        last := 0;
      }
    }

    /** Any run of commands that all kill something, and a yank: the line is back. */
    method KillAndYank(cs: seq<KillCommand>)
      requires Valid() && last == 0 && cs != [] && AllKill(State(), cs)
      modifies this, ed, ed.buffer
      ensures ed.Valid() && ed.Text() == old(ed.Text())
    {
      ghost var k := State();
      var i := 0;
      while i < |cs|
        invariant i <= |cs| && Valid() && AllKill(State(), cs[i..])
        invariant RanAll(State(), cs[i..]) == RanAll(k, cs)
        modifies this`slots, this`index, this`last, ed`end, ed`point, ed`mark, ed`undoList, ed.buffer
      {
        assert cs[i..][0] == cs[i] && cs[i..][1..] == cs[i + 1..];
        Execute(cs[i]);
        i := i + 1;
      }
      YankRestores(k, cs);
      var r := Yank();
    }
  }
}
