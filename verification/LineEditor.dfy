/**
 The line buffer and the commands that change it in place (readline-6.2/text.c, readline-6.2/undo.c).

 The methods do what the functions of Edits and Undo say.
*/
module LineEditor {
  import opened Undo
  import opened Characters
  import opened Edits
  import opened HistoryStore
  import opened Options

  /** A pointer to an undo record: the list it is in, and the list from there on; an empty one is the null pointer. */
  datatype UndoRef = UndoRef(list: nat, log: seq<Record>)

  /** An entry of the history with the undo list that leads back to its original text. */
  datatype EditedEntry = EditedEntry(entry: Entry, data: UndoRef)

  const NULL := UndoRef(0, [])

  predicate SamePointer(a: UndoRef, b: UndoRef) {
    (a.log == [] && b.log == []) || (a.log != [] && a.list == b.list && |a.log| == |b.log|)
  }

  /** replace_history_data (-1, ...): every entry that points to from is made to point to to. */
  function Repointed(h: seq<EditedEntry>, from: UndoRef, to: UndoRef): (r: seq<EditedEntry>)
    ensures |r| == |h|
    ensures forall i | 0 <= i < |h| :: r[i] == if SamePointer(h[i].data, from) then h[i].(data := to) else h[i]
  {
    seq(|h|, i requires 0 <= i < |h| => if SamePointer(h[i].data, from) then h[i].(data := to) else h[i])
  }

  /** The history after n records of a list were taken off one by one, the entries that pointed to them following. */
  function Followed(h: seq<EditedEntry>, list: nat, log: seq<Record>, n: nat): (r: seq<EditedEntry>)
    requires n <= |log|
    ensures |r| == |h|
    decreases n
  {
    if n == 0 then h
    else Followed(Repointed(h, UndoRef(list, log), UndoRef(list, log[1..])), list, log[1..], n - 1)
  }

  lemma {:induction false} FollowMore(h: seq<EditedEntry>, list: nat, log: seq<Record>, n: nat, k: nat)
    requires n + k <= |log|
    ensures Followed(h, list, log, n + k) == Followed(Followed(h, list, log, n), list, log[n..], k)
    decreases n
  {
    if n == 0 {
      assert log[0..] == log;
    } else {
      assert log[1..][n - 1..] == log[n..];
      FollowMore(Repointed(h, UndoRef(list, log), UndoRef(list, log[1..])), list, log[1..], n - 1, k);
    }
  }

  /** An entry that points to the list follows it, record by record. */
  lemma {:induction false} FollowsTheList(h: seq<EditedEntry>, list: nat, log: seq<Record>, n: nat, i: nat)
    requires n <= |log| && i < |h| && h[i].data == UndoRef(list, log)
    ensures Followed(h, list, log, n)[i] == EditedEntry(h[i].entry, UndoRef(list, log[n..]))
    decreases n
  {
    if n > 0 {
      FollowsTheList(Repointed(h, UndoRef(list, log), UndoRef(list, log[1..])), list, log[1..], n - 1, i);
      assert log[1..][n - 1..] == log[n..];
    }
  }

  /** An undo on the way to reverting the whole log does not change where that leads. */
  lemma RevertTurn(l: Line, h: seq<EditedEntry>, list: nat)
    requires Sound(l.text, l.log) && l.log != []
    ensures var u, n := Undone(l), PopCount(l.log, 0);
            && Sound(u.text, u.log)
            && Rewind(u.text, u.log, |u.log|) == Rewind(l.text, l.log, |l.log|)
            && Followed(Followed(h, list, l.log, n), list, u.log, |u.log|) == Followed(h, list, l.log, |l.log|)
            && PointAfter(u.text, u.point, u.log, |u.log|) == PointAfter(l.text, l.point, l.log, |l.log|)
  {
    var n := PopCount(l.log, 0);
    PointSplit(l.text, l.point, l.log, n, |l.log| - n);
    RewindSplit(l.text, l.log, n, |l.log| - n);
    FollowMore(h, list, l.log, n, |l.log| - n);
  }

  /** How many records of the line l were taken back, if that is where the line and the history are now. */
  ghost function Unwound(l: Line, h: seq<EditedEntry>, list: nat, n: nat, waiting: nat, again: bool, now: Line,
                         followed: seq<EditedEntry>): Option<nat>
  {
    if && Sound(l.text, l.log) && n <= |l.log|
       && now == Line(Rewind(l.text, l.log, n), PointAfter(l.text, l.point, l.log, n), l.log[n..])
       && Sound(now.text, now.log)
       && followed == Followed(h, list, l.log, n)
       && (if again then n == 0 || waiting > 0 else waiting == 0)
       && PopCount(l.log, 0) == n + (if again then PopCount(now.log, waiting) else 0)
       && Closes(l.log, 0) == (again ==> Closes(now.log, waiting))
    then Some(n) else None
  }

  /** One record more. */
  lemma UnwindOne(l: Line, h: seq<EditedEntry>, list: nat, n: nat, waiting: nat, now: Line, followed: seq<EditedEntry>)
    requires Unwound(l, h, list, n, waiting, true, now, followed) == Some(n) && now.log != []
    ensures var r := now.log[0];
            var w := Waiting(waiting, r);
            Fits(r, now.text) &&
            Unwound(l, h, list, n + 1, w, w > 0,
                    Line(Revert(r, now.text), PointAt(r, now.point), now.log[1..]),
                    Followed(followed, list, now.log, 1)) == Some(n + 1)
  {
    RewindSnoc(l.text, l.log, n);
    PointSnoc(l.text, l.point, l.log, n);
    FollowMore(h, list, l.log, n, 1);
  }

  class LineEditor {
    var buffer: array<char>       // rl_line_buffer
    var end: nat                  // rl_end
    var point: nat                // rl_point
    var mark: nat                 // rl_mark
    var undoList: seq<Record>     // rl_undo_list, with the list it belongs to
    var undoListId: nat
    var doingUndo: bool           // _rl_doing_an_undo
    var groupLevel: int           // _rl_undo_group_level
    var history: seq<EditedEntry>       // the_history
    var offset: nat               // history_offset

    ghost predicate Valid()
      reads this, buffer
    {
      end < buffer.Length && buffer[end] == '\0'
    }

    ghost function Text(): string
      requires Valid()
      reads this, buffer
    {
      buffer[..end]
    }

    ghost function State(): Line
      requires Valid()
      reads this, buffer
    {
      Line(Text(), point, undoList)
    }

    constructor ()
      ensures Valid() && State() == Line("", 0, []) && !doingUndo && history == [] && offset == 0 && fresh(buffer)
    {
      buffer := new char[256](_ => '\0');
      end, point, mark := 0, 0, 0;
      undoList, undoListId, doingUndo, groupLevel := [], 0, false, 0;
      history, offset := [], 0;
    }

    // ----- the buffer -----

    /** rl_extend_line_buffer. */
    method ExtendLineBuffer(len: nat)
      requires Valid()
      modifies this`buffer
      ensures Valid() && Text() == old(Text()) && len < buffer.Length
      ensures buffer == old(buffer) || fresh(buffer)
    {
      var size := buffer.Length;
      while len >= size {
        size := size + 256;
      }
      if size > buffer.Length {
        var larger := new char[size](_ => '\0');
        for i := 0 to end + 1
          invariant forall k | 0 <= k < i :: larger[k] == buffer[k]
          modifies larger
        {
          larger[i] := buffer[i];
        }
        assert larger[..end] == buffer[..end];
        buffer := larger;
      }
    }

    /** rl_add_undo. */
    method AddUndo(what: UndoCode, start: nat, last: nat, text: string)
      modifies this`undoList
      ensures undoList == [Record(what, start, last, text)] + old(undoList)
    {
      undoList := [Record(what, start, last, text)] + undoList;
    }

    /** rl_copy_text. */
    method CopyText(from: nat, to: nat) returns (s: string)
      requires Valid() && from <= to <= end
      ensures s == Text()[from..to]
    {
      s := buffer[from..to];
    }

    /** rl_insert_text. */
    method InsertText(s: string) returns (n: nat)
      requires Valid() && point <= end
      modifies this`buffer, this`end, this`point, this`undoList, buffer
      ensures Valid() && n == |s| && (buffer == old(buffer) || fresh(buffer))
      ensures Text() == Inserted(old(State()), s).text && point == Inserted(old(State()), s).point
      ensures undoList == if doingUndo then old(undoList) else Inserted(old(State()), s).log
    {
      n := |s|;
      if n == 0 {
        return;
      }
      MoveIn(s);
      if !doingUndo {
        LogInsert(n);
      }
      point := point + n;
    }

    /** The text part of rl_insert_text. */
    method MoveIn(s: string)
      requires Valid() && point <= end && s != ""
      modifies this`buffer, this`end, buffer
      ensures Valid() && (buffer == old(buffer) || fresh(buffer)) && end == old(end) + |s|
      ensures Text() == old(Text())[..point] + s + old(Text())[point..]
    {
      ghost var text := Text();
      if end + |s| >= buffer.Length {
        ExtendLineBuffer(end + |s|);
      }
      OpenGap(|s|);
      FillGap(s, text);
      end := end + |s|;
      buffer[end] := '\0';
      assert buffer[..end] == text[..point] + s + text[point..];
    }

    /** The strncpy of rl_insert_text. */
    method FillGap(s: string, ghost text: string)
      requires |text| == end && point <= end && end + |s| < buffer.Length
      requires forall i | 0 <= i < point :: buffer[i] == text[i]
      requires forall i | point + |s| <= i < end + |s| :: buffer[i] == text[i - |s|]
      modifies buffer
      ensures buffer[..end + |s|] == text[..point] + s + text[point..]
    {
      ghost var full := text[..point] + s + text[point..];
      var k := 0;
      while k < |s|
        invariant k <= |s|
        invariant forall i | 0 <= i < point + k || point + |s| <= i < end + |s| :: buffer[i] == full[i]
      {
        buffer[point + k] := s[k];
        k := k + 1;
      }
      assert buffer[..end + |s|] == full;
    }

    /** The logging of rl_insert_text: possibly by extending the newest record. */
    method LogInsert(n: nat)
      modifies this`undoList
      ensures undoList == if n == 1 && old(undoList) != [] && old(undoList)[0].what == UndoInsert &&
                             old(undoList)[0].end == point && old(undoList)[0].end - old(undoList)[0].start < 20
                          then [old(undoList)[0].(end := old(undoList)[0].end + 1)] + old(undoList)[1..]
                          else [Record(UndoInsert, point, point + n, "")] + old(undoList)
    {
      if n == 1 && undoList != [] && undoList[0].what == UndoInsert && undoList[0].end == point &&
         undoList[0].end - undoList[0].start < 20 {
        undoList := [undoList[0].(end := undoList[0].end + 1)] + undoList[1..];
      } else {
        AddUndo(UndoInsert, point, point + n, "");
      }
    }

    /** The loop of rl_insert_text that moves the text behind point, with its NUL, n places to the right. */
    method OpenGap(n: nat)
      requires Valid() && point <= end && end + n < buffer.Length && n > 0
      modifies buffer
      ensures forall i | 0 <= i < point :: buffer[i] == old(buffer[i])
      ensures forall i | point + n <= i <= end + n :: buffer[i] == old(buffer[i - n])
    {
      var i: int := end;
      while i >= point
        invariant point - 1 <= i <= end
        invariant forall k | 0 <= k <= i || 0 <= k < point :: buffer[k] == old(buffer[k])
        invariant forall k | i + n < k <= end + n :: buffer[k] == old(buffer[k - n])
      {
        buffer[i + n] := buffer[i];
        i := i - 1;
      }
    }

    /** rl_delete_text. */
    method DeleteText(from: nat, to: nat) returns (diff: nat)
      requires Valid()
      modifies this`end, this`undoList, buffer
      ensures Valid() && Text() == Deleted(old(State()), from, to).text
      ensures diff == |old(Text())| - |Text()|
      ensures undoList == if doingUndo then old(undoList) else Deleted(old(State()), from, to).log
    {
      var a, b := from, to;
      if a > b {
        a, b := b, a;
      }
      if b > end {
        b := end;
        if a > b {
          a := b;
        }
      }
      var text := CopyText(a, b);
      diff := b - a;
      MoveOut(a, diff);
      if !doingUndo {
        AddUndo(UndoDelete, a, b, text);
      }
    }

    /** The text part of rl_delete_text. */
    method MoveOut(from: nat, diff: nat)
      requires Valid() && from + diff <= end
      modifies this`end, buffer
      ensures Valid() && end == old(end) - diff
      ensures Text() == old(Text())[..from] + old(Text())[from + diff..]
    {
      ghost var text := Text();
      CloseGap(from, diff);
      assert buffer[..end - diff] == text[..from] + text[from + diff..];
      end := end - diff;
      buffer[end] := '\0';
    }

    /** The loop of rl_delete_text that moves the text behind the deleted stretch to the left. */
    method CloseGap(from: nat, diff: nat)
      requires Valid() && from + diff <= end
      modifies buffer
      ensures buffer[..end - diff] == old(buffer[..from] + buffer[from + diff..end])
    {
      var i := from;
      while i < end - diff
        invariant from <= i <= end - diff
        invariant forall k | 0 <= k < from :: buffer[k] == old(buffer[k])
        invariant forall k | from <= k < i :: buffer[k] == old(buffer[k + diff])
        invariant forall k | i <= k < end :: buffer[k] == old(buffer[k])
      {
        buffer[i] := buffer[i + diff];
        i := i + 1;
      }
    }

    // ----- undoing -----

    /** replace_history_data with which == -1. */
    method ReplaceHistoryData(from: UndoRef, to: UndoRef)
      modifies this`history
      ensures history == Repointed(old(history), from, to)
    {
      var i := 0;
      while i < |history|
        invariant i <= |history| == |old(history)|
        invariant forall k | 0 <= k < i :: history[k] == Repointed(old(history), from, to)[k]
        invariant forall k | i <= k < |history| :: history[k] == old(history)[k]
      {
        if SamePointer(history[i].data, from) {
          history := history[i := history[i].(data := to)];
        }
        i := i + 1;
      }
    }

    /** One turn of the loop of rl_do_undo, without the counting of groups. */
    method UndoRecord()
      requires Valid() && undoList != [] && Fits(undoList[0], Text())
      modifies this`buffer, this`end, this`point, this`undoList, this`doingUndo, this`history, buffer
      ensures Valid() && (buffer == old(buffer) || fresh(buffer)) && !doingUndo
      ensures undoList == old(undoList)[1..] && Text() == Revert(old(undoList)[0], old(Text()))
      ensures point == PointAt(old(undoList)[0], old(point))
      ensures history == Followed(old(history), undoListId, old(undoList), 1)
    {
      doingUndo := true;
      var r := undoList[0];
      match r.what {
        case UndoDelete =>
          point := r.start;
          var n := InsertText(r.text);
        case UndoInsert =>
          var n := DeleteText(r.start, r.end);
          point := r.start;
        case _ =>
      }
      doingUndo := false;
      var release := undoList;
      undoList := undoList[1..];
      ReplaceHistoryData(UndoRef(undoListId, release), UndoRef(undoListId, undoList));
    }

    /** rl_do_undo. */
    method DoUndo() returns (r: bool)
      requires Valid() && Sound(Text(), undoList)
      modifies this`buffer, this`end, this`point, this`undoList, this`doingUndo, this`history, buffer
      ensures Valid() && (buffer == old(buffer) || fresh(buffer))
      ensures State() == Undone(old(State()))
      ensures history == Followed(old(history), undoListId, old(undoList), PopCount(old(undoList), 0))
      ensures r == Closes(old(undoList), 0)
      ensures doingUndo == (old(doingUndo) && old(undoList) == [])
    {
      var waiting: nat, again := 0, true;
      ghost var n := 0;
      ghost var l, h := State(), history;
      while again
        invariant Valid() && (buffer == old(buffer) || fresh(buffer)) && n <= |l.log|
        invariant Unwound(l, h, undoListId, n, waiting, again, State(), history) == Some(n)
        invariant doingUndo == (old(doingUndo) && n == 0)
        decreases again, |l.log| - n
      {
        if undoList == [] {
          return false;
        }
        var what := undoList[0].what;
        UnwindOne(l, h, undoListId, n, waiting, State(), history);
        UndoRecord();
        waiting := match what
                   case UndoEnd => waiting + 1
                   case UndoBegin => if waiting > 0 then waiting - 1 else 0
                   case _ => waiting;
        n := n + 1;
        again := waiting > 0;
      }
      return true;
    }

    /** rl_revert_line in emacs mode. */
    method RevertLine()
      requires Valid() && Sound(Text(), undoList)
      modifies this`buffer, this`end, this`point, this`undoList, this`doingUndo, this`history, buffer
      ensures Valid() && (buffer == old(buffer) || fresh(buffer))
      ensures undoList == [] && Text() == Rewind(old(Text()), old(undoList), |old(undoList)|)
      ensures point == PointAfter(old(Text()), old(point), old(undoList), |old(undoList)|)
      ensures history == Followed(old(history), undoListId, old(undoList), |old(undoList)|)
      ensures doingUndo == (old(doingUndo) && old(undoList) == [])
    {
      while undoList != []
        invariant Valid() && (buffer == old(buffer) || fresh(buffer))
        invariant Sound(Text(), undoList)
        invariant Rewind(Text(), undoList, |undoList|) == Rewind(old(Text()), old(undoList), |old(undoList)|)
        invariant Followed(history, undoListId, undoList, |undoList|)
               == Followed(old(history), undoListId, old(undoList), |old(undoList)|)
        invariant PointAfter(Text(), point, undoList, |undoList|)
               == PointAfter(old(Text()), old(point), old(undoList), |old(undoList)|)
        invariant doingUndo == (old(doingUndo) && undoList == old(undoList))
        decreases |undoList|
      {
        RevertTurn(State(), history, undoListId);
        var r := DoUndo();
      }
    }

    // ----- whole runs -----

    /** One edit, after which point is put back onto the line. */
    method Execute(e: Edit)
      requires Valid() && !doingUndo && Editable(State())
      modifies this`buffer, this`end, this`point, this`undoList, this`doingUndo, this`groupLevel, this`history, buffer
      ensures Valid() && !doingUndo && (buffer == old(buffer) || fresh(buffer))
      ensures Editable(State()) && State() == Apply(old(State()), e)
    {
      ApplyStep(State(), e);
      if e.DoUndo? {
        var r := DoUndo();
      } else {
        Perform(e);
      }
      point := if point > end then end else point;
    }

    /** The edits that are no undo. */
    method Perform(e: Edit)
      requires Valid() && !doingUndo && Editable(State()) && !e.DoUndo?
      modifies this`buffer, this`end, this`point, this`undoList, this`groupLevel, buffer
      ensures Valid() && (buffer == old(buffer) || fresh(buffer)) && State() == Edited(old(State()), e)
    {
      match e {
        case Insert(s) => var n := InsertText(s);
        case MoveTo(p) => point := p;
        case BeginGroup => BeginUndoGroup();
        case EndGroup => EndUndoGroup();
        case Delete(_, _) => Rewrite(e);
        case Replace(_, _, _) => Rewrite(e);
        case ChangeCase(_, _) => Rewrite(e);
        case TransposeWords(_) => Rewrite(e);
      }
    }

    /** The edits that delete, replace or rewrite text. */
    method Rewrite(e: Edit)
      requires Valid() && !doingUndo && Editable(State())
      requires e.Delete? || e.Replace? || e.ChangeCase? || e.TransposeWords?
      modifies this`buffer, this`end, this`point, this`undoList, this`groupLevel, buffer
      ensures Valid() && (buffer == old(buffer) || fresh(buffer)) && State() == Edited(old(State()), e)
    {
      match e {
        case Delete(from, to) => var d := DeleteText(from, to);
        case Replace(t, start, last) => var n := ReplaceText(t, Min(start, end), last);
        case ChangeCase(count, op) => ChangeCase(count, op);
        case TransposeWords(count) => var r := TransposeWords(count);
      }
    }

    /** Any sequence of edits: the line goes where the trace of the edits says. */
    method Run(edits: seq<Edit>)
      requires Valid() && !doingUndo && Editable(State())
      modifies this`buffer, this`end, this`point, this`undoList, this`doingUndo, this`groupLevel, this`history, buffer
      ensures Valid() && !doingUndo && (buffer == old(buffer) || fresh(buffer))
      ensures Editable(State()) && State() == Trace(old(State()), edits)[|edits|]
    {
      ghost var l := State();
      TraceLast(l, edits);
      var i := 0;
      while i < |edits|
        invariant i <= |edits| && Valid() && !doingUndo && (buffer == old(buffer) || fresh(buffer))
        invariant Editable(State()) && TraceEnd(State(), edits[i..]) == TraceEnd(l, edits)
      {
        assert edits[i..][0] == edits[i] && edits[i..][1..] == edits[i + 1..];
        Execute(edits[i]);
        i := i + 1;
      }
    }

    /** Whatever was edited since the log was empty, rl_revert_line takes back. */
    method RunAndRevert(edits: seq<Edit>)
      requires Valid() && !doingUndo && Editable(State()) && undoList == []
      requires forall i | 0 < i <= |edits| :: Trace(State(), edits)[i].log != []
      modifies this`buffer, this`end, this`point, this`undoList, this`doingUndo, this`groupLevel, this`history, buffer
      ensures Valid() && !doingUndo && Text() == old(Text()) && undoList == []
    {
      RevertRestores(State(), edits);
      Run(edits);
      RevertLine();
    }

    /** rl_begin_undo_group. */
    method BeginUndoGroup()
      modifies this`undoList, this`groupLevel
      ensures undoList == [BEGIN] + old(undoList) && groupLevel == old(groupLevel) + 1
    {
      AddUndo(UndoBegin, 0, 0, "");
      groupLevel := groupLevel + 1;
    }

    /** rl_end_undo_group. */
    method EndUndoGroup()
      modifies this`undoList, this`groupLevel
      ensures undoList == [END] + old(undoList) && groupLevel == old(groupLevel) - 1
    {
      AddUndo(UndoEnd, 0, 0, "");
      groupLevel := groupLevel - 1;
    }

    /** rl_modifying. */
    method Modifying(from: nat, to: nat)
      requires Valid() && from <= end && to <= end
      modifies this`undoList, this`groupLevel
      ensures var a, b := if from > to then to else from, if from > to then from else to;
              undoList == if a == b then old(undoList)
                          else [END, Record(UndoInsert, a, b, ""), Record(UndoDelete, a, b, Text()[a..b]), BEGIN]
                               + old(undoList)
      ensures groupLevel == old(groupLevel)
    {
      var start, last := from, to;
      if start > last {
        start, last := last, start;
      }
      if start != last {
        var temp := CopyText(start, last);
        BeginUndoGroup();
        AddUndo(UndoDelete, start, last, temp);
        AddUndo(UndoInsert, start, last, "");
        EndUndoGroup();
      }
    }

    /** _rl_replace_text. */
    method ReplaceText(text: string, start: nat, last: nat) returns (n: nat)
      requires Valid() && start <= end && !doingUndo
      modifies this`buffer, this`end, this`point, this`undoList, this`groupLevel, buffer
      ensures Valid() && (buffer == old(buffer) || fresh(buffer))
      ensures State() == Replaced(old(State()), text, start, last) && n == |text| && groupLevel == old(groupLevel)
    {
      BeginUndoGroup();
      assert State() == Logged(old(State()), BEGIN);
      CutText(start, last);
      ghost var cut := State();
      n := 0;
      if text != "" {
        n := InsertText(text);
      }
      assert State() == Inserted(cut, text);
      EndUndoGroup();
    }

    method CutText(start: nat, last: nat)
      requires Valid() && start <= end && !doingUndo
      modifies this`end, this`point, this`undoList, buffer
      ensures Valid() && start <= end
      ensures State() ==
              (if start <= last then Deleted(old(State()), start, last + 1) else old(State())).(point := start)
    {
      if start <= last {
        var d := DeleteText(start, last + 1);
      }
      point := start;
    }

    // ----- words -----

    /** rl_forward_word. */
    method ForwardWord(count: int)
      requires Valid() && point <= end
      modifies this`point
      ensures point == MoveWords(Text(), old(point), count)
      ensures if count >= 0 then WordsOn(Text(), old(point), point, count)
              else WordsBack(Text(), old(point), point, -count)
      decreases count < 0
    {
      MoveWordsCounts(Text(), point, count);
      if count < 0 {
        BackwardWord(-count);
      } else {
        ForwardWords(count);
      }
    }

    /** The loop of rl_forward_word. */
    method ForwardWords(count: nat)
      requires Valid() && point <= end
      modifies this`point
      ensures point == Edits.ForwardWord(Text(), old(point), count)
    {
      ghost var text := Text();
      var n := count;
      while n != 0
        invariant point <= end
        invariant Edits.ForwardWord(text, point, n) == Edits.ForwardWord(text, old(point), count)
      {
        if point == end {
          ForwardAtEnd(text, n);
          return;
        }
        ToNextWord();
        n := n - 1;
      }
    }

    /** The body of that loop. */
    method ToNextWord()
      requires Valid() && point <= end
      modifies this`point
      ensures point == NextWord(Text(), old(point))
    {
      SkipForward(false);
      if point < end {
        SkipForward(true);
      }
    }

    /** The scanning loops of rl_forward_word. */
    method SkipForward(inword: bool)
      requires Valid() && point <= end
      modifies this`point
      ensures point == SkipOn(Text(), old(point), inword)
    {
      ghost var text := Text();
      while point < end
        invariant point <= end && SkipOn(text, point, inword) == SkipOn(text, old(point), inword)
        decreases end - point
      {
        var c := buffer[point];
        if IsWord(c) != inword {
          break;
        }
        point := point + 1;
      }
    }

    /** rl_backward_word. */
    method BackwardWord(count: int)
      requires Valid() && point <= end
      modifies this`point
      ensures point == MoveWords(Text(), old(point), -count)
      ensures if count >= 0 then WordsBack(Text(), old(point), point, count)
              else WordsOn(Text(), old(point), point, -count)
      decreases count < 0
    {
      MoveWordsCounts(Text(), point, -count);
      if count < 0 {
        ForwardWord(-count);
      } else {
        BackwardWords(count);
        assert count == 0 ==> point == old(point);
      }
    }

    /** The loop of rl_backward_word. */
    method BackwardWords(count: nat)
      requires Valid() && point <= end
      modifies this`point
      ensures point == Edits.BackwardWord(Text(), old(point), count)
    {
      ghost var text := Text();
      var n := count;
      while n != 0
        invariant point <= end
        invariant Edits.BackwardWord(text, point, n) == Edits.BackwardWord(text, old(point), count)
      {
        if point == 0 {
          BackwardAtStart(text, n);
          return;
        }
        ToPreviousWord();
        n := n - 1;
      }
    }

    method ToPreviousWord()
      requires Valid() && point <= end
      modifies this`point
      ensures point == PreviousWord(Text(), old(point))
    {
      SkipBackward(false);
      SkipBackward(true);
    }

    method SkipBackward(inword: bool)
      requires Valid() && point <= end
      modifies this`point
      ensures point == SkipBack(Text(), old(point), inword)
    {
      ghost var text := Text();
      while point > 0
        invariant point <= end && SkipBack(text, point, inword) == SkipBack(text, old(point), inword)
        decreases point
      {
        var c := buffer[point - 1];
        if IsWord(c) != inword {
          break;
        }
        point := point - 1;
      }
    }

    /** rl_change_case. */
    method ChangeCase(count: int, op: CaseOp)
      requires Valid() && point <= end
      modifies this`point, this`undoList, this`groupLevel, buffer
      ensures Valid() && State() == ChangedCase(old(State()), count, op) && groupLevel == old(groupLevel)
      ensures var p, q := old(point), MoveWords(old(Text()), old(point), count);
              if count < 0 then Cased(old(Text()), Text(), q, p, op) && point == p
              else Cased(old(Text()), Text(), p, q, op) && point == q
    {
      ChangedCaseText(State(), count, op);
      var start := point;
      ForwardWord(count);
      var last := point;
      if count < 0 {
        start, last := last, start;
      }
      Modifying(start, last);
      RecaseLoop(start, last, op);
      point := last;
    }

    /** The loop of rl_change_case, rewriting the text in place. */
    method RecaseLoop(from: nat, last: nat, op: CaseOp)
      requires Valid() && from <= last <= end
      modifies buffer
      ensures Valid()
      ensures Text() == old(Text()[..from] + CaseMap(Text()[from..last], op) + Text()[last..])
      ensures Cased(old(Text()), Text(), from, last, op)
    {
      ghost var text := Text();
      ghost var target := text[..from] + CaseMap(text[from..last], op) + text[last..];
      RecasedAt(text, from, last, op, target);
      CaseMapCases(text, from, last, op, target);
      var start, inword := from, false;
      while start < last
        invariant from <= start <= last && Valid()
        invariant op == CapCase ==> inword == (start > from && IsWord(text[start - 1]))
        invariant forall i | 0 <= i < start :: buffer[i] == target[i]
        invariant forall i | start <= i < end :: buffer[i] == text[i]
      {
        inword := RecaseOne(start, op, inword);
        start := start + 1;
      }
      assert buffer[..end] == target;
    }

    /** The body of that loop. */
    method RecaseOne(start: nat, op: CaseOp, inword: bool) returns (now: bool)
      requires Valid() && start < end
      modifies buffer
      ensures Valid() && forall i | 0 <= i < end && i != start :: buffer[i] == old(buffer[i])
      ensures buffer[start] == Recased(old(buffer[start]), op, inword)
      ensures op == CapCase ==> now == IsWord(old(buffer[start]))
    {
      now := inword;
      var c := buffer[start];
      if !IsWord(c) {
        return false;
      }
      var nop := op;
      if op == CapCase {
        nop := if inword then DownCase else UpCase;
        now := true;
      }
      buffer[start] := if nop == UpCase then ToUpper(c) else ToLower(c);
    }

    /** rl_transpose_words. */
    method TransposeWords(count: int) returns (r: int)
      requires Valid() && point <= end && !doingUndo
      modifies this`buffer, this`end, this`point, this`undoList, this`groupLevel, buffer
      ensures Valid() && (buffer == old(buffer) || fresh(buffer)) && groupLevel == old(groupLevel)
      ensures State() == Transposed(old(State()), count)
      ensures r == if count == 0 || TwoWords(WordsAt(old(Text()), old(point), count)) then 0 else -1
    {
      if count == 0 {
        return 0;
      }
      var origPoint := point;
      var w := FindWords(count);
      r := TransposeFound(w, origPoint);
    }

    /** rl_transpose_words from the check on: ring the bell and go back, or exchange the words. */
    method TransposeFound(w: Words, origPoint: nat) returns (r: int)
      requires Valid() && w.beg1 <= w.end1 <= end && w.beg2 <= w.end2 <= end && !doingUndo
      modifies this`buffer, this`end, this`point, this`undoList, this`groupLevel, buffer
      ensures Valid() && (buffer == old(buffer) || fresh(buffer)) && groupLevel == old(groupLevel)
      ensures State() == var l := Line(old(Text()), origPoint, old(undoList));
                         if TwoWords(w) then TransposedBy(l, w) else l
      ensures r == if TwoWords(w) then 0 else -1
    {
      if w.beg1 == w.beg2 || w.beg2 < w.end1 {
        point := origPoint;
        return -1;
      }
      TransposeAt(w);
      return 0;
    }

    /** The movements of rl_transpose_words that find the two words. */
    method FindWords(count: int) returns (w: Words)
      requires Valid() && point <= end
      modifies this`point
      ensures w == WordsAt(Text(), old(point), count)
    {
      ForwardWord(count);
      var end2 := point;
      BackwardWords(1);
      var beg2 := point;
      BackwardWord(count);
      var beg1 := point;
      ForwardWords(1);
      w := Words(beg1, point, beg2, end2);
    }

    /** The editing part of rl_transpose_words. */
    method TransposeAt(w: Words)
      requires Valid() && w.beg1 <= w.end1 <= w.beg2 <= w.end2 <= end && !doingUndo
      modifies this`buffer, this`end, this`point, this`undoList, this`groupLevel, buffer
      ensures Valid() && (buffer == old(buffer) || fresh(buffer)) && groupLevel == old(groupLevel)
      ensures State() == TransposedBy(Line(old(Text()), old(point), old(undoList)), w)
    {
      var word1 := CopyText(w.beg1, w.end1);
      var word2 := CopyText(w.beg2, w.end2);
      ghost var l0 := Logged(State(), BEGIN);
      BeginUndoGroup();
      assert State() == l0;
      SwapIn(w.beg2, w.end2, word1);
      SwapIn(w.beg1, w.end1, word2);
      point := w.end2;
      EndUndoGroup();
    }

    method SwapIn(start: nat, last: nat, s: string)
      requires Valid() && start <= last <= end && !doingUndo
      modifies this`buffer, this`end, this`point, this`undoList, buffer
      ensures Valid() && (buffer == old(buffer) || fresh(buffer))
      ensures State() == Swapped(old(State()), start, last, s)
      ensures Text() == old(Text())[..start] + s + old(Text())[last..]
    {
      SwappedText(State(), start, last, s);
      point := start;
      var d := DeleteText(start, last);
      var n := InsertText(s);
    }

    /** rl_replace_line without clearing the undo list. */
    method ReplaceLine(text: string)
      requires Valid()
      modifies this`buffer, this`end, this`point, this`mark, buffer
      ensures Valid() && (buffer == old(buffer) || fresh(buffer))
      ensures Text() == text && point == Min(old(point), |text|) && mark == Min(old(mark), |text|)
    {
      if |text| >= buffer.Length {
        ExtendLineBuffer(|text|);
      }
      var i := 0;
      while i < |text|
        invariant i <= |text| < buffer.Length
        invariant forall k | 0 <= k < i :: buffer[k] == text[k]
        modifies buffer
      {
        buffer[i] := text[i];
        i := i + 1;
      }
      buffer[|text|] := '\0';
      end := |text|;
      assert buffer[..end] == text;
      point := if point > end then end else point;
      mark := if mark > end then end else mark;
    }
  }
}
