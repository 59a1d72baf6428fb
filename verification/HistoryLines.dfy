/**
 Reverting edited history lines (readline-6.2/misc.c, readline-6.2/history.c).

 An edited line is kept in the history together with the undo list that leads back to its original text.
*/
module HistoryLines {
  import opened Options
  import opened HistoryStore
  import opened Undo
  import opened Edits
  import opened LineEditor

  /** An entry with all its changes undone. */
  function Reverted(e: EditedEntry): EditedEntry
    requires Sound(e.entry.line, e.data.log)
  {
    if e.data.log == [] then e
    else EditedEntry(e.entry.(line := Rewind(e.entry.line, e.data.log, |e.data.log|)), NULL)
  }

  /** Whatever was edited in a line, its entry gets the text back that the line had, with its time, and has no list. */
  lemma RevertedRestores(l: Line, edits: seq<Edit>, e: EditedEntry)
    requires Editable(l) && l.log == []
    requires forall i | 0 < i <= |edits| :: Trace(l, edits)[i].log != []
    requires e.entry.line == Trace(l, edits)[|edits|].text && e.data.log == Trace(l, edits)[|edits|].log
    ensures Sound(e.entry.line, e.data.log)
    ensures Reverted(e).entry == Entry(l.text, e.entry.timestamp) && Reverted(e).data.log == []
  {
    RevertRestores(l, edits);
  }

  /** The undo lists of different entries have nothing in common. */
  ghost predicate Disjoint(h: seq<EditedEntry>) {
    forall i, j | 0 <= i < j < |h| && h[i].data.log != [] && h[j].data.log != [] :: h[i].data.list != h[j].data.list
  }

  /** Undoing the list of one entry leaves the other entries alone, and the text of all of them. */
  lemma {:induction false} FollowedOthers(h: seq<EditedEntry>, list: nat, log: seq<Record>, n: nat, i: nat)
    requires n <= |log| && i < |h|
    ensures var e := Followed(h, list, log, n)[i];
            e.entry == h[i].entry
    ensures h[i].data.log == [] || h[i].data.list != list ==> Followed(h, list, log, n)[i] == h[i]
    decreases n
  {
    if n > 0 {
      FollowedOthers(Repointed(h, UndoRef(list, log), UndoRef(list, log[1..])), list, log[1..], n - 1, i);
    }
  }

  /** previous_history: the index of the entry before the current position, which becomes the current one. */
  method PreviousHistory(ed: LineEditor) returns (r: Option<nat>)
    modifies ed`offset
    ensures old(ed.offset) == 0 ==> r == None && ed.offset == 0
    ensures old(ed.offset) > 0 ==> r == Some(ed.offset) && ed.offset == old(ed.offset) - 1
  {
    if ed.offset == 0 {
      return None;
    }
    ed.offset := ed.offset - 1;
    return Some(ed.offset);
  }

  /** rl_replace_from_history. */
  method ReplaceFromHistory(ed: LineEditor, entry: EditedEntry)
    requires ed.Valid()
    modifies ed`buffer, ed`end, ed`point, ed`mark, ed`undoList, ed`undoListId, ed.buffer
    ensures ed.Valid() && (ed.buffer == old(ed.buffer) || fresh(ed.buffer))
    ensures ed.Text() == entry.entry.line && ed.undoList == entry.data.log && ed.undoListId == entry.data.list
    ensures ed.point == ed.end && ed.mark == 0
  {
    ed.ReplaceLine(entry.entry.line);
    ed.undoList, ed.undoListId := entry.data.log, entry.data.list;
    ed.point := ed.end;
    ed.mark := 0;
  }

  /** What _rl_revert_all_lines does to one entry that has an undo list. */
  method RevertEntry(ed: LineEditor, i: nat)
    requires ed.Valid() && i < |ed.history| && Disjoint(ed.history)
    requires ed.history[i].data.log != [] && Sound(ed.history[i].entry.line, ed.history[i].data.log)
    modifies ed`buffer, ed`end, ed`point, ed`mark, ed`undoList, ed`undoListId, ed`doingUndo, ed`history, ed.buffer
    ensures ed.Valid() && (ed.buffer == old(ed.buffer) || fresh(ed.buffer))
    ensures ed.history == old(ed.history)[i := Reverted(old(ed.history)[i])]
    ensures ed.history[i].data == NULL && ed.history[i].entry.timestamp == old(ed.history)[i].entry.timestamp
    ensures var e := old(ed.history)[i];
            ed.history[i].entry.line == Rewind(e.entry.line, e.data.log, |e.data.log|)
  {
    var entry := ed.history[i];
    ghost var h := ed.history;
    ReplaceFromHistory(ed, entry);
    ed.RevertLine();
    forall j | 0 <= j < |h|
      ensures j != i ==> ed.history[j] == h[j]
      ensures ed.history[j].entry == h[j].entry
    {
      FollowedOthers(h, entry.data.list, entry.data.log, |entry.data.log|, j);
    }
    var line := ed.CopyText(0, ed.end);
    assert ed.Text()[0..ed.end] == ed.Text();
    ed.history := ed.history[i := EditedEntry(entry.entry.(line := line), NULL)];
  }

  /** Entry lo, or one after it up to hi, holds the undo list u. */
  ghost predicate Holds(h: seq<EditedEntry>, lo: nat, hi: nat, u: UndoRef) {
    exists i | lo <= i <= hi && i < |h| :: h[i].data.log != [] && SamePointer(h[i].data, u)
  }

  /** The entries from lo to hi have been reverted, and nothing else. */
  ghost predicate RevertedFrom(h: seq<EditedEntry>, now: seq<EditedEntry>, lo: nat, hi: nat)
    requires forall i | 0 <= i <= hi && i < |h| :: Sound(h[i].entry.line, h[i].data.log)
  {
    |now| == |h| && forall i | 0 <= i < |h| :: now[i] == if lo <= i <= hi then Reverted(h[i]) else h[i]
  }

  lemma StillDisjoint(h: seq<EditedEntry>, now: seq<EditedEntry>, lo: nat, hi: nat)
    requires Disjoint(h)
    requires forall i | 0 <= i <= hi && i < |h| :: Sound(h[i].entry.line, h[i].data.log)
    requires RevertedFrom(h, now, lo, hi)
    ensures Disjoint(now)
  {
    forall i, j | 0 <= i < j < |now| && now[i].data.log != [] && now[j].data.log != []
      ensures now[i].data.list != now[j].data.list
    {
      assert now[i].data == h[i].data && now[j].data == h[j].data;
    }
  }

  /** The body of the loop of _rl_revert_all_lines, for entry i: entries i + 1 to hi are done. */
  method VisitEntry(ed: LineEditor, i: nat, saved: UndoRef, ghost h: seq<EditedEntry>, ghost hi: nat,
                    ghost mine: UndoRef)
    returns (kept: UndoRef)
    requires ed.Valid() && i <= hi && i < |h| && Disjoint(h)
    requires forall k | 0 <= k <= hi && k < |h| :: Sound(h[k].entry.line, h[k].data.log)
    requires RevertedFrom(h, ed.history, i + 1, hi)
    requires saved == if Holds(h, i + 1, hi, mine) then NULL else mine
    modifies ed`buffer, ed`end, ed`point, ed`mark, ed`undoList, ed`undoListId, ed`doingUndo, ed`history, ed.buffer
    ensures ed.Valid() && (ed.buffer == old(ed.buffer) || fresh(ed.buffer))
    ensures RevertedFrom(h, ed.history, i, hi)
    ensures kept == if Holds(h, i, hi, mine) then NULL else mine
  {
    var ul := ed.history[i].data;
    kept := saved;
    assert ul == h[i].data;
    assert Holds(h, i, hi, mine) <==> Holds(h, i + 1, hi, mine) || (ul.log != [] && SamePointer(ul, mine));
    if ul.log != [] {
      if SamePointer(ul, saved) {
        kept := NULL;
      }
      StillDisjoint(h, ed.history, i + 1, hi);
      RevertEntry(ed, i);
    }
  }

  /**
   _rl_revert_all_lines.  If every entry at or before the position has an undo list that is sound for its line, and the
   lists are disjoint, these entries get their original text back and lose their lists, the later entries stay as they
   are, and the line being edited and the position are what they were.  The undo list being used is dropped if it is
   one of the lists that were taken back.
  */
  method RevertAllLines(ed: LineEditor)
    requires ed.Valid() && ed.offset <= |ed.history| && Disjoint(ed.history)
    requires forall i | 0 <= i <= ed.offset && i < |ed.history| ::
               Sound(ed.history[i].entry.line, ed.history[i].data.log)
    modifies ed, ed.buffer
    ensures ed.Valid() && (ed.buffer == old(ed.buffer) || fresh(ed.buffer))
    ensures ed.offset == old(ed.offset) && ed.Text() == old(ed.Text())
    ensures RevertedFrom(old(ed.history), ed.history, 0, ed.offset)
    ensures var mine := UndoRef(old(ed.undoListId), old(ed.undoList));
            UndoRef(ed.undoListId, ed.undoList) == if Holds(old(ed.history), 0, ed.offset, mine) then NULL else mine
  {
    var lbuf := ed.CopyText(0, ed.end);
    assert lbuf == ed.Text();
    var saved := UndoRef(ed.undoListId, ed.undoList);
    var hpos := ed.offset;
    ghost var h, mine := ed.history, saved;

    var entry: Option<nat>;
    if hpos == |ed.history| {
      entry := PreviousHistory(ed);
    } else {
      entry := Some(hpos);
    }
    while entry.Some?
      invariant ed.Valid() && (ed.buffer == old(ed.buffer) || fresh(ed.buffer))
      invariant entry.Some? ==> entry.value == ed.offset < |h| && ed.offset <= hpos
      invariant RevertedFrom(h, ed.history, if entry.Some? then entry.value + 1 else 0, hpos)
      invariant saved == if Holds(h, if entry.Some? then entry.value + 1 else 0, hpos, mine) then NULL else mine
      decreases entry.Some?, ed.offset
    {
      saved := VisitEntry(ed, entry.value, saved, h, hpos, mine);
      entry := PreviousHistory(ed);
    }
    ed.undoList, ed.undoListId := saved.log, saved.list;
    ed.offset := hpos;
    ed.ReplaceLine(lbuf);
  }
}
