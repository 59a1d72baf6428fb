/**
 Bringing the screen up to date (readline-6.2/display.c: the part of rl_redisplay behind the layout loop), for terminals
 that can move the cursor up, without horizontal scrolling.

 The rows of the new line replace those of the line that is shown, left over rows are erased, and the cursor goes to
 its place.
*/
module Redisplay {
  import opened Characters
  import opened Terminal
  import opened Display
  import opened Rendering
  import opened Layout
  import opened Options

  /** Where row i ends. */
  function RowBreak(line: string, breaks: seq<nat>, i: nat): nat
    requires i < |breaks|
  {
    if i + 1 < |breaks| then breaks[i + 1] else |line|
  }

  /** The text of row i, without the NUL of a newline; rows behind the last one are empty. */
  function RowText(line: string, breaks: seq<nat>, i: nat): string
    requires i < |breaks| ==> breaks[i] <= RowBreak(line, breaks, i) <= |line|
  {
    if i >= |breaks| then ""
    else
      var from, to := breaks[i], RowBreak(line, breaks, i);
      if from < to && line[to - 1] == NUL then line[from..to - 1] else line[from..to]
  }

  /** Where the text of row i ends: at its break, or at the NUL of a newline before it. */
  lemma RowEndsAt(line: string, breaks: seq<nat>, width: nat, i: nat)
    requires RowsOk(line, breaks, width) && i < |breaks|
    ensures breaks[i] <= RowBreak(line, breaks, i) <= |line| && RowBreak(line, breaks, i) - breaks[i] <= width
    ensures var s := RowText(line, breaks, i);
            var e := breaks[i] + |s|;
            && e <= RowBreak(line, breaks, i) <= e + 1 && s == line[breaks[i]..e]
            && (forall k | breaks[i] <= k < e :: line[k] != NUL)
            && (|s| < width ==> e == |line| || line[e] == NUL)
            && (i + 1 == |breaks| ==> e == |line| && |s| < width)
  {
    assert i + 1 < |breaks| ==> RowOk(line, breaks, width, i);
  }

  /** A slice of the line with a NUL behind it. */
  lemma SliceIsRow(line: string, from: nat, e: nat, max: nat, width: nat)
    requires from <= e <= |line| && e - from <= max <= width && forall k | from <= k < e :: line[k] != NUL
    requires e - from < width ==> e == |line| || line[e] == NUL
    ensures IsRow((line + [NUL])[from..], max, width, line[from..e])
  {
    var buf, s := (line + [NUL])[from..], line[from..e];
    assert forall k | 0 <= k < |s| :: s[k] == line[from + k];
    assert buf[..|s|] == s;
    assert |s| < width ==> buf[|s|] == (line + [NUL])[e];
  }

  /** Each row is what update_line reads at its break, if a NUL is put behind the line. */
  lemma RowIsRow(line: string, breaks: seq<nat>, width: nat, i: nat)
    requires RowsOk(line, breaks, width) && i < |breaks|
    ensures breaks[i] <= RowBreak(line, breaks, i) <= |line|
    ensures IsRow((line + [NUL])[breaks[i]..], RowBreak(line, breaks, i) - breaks[i], width, RowText(line, breaks, i))
  {
    RowEndsAt(line, breaks, width, i);
    var s := RowText(line, breaks, i);
    SliceIsRow(line, breaks[i], breaks[i] + |s|, RowBreak(line, breaks, i) - breaks[i], width);
  }

  /** The rows of the screen show the rows of the line, and the others are blank. */
  ghost predicate Showing(rows: seq<string>, line: string, breaks: seq<nat>, width: nat) {
    && RowsOk(line, breaks, width) && |breaks| <= |rows|
    && forall i: nat | i < |rows| :: RowShown(rows[i], line, breaks, width, i)
  }

  /** A row of the screen shows row i of the line. */
  ghost predicate RowShown(row: string, line: string, breaks: seq<nat>, width: nat, i: nat)
    requires RowsOk(line, breaks, width)
  {
    if i < |breaks| then
      RowIsRow(line, breaks, width, i);
      row == Pad(RowText(line, breaks, i), width)
    else row == Blanks(width)
  }

  /** Each cell shows the character of the line that lies in its row and column, and is blank if there is none. */
  lemma ShowingCells(rows: seq<string>, line: string, breaks: seq<nat>, width: nat, r: nat, c: nat)
    requires Showing(rows, line, breaks, width) && r < |rows| && c < width
    ensures |rows[r]| == width
    ensures if r < |breaks| && breaks[r] + c < |line| && InRow(breaks, breaks[r] + c, r) && line[breaks[r] + c] != NUL
            then rows[r][c] == line[breaks[r] + c]
            else rows[r][c] == ' '
  {
    assert RowShown(rows[r], line, breaks, width, r);
    if r < |breaks| {
      RowEndsAt(line, breaks, width, r);
    }
  }

  /** However the line is broken into rows, there are no more of them than rows on the screen. */
  ghost predicate FitsScreen(line: string, width: nat, height: nat) {
    forall breaks: seq<nat> :: RowsOk(line, breaks, width) ==> |breaks| <= height
  }

  class Screen {
    const display: Display
    const outputMeta: bool
    var visible: string       // visible_line
    var visBreaks: seq<nat>   // vis_lbreaks up to _rl_vis_botlin

    /** The line that the screen shows, if the screen and the record of it agree. */
    ghost function Content(): (line: Option<string>)
      reads this, display, display.term
    {
      if && display.Valid() && display.term.width >= 8
         && Showing(display.term.rows, visible, visBreaks, display.term.width)
      then Some(visible) else None
    }

    ghost predicate Valid()
      reads this, display, display.term
    {
      Content() == Some(visible)
    }

    constructor (display: Display, outputMeta: bool)
      requires display.Valid() && display.term.width >= 8
      requires forall i | 0 <= i < |display.term.rows| :: display.term.rows[i] == Blanks(display.term.width)
      ensures Valid() && this.display == display && this.outputMeta == outputMeta && visible == ""
    {
      this.display, this.outputMeta := display, outputMeta;
      visible, visBreaks := "", [0];
    }

    /** Row i of what is shown, as update_line gets it. */
    method VisibleRow(i: nat) returns (buf: string, max: nat, ghost s: string)
      requires RowsOk(visible, visBreaks, display.term.width) && i < |display.term.rows|
      requires RowShown(display.term.rows[i], visible, visBreaks, display.term.width, i)
      ensures IsRow(buf, max, display.term.width, s) && display.term.rows[i] == Pad(s, display.term.width)
      ensures i + 1 == |visBreaks| ==> |s| < display.term.width
    {
      if i < |visBreaks| {
        RowIsRow(visible, visBreaks, display.term.width, i);
        buf, max := (visible + [NUL])[visBreaks[i]..], RowBreak(visible, visBreaks, i) - visBreaks[i];
        s := RowText(visible, visBreaks, i);
        RowEndsAt(visible, visBreaks, display.term.width, i);
      } else {
        buf, max, s := [NUL], 0, "";
      }
    }

    /** The loop that updates the rows of the new line. */
    method UpdateRows(line: string, breaks: seq<nat>)
      requires Valid() && RowsOk(line, breaks, display.term.width) && |breaks| <= |display.term.rows|
      modifies display`lastCPos, display`lastVPos
      modifies display.term`rows, display.term`row, display.term`col, display.term`inserting
      ensures display.Valid() && |display.term.rows| == |old(display.term.rows)|
      ensures forall i: nat | i < |breaks| :: RowShown(display.term.rows[i], line, breaks, display.term.width, i)
      ensures forall i: nat | |breaks| <= i < |display.term.rows| :: display.term.rows[i] == old(display.term.rows)[i]
    {
      ghost var rows := display.term.rows;
      for linenum := 0 to |breaks|
        invariant display.Valid() && |display.term.rows| == |rows|
        invariant forall i: nat | i < linenum :: RowShown(display.term.rows[i], line, breaks, display.term.width, i)
        invariant forall i: nat | linenum <= i < |rows| :: display.term.rows[i] == rows[i]
      {
        assert RowShown(rows[linenum], visible, visBreaks, display.term.width, linenum);
        UpdateRow(line, breaks, linenum);
      }
    }

    method UpdateRow(line: string, breaks: seq<nat>, linenum: nat)
      requires display.Valid() && display.term.width >= 8 && RowsOk(line, breaks, display.term.width)
      requires linenum < |breaks| <= |display.term.rows|
      requires RowsOk(visible, visBreaks, display.term.width)
      requires RowShown(display.term.rows[linenum], visible, visBreaks, display.term.width, linenum)
      modifies display`lastCPos, display`lastVPos
      modifies display.term`rows, display.term`row, display.term`col, display.term`inserting
      ensures display.Valid() && |display.term.rows| == |old(display.term.rows)|
      ensures RowShown(display.term.rows[linenum], line, breaks, display.term.width, linenum)
      ensures forall i: nat | i < |display.term.rows| && i != linenum ::
                display.term.rows[i] == old(display.term.rows)[i]
    {
      var old_, omax;
      ghost var o;
      old_, omax, o := VisibleRow(linenum);
      RowIsRow(line, breaks, display.term.width, linenum);
      ghost var n := RowText(line, breaks, linenum);
      var new_, nmax := (line + [NUL])[breaks[linenum]..], RowBreak(line, breaks, linenum) - breaks[linenum];
      display.UpdateLine(old_, new_, linenum, omax, nmax, |breaks| - 1, |visBreaks| - 1, o, n);
    }

    /** strlen of what a row buffer holds. */
    method StrLen(buf: string, ghost max: nat, ghost s: string) returns (n: nat)
      requires IsRow(buf, max, display.term.width, s) && |s| < display.term.width
      ensures n == |s|
    {
      n := 0;
      while buf[n] != NUL
        invariant n <= |s|
        decreases |s| - n
      {
        n := n + 1;
      }
    }

    /** One row that is left over is erased. */
    method EraseRow(linenum: nat)
      requires display.Valid() && display.term.width >= 8 && linenum < |visBreaks| <= |display.term.rows|
      requires RowsOk(visible, visBreaks, display.term.width)
      requires RowShown(display.term.rows[linenum], visible, visBreaks, display.term.width, linenum)
      modifies display`lastCPos, display`lastVPos, display.term`rows, display.term`row, display.term`col
      ensures display.Valid() && display.term.rows == old(display.term.rows)[linenum := Blanks(display.term.width)]
    {
      var tt, max;
      ghost var s;
      tt, max, s := VisibleRow(linenum);
      display.MoveVert(linenum);
      display.MoveCursorRelative(0, tt);
      var count := display.term.width;
      if linenum == |visBreaks| - 1 {
        count := StrLen(tt, max, s);
      }
      Blanked(s, count, display.term.width);
      display.ClearToEol(count);
    }

    /** The loop over the rows that are left over. */
    method EraseRows(from: nat)
      requires display.Valid() && display.term.width >= 8 && |visBreaks| <= |display.term.rows|
      requires RowsOk(visible, visBreaks, display.term.width)
      requires forall i: nat | from <= i < |display.term.rows| ::
                 RowShown(display.term.rows[i], visible, visBreaks, display.term.width, i)
      modifies display`lastCPos, display`lastVPos, display.term`rows, display.term`row, display.term`col
      ensures display.Valid() && |display.term.rows| == |old(display.term.rows)|
      ensures forall i: nat | from <= i < |display.term.rows| :: display.term.rows[i] == Blanks(display.term.width)
      ensures forall i: nat | i < from && i < |display.term.rows| :: display.term.rows[i] == old(display.term.rows)[i]
    {
      ghost var rows := display.term.rows;
      var linenum := from;
      while linenum < |visBreaks|
        invariant from <= linenum && display.Valid() && |display.term.rows| == |rows|
        invariant linenum <= |visBreaks| || linenum == from
        invariant forall i: nat | from <= i < linenum && i < |rows| ::
                    display.term.rows[i] == Blanks(display.term.width)
        invariant forall i: nat | (i < from || linenum <= i) && i < |rows| :: display.term.rows[i] == rows[i]
      {
        assert RowShown(rows[linenum], visible, visBreaks, display.term.width, linenum);
        EraseRow(linenum);
        linenum := linenum + 1;
      }
      forall i: nat | linenum <= i < |rows|
        ensures display.term.rows[i] == Blanks(display.term.width)
      {
        assert RowShown(rows[i], visible, visBreaks, display.term.width, i);
      }
    }

    /** Putting the cursor into its place, cpos in the buffer and in row linenum. */
    method PlaceCursor(line: string, breaks: seq<nat>, cpos: nat, linenum: nat)
      requires display.Valid() && RowsOk(line, breaks, display.term.width) && linenum < |breaks| <= |display.term.rows|
      requires breaks[linenum] <= cpos <= |line| && cpos - breaks[linenum] < display.term.width
      requires linenum + 1 < |breaks| ==> cpos < breaks[linenum + 1]
      requires RowShown(display.term.rows[linenum], line, breaks, display.term.width, linenum)
      modifies display`lastCPos, display`lastVPos, display.term`rows, display.term`row, display.term`col
      ensures display.Valid() && display.term.rows == old(display.term.rows)
      ensures display.term.row == linenum && display.term.col == cpos - breaks[linenum]
    {
      RowEndsAt(line, breaks, display.term.width, linenum);
      RowIsRow(line, breaks, display.term.width, linenum);
      if display.lastVPos != linenum {
        display.MoveVert(linenum);
      }
      var pos := breaks[linenum];
      var nleft := cpos - pos;
      ghost var s := RowText(line, breaks, linenum);
      var data := (line + [NUL])[pos..];
      assert data[..nleft] == data[..|s|][..nleft] == s[..nleft] == display.term.rows[linenum][..nleft];
      if nleft != display.lastCPos {
        display.MoveCursorRelative(nleft, data);
      }
    }

    /** Everything behind the layout loop: the line goes to the screen and the cursor to its place. */
    method ShowLine(line: string, breaks: seq<nat>, cpos: nat, linenum: nat)
      requires Valid() && RowsOk(line, breaks, display.term.width) && linenum < |breaks| <= |display.term.rows|
      requires breaks[linenum] <= cpos <= |line| && cpos - breaks[linenum] < display.term.width
      requires linenum + 1 < |breaks| ==> cpos < breaks[linenum + 1]
      modifies this`visible, this`visBreaks, display`lastCPos, display`lastVPos
      modifies display.term`rows, display.term`row, display.term`col, display.term`inserting
      ensures Valid() && visible == line && visBreaks == breaks
      ensures display.term.row == linenum && display.term.col == cpos - breaks[linenum]
    {
      UpdateRows(line, breaks);
      EraseRows(|breaks|);
      PlaceCursor(line, breaks, cpos, linenum);
      visible, visBreaks := line, breaks;
    }

    /**
     rl_redisplay.  However the screen was filled before, by any sequence of redisplays, each row of the line as it is
     shown now is in its row of the screen, all other rows are blank, and the cursor is where the text before point
     ends.
    */
    method Redisplay(prompt: string, modmark: bool, text: string, point: nat)
      requires Valid() && Drawable(prompt) && Drawable(text) && point <= |text|
      requires FitsScreen(Drawn(prompt, modmark, text, |text|), display.term.width, |display.term.rows|)
      modifies this`visible, this`visBreaks, display`lastCPos, display`lastVPos
      modifies display.term`rows, display.term`row, display.term`col, display.term`inserting
      ensures Valid() && visible == Drawn(prompt, modmark, text, |text|)
      ensures display.term.row < |visBreaks|
      ensures visBreaks[display.term.row] + display.term.col == |Drawn(prompt, modmark, text, point)|
      ensures display.term.row + 1 < |visBreaks| ==>
                |Drawn(prompt, modmark, text, point)| < visBreaks[display.term.row + 1]
      ensures ShowsText(prompt, modmark, text, point, visible, visBreaks, |Drawn(prompt, modmark, text, point)|,
                        outputMeta)
    {
      var line, breaks, cpos, linenum := LayOutLine(prompt, modmark, text, point);
      ShowLine(line, breaks, cpos, linenum);
    }

    /** The layout loop, from the prompt to the place of the cursor. */
    method LayOutLine(prompt: string, modmark: bool, text: string, point: nat)
      returns (line: string, breaks: seq<nat>, cpos: nat, linenum: nat)
      requires Valid() && Drawable(prompt) && Drawable(text) && point <= |text|
      ensures Valid()
      ensures RowsOk(line, breaks, display.term.width) && line == Drawn(prompt, modmark, text, |text|)
      ensures cpos == |Drawn(prompt, modmark, text, point)| <= |line| && linenum < |breaks|
      ensures breaks[linenum] <= cpos && cpos - breaks[linenum] < display.term.width
      ensures linenum + 1 < |breaks| ==> cpos < breaks[linenum + 1]
      ensures ShowsText(prompt, modmark, text, point, line, breaks, |Drawn(prompt, modmark, text, point)|, outputMeta)
    {
      var layout := new Layout(display.term.width, outputMeta);
      cpos, linenum := layout.LayOut(prompt, modmark, text, point);
      line, breaks := layout.line, layout.breaks;
    }

    /** The prompt and the first n characters of the text as they are shown. */
    ghost function Drawn(prompt: string, modmark: bool, text: string, n: nat): string
      requires display.term.width >= 8 && n <= |text|
    {
      RenderLine(prompt, modmark, text, n, display.term.width, outputMeta)
    }
  }

  lemma Blanked(s: string, count: nat, width: nat)
    requires |s| <= count <= width
    ensures Write(Pad(s, width), 0, Blanks(count)) == Blanks(width) && Erase(Pad(s, width), 0) == Blanks(width)
  {
  }
}
