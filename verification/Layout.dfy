/**
 Breaking the line into screen rows (readline-6.2/display.c: the layout loop of rl_redisplay), for single-byte text
 and prompts without invisible characters.
*/
module Layout {
  import opened Characters
  import opened Terminal
  import opened Rendering
  import opened Options

  // ----- rows -----

  /** Row i ends where it is full, or behind the NUL of a newline; it has no other NUL. */
  predicate RowOk(line: string, breaks: seq<nat>, width: nat, i: nat)
    requires i + 1 < |breaks|
  {
    var from, to := breaks[i], breaks[i + 1];
    && from < to <= |line| && to - from <= width
    && (to - from == width || line[to - 1] == NUL)
    && forall k | from <= k < to - 1 :: line[k] != NUL
  }

  /** The rows that breaks cuts the line into, the last of which is not finished. */
  ghost predicate RowsOk(line: string, breaks: seq<nat>, width: nat) {
    && breaks != [] && breaks[0] == 0
    && (forall i: nat | i + 1 < |breaks| :: RowOk(line, breaks, width, i))
    && breaks[|breaks| - 1] <= |line| < breaks[|breaks| - 1] + width
    && forall k | breaks[|breaks| - 1] <= k < |line| :: line[k] != NUL
  }

  /** The breaks are determined by the line. */
  lemma {:induction false} BreaksUnique(line: string, a: seq<nat>, b: seq<nat>, width: nat, k: nat)
    requires RowsOk(line, a, width) && RowsOk(line, b, width) && k < |a| && k < |b|
    ensures a[k] == b[k]
  {
    if k > 0 {
      BreaksUnique(line, a, b, width, k - 1);
      assert RowOk(line, a, width, k - 1) && RowOk(line, b, width, k - 1);
    }
  }

  /** Adding a few characters to the unfinished row, which may fill it up. */
  lemma AddChars(line: string, breaks: seq<nat>, width: nat, s: string)
    requires RowsOk(line, breaks, width) && |s| <= width && NoNul(s)
    ensures var from := breaks[|breaks| - 1];
            RowsOk(line + s, if |line| - from + |s| >= width then breaks + [from + width] else breaks, width)
  {
    var from := breaks[|breaks| - 1];
    var breaks' := if |line| - from + |s| >= width then breaks + [from + width] else breaks;
    assert forall k | 0 <= k < |line| :: (line + s)[k] == line[k];
    forall i: nat | i + 1 < |breaks'|
      ensures RowOk(line + s, breaks', width, i)
    {
      assert i + 1 < |breaks| ==> RowOk(line, breaks, width, i);
    }
  }

  /** A newline ends the row. */
  lemma AddNewline(line: string, breaks: seq<nat>, width: nat)
    requires RowsOk(line, breaks, width)
    ensures RowsOk(line + [NUL], breaks + [|line| + 1], width)
  {
    var line', breaks' := line + [NUL], breaks + [|line| + 1];
    assert forall k | 0 <= k < |line| :: line'[k] == line[k];
    forall i: nat | i + 1 < |breaks'|
      ensures RowOk(line', breaks', width, i)
    {
      assert i + 1 < |breaks| ==> RowOk(line, breaks, width, i);
    }
  }

  /** A byte of a C string. */
  predicate IsByte(c: char) { c != NUL && (c as int) < 256 }

  predicate Drawable(text: string) {
    forall i | 0 <= i < |text| :: IsByte(text[i])
  }

  // ----- the place of each character -----

  /** Position p of the line lies in row i. */
  predicate InRow(breaks: seq<nat>, p: nat, i: nat) {
    i < |breaks| && breaks[i] <= p && (i + 1 < |breaks| ==> p < breaks[i + 1])
  }

  /** A row whose characters up to p are no NUL ends behind p unless it is full. */
  lemma RowEnds(line: string, breaks: seq<nat>, width: nat, p: nat, q: nat, i: nat)
    requires RowsOk(line, breaks, width) && InRow(breaks, p, i) && p <= q <= |line|
    requires forall k | p <= k < q :: line[k] != NUL
    ensures if i + 1 < |breaks| then
              q < breaks[i + 1] <= breaks[i] + width || breaks[i + 1] == breaks[i] + width <= q
            else q < breaks[i] + width
  {
    if i + 1 < |breaks| {
      assert RowOk(line, breaks, width, i);
    }
  }

  /** Going on over a few cells. */
  lemma CellsOn(line: string, breaks: seq<nat>, width: nat, p: nat, n: nat, i: nat) returns (j: nat)
    requires RowsOk(line, breaks, width) && InRow(breaks, p, i) && p - breaks[i] < width
    requires n <= width && p + n <= |line| && forall k | p <= k < p + n :: line[k] != NUL
    ensures InRow(breaks, p + n, j) && p + n - breaks[j] == Advance(p - breaks[i], n, width)
  {
    RowEnds(line, breaks, width, p, p + n, i);
    j := i;
    if i + 1 < |breaks| && breaks[i + 1] <= p + n {
      j := i + 1;
      if j + 1 < |breaks| {
        assert RowOk(line, breaks, width, j);
        RowEnds(line, breaks, width, breaks[j], p + n, j);
      }
    }
  }

  /** Going on over a newline. */
  lemma NewlineOn(line: string, breaks: seq<nat>, width: nat, p: nat, i: nat)
    requires RowsOk(line, breaks, width) && InRow(breaks, p, i) && p < |line| && line[p] == NUL
    ensures i + 1 < |breaks| && breaks[i + 1] == p + 1 && InRow(breaks, p + 1, i + 1)
  {
    assert i + 1 < |breaks| ==> RowOk(line, breaks, width, i);
    assert i + 2 < |breaks| ==> RowOk(line, breaks, width, i + 1);
  }

  /** The place behind the prompt. */
  lemma {:induction false} PromptPlace(line: string, breaks: seq<nat>, width: nat, n: nat) returns (i: nat)
    requires RowsOk(line, breaks, width) && width > 0 && n <= |line| && forall k | 0 <= k < n :: line[k] != NUL
    ensures InRow(breaks, n, i) && n - breaks[i] == StartColumn(n, width)
  {
    if n == 0 {
      assert 1 < |breaks| ==> RowOk(line, breaks, width, 0);
      i := 0;
    } else {
      var j := PromptPlace(line, breaks, width, n - 1);
      i := CellsOn(line, breaks, width, n - 1, 1, j);
      NextStart(n - 1, width);
    }
  }

  lemma {:induction false} NextStart(n: nat, width: nat)
    requires width > 0
    ensures StartColumn(n + 1, width) == Advance(StartColumn(n, width), 1, width)
  {
    if n >= width {
      NextStart(n - width, width);
    }
  }

  /** The length of the line up to the n-th character. */
  function Place(shown: string, text: string, n: nat, width: nat, outputMeta: bool): nat
    requires width >= 8 && n <= |text|
  {
    |Render(shown, text, n, StartColumn(|shown|, width), width, outputMeta)|
  }

  lemma {:induction false} RenderPrefix(shown: string, text: string, n: nat, start: nat, width: nat, outputMeta: bool)
    requires start < width && width >= 8 && n <= |text|
    ensures Render(shown, text, n, start, width, outputMeta)
         <= Render(shown, text, |text|, start, width, outputMeta)
    decreases |text| - n
  {
    if n < |text| {
      RenderPrefix(shown, text, n + 1, start, width, outputMeta);
    }
  }

  /** The cells of a character come to its place, and lead to the place of the next. */
  lemma PlacesOn(shown: string, text: string, n: nat, width: nat, outputMeta: bool, line: string)
    requires width >= 8 && n < |text|
    requires line == Render(shown, text, |text|, StartColumn(|shown|, width), width, outputMeta)
    ensures var start := StartColumn(|shown|, width);
            var p, q := Place(shown, text, n, width, outputMeta), Place(shown, text, n + 1, width, outputMeta);
            p <= q <= |line| &&
            line[p..q] == Expand(text[n], Column(text, n, start, width, outputMeta), outputMeta)
  {
    var start := StartColumn(|shown|, width);
    var before := Render(shown, text, n, start, width, outputMeta);
    var s := Expand(text[n], Column(text, n, start, width, outputMeta), outputMeta);
    RenderPrefix(shown, text, n + 1, start, width, outputMeta);
    SliceOfPrefix(before, s, Render(shown, text, n + 1, start, width, outputMeta), line);
  }

  lemma SliceOfPrefix(before: string, s: string, both: string, line: string)
    requires both == before + s && both <= line
    ensures |before| <= |both| <= |line| && line[|before|..|both|] == s
  {
    assert line[..|both|] == both;
    assert line[|before|..|both|] == line[..|both|][|before|..];
  }

  /** The column of a character is that of its place in its row. */
  lemma {:induction false} PlaceColumn(shown: string, text: string, n: nat, width: nat, outputMeta: bool, line: string,
                                       breaks: seq<nat>) returns (i: nat)
    requires width >= 8 && n <= |text| && NoNul(shown) && Drawable(text) && RowsOk(line, breaks, width)
    requires line == Render(shown, text, |text|, StartColumn(|shown|, width), width, outputMeta)
    ensures var p := Place(shown, text, n, width, outputMeta);
            InRow(breaks, p, i) &&
            p - breaks[i] == Column(text, n, StartColumn(|shown|, width), width, outputMeta)
  {
    if n == 0 {
      RenderPrefix(shown, text, 0, StartColumn(|shown|, width), width, outputMeta);
      i := PromptPlace(line, breaks, width, |shown|);
    } else {
      var j := PlaceColumn(shown, text, n - 1, width, outputMeta, line, breaks);
      PlacesOn(shown, text, n - 1, width, outputMeta, line);
      var p := Place(shown, text, n - 1, width, outputMeta);
      var q := Place(shown, text, n, width, outputMeta);
      i := CharacterOn(line, breaks, width, text[n - 1], p, q, j,
                       Column(text, n - 1, StartColumn(|shown|, width), width, outputMeta), outputMeta);
    }
  }

  /** Going on over one character. */
  lemma CharacterOn(line: string, breaks: seq<nat>, width: nat, c: char, p: nat, q: nat, j: nat, col: nat,
                    outputMeta: bool) returns (i: nat)
    requires width >= 8 && RowsOk(line, breaks, width) && InRow(breaks, p, j) && p - breaks[j] == col < width
    requires IsByte(c) && p <= q <= |line| && line[p..q] == Expand(c, col, outputMeta)
    ensures InRow(breaks, q, i) && q - breaks[i] == NextColumn(c, col, width, outputMeta)
  {
    var s := Expand(c, col, outputMeta);
    assert forall k | p <= k < q :: line[k] == s[k - p];
    if c == NEWLINE {
      NewlineOn(line, breaks, width, p, j);
      i := j + 1;
    } else {
      i := CellsOn(line, breaks, width, p, q - p, j);
    }
  }

  lemma CharacterShown(shown: string, text: string, n: nat, width: nat, outputMeta: bool, line: string,
                       breaks: seq<nat>)
    requires width >= 8 && n < |text| && NoNul(shown) && Drawable(text) && RowsOk(line, breaks, width)
    requires line == Render(shown, text, |text|, StartColumn(|shown|, width), width, outputMeta)
    ensures ShownAt(text[n], line, breaks, Place(shown, text, n, width, outputMeta),
                    Place(shown, text, n + 1, width, outputMeta), outputMeta)
  {
    var i := PlaceColumn(shown, text, n, width, outputMeta, line, breaks);
    PlacesOn(shown, text, n, width, outputMeta, line);
    ExpandDepicts(text[n], Column(text, n, StartColumn(|shown|, width), width, outputMeta), outputMeta);
  }

  /** The places of all characters. */
  function Places(shown: string, text: string, width: nat, outputMeta: bool): seq<nat>
    requires width >= 8
  {
    seq(|text| + 1, n requires 0 <= n <= |text| => Place(shown, text, n, width, outputMeta))
  }

  /** In the rendered line each character is shown at its place, as the column of the place in its row demands. */
  lemma RenderLaysOut(shown: string, text: string, width: nat, outputMeta: bool, line: string, breaks: seq<nat>)
    requires width >= 8 && NoNul(shown) && Drawable(text) && RowsOk(line, breaks, width)
    requires line == Render(shown, text, |text|, StartColumn(|shown|, width), width, outputMeta)
    ensures LaidOut(shown, text, line, breaks, Places(shown, text, width, outputMeta), outputMeta)
  {
    var at := Places(shown, text, width, outputMeta);
    RenderPrefix(shown, text, 0, StartColumn(|shown|, width), width, outputMeta);
    forall i | 0 <= i < |text|
      ensures ShownAt(text[i], line, breaks, at[i], at[i + 1], outputMeta)
    {
      CharacterShown(shown, text, i, width, outputMeta, line, breaks);
    }
  }

  /** Character i is shown in the cells from p to q, in the column that p has in its row. */
  ghost predicate ShownAt(c: char, line: string, breaks: seq<nat>, p: nat, q: nat, outputMeta: bool) {
    && p <= q <= |line|
    && exists i: nat :: InRow(breaks, p, i) && Depicts(c, line[p..q], p - breaks[i], outputMeta)
  }

  /** The line is what is shown before the text and then, from at[i] to at[i + 1], what character i is shown as. */
  ghost predicate LaidOut(shown: string, text: string, line: string, breaks: seq<nat>, at: seq<nat>, outputMeta: bool) {
    && |at| == |text| + 1 && at[0] == |shown| && at[|text|] == |line| && shown <= line
    && forall i | 0 <= i < |text| :: ShownAt(text[i], line, breaks, at[i], at[i + 1], outputMeta)
  }

  /** The mark, the prompt and the text are laid out in the line, and cpos is the place of character point. */
  ghost predicate ShowsText(prompt: string, modmark: bool, text: string, point: nat, line: string, breaks: seq<nat>,
                            cpos: nat, outputMeta: bool)
    requires point <= |text|
  {
    var shown := if modmark then "*" + prompt else prompt;
    exists at: seq<nat> :: LaidOut(shown, text, line, breaks, at, outputMeta) && at[point] == cpos
  }

  lemma RenderShowsText(prompt: string, modmark: bool, text: string, point: nat, width: nat, outputMeta: bool,
                        line: string, breaks: seq<nat>)
    requires width >= 8 && Drawable(prompt) && Drawable(text) && RowsOk(line, breaks, width) && point <= |text|
    requires line == RenderLine(prompt, modmark, text, |text|, width, outputMeta)
    ensures ShowsText(prompt, modmark, text, point, line, breaks,
                      |RenderLine(prompt, modmark, text, point, width, outputMeta)|, outputMeta)
  {
    var shown := Shown(prompt, modmark);
    ShownDrawable(prompt, modmark);
    RenderLaysOut(shown, text, width, outputMeta, line, breaks);
    var at := Places(shown, text, width, outputMeta);
    assert LaidOut(shown, text, line, breaks, at, outputMeta);
    assert at[point] == Place(shown, text, point, width, outputMeta);
  }

  lemma ShownDrawable(prompt: string, modmark: bool)
    requires Drawable(prompt)
    ensures NoNul(Shown(prompt, modmark))
  {
    assert forall k | 0 <= k < |prompt| :: IsByte(prompt[k]);
  }

  class Layout {
    const width: nat           // _rl_screenwidth
    const outputMeta: bool     // _rl_output_meta_chars
    var line: string           // invisible_line up to out
    var breaks: seq<nat>       // inv_lbreaks up to newlines
    var lpos: nat

    constructor (width: nat, outputMeta: bool)
      requires width >= 8
      ensures Valid() && this.width == width && this.outputMeta == outputMeta
      ensures line == "" && breaks == [0] && lpos == 0
    {
      this.width, this.outputMeta := width, outputMeta;
      line, breaks, lpos := "", [0], 0;
    }

    /** lpos == out - inv_lbreaks[newlines] and lpos < _rl_screenwidth. */
    ghost predicate Valid()
      reads this
    {
      width >= 8 && RowsOk(line, breaks, width) && lpos == |line| - breaks[|breaks| - 1] && lpos < width
    }

    /** CHECK_LPOS. */
    method CheckLpos()
      modifies this`breaks, this`lpos
      ensures lpos == if old(lpos) + 1 >= width then 0 else old(lpos) + 1
      ensures breaks == if old(lpos) + 1 >= width then old(breaks) + [|line|] else old(breaks)
    {
      lpos := lpos + 1;
      if lpos >= width {
        breaks := breaks + [|line|];
        lpos := 0;
      }
    }

    /** The rows so far are kept, and the row being filled does not end before what is added to it. */
    twostate predicate Grown(s: string)
      reads this
    {
      line == old(line) + s && old(breaks) <= breaks && |breaks| <= |old(breaks)| + |s| &&
      forall i | |old(breaks)| <= i < |breaks| :: breaks[i] > |old(line)|
    }

    /** A character that takes one cell, and CHECK_LPOS. */
    method Put(c: char)
      requires Valid() && c != NUL
      modifies this`line, this`breaks, this`lpos
      ensures Valid() && Grown([c]) && lpos == Advance(old(lpos), 1, width)
    {
      AddChars(line, breaks, width, [c]);
      line := line + [c];
      CheckLpos();
    }

    /** Characters that are shown in one go: the octal form of a byte, and the blanks of a tab. */
    method PutAll(s: string)
      requires Valid() && 0 < |s| <= 8 && NoNul(s)
      modifies this`line, this`breaks, this`lpos
      ensures Valid() && Grown(s) && lpos == Advance(old(lpos), |s|, width)
    {
      AddChars(line, breaks, width, s);
      if lpos + |s| >= width {
        var temp := width - lpos;
        breaks := breaks + [|line| + temp];
        lpos := |s| - temp;
      } else {
        lpos := lpos + |s|;
      }
      line := line + s;
    }

    /** One character of the line. */
    method Draw(c: char)
      requires Valid() && c != NUL && (c as int) < 256
      modifies this`line, this`breaks, this`lpos
      ensures Valid() && Grown(Expand(c, old(lpos), outputMeta))
      ensures lpos == NextColumn(c, old(lpos), width, outputMeta)
      ensures Depicts(c, Expand(c, old(lpos), outputMeta), old(lpos), outputMeta)
    {
      ExpandDepicts(c, lpos, outputMeta);
      if IsMeta(c) {
        if !outputMeta {
          PutAll(['\\'] + Octal(c as int, 3));
        } else {
          Put(c);
        }
      } else if c == TAB {
        PutAll(Blanks(8 - lpos % 8));
      } else if c == NEWLINE {
        AddNewline(line, breaks, width);
        line := line + [NUL];
        breaks := breaks + [|line|];
        lpos := 0;
      } else if IsControl(c) || c == RUBOUT {
        ghost var was := line;
        Put('^');
        Put(if IsControl(c) then Uncontrol(c) else '?');
        assert line == was + Expand(c, old(lpos), outputMeta);
      } else {
        Put(c);
      }
    }

    /** The prompt, with the mark of a modified line before it. */
    method DrawPrompt(prompt: string, modmark: bool)
      requires width >= 8 && line == "" && breaks == [0] && Drawable(prompt)
      modifies this`line, this`breaks, this`lpos
      ensures Valid() && line == Shown(prompt, modmark) && lpos == StartColumn(|line|, width)
      ensures line == if modmark then "*" + prompt else prompt
    {
      if modmark {
        line := line + "*";
      }
      line := line + prompt;
      assert forall k | 0 <= k < |prompt| :: IsByte(prompt[k]);
      BreakPrompt();
    }

    /** The loop that breaks the prompt. */
    method BreakPrompt()
      requires width >= 8 && breaks == [0] && forall k | 0 <= k < |line| :: line[k] != NUL
      modifies this`breaks, this`lpos
      ensures Valid() && lpos == StartColumn(|line|, width)
    {
      lpos := |line|;
      while lpos >= width
        invariant FullRows(line, breaks, width) && (|breaks| - 1) * width + lpos == |line|
        invariant StartColumn(lpos, width) == StartColumn(|line|, width)
        decreases lpos
      {
        var temp := |breaks| * width;
        NextMultiple(|breaks|, width);
        AddFullRow(line, breaks, width);
        breaks := breaks + [temp];
        lpos := lpos - width;
      }
    }

    /** Drawing character i of the text. */
    method DrawNext(text: string, i: nat, ghost shown: string, ghost start: nat)
      requires Valid() && i < |text| && IsByte(text[i]) && start < width
      requires line == Render(shown, text, i, start, width, outputMeta)
      requires lpos == Column(text, i, start, width, outputMeta)
      modifies this`line, this`breaks, this`lpos
      ensures Valid() && Grown(Expand(text[i], old(lpos), outputMeta))
      ensures line == Render(shown, text, i + 1, start, width, outputMeta)
      ensures lpos == Column(text, i + 1, start, width, outputMeta)
    {
      Draw(text[i]);
    }

    /** The end of what has been drawn is a place for the cursor. */
    lemma PlacedHere(text: string, n: nat, shown: string, start: nat)
      requires Valid() && n <= |text| && start < width
      requires line == Render(shown, text, n, start, width, outputMeta)
      requires lpos == Column(text, n, start, width, outputMeta)
      ensures Placed(text, n, start, shown, |line|, |breaks| - 1)
    {
    }

    /**
     How far the layout loop is, if its state is right: i characters were drawn, and if point is among them the place of
     the cursor is known.
    */
    ghost function Progress(text: string, i: nat, point: nat, cposBuffer: int, linenum: nat, shown: string,
                            start: nat): Option<nat>
      reads this
    {
      if && Valid() && start < width && i <= |text| && point <= |text|
         && line == Render(shown, text, i, start, width, outputMeta)
         && lpos == Column(text, i, start, width, outputMeta)
         && if i <= point then cposBuffer == -1 else Placed(text, point, start, shown, cposBuffer, linenum)
      then Some(i) else None
    }

    /** The place of the cursor is noted when point is reached. */
    method NotePlace(text: string, i: nat, point: nat, cposBuffer: int, linenum: nat, ghost shown: string,
                     ghost start: nat) returns (cpos: int, row: nat)
      requires Progress(text, i, point, cposBuffer, linenum, shown, start) == Some(i)
      ensures if i < point then cpos == -1 else Placed(text, point, start, shown, cpos, row)
    {
      cpos, row := cposBuffer, linenum;
      if i == point {
        cpos := |line|;
        row := |breaks| - 1;
        PlacedHere(text, point, shown, start);
      }
    }

    /** The body of the layout loop: note the place of the cursor, and draw the next character. */
    method LayOutNext(text: string, i: nat, point: nat, cposBuffer: int, linenum: nat, ghost shown: string,
                      ghost start: nat) returns (cpos: int, row: nat)
      requires Progress(text, i, point, cposBuffer, linenum, shown, start) == Some(i)
      requires i < |text| && IsByte(text[i])
      modifies this`line, this`breaks, this`lpos
      ensures Progress(text, i + 1, point, cpos, row, shown, start) == Some(i + 1)
    {
      cpos, row := NotePlace(text, i, point, cposBuffer, linenum, shown, start);
      DrawNext(text, i, shown, start);
    }

    /**
     The layout loop.  The rows partition the line as it is shown, and cpos, the place where the cursor belongs, lies in
     row linenum at a column of the screen.
    */
    method LayOut(prompt: string, modmark: bool, text: string, point: nat) returns (cpos: nat, linenum: nat)
      requires width >= 8 && line == "" && breaks == [0] && Drawable(prompt)
      requires point <= |text| && Drawable(text)
      modifies this`line, this`breaks, this`lpos
      ensures Valid()
      ensures line == RenderLine(prompt, modmark, text, |text|, width, outputMeta)
      ensures Placed(text, point, StartColumn(|Shown(prompt, modmark)|, width), Shown(prompt, modmark), cpos, linenum)
      ensures ShowsText(prompt, modmark, text, point, line, breaks, cpos, outputMeta) && InRow(breaks, cpos, linenum)
    {
      DrawPrompt(prompt, modmark);
      cpos, linenum := DrawLine(text, point);
      RenderShowsText(prompt, modmark, text, point, width, outputMeta, line, breaks);
    }

    /** The line, started behind the prompt. */
    method DrawLine(text: string, point: nat) returns (cpos: nat, linenum: nat)
      requires Valid() && point <= |text|
      requires Drawable(text)
      modifies this`line, this`breaks, this`lpos
      ensures Valid() && line == Render(old(line), text, |text|, old(lpos), width, outputMeta)
      ensures Placed(text, point, old(lpos), old(line), cpos, linenum)
    {
      ghost var shown, start := line, lpos;
      var cposBuffer, row := DrawAll(text, point, shown, start);
      if cposBuffer < 0 {
        PlacedHere(text, point, shown, start);
        cposBuffer := |line|;
        row := |breaks| - 1;
      }
      cpos, linenum := cposBuffer, row;
    }

    /** The loop itself; the cursor has no place yet if it is behind the last character. */
    method DrawAll(text: string, point: nat, ghost shown: string, ghost start: nat)
      returns (cposBuffer: int, linenum: nat)
      requires Progress(text, 0, point, -1, 0, shown, start) == Some(0) && Drawable(text)
      modifies this`line, this`breaks, this`lpos
      ensures Progress(text, |text|, point, cposBuffer, linenum, shown, start) == Some(|text|)
    {
      cposBuffer, linenum := -1, 0;
      for i := 0 to |text|
        invariant Progress(text, i, point, cposBuffer, linenum, shown, start) == Some(i)
      {
        cposBuffer, linenum := LayOutNext(text, i, point, cposBuffer, linenum, shown, start);
      }
    }

    /** The cursor is where the text before point ends: in a row that reaches to it, at a column of the screen. */
    ghost predicate Placed(text: string, point: nat, start: nat, shown: string, cpos: int, linenum: nat)
      requires width >= 8 && start < width && point <= |text|
      reads this
    {
      && cpos == |Render(shown, text, point, start, width, outputMeta)| <= |line|
      && linenum < |breaks| && breaks[linenum] <= cpos
      && cpos - breaks[linenum] == Column(text, point, start, width, outputMeta) < width
      && (linenum + 1 < |breaks| ==> cpos < breaks[linenum + 1])
    }
  }

  /** Rows of a line without a NUL that are all full. */
  ghost predicate FullRows(line: string, breaks: seq<nat>, width: nat) {
    && breaks != [] && breaks[0] == 0 && breaks[|breaks| - 1] == (|breaks| - 1) * width
    && (forall k | 0 <= k < |line| :: line[k] != NUL)
    && (forall i: nat | i + 1 < |breaks| :: RowOk(line, breaks, width, i))
  }

  lemma NextMultiple(n: nat, width: nat)
    requires n > 0
    ensures n * width == (n - 1) * width + width
  {
  }

  lemma AddFullRow(line: string, breaks: seq<nat>, width: nat)
    requires FullRows(line, breaks, width) && width > 0 && breaks[|breaks| - 1] + width <= |line|
    ensures FullRows(line, breaks + [|breaks| * width], width)
  {
    NextMultiple(|breaks|, width);
    var breaks' := breaks + [|breaks| * width];
    forall i: nat | i + 1 < |breaks'|
      ensures RowOk(line, breaks', width, i)
    {
      assert i + 1 < |breaks| ==> RowOk(line, breaks, width, i);
    }
  }
}
