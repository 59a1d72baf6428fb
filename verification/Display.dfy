/**
 Updating one row of the screen (readline-6.2/display.c: update_line and the functions it uses), for single-byte text
 without invisible prompt characters and without horizontal scrolling.
*/
module Display {
  import opened Terminal
  import opened Characters

  // ----- rows -----

  /** s is what a row buffer holds: the characters before its NUL, or all of them when the row is full. */
  ghost predicate IsRow(buf: seq<char>, max: nat, width: nat, s: string) {
    && |s| <= max <= width && |s| < |buf| && buf[..|s|] == s
    && (forall i | 0 <= i < |s| :: s[i] != NUL)
    && (|s| < width ==> buf[|s|] == NUL)
  }

  /** What the operations do to a row given in parts. */
  lemma WriteAt(x: string, a: string, b: string, y: string)
    requires |a| == |b|
    ensures Write(x + a + y, |x|, b) == x + b + y
  {
  }

  lemma SqueezeAt(x: string, y: string, s: string)
    requires |s| <= |y|
    ensures Squeeze(x + y, |x|, s) == x + s + y[..|y| - |s|]
  {
  }

  lemma RemoveAt(x: string, y: string, n: nat)
    requires n <= |y|
    ensures Remove(x + y, |x|, n) == x + y[n..] + Blanks(n)
  {
  }

  /** Inserting the first new characters and overwriting the rest of the difference. */
  lemma InsertedRow(p: string, a: string, b: string, t: string, width: nat)
    requires |a| <= |b| && |p + b + t| <= width
    ensures var d := |b| - |a|;
            |p| + d <= width &&
            Write(Squeeze(Pad(p + a + t, width), |p|, b[..d]), |p| + d, b[d..]) == Pad(p + b + t, width)
  {
    var d, k := |b| - |a|, width - |p + a + t|;
    var y, z := a + t + Blanks(k), t + Blanks(k - d);
    assert Pad(p + a + t, width) == p + y;
    SqueezeAt(p, y, b[..d]);
    assert p + b[..d] + y[..|y| - d] == (p + b[..d]) + a + z;
    WriteAt(p + b[..d], a, b[d..], z);
    assert b == b[..d] + b[d..];
    assert (p + b[..d]) + b[d..] + z == Pad(p + b + t, width);
  }

  /** Deleting the surplus characters and overwriting the rest of the difference. */
  lemma DeletedRow(p: string, a: string, b: string, t: string, width: nat)
    requires |b| <= |a| && |p + a + t| <= width
    ensures var d := |a| - |b|;
            Write(Remove(Pad(p + a + t, width), |p|, d), |p|, b) == Pad(p + b + t, width)
  {
    var d, k := |a| - |b|, width - |p + a + t|;
    var y, z := a + t + Blanks(k), t + Blanks(k + d);
    assert Pad(p + a + t, width) == p + y;
    RemoveAt(p, y, d);
    assert p + y[d..] + Blanks(d) == p + a[d..] + z;
    WriteAt(p, a[d..], b, z);
    assert p + b + z == Pad(p + b + t, width);
  }

  /** The row begins with p, and is blank behind the k cells that follow; what these show does not matter. */
  predicate Framed(row: string, p: string, k: nat, width: nat) {
    |row| == width && |p| + k <= width && row[..|p|] == p && row[|p| + k..] == Blanks(width - |p| - k)
  }

  /** The row shows p and o, or one of o and n is empty and it does not matter what the row shows for the other. */
  predicate Shows(row: string, p: string, o: string, n: string, width: nat)
    requires |p + o| <= width && |p + n| <= width
  {
    row == Pad(p + o, width) ||
    (o != n && (o == "" || n == "") && Framed(row, p, if |o| > |n| then |o| else |n|, width))
  }

  lemma ShowsFrom(row: string, o: string, n: string, od: nat, width: nat)
    requires |o| <= width && |n| <= width && Shows(row, "", o, n, width)
    requires od <= |o| && od <= |n| && o[..od] == n[..od]
    ensures Shows(row, o[..od], o[od..], n[od..], width)
    ensures od == 0 || row == Pad(o, width)
  {
    assert o == o[..od] + o[od..] && n == n[..od] + n[od..];
    assert "" + o == o && "" + n == n;
  }

  lemma PadFramed(p: string, o: string, k: nat, width: nat)
    requires |o| <= k && |p| + k <= width
    ensures Framed(Pad(p + o, width), p, k, width)
  {
  }

  /** Overwriting everything from the first difference on, whatever was there. */
  lemma OverwrittenRow(row: string, p: string, k: nat, n: string, width: nat)
    requires Framed(row, p, k, width) && |p + n| <= width
    ensures var now := Write(row, |p|, n);
            && (k <= |n| ==> now == Pad(p + n, width))
            && (|n| <= k ==> Write(now, |p| + |n|, Blanks(k - |n|)) == Pad(p + n, width))
            && (|n| <= k ==> Erase(now, |p| + |n|) == Pad(p + n, width))
  {
    var now := Write(row, |p|, n);
    assert now[..|p| + |n|] == p + n;
    if k <= |n| {
      assert row[|p| + |n|..] == row[|p| + k..][|n| - k..] == Blanks(width - |p + n|);
    } else {
      assert now[|p| + k..] == row[|p| + k..];
      assert Blanks(k - |n|) + Blanks(width - |p| - k) == Blanks(width - |p + n|);
    }
  }

  /** Writing in two portions, and writing what is there already. */
  lemma WriteTwice(row: string, col: nat, s: string, t: string)
    requires col + |s| + |t| <= |row|
    ensures Write(Write(row, col, s), col + |s|, t) == Write(row, col, s + t)
  {
    var mid := Write(row, col, s);
    assert mid[..col + |s|] == row[..col] + s;
    assert mid[col + |s| + |t|..] == row[col + |s| + |t|..];
  }

  lemma WriteSame(row: string, col: nat, n: nat)
    requires col + n <= |row|
    ensures Write(row, col, row[col..col + n]) == row
  {
  }

  lemma SqueezeTwice(row: string, col: nat, s: string, t: string)
    requires col + |s| + |t| <= |row|
    ensures Squeeze(Squeeze(row, col, s), col + |s|, t) == Squeeze(row, col, s + t)
  {
    var a, tail := row[..col], row[col..|row| - |s|];
    Sliced(a + s, "", tail, |row| - |t|);
    assert a + s + "" == a + s;
    Shorter(row, col, |row| - |s|, |row| - |s| - |t|);
    Joined(a, s, t, row[col..|row| - |s| - |t|]);
  }

  /** Printing s, in insert mode or not. */
  function Put(row: string, col: nat, s: string, moves: bool): (r: string)
    requires col + |s| <= |row|
    ensures |r| == |row|
  {
    if moves then Squeeze(row, col, s) else Write(row, col, s)
  }

  lemma PutTwice(row: string, col: nat, s: string, t: string, moves: bool)
    requires col + |s| + |t| <= |row|
    ensures Put(Put(row, col, s, moves), col + |s|, t, moves) == Put(row, col, s + t, moves)
  {
    WriteTwice(row, col, s, t);
    SqueezeTwice(row, col, s, t);
  }

  lemma PutNothing(row: string, col: nat, s: string, moves: bool)
    requires col <= |row|
    ensures Put(row, col, s[..0], moves) == row
  {
    WriteSame(row, col, 0);
    assert s[..0] == "" && row[col..col + 0] == "" && Squeeze(row, col, "") == row;
  }

  lemma Shorter(row: string, from: nat, to: nat, e: nat)
    requires from <= e <= to <= |row|
    ensures row[from..to][..e - from] == row[from..e]
  {
  }

  /** Opening cells one by one to the right of each other's place is opening them at once. */
  lemma OpenTwice(row: string, col: nat, n: nat, k: nat)
    requires col + n + k <= |row|
    ensures Squeeze(Squeeze(row, col, Blanks(n)), col, Blanks(k)) == Squeeze(row, col, Blanks(n + k))
  {
    var a, tail := row[..col], row[col..|row| - n];
    Sliced(a, Blanks(n), tail, |row| - k);
    assert Blanks(k) + Blanks(n) == Blanks(n + k);
    Shorter(row, col, |row| - n, |row| - n - k);
    JoinedInside(a, Blanks(k), Blanks(n), row[col..|row| - n - k]);
  }

  /** The first part of three, and from the second up to a place in the third. */
  lemma Sliced(a: string, b: string, c: string, to: nat)
    requires |a| + |b| <= to <= |a| + |b| + |c|
    ensures (a + b + c)[..|a|] == a && (a + b + c)[|a|..to] == b + c[..to - |a| - |b|]
  {
  }

  lemma Joined(a: string, b: string, c: string, d: string)
    ensures a + b + c + d == a + (b + c) + d
  {
    assert a + b + c == a + (b + c);
  }

  lemma JoinedInside(a: string, b: string, c: string, d: string)
    ensures a + b + (c + d) == a + (b + c) + d
  {
    assert a + b + (c + d) == a + b + c + d;
    Joined(a, b, c, d);
  }

  lemma FillOpened(row: string, col: nat, s: string)
    requires col + |s| <= |row|
    ensures Write(Squeeze(row, col, Blanks(|s|)), col, s) == Squeeze(row, col, s)
  {
    var mid := Squeeze(row, col, Blanks(|s|));
    assert mid[..col] == row[..col] && mid[col + |s|..] == row[col..|row| - |s|];
  }

  lemma RemoveTwice(row: string, col: nat, n: nat, k: nat)
    requires col + n + k <= |row|
    ensures Remove(Remove(row, col, n), col, k) == Remove(row, col, n + k)
  {
    var mid := Remove(row, col, n);
    assert mid[..col] == row[..col];
    assert mid[col + k..] == row[col + n + k..] + Blanks(n);
    assert Blanks(n) + Blanks(k) == Blanks(n + k);
  }

  lemma Parts(o: string, n: string, od: nat, ols: nat, nls: nat)
    requires od <= ols <= |o| && od <= nls <= |n| && o[..od] == n[..od] && o[ols..] == n[nls..]
    ensures o == o[..od] + o[od..ols] + o[ols..] && o == o[..od] + o[od..] && n == o[..od] + n[od..]
    ensures n[od..][nls - od..] == o[ols..] && o[od..] == o[od..ols] + o[ols..]
  {
  }

  /** What a row shows after a character was put into its first cell. */
  lemma FirstCell(o: string, n: string, c: char, width: nat)
    requires 0 < width && |o| <= width && |n| <= width && c == if n == "" then ' ' else n[0]
    ensures var row := Write(Pad(o, width), 0, [c]);
            && (o != "" && n != "" ==> row == Pad(o[0 := c], width))
            && (o == "" && n == "" ==> row == Pad(o, width))
            && (o == "" || n == "" ==> Shows(row, "", o, n, width))
  {
    assert "" + o == o && "" + n == n;
    if o == "" {
      FirstOfBlanks(c, |n|, width);
    } else {
      FirstOfText(o, c, width);
    }
  }

  lemma FirstOfBlanks(c: char, k: nat, width: nat)
    requires 0 < width && k <= width
    ensures var row := Write(Pad("", width), 0, [c]);
            (c == ' ' ==> row == Pad("", width)) && (k > 0 ==> Framed(row, "", k, width))
  {
    BlanksFrom(width);
    WriteAt("", [' '], [c], Blanks(width - 1));
    FirstAndBlanks(c, Blanks(width - 1), k, width);
  }

  lemma FirstOfText(o: string, c: char, width: nat)
    requires 0 < |o| <= width
    ensures var row := Write(Pad(o, width), 0, [c]);
            row == Pad(o[0 := c], width) && Framed(row, "", |o|, width)
  {
    var rest := o[1..] + Blanks(width - |o|);
    assert Pad(o, width) == "" + [o[0]] + rest;
    WriteAt("", [o[0]], [c], rest);
    assert "" + [c] + rest == Pad(o[0 := c], width);
    FirstAndBlanks(c, rest, |o|, width);
  }

  lemma BlanksFrom(width: nat)
    requires width > 0
    ensures Pad("", width) == Blanks(width) == "" + [' '] + Blanks(width - 1)
  {
  }

  lemma FirstAndBlanks(c: char, rest: string, k: nat, width: nat)
    requires |rest| + 1 == width && k <= width
    requires k > 0 ==> forall i | k - 1 <= i < |rest| :: rest[i] == ' '
    ensures k > 0 ==> Framed("" + [c] + rest, "", k, width)
  {
    if k > 0 {
      assert ("" + [c] + rest)[k..] == rest[k - 1..] == Blanks(width - k);
    }
  }

  // ----- comparing -----

  /** Find the first difference. */
  method FirstDifference(old_: seq<char>, new_: seq<char>, omax: nat, ghost nmax: nat, ghost width: nat,
                         ghost o: string, ghost n: string) returns (od: nat)
    requires IsRow(old_, omax, width, o) && IsRow(new_, nmax, width, n)
    ensures od <= |o| && od <= |n| && o[..od] == n[..od]
    ensures od == |o| || od == |n| || o[od] != n[od]
  {
    od := 0;
    while od < omax && old_[od] != NUL && old_[od] == new_[od]
      invariant od <= |o| && od <= |n| && o[..od] == n[..od]
    {
      assert od < |o| && od < |n|;
      od := od + 1;
    }
  }

  /** Move to the end of the row. */
  method RowEnd(buf: seq<char>, start: nat, max: nat, ghost width: nat, ghost s: string) returns (e: nat)
    requires IsRow(buf, max, width, s) && start <= |s|
    ensures e == |s|
  {
    e := start;
    while e < max && buf[e] != NUL
      invariant start <= e <= |s|
      decreases max - e
    {
      e := e + 1;
    }
  }

  /** Find where the rows are the same again to their ends; trailing blanks alone do not count as being the same. */
  method LastSame(old_: seq<char>, new_: seq<char>, od: nat, oe: nat, ne: nat, ghost o: string, ghost n: string)
    returns (ols: nat, nls: nat)
    requires |o| == oe < |old_| && |n| == ne < |new_| && old_[..oe] == o && new_[..ne] == n
    requires (forall i | 0 <= i < oe :: o[i] != NUL) && (forall i | 0 <= i < ne :: n[i] != NUL)
    requires od <= oe && od <= ne && (od < oe || od < ne)
    ensures od <= ols <= oe && od <= nls <= ne && oe - ols == ne - nls
    ensures o[ols..] == n[nls..]
  {
    var wsatend := true;
    var i: int, j: int := oe - 1, ne - 1;
    while i > od && j > od && old_[i] == new_[j]
      invariant oe - i == ne - j && i < oe
      invariant i < oe - 1 ==> od <= i && od <= j
      invariant i == oe - 1 ==> wsatend
      invariant forall k | i < k < oe :: o[k] == n[k - oe + ne]
      decreases i
    {
      if old_[i] != ' ' {
        wsatend := false;
      }
      i, j := i - 1, j - 1;
    }
    if wsatend {
      SameTails(o, n, oe, ne);
      return oe, ne;
    }
    if old_[i] != new_[j] {
      if old_[i] != NUL {
        i := i + 1;
      }
      if new_[j] != NUL {
        j := j + 1;
      }
    }
    SameTails(o, n, i, j);
    return i, j;
  }

  lemma SameTails(o: string, n: string, i: nat, j: nat)
    requires i <= |o| && j <= |n| && |o| - i == |n| - j && forall k | i <= k < |o| :: o[k] == n[k - |o| + |n|]
    ensures o[i..] == n[j..]
  {
  }

  class Display {
    const term: Terminal
    var lastCPos: nat      // _rl_last_c_pos
    var lastVPos: nat      // _rl_last_v_pos

    constructor (term: Terminal)
      requires term.Valid()
      ensures this.term == term && Valid()
    {
      this.term := term;
      lastCPos, lastVPos := term.col, term.row;
    }

    /** The record of the cursor position is right. */
    predicate Valid()
      reads this, term
    {
      term.Valid() && lastCPos == term.col && lastVPos == term.row
    }

    /** _rl_output_some_chars. */
    method OutputSomeChars(s: string)
      requires term.row < |term.rows| && |term.rows[term.row]| == term.width && term.col + |s| <= term.width
      modifies term`rows, term`col
      ensures term.col == old(term.col) + |s|
      ensures term.rows == old(term.rows)[term.row :=
                Put(old(term.rows)[term.row], old(term.col), s, term.inserting && !term.caps.ic)]
    {
      ghost var row, col := term.rows[term.row], term.col;
      ghost var moves := term.inserting && !term.caps.ic;
      PutNothing(row, col, s, moves);
      var i := 0;
      while i < |s|
        invariant i <= |s| && term.col == col + i
        invariant term.rows == old(term.rows)[term.row := Put(row, col, s[..i], moves)]
      {
        PutTwice(row, col, s[..i], [s[i]], moves);
        assert s[..i + 1] == s[..i] + [s[i]];
        term.PutChar(s[i]);
        i := i + 1;
      }
      assert s[..|s|] == s;
    }

    /** insert_some_chars. */
    method InsertSomeChars(s: string)
      requires term.Valid() && term.col + |s| <= term.width && s != ""
      requires term.caps.IC || term.caps.im || term.caps.ic
      modifies term`rows, term`col, term`inserting
      ensures term.Valid() && term.col == old(term.col) + |s|
      ensures term.rows == old(term.rows)[term.row := Squeeze(old(term.rows)[term.row], old(term.col), s)]
    {
      ghost var row, col := term.rows[term.row], term.col;
      FillOpened(row, col, s);
      if term.caps.IC {
        term.OpenCells(|s|);
        OutputSomeChars(s);
      } else {
        if term.caps.im {
          term.SetInserting(true);
        }
        if term.caps.ic {
          OpenOneByOne(|s|);
        }
        OutputSomeChars(s);
        if term.caps.im {
          term.SetInserting(false);
        }
      }
    }

    method OpenOneByOne(n: nat)
      requires term.row < |term.rows| && |term.rows[term.row]| == term.width && term.col + n <= term.width
      modifies term`rows
      ensures term.rows == old(term.rows)[term.row := Squeeze(old(term.rows)[term.row], term.col, Blanks(n))]
    {
      ghost var row, col := term.rows[term.row], term.col;
      assert Squeeze(row, col, Blanks(0)) == row;
      var i := 0;
      while i < n
        invariant i <= n
        invariant term.rows == old(term.rows)[term.row := Squeeze(row, col, Blanks(i))]
      {
        OpenTwice(row, col, i, 1);
        term.OpenCells(1);
        i := i + 1;
      }
    }

    /** delete_chars. */
    method DeleteChars(count: nat)
      requires term.Valid() && term.col + count <= term.width && (term.caps.DC || term.caps.dc)
      modifies term`rows
      ensures term.Valid()
      ensures term.rows == old(term.rows)[term.row := Remove(old(term.rows)[term.row], term.col, count)]
    {
      if term.caps.DC {
        term.RemoveCells(count);
      } else {
        ghost var row, col := term.rows[term.row], term.col;
        assert Remove(row, col, 0) == row;
        var n, k := count, 0;
        while n > 0
          invariant n + k == count && term.Valid()
          invariant term.rows == old(term.rows)[term.row := Remove(row, col, k)]
        {
          RemoveTwice(row, col, k, 1);
          term.RemoveCells(1);
          n, k := n - 1, k + 1;
        }
      }
    }

    /** space_to_eol. */
    method SpaceToEol(count: nat)
      requires Valid() && term.col + count <= term.width
      modifies this`lastCPos, term`rows, term`col
      ensures Valid() && term.col == old(term.col) + count
      ensures term.rows == old(term.rows)[term.row := Write(old(term.rows)[term.row], old(term.col), Blanks(count))]
    {
      OutputSomeChars(Blanks(count));
      lastCPos := lastCPos + count;
    }

    /** _rl_clear_to_eol. */
    method ClearToEol(count: nat)
      requires Valid() && term.col + count <= term.width && term.col < term.width
      modifies this`lastCPos, term`rows, term`col
      ensures Valid()
      ensures term.rows == old(term.rows)[term.row :=
                if term.caps.ce then Erase(old(term.rows)[term.row], old(term.col))
                else Write(old(term.rows)[term.row], old(term.col), Blanks(count))]
    {
      if term.caps.ce {
        term.ClearToEnd();
      } else if count > 0 {
        SpaceToEol(count);
      } else {
        assert Write(term.rows[term.row], term.col, Blanks(0)) == term.rows[term.row];
      }
    }

    /** _rl_move_vert; the terminal has a capability to go up. */
    method MoveVert(to: nat)
      requires Valid() && to < |term.rows|
      modifies this`lastCPos, this`lastVPos, term`row, term`col
      ensures Valid() && lastVPos == to
    {
      if lastVPos == to {
        return;
      }
      if to > lastVPos {
        var delta := to - lastVPos;
        var i := 0;
        while i < delta
          invariant i <= delta && term.row == lastVPos + i && term.Valid()
          modifies term`row
        {
          term.LineFeed();
          i := i + 1;
        }
        term.CarriageReturn();
        lastCPos := 0;
      } else {
        var delta := lastVPos - to;
        var i := 0;
        while i < delta
          invariant i <= delta && term.row == lastVPos - i && term.Valid()
          modifies term`row
        {
          term.Up();
          i := i + 1;
        }
      }
      lastVPos := to;
    }

    /** _rl_move_cursor_relative: to column to of a row that shows data at least up to there. */
    method MoveCursorRelative(to: nat, data: seq<char>)
      requires Valid() && to < term.width && to <= |data| && data[..to] == term.rows[term.row][..to]
      modifies this`lastCPos, term`rows, term`col
      ensures Valid() && term.col == to && term.rows == old(term.rows)
    {
      var cpos := lastCPos;
      if cpos == to {
        return;
      }
      if to == 0 || to + 1 < lastCPos - to || (term.caps.am && lastCPos == term.width) {
        term.CarriageReturn();
        cpos, lastCPos := 0, 0;
      }
      if cpos < to {
        ghost var row := term.rows[term.row];
        var i := cpos;
        while i < to
          invariant cpos <= i <= to && term.Valid() && term.col == i && term.rows == old(term.rows)
        {
          assert data[i] == data[..to][i] == row[..to][i] == row[i];
          WriteSame(row, i, 1);
          assert row[i..i + 1] == [row[i]];
          term.PutChar(data[i]);
          i := i + 1;
        }
      } else if cpos > to {
        var i := 0;
        while i < cpos - to
          invariant i <= cpos - to && term.Valid() && term.col == cpos - i && term.rows == old(term.rows)
        {
          term.Backspace();
          i := i + 1;
        }
      }
      lastCPos := to;
    }

    /**
     The branch of update_line for a row that has grown.  From column |p| on it shows a + t and is to show new, which
     also ends in t; atEnd says that the old row has ended where the rows are the same again.
    */
    method Grow(ghost p: string, ghost a: string, ghost t: string, new_: string, nls: nat, lendiff: nat, atEnd: bool,
                gl: bool)
      requires Valid() && term.col == |p| && |p + new_| <= term.width
      requires nls <= |new_| && new_[nls..] == t && lendiff + |a| == nls && lendiff > 0 && (atEnd ==> t == "")
      requires Framed(term.rows[term.row], p, |new_|, term.width)
      requires atEnd || term.rows[term.row] == Pad(p + a + t, term.width)
      modifies this`lastCPos, term`rows, term`col, term`inserting
      ensures Valid() && term.rows == old(term.rows)[term.row := Pad(p + new_, term.width)]
    {
      var temp := |new_|;
      OverwrittenRow(term.rows[term.row], p, |new_|, new_, term.width);
      if (term.caps.IC || term.caps.im || term.caps.ic) && (2 * temp >= lendiff || term.caps.IC) &&
         (!term.caps.am || !gl) {
        if !atEnd {
          GrowInside(p, a, t, new_[..nls], lendiff);
          assert p + new_ == p + new_[..nls] + t;
        } else {
          assert new_[..nls] == new_;
          GrowAtEnd(new_[..nls], lendiff);
        }
      } else {
        OutputSomeChars(new_);
        lastCPos := lastCPos + temp;
      }
    }

    /** With text behind the difference: insert as many characters as the row has grown by, and overwrite the others. */
    method GrowInside(ghost p: string, ghost a: string, ghost t: string, b: string, lendiff: nat)
      requires Valid() && (term.caps.IC || term.caps.im || term.caps.ic)
      requires term.col == |p| && |p + b + t| <= term.width && 0 < lendiff && lendiff + |a| == |b|
      requires term.rows[term.row] == Pad(p + a + t, term.width)
      modifies this`lastCPos, term`rows, term`col, term`inserting
      ensures Valid() && term.rows == old(term.rows)[term.row := Pad(p + b + t, term.width)]
    {
      InsertedRow(p, a, b, t, term.width);
      InsertSomeChars(b[..lendiff]);
      lastCPos := lastCPos + lendiff;
      OutputRest(b, lendiff);
    }

    /** Behind the end of the old row there is nothing to make room for: all new characters are written. */
    method GrowAtEnd(b: string, lendiff: nat)
      requires Valid() && term.col + |b| <= term.width && lendiff <= |b|
      modifies this`lastCPos, term`rows, term`col
      ensures Valid() && term.rows == old(term.rows)[term.row := Write(old(term.rows)[term.row], old(term.col), b)]
    {
      WriteTwice(term.rows[term.row], term.col, b[..lendiff], b[lendiff..]);
      assert b[..lendiff] + b[lendiff..] == b;
      OutputSomeChars(b[..lendiff]);
      lastCPos := lastCPos + lendiff;
      OutputRest(b, lendiff);
    }

    /** Copy new characters to the screen up to the last difference. */
    method OutputRest(b: string, from: nat)
      requires Valid() && from <= |b| && term.col + |b| - from <= term.width
      modifies this`lastCPos, term`rows, term`col
      ensures Valid()
      ensures term.rows == old(term.rows)[term.row := Write(old(term.rows)[term.row], old(term.col), b[from..])]
      ensures term.col == old(term.col) + |b| - from
    {
      if |b| - from > 0 {
        OutputSomeChars(b[from..]);
        lastCPos := lastCPos + (|b| - from);
      } else {
        WriteSame(term.rows[term.row], term.col, 0);
        assert b[from..] == "" == term.rows[term.row][term.col..term.col + 0];
      }
    }

    /** The branch of update_line for a row that has not grown, on a terminal that can delete characters. */
    method Shrink(ghost p: string, ghost a: string, ghost t: string, new_: string, nls: nat, surplus: nat)
      requires Valid() && term.caps.dc && term.col == |p| && |p + a + t| <= term.width
      requires nls <= |new_| && new_[nls..] == t && nls + surplus == |a|
      requires term.rows[term.row] == Pad(p + a + t, term.width)
      modifies this`lastCPos, term`rows, term`col
      ensures Valid() && term.rows == old(term.rows)[term.row := Pad(p + new_, term.width)]
    {
      ghost var b := new_[..nls];
      assert new_ == b + t && p + new_ == p + b + t;
      DeletedRow(p, a, b, t, term.width);
      if surplus != 0 {
        DeleteChars(surplus);
      } else {
        assert Remove(term.rows[term.row], term.col, 0) == term.rows[term.row];
      }
      assert new_[..nls][0..] == b;
      OutputRest(new_[..nls], 0);
    }

    /** The same on other terminals: print over the old text and blank out what is left of it. */
    method PrintOver(ghost p: string, new_: string, surplus: nat, below: bool)
      requires Valid() && term.col == |p| && |p| + |new_| + surplus <= term.width
      requires Framed(term.rows[term.row], p, |new_| + surplus, term.width)
      modifies this`lastCPos, term`rows, term`col
      ensures Valid() && term.rows == old(term.rows)[term.row := Pad(p + new_, term.width)]
    {
      OverwrittenRow(term.rows[term.row], p, |new_| + surplus, new_, term.width);
      assert new_[0..] == new_;
      OutputRest(new_, 0);
      if surplus != 0 {
        if term.caps.am && below {
          SpaceToEol(surplus);
        } else {
          ClearToEol(surplus);
        }
      }
    }

    /**
     The start of update_line: with the cursor behind the end of the row above on a terminal that wraps around, the
     first character is written there, so that the terminal wraps.
    */
    method WrapAround(old_: seq<char>, new_: seq<char>, line: nat, omax: nat, ghost nmax: nat,
                      ghost o: string, ghost n: string)
      returns (shown: seq<char>, ghost s: string)
      requires Valid() && line < |term.rows| && term.width > 0
      requires IsRow(old_, omax, term.width, o) && IsRow(new_, nmax, term.width, n)
      requires term.rows[line] == Pad(o, term.width)
      modifies this`lastCPos, this`lastVPos, term`rows, term`row, term`col
      ensures Valid() && |term.rows| == |old(term.rows)|
      ensures term.rows == old(term.rows)[line := term.rows[line]]
      ensures IsRow(shown, omax, term.width, s) && Shows(term.rows[line], "", s, n, term.width)
    {
      shown, s := old_, o;
      if lastCPos == term.width && term.caps.am && lastVPos + 1 == line {
        var c := if new_[0] != NUL then new_[0] else ' ';
        assert old_[0] != NUL <==> o != "";
        assert new_[0] != NUL <==> n != "" by {
          assert n != "" ==> new_[..|n|][0] == n[0] != NUL;
        }
        term.PutWrapped(c);
        lastCPos, lastVPos := 1, lastVPos + 1;
        if old_[0] != NUL && new_[0] != NUL {
          shown := old_[0 := new_[0]];
          s := o[0 := c];
          assert shown[..|s|] == s;
        }
        FirstCell(o, n, c, term.width);
      } else {
        assert term.rows == old(term.rows)[line := term.rows[line]];
      }
    }

    /**
     update_line.  If the row of the terminal shows the old text, it shows the new text afterwards, for every pair of
     rows, every setting of the capabilities and every place of the cursor, wrapping around included; no other row
     changes, and the cursor is where the record says.
    */
    method UpdateLine(old_: seq<char>, new_: seq<char>, line: nat, omax: nat, nmax: nat, invBotlin: nat, visBotlin: nat,
                      ghost o: string, ghost n: string)
      requires Valid() && line < |term.rows| && term.width > 0
      requires IsRow(old_, omax, term.width, o) && IsRow(new_, nmax, term.width, n)
      requires term.rows[line] == Pad(o, term.width)
      modifies this`lastCPos, this`lastVPos, term`rows, term`row, term`col, term`inserting
      ensures Valid()
      ensures term.rows == old(term.rows)[line := Pad(n, term.width)]
    {
      var shown;
      ghost var s;
      shown, s := WrapAround(old_, new_, line, omax, nmax, o, n);
      UpdateRow(shown, new_, line, omax, nmax, invBotlin, visBotlin, s, n);
    }

    /** The rest of update_line. */
    method UpdateRow(old_: seq<char>, new_: seq<char>, line: nat, omax: nat, nmax: nat, invBotlin: nat, visBotlin: nat,
                     ghost o: string, ghost n: string)
      requires Valid() && line < |term.rows|
      requires IsRow(old_, omax, term.width, o) && IsRow(new_, nmax, term.width, n)
      requires Shows(term.rows[line], "", o, n, term.width)
      modifies this`lastCPos, this`lastVPos, term`rows, term`row, term`col, term`inserting
      ensures Valid()
      ensures term.rows == old(term.rows)[line := Pad(n, term.width)]
    {
      var od := FirstDifference(old_, new_, omax, nmax, term.width, o, n);
      var oe := RowEnd(old_, od, omax, term.width, o);
      var ne := RowEnd(new_, od, nmax, term.width, n);
      if od == oe && od == ne {
        assert o == o[..od] && n == n[..od] && "" + o == n;
        return;
      }
      var ols, nls := LastSame(old_, new_, od, oe, ne, o, n);
      UpdateFrom(old_, new_, line, od, oe, ols, ne, nls, old_[ols] == NUL, invBotlin, visBotlin, o, n);
    }

    /** The part of update_line that writes. */
    method UpdateFrom(old_: seq<char>, new_: seq<char>, line: nat, od: nat, oe: nat, ols: nat, ne: nat, nls: nat,
                      atEnd: bool, invBotlin: nat, visBotlin: nat, ghost o: string, ghost n: string)
      requires Valid() && line < |term.rows| && oe == |o| < |old_| && ne == |n| < |new_| && o != n
      requires |o| <= term.width && |n| <= term.width && Shows(term.rows[line], "", o, n, term.width)
      requires old_[..oe] == o && new_[..ne] == n && od < term.width && (atEnd ==> ols == oe) && (od == oe ==> atEnd)
      requires od <= ols <= oe && od <= nls <= ne && oe - ols == ne - nls
      requires o[..od] == n[..od] && o[ols..] == n[nls..]
      modifies this`lastCPos, this`lastVPos, term`rows, term`row, term`col, term`inserting
      ensures Valid() && term.rows == old(term.rows)[line := Pad(n, term.width)]
    {
      Parts(o, n, od, ols, nls);
      ShowsFrom(term.rows[line], o, n, od, term.width);
      MoveTo(line, old_, od, o);
      assert new_[od..ne] == n[od..];
      Repaint(o[..od], o[od..ols], o[ols..], new_[od..ne], nls - od, (nls as int - od) - (ols as int - od),
              oe as int - ne, atEnd, line >= visBotlin && invBotlin > visBotlin, line < invBotlin);
    }

    /** Going to the first difference. */
    method MoveTo(line: nat, old_: seq<char>, od: nat, ghost o: string)
      requires Valid() && line < |term.rows| && od < term.width && od <= |o| <= term.width && |o| <= |old_|
      requires old_[..|o|] == o && (od == 0 || term.rows[line] == Pad(o, term.width))
      modifies this`lastCPos, this`lastVPos, term`rows, term`row, term`col
      ensures Valid() && term.rows == old(term.rows) && term.row == line && term.col == od
    {
      if lastVPos != line {
        MoveVert(line);
      }
      assert od > 0 ==> old_[..od] == o[..od] == term.rows[line][..od];
      MoveCursorRelative(od, old_);
    }

    /**
     update_line from the first difference on: the row shows p + a + t and is to show p + new, which ends in t.  If one
     of them ends with p it does not matter what the row shows in the place of the other.
    */
    method Repaint(ghost p: string, ghost a: string, ghost t: string, new_: string, nls: nat, lendiff: int,
                   surplus: int, atEnd: bool, gl: bool, below: bool)
      requires Valid() && term.col == |p| && |p + (a + t)| <= term.width && |p + new_| <= term.width
      requires nls <= |new_| && new_[nls..] == t && lendiff == nls - |a| && surplus == |a + t| - |new_|
      requires (lendiff > 0 && atEnd ==> t == "") && (a + t == "" ==> atEnd) && a + t != new_
      requires Shows(term.rows[term.row], p, a + t, new_, term.width)
      modifies this`lastCPos, term`rows, term`col, term`inserting
      ensures Valid() && term.rows == old(term.rows)[term.row := Pad(p + new_, term.width)]
    {
      var temp := |new_|;
      assert p + a + t == p + (a + t);
      PadFramed(p, a + t, if surplus > 0 then |a + t| else |new_|, term.width);
      if lendiff > 0 {
        Grow(p, a, t, new_, nls, lendiff, atEnd, gl);
      } else if term.caps.dc && 2 * temp >= -lendiff {
        Shrink(p, a, t, new_, nls, -lendiff);
      } else {
        PrintOver(p, new_, surplus, below);
      }
    }
  }
}
