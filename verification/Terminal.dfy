/**
 A terminal as the redisplay code sees it: rows of cells, a cursor, and the operations that its capabilities give.

 Column width is where the cursor is after a character was put into the last cell.  On a terminal that wraps around by
 itself (am and xn) it is not a position the cursor can be moved back from.
*/
module Terminal {
  /**
   The capabilities: IC and ic open up space, im and ei turn insert mode on and off, DC and dc delete characters, ce
   clears to the end of the row, am says that the terminal wraps.  A terminal with both im and ic needs both: its
   insert mode does not move the text by itself.
  */
  datatype Caps = Caps(IC: bool, im: bool, ic: bool, DC: bool, dc: bool, ce: bool, am: bool)

  function Blanks(n: nat): (s: string)
    ensures |s| == n && forall i | 0 <= i < n :: s[i] == ' '
  {
    seq(n, i => ' ')
  }

  /** A row that shows s. */
  function Pad(s: string, width: nat): string
    requires |s| <= width
  {
    s + Blanks(width - |s|)
  }

  /** Overwriting cells, opening up cells, writing with the rest moving right, removing cells, erasing to the end. */
  function Write(row: string, col: nat, s: string): (r: string)
    requires col + |s| <= |row|
    ensures |r| == |row|
  {
    row[..col] + s + row[col + |s|..]
  }

  function Squeeze(row: string, col: nat, s: string): (r: string)
    requires col + |s| <= |row|
    ensures |r| == |row|
  {
    row[..col] + s + row[col..|row| - |s|]
  }

  function Remove(row: string, col: nat, n: nat): (r: string)
    requires col + n <= |row|
    ensures |r| == |row|
  {
    row[..col] + row[col + n..] + Blanks(n)
  }

  function Erase(row: string, col: nat): (r: string)
    requires col <= |row|
    ensures |r| == |row|
  {
    row[..col] + Blanks(|row| - col)
  }

  class Terminal {
    const width: nat
    const caps: Caps
    var rows: seq<string>
    var row: nat
    var col: nat
    var inserting: bool

    constructor (width: nat, height: nat, caps: Caps)
      requires height > 0
      ensures Valid() && this.width == width && this.caps == caps && |rows| == height
      ensures row == col == 0 && forall i | 0 <= i < height :: rows[i] == Blanks(width)
    {
      this.width, this.caps := width, caps;
      rows := seq(height, i => Blanks(width));
      row, col, inserting := 0, 0, false;
    }

    predicate Valid()
      reads this
    {
      row < |rows| && col <= width && !inserting && forall i | 0 <= i < |rows| :: |rows[i]| == width
    }

    /** A printing character. */
    method PutChar(c: char)
      requires row < |rows| && col < width && |rows[row]| == width
      modifies this`rows, this`col
      ensures col == old(col) + 1
      ensures rows == old(rows)[row := if inserting && !caps.ic then Squeeze(old(rows)[row], old(col), [c])
                                       else Write(old(rows)[row], old(col), [c])]
    {
      var r := rows[row];
      rows := rows[row := if inserting && !caps.ic then r[..col] + [c] + r[col..width - 1]
                          else r[..col] + [c] + r[col + 1..]];
      col := col + 1;
    }

    /** A printing character on a terminal that wraps, with the cursor behind the last cell: it starts the next row. */
    method PutWrapped(c: char)
      requires Valid() && caps.am && col == width > 0 && row + 1 < |rows|
      modifies this`rows, this`row, this`col
      ensures row == old(row) + 1 && col == 1 && rows == old(rows)[row := Write(old(rows)[row], 0, [c])]
    {
      row := row + 1;
      rows := rows[row := rows[row][..0] + [c] + rows[row][1..]];
      col := 1;
    }

    method CarriageReturn()
      modifies this`col
      ensures col == 0
    {
      col := 0;
    }

    method Backspace()
      requires 0 < col && (caps.am ==> col < width)
      modifies this`col
      ensures col == old(col) - 1
    {
      col := col - 1;
    }

    method LineFeed()
      requires row + 1 < |rows|
      modifies this`row
      ensures row == old(row) + 1
    {
      row := row + 1;
    }

    method Up()
      requires row > 0
      modifies this`row
      ensures row == old(row) - 1
    {
      row := row - 1;
    }

    /** IC with a count, and ic. */
    method OpenCells(n: nat)
      requires row < |rows| && |rows[row]| == width && col + n <= width
      modifies this`rows
      ensures rows == old(rows)[row := Squeeze(old(rows)[row], col, Blanks(n))]
    {
      var r := rows[row];
      rows := rows[row := r[..col] + Blanks(n) + r[col..width - n]];
    }

    method SetInserting(on: bool)
      requires caps.im
      modifies this`inserting
      ensures inserting == on
    {
      inserting := on;
    }

    /** DC with a count, and dc. */
    method RemoveCells(n: nat)
      requires row < |rows| && |rows[row]| == width && col + n <= width
      modifies this`rows
      ensures rows == old(rows)[row := Remove(old(rows)[row], col, n)]
    {
      var r := rows[row];
      rows := rows[row := r[..col] + r[col + n..] + Blanks(n)];
    }

    method ClearToEnd()
      requires caps.ce && row < |rows| && |rows[row]| == width && col < width
      modifies this`rows
      ensures rows == old(rows)[row := Erase(old(rows)[row], col)]
    {
      rows := rows[row := rows[row][..col] + Blanks(width - col)];
    }
  }
}
