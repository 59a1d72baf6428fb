/**
 What the characters of a line look like on the screen (readline-6.2/display.c), for single-byte text.
*/
module Rendering {
  import opened Characters
  import opened Terminal

  const TAB: char := '\t'
  const NEWLINE: char := '\n'

  predicate IsMeta(c: char) { 128 <= c as int < 256 }

  /** UNCTRL: the printing character that stands for a control character. */
  function Uncontrol(c: char): char
    requires IsControl(c)
  {
    (c as int + 64) as char
  }

  function Digit(n: nat): char
    requires n < 8
  {
    (48 + n) as char
  }

  /** k octal digits. */
  function Octal(n: nat, k: nat): (s: string)
    ensures |s| == k && NoNul(s)
    decreases k
  {
    if k == 0 then "" else Octal(n / 8, k - 1) + [Digit(n % 8)]
  }

  /** What a character is shown as when it starts in column col; a newline is kept as a NUL that ends the row. */
  function Expand(c: char, col: nat, outputMeta: bool): (s: string)
    ensures 1 <= |s| <= 8
    ensures if c == NEWLINE then s == [NUL] else c != NUL ==> NoNul(s)
  {
    if IsMeta(c) && !outputMeta then ['\\'] + Octal(c as int, 3)
    else if c == TAB then Blanks(8 - col % 8)
    else if c == NEWLINE then [NUL]
    else if IsControl(c) then ['^', Uncontrol(c)]
    else if c == RUBOUT then ['^', '?']
    else [c]
  }

  /** In the same column no two characters look the same, but for a tab in front of a tab stop and a blank. */
  lemma ShownApart(c: char, d: char, col: nat, outputMeta: bool)
    requires c != d && c != NUL && d != NUL && (c as int) < 256 && (d as int) < 256
    ensures Expand(c, col, outputMeta) == Expand(d, col, outputMeta) <==>
              ((c == TAB && d == ' ') || (c == ' ' && d == TAB)) && col % 8 == 7
  {
    var s, t := Expand(c, col, outputMeta), Expand(d, col, outputMeta);
    if s == t {
      assert s[0] == t[0] && (|s| > 1 ==> s[1] == t[1]);
      if |s| == 4 && s[0] == '\\' {
        OctalForm(c, col);
        OctalForm(d, col);
      }
    }
    assert Blanks(1) == [' '];
  }

  /** The number that octal digits stand for. */
  function OctalValue(s: string): int {
    if s == "" then 0 else 8 * OctalValue(s[..|s| - 1]) + (s[|s| - 1] as int - 48)
  }

  lemma {:induction false} OctalRead(n: nat, k: nat, bound: nat)
    requires n < bound && bound == Power8(k)
    ensures OctalValue(Octal(n, k)) == n
    ensures forall i | 0 <= i < k :: '0' <= Octal(n, k)[i] <= '7'
    decreases k
  {
    if k > 0 {
      OctalRead(n / 8, k - 1, Power8(k - 1));
      assert Octal(n, k)[..k - 1] == Octal(n / 8, k - 1);
    }
  }

  function Power8(k: nat): nat { if k == 0 then 1 else 8 * Power8(k - 1) }

  /** A byte with the high bit is shown by its three octal digits. */
  lemma OctalForm(c: char, col: nat)
    requires IsMeta(c)
    ensures var s := Expand(c, col, false);
            && |s| == 4 && s[0] == '\\' && (forall i | 1 <= i < 4 :: '0' <= s[i] <= '7')
            && OctalValue(s[1..]) == c as int
  {
    assert Power8(3) == 512;
    OctalRead(c as int, 3, 512);
    var s := Expand(c, col, false);
    assert s[1..] == Octal(c as int, 3);
    assert forall i | 1 <= i < 4 :: s[i] == Octal(c as int, 3)[i - 1];
  }

  /**
   What the cells of a character are: a tab is blanks up to the next multiple of eight, a newline a NUL, a control
   character a caret and the character from '@' to '_' with the same low five bits, a rubout "^?", a byte with the high
   bit a backslash and its three octal digits, if it is not shown as it is, and any other character itself.
  */
  predicate Depicts(c: char, cells: string, col: nat, outputMeta: bool) {
    var code := c as int;
    if code >= 128 && !outputMeta then
      && |cells| == 4 && cells[0] == '\\' && (forall k | 1 <= k < 4 :: '0' <= cells[k] <= '7')
      && code == 64 * (cells[1] as int - 48) + 8 * (cells[2] as int - 48) + (cells[3] as int - 48)
    else if c == '\t' then
      1 <= |cells| <= 8 && (col + |cells|) % 8 == 0 && forall k | 0 <= k < |cells| :: cells[k] == ' '
    else if c == '\n' then
      |cells| == 1 && cells[0] as int == 0
    else if code < 32 then
      |cells| == 2 && cells[0] == '^' && '@' <= cells[1] <= '_' && cells[1] as int % 32 == code
    else if code == 127 then
      |cells| == 2 && cells[0] == '^' && cells[1] == '?'
    else
      |cells| == 1 && cells[0] == c
  }

  lemma ExpandDepicts(c: char, col: nat, outputMeta: bool)
    requires (c as int) < 256
    ensures Depicts(c, Expand(c, col, outputMeta), col, outputMeta)
  {
    if IsMeta(c) && !outputMeta {
      OctalForm(c, col);
      var s := Expand(c, col, false);
      assert OctalValue(s[1..]) == 8 * OctalValue(s[1..][..2]) + (s[3] as int - 48);
      assert OctalValue(s[1..][..2]) == 8 * OctalValue(s[1..][..2][..1]) + (s[2] as int - 48);
      assert OctalValue(s[1..][..2][..1]) == 8 * OctalValue("") + (s[1] as int - 48);
    }
  }

  /** The cells are determined by the character and the column. */
  lemma DepictsUnique(c: char, a: string, b: string, col: nat, outputMeta: bool)
    requires Depicts(c, a, col, outputMeta) && Depicts(c, b, col, outputMeta)
    ensures a == b
  {
  }

  /** The column n cells on. */
  function Advance(col: nat, n: nat, width: nat): (r: nat)
    requires col < width && n <= width
    ensures r < width
  {
    if col + n >= width then col + n - width else col + n
  }

  function NextColumn(c: char, col: nat, width: nat, outputMeta: bool): (r: nat)
    requires col < width && width >= 8
    ensures r < width
  {
    if c == NEWLINE then 0 else Advance(col, |Expand(c, col, outputMeta)|, width)
  }

  /** The column behind the first n characters of a text that starts in column start. */
  function Column(text: string, n: nat, start: nat, width: nat, outputMeta: bool): (r: nat)
    requires start < width && width >= 8 && n <= |text|
    ensures r < width
  {
    if n == 0 then start
    else NextColumn(text[n - 1], Column(text, n - 1, start, width, outputMeta), width, outputMeta)
  }

  /** The line with what is shown before, and then the first n characters of a text as they are shown. */
  function Render(before: string, text: string, n: nat, start: nat, width: nat, outputMeta: bool): string
    requires start < width && width >= 8 && n <= |text|
  {
    if n == 0 then before
    else
      Render(before, text, n - 1, start, width, outputMeta)
        + Expand(text[n - 1], Column(text, n - 1, start, width, outputMeta), outputMeta)
  }

  /** The column behind a prompt of n characters. */
  function StartColumn(n: nat, width: nat): (r: nat)
    requires width > 0
    ensures r < width
    decreases n
  {
    if n < width then n else StartColumn(n - width, width)
  }

  /** The start of the buffer: the mark of a modified line, and the prompt. */
  function Shown(prompt: string, modmark: bool): string {
    if modmark then "*" + prompt else prompt
  }

  /** The prompt and the first n characters of the text as they are shown. */
  function RenderLine(prompt: string, modmark: bool, text: string, n: nat, width: nat, outputMeta: bool): string
    requires width >= 8 && n <= |text|
  {
    var shown := Shown(prompt, modmark);
    Render(shown, text, n, StartColumn(|shown|, width), width, outputMeta)
  }
}
