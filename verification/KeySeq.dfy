/**
 The notation of key sequences (readline-6.2/bind.c): rl_translate_keyseq reads it, _rl_untranslate_macro_value prints
 it.

 Characters are bytes; reading a string at its length gives NUL, as in C.
*/
module KeySeq {
  import opened Options
  import opened Characters
  import opened Text

  const ESC: char := 27 as char

  /** The one control character whose printed form ends in a backslash. */
  const FS: char := 28 as char

  predicate IsOctal(c: char) { '0' <= c <= '7' }

  predicate IsHex(c: char) { '0' <= c <= '9' || 'a' <= c <= 'f' || 'A' <= c <= 'F' }

  function DigitValue(c: char): (v: nat)
    requires IsHex(c)
    ensures v < 16
  {
    if c <= '9' then c as int - '0' as int
    else if c <= 'F' then c as int - 'A' as int + 10
    else c as int - 'a' as int + 10
  }

  /** The low five bits. */
  function Ctrl(c: char): char { (c as int % 32) as char }

  /** The letter of a control character. */
  function Unctrl(c: char): char
    requires IsControl(c)
  {
    ToUpper((c as int + 64) as char)
  }

  /** The eighth bit set. */
  function Meta(c: char): (r: char)
    ensures r as int >= 128
  {
    if (c as int) < 128 then (c as int + 128) as char else c
  }

  function Unmeta(c: char): char { if 128 <= c as int < 256 then (c as int - 128) as char else c }

  // ----- reading -----

  /** What one turn of the reader stores, and where it goes on. */
  datatype Step = Step(keys: string, next: nat)

  /** Up to so many more digits of a number. */
  function Digits(q: string, i: nat, more: nat, radix: nat, v: nat): (r: (nat, nat))
    requires i <= |q| && (radix == 8 || radix == 16)
    ensures i <= r.1 <= |q|
    decreases more
  {
    if more > 0 && i < |q| && (if radix == 8 then IsOctal(q[i]) else IsHex(q[i]))
    then Digits(q, i + 1, more - 1, radix, v * radix + DigitValue(q[i]))
    else (v, i)
  }

  function CtrlOrRubout(c: char): (r: char)
    ensures IsControl(r) || r == RUBOUT
  {
    if c == '?' then RUBOUT else Ctrl(ToUpper(c))
  }

  /** The prefixes \C- and \M-, with the letter at j. */
  function Prefixed(q: string, j: nat, metaIsEsc: bool): Step
    requires j + 1 < |q|
  {
    if q[j] == 'C' && At(q, j + 2) == '\\' && At(q, j + 3) == 'M' && At(q, j + 4) == '-' then
      Step([ESC, Ctrl(ToUpper(At(q, j + 5)))], if At(q, j + 5) == NUL then j + 5 else j + 6)
    else if q[j] == 'M' then
      if metaIsEsc then Step([ESC], j + 2)
      else if At(q, j + 2) == '\\' && At(q, j + 3) == 'C' && At(q, j + 4) == '-' then
        Step([Meta(CtrlOrRubout(At(q, j + 5)))], j + 6)
      else Step([Meta(At(q, j + 2))], j + 3)
    else Step([CtrlOrRubout(At(q, j + 2))], j + 3)
  }

  /** The other escapes, with the character behind the backslash at j. */
  function Escaped(q: string, j: nat): (r: Step)
    requires j < |q|
    ensures j < r.next <= |q| && |r.keys| == 1
  {
    var c := q[j];
    if IsOctal(c) then
      var (v, next) := Digits(q, j + 1, 2, 8, DigitValue(c));
      Step([(v % 256) as char], next)
    else if c == 'x' then
      var (v, next) := Digits(q, j + 1, 2, 16, 0);
      Step([if next == j + 1 then 'x' else (v % 256) as char], next)
    else Step([Letter(c)], j + 1)
  }

  /** \a and the like; the backslash before any other character is dropped. */
  function Letter(c: char): char {
    match c
    case 'a' => 7 as char
    case 'b' => 8 as char
    case 'd' => RUBOUT
    case 'e' => ESC
    case 'f' => 12 as char
    case 'n' => '\n'
    case 'r' => '\r'
    case 't' => '\t'
    case 'v' => 11 as char
    case _ => c
  }

  function ReadStep(q: string, i: nat, metaIsEsc: bool): (r: Step)
    requires i < |q|
    ensures i < r.next && |r.keys| <= 2
  {
    if q[i] != '\\' then Step([q[i]], i + 1)
    else if At(q, i + 1) == NUL then Step([], |q|)
    else if (q[i + 1] == 'C' || q[i + 1] == 'M') && At(q, i + 2) == '-' then Prefixed(q, i + 1, metaIsEsc)
    else Escaped(q, i + 1)
  }

  /** The whole sequence; none if the reader runs over the end, at a bare \C- or \M-. */
  function Translated(q: string, i: nat, metaIsEsc: bool): Option<string>
    decreases |q| - i
  {
    if i >= |q| then if i == |q| then Some([]) else None
    else
      var step := ReadStep(q, i, metaIsEsc);
      match Translated(q, step.next, metaIsEsc)
      case None => None
      case Some(later) => Some(step.keys + later)
  }

  // ----- the notation -----

  /** The letters that stand for control characters: bell, backspace, rubout, escape, form feed and so on. */
  lemma LetterEscapes(q: string, i: nat, k: nat, metaIsEsc: bool)
    requires i + 1 < |q| && q[i] == '\\' && k < 9 && q[i + 1] == "abdefnrtv"[k]
    ensures ReadStep(q, i, metaIsEsc) == Step([[7, 8, 127, 27, 12, 10, 13, 9, 11][k] as char], i + 2)
  {
  }

  /** A backslash before any other character, but for the digits, x, \C- and \M-, stands for the character. */
  lemma OtherEscapes(q: string, i: nat, metaIsEsc: bool)
    requires i + 1 < |q| && q[i] == '\\' && q[i + 1] != NUL && q[i + 1] !in "abdefnrtv01234567x"
    requires (q[i + 1] == 'C' || q[i + 1] == 'M') ==> At(q, i + 2) != '-'
    ensures ReadStep(q, i, metaIsEsc) == Step([q[i + 1]], i + 2)
  {
    var letters := "abdefnrtv01234567x";
    assert letters[0] == 'a' && letters[1] == 'b' && letters[2] == 'd' && letters[3] == 'e' && letters[4] == 'f';
    assert letters[5] == 'n' && letters[6] == 'r' && letters[7] == 't' && letters[8] == 'v' && letters[17] == 'x';
    assert letters[9] == '0' && letters[10] == '1' && letters[11] == '2' && letters[12] == '3' && letters[13] == '4';
    assert letters[14] == '5' && letters[15] == '6' && letters[16] == '7';
  }

  /** What an octal or hexadecimal digit stands for. */
  lemma DigitsStandFor(v: nat, c: char)
    requires v < 16
    ensures (c == "0123456789abcdef"[v] || c == "0123456789ABCDEF"[v]) <==> IsHex(c) && DigitValue(c) == v
    ensures IsOctal(c) <==> IsHex(c) && DigitValue(c) < 8
  {
  }

  /** One to three octal digits. */
  lemma OctalEscapes(q: string, i: nat, metaIsEsc: bool)
    requires i + 1 < |q| && q[i] == '\\' && IsOctal(q[i + 1])
    ensures var a, b, c := DigitValue(q[i + 1]), At(q, i + 2), At(q, i + 3);
            ReadStep(q, i, metaIsEsc) ==
              if !IsOctal(b) then Step([a as char], i + 2)
              else if !IsOctal(c) then Step([(8 * a + DigitValue(b)) as char], i + 3)
              else Step([((64 * a + 8 * DigitValue(b) + DigitValue(c)) % 256) as char], i + 4)
  {
    var a := DigitValue(q[i + 1]);
    if IsOctal(At(q, i + 2)) {
      var ab := a * 8 + DigitValue(q[i + 2]);
      assert Digits(q, i + 2, 2, 8, a) == Digits(q, i + 3, 1, 8, ab);
      if IsOctal(At(q, i + 3)) {
        assert Digits(q, i + 3, 1, 8, ab) == Digits(q, i + 4, 0, 8, ab * 8 + DigitValue(q[i + 3]));
      }
    }
  }

  /** Up to two hexadecimal digits; without any, \x is an x. */
  lemma HexEscapes(q: string, i: nat, metaIsEsc: bool)
    requires i + 1 < |q| && q[i] == '\\' && q[i + 1] == 'x'
    ensures var a, b := At(q, i + 2), At(q, i + 3);
            ReadStep(q, i, metaIsEsc) ==
              if !IsHex(a) then Step(['x'], i + 2)
              else if !IsHex(b) then Step([DigitValue(a) as char], i + 3)
              else Step([(16 * DigitValue(a) + DigitValue(b)) as char], i + 4)
  {
    if IsHex(At(q, i + 2)) {
      var a := DigitValue(q[i + 2]);
      assert Digits(q, i + 2, 2, 16, 0) == Digits(q, i + 3, 1, 16, a);
      if IsHex(At(q, i + 3)) {
        assert Digits(q, i + 3, 1, 16, a) == Digits(q, i + 4, 0, 16, a * 16 + DigitValue(q[i + 3]));
      }
    }
  }

  /** The control character of c: the low five bits, but for the rubout. */
  lemma ControlPrefix(q: string, i: nat, metaIsEsc: bool)
    requires i + 3 < |q| && q[i] == '\\' && q[i + 1] == 'C' && q[i + 2] == '-'
    requires !(q[i + 3] == '\\' && At(q, i + 4) == 'M' && At(q, i + 5) == '-')
    ensures var c := q[i + 3] as int;
            ReadStep(q, i, metaIsEsc) == Step([if q[i + 3] == '?' then 127 as char else (c % 32) as char], i + 4)
  {
  }

  /** The byte of c with the eighth bit set, or an escape before c. */
  lemma MetaPrefix(q: string, i: nat, metaIsEsc: bool)
    requires i + 3 < |q| && q[i] == '\\' && q[i + 1] == 'M' && q[i + 2] == '-' && (q[i + 3] as int) < 256
    ensures metaIsEsc ==> ReadStep(q, i, metaIsEsc) == Step([27 as char], i + 3)
    ensures !metaIsEsc && !(q[i + 3] == '\\' && At(q, i + 4) == 'C' && At(q, i + 5) == '-') ==>
              ReadStep(q, i, metaIsEsc) == Step([(128 + q[i + 3] as int % 128) as char], i + 4)
  {
  }

  /** Both prefixes, in either order. */
  lemma BothPrefixes(q: string, i: nat, metaIsEsc: bool)
    requires i + 6 < |q| && q[i] == '\\' && q[i + 2] == '-' && q[i + 3] == '\\' && q[i + 5] == '-' && q[i + 6] != NUL
    ensures var c := q[i + 6] as int;
            && (q[i + 1] == 'C' && q[i + 4] == 'M' ==>
                  ReadStep(q, i, metaIsEsc) == Step([27 as char, (c % 32) as char], i + 7))
            && (q[i + 1] == 'M' && q[i + 4] == 'C' && !metaIsEsc ==>
                  ReadStep(q, i, metaIsEsc) ==
                    Step([(128 + if q[i + 6] == '?' then 127 else c % 32) as char], i + 7))
  {
  }

  // ----- printing -----

  function Plain(c: char): string {
    if c == ESC then "\\e" else if c == '\\' || c == '"' then ['\\', c] else [c]
  }

  /** What one character is printed as. */
  function Piece(c: char): string {
    if 127 < c as int < 256 then "\\M-" + Plain(Unmeta(c))
    else if c == ESC then "\\e"
    else if IsControl(c) then "\\C-" + Plain(ToLower(Unctrl(c)))
    else if c == RUBOUT then "\\C-?"
    else Plain(c)
  }

  function Untranslated(s: string): string {
    if s == [] then [] else Piece(s[0]) + Untranslated(s[1..])
  }

  /** The printed form of each seven-bit character. */
  lemma PrintedForm(c: char)
    requires 1 <= c as int < 128
    ensures c as int <= 26 ==> Piece(c) == ['\\', 'C', '-', LOWERCASE[c as int - 1]]
    ensures c as int == 27 ==> Piece(c) == "\\e"
    ensures c as int == 28 ==> Piece(c) == "\\C-\\\\"
    ensures 29 <= c as int <= 31 ==> Piece(c) == ['\\', 'C', '-', "]^_"[c as int - 29]]
    ensures c as int == 127 ==> Piece(c) == "\\C-?"
    ensures c == '\\' || c == '"' ==> Piece(c) == ['\\', c]
    ensures 32 <= c as int < 127 && c != '\\' && c != '"' ==> Piece(c) == [c]
  {
    if c as int <= 26 {
      Letters(c as int - 1);
    }
  }

  /** A byte with the eighth bit is printed behind \M- without that bit, and is otherwise escaped only if it must be. */
  lemma PrintedMeta(c: char)
    requires 128 <= c as int < 256
    ensures var d := (c as int - 128) as char;
            Piece(c) == if d as int == 27 then "\\M-\\e"
                        else if d == '\\' || d == '"' then ['\\', 'M', '-', '\\', d]
                        else ['\\', 'M', '-', d]
  {
  }

  // ----- what is read back -----

  /** The bytes that the printer writes without \M-. */
  predicate SevenBit(s: string) {
    forall i | 0 <= i < |s| :: 1 <= s[i] as int < 128
  }

  /** How many characters a seven-bit character is printed as. */
  function Width(c: char): nat {
    if c == FS then 5 else if c == ESC || c == '\\' || c == '"' then 2 else if IsControl(c) || c == RUBOUT then 4 else 1
  }

  /** A backslash left over before x makes something else of it than x, when next follows. */
  predicate Misread(x: char, next: char) {
    || (Width(x) > 1 && x != '\\')
    || Letter(x) != x || IsOctal(x)
    || (x == 'x' && IsHex(next))
    || ((x == 'C' || x == 'M') && next == '-')
  }

  /** The printed form is read back from the n-th character on; leftover means that a backslash too many comes first. */
  predicate Survives(s: string, n: nat, leftover: bool)
    requires n <= |s|
    decreases |s| - n
  {
    if n == |s| then true
    else if leftover then !Misread(s[n], At(s, n + 1)) && Survives(s, n + 1, s[n] == '\\')
    else Survives(s, n + 1, s[n] == FS)
  }

  /** The printed form of c is at i. */
  predicate PieceAt(q: string, i: nat, c: char) {
    && i + Width(c) <= |q|
    && (Width(c) == 1 ==> q[i] == c)
    && (Width(c) > 1 ==> q[i] == '\\' && q[i + 1] == if c == ESC then 'e' else if Width(c) == 2 then c else 'C')
    && (Width(c) > 2 ==>
          q[i + 2] == '-' && q[i + 3] == if c == RUBOUT then '?' else if IsControl(c) then ToLower(Unctrl(c)) else c)
    && (Width(c) > 4 ==> q[i + 4] == '\\')
  }

  /** From i on q is the printed form of s from its n-th character on. */
  predicate PrintedAt(q: string, i: nat, s: string, n: nat)
    requires n <= |s|
    decreases |s| - n
  {
    if n == |s| then i == |q|
    else PieceAt(q, i, s[n]) && PrintedAt(q, i + Width(s[n]), s, n + 1)
  }

  lemma PeelPiece(q: string, i: nat, c: char, rest: string)
    requires i <= |q| && q[i..] == Piece(c) + rest && 1 <= c as int < 128
    ensures PieceAt(q, i, c) && q[i + Width(c)..] == rest
  {
    var p := Piece(c);
    Peel(q, i, p, rest);
    assert |p| == Width(c) && q[i + 0] == p[0];
    assert |p| > 1 ==> q[i + 1] == p[1];
    assert |p| > 2 ==> q[i + 2] == p[2] && q[i + 3] == p[3];
    assert |p| > 4 ==> q[i + 4] == p[4];
  }

  lemma {:induction false} UntranslatedIsPrinted(q: string, i: nat, s: string, n: nat)
    requires SevenBit(s) && n <= |s| && i <= |q| && q[i..] == Untranslated(s[n..])
    ensures PrintedAt(q, i, s, n)
    decreases |s| - n
  {
    if n < |s| {
      assert s[n..][1..] == s[n + 1..];
      PeelPiece(q, i, s[n], Untranslated(s[n + 1..]));
      UntranslatedIsPrinted(q, i + Width(s[n]), s, n + 1);
    }
  }

  /** Reading q from i on gives s from its n-th character on. */
  predicate Reads(q: string, i: nat, s: string, n: nat, metaIsEsc: bool)
    decreases |q| - i
  {
    if i >= |q| then i == |q| && n == |s|
    else
      var step := ReadStep(q, i, metaIsEsc);
      && n + |step.keys| <= |s|
      && (|step.keys| > 0 ==> s[n] == step.keys[0])
      && (|step.keys| > 1 ==> s[n + 1] == step.keys[1])
      && Reads(q, step.next, s, n + |step.keys|, metaIsEsc)
  }

  lemma {:induction false} ReadsIsTranslated(q: string, i: nat, s: string, n: nat, metaIsEsc: bool)
    requires n <= |s|
    ensures Reads(q, i, s, n, metaIsEsc) <==> Translated(q, i, metaIsEsc) == Some(s[n..])
    decreases |q| - i
  {
    if i < |q| {
      var step := ReadStep(q, i, metaIsEsc);
      var keys, m := step.keys, n + |step.keys|;
      if m <= |s| {
        ReadsIsTranslated(q, step.next, s, m, metaIsEsc);
      }
      match Translated(q, step.next, metaIsEsc)
      case None =>
      case Some(later) => KeysFirst(s, n, keys, later);
    } else {
      assert n == |s| <==> s[n..] == [];
    }
  }

  lemma KeysFirst(s: string, n: nat, keys: string, later: string)
    requires n <= |s| && |keys| <= 2
    ensures s[n..] == keys + later <==>
      && n + |keys| <= |s| && (|keys| > 0 ==> s[n] == keys[0]) && (|keys| > 1 ==> s[n + 1] == keys[1])
      && s[n + |keys|..] == later
  {
    if s[n..] == keys + later {
      assert |keys| > 0 ==> s[n] == s[n..][0];
      assert |keys| > 1 ==> s[n + 1] == s[n..][1];
      assert s[n + |keys|..] == s[n..][|keys|..];
    } else if n + |keys| <= |s| {
      assert s[n..] == s[n..n + |keys|] + s[n + |keys|..];
      if s[n + |keys|..] == later {
        assert s[n..n + |keys|] != keys;
      }
    }
  }

  /** One key is read. */
  lemma ReadsKey(q: string, i: nat, s: string, n: nat, metaIsEsc: bool, c: char, next: nat)
    requires i < |q| && ReadStep(q, i, metaIsEsc) == Step([c], next)
    ensures Reads(q, i, s, n, metaIsEsc) <==> n < |s| && s[n] == c && Reads(q, next, s, n + 1, metaIsEsc)
  {
  }

  /** Each printed form but one is read as one key, whatever follows. */
  lemma ReadPiece(q: string, i: nat, c: char, metaIsEsc: bool)
    requires PieceAt(q, i, c) && 1 <= c as int < 128
    ensures i < |q| && ReadStep(q, i, metaIsEsc) == Step([c], i + Width(c) - if c == FS then 1 else 0)
    ensures c == FS ==> q[i + Width(c) - 1] == '\\'
  {
  }

  lemma ReadsPiece(q: string, i: nat, s: string, n: nat, c: char, metaIsEsc: bool)
    requires PieceAt(q, i, c) && 1 <= c as int < 128
    ensures i < |q| && (c == FS ==> q[i + Width(c) - 1] == '\\')
    ensures Reads(q, i, s, n, metaIsEsc) <==>
      n < |s| && s[n] == c && Reads(q, i + Width(c) - if c == FS then 1 else 0, s, n + 1, metaIsEsc)
  {
    ReadPiece(q, i, c, metaIsEsc);
    ReadsKey(q, i, s, n, metaIsEsc, c, i + Width(c) - if c == FS then 1 else 0);
  }

  /** Text that is printed aligned is never read as the text that starts some plain characters before it. */
  lemma {:induction false} NeverShifted(q: string, i: nat, s: string, n: nat, d: nat, metaIsEsc: bool)
    requires SevenBit(s) && d > 0 && n + d <= |s| && PrintedAt(q, i, s, n + d)
    requires forall j | n <= j < n + d :: s[j] != FS
    ensures !Reads(q, i, s, n, metaIsEsc)
    decreases |s| - n
  {
    if n + d < |s| {
      var c := s[n + d];
      ReadsPiece(q, i, s, n, c, metaIsEsc);
      if c == s[n] {
        assert c != FS;
        NeverShifted(q, i + Width(c), s, n + 1, d, metaIsEsc);
      }
    }
  }

  /** A printed character that is a digit or a minus sign is the character itself. */
  lemma FirstPrinted(q: string, i: nat, s: string, n: nat)
    requires SevenBit(s) && n <= |s| && PrintedAt(q, i, s, n)
    ensures IsHex(At(q, i)) || IsHex(At(s, n)) || At(q, i) == '-' || At(s, n) == '-' ==>
      n < |s| && i < |q| && q[i] == s[n] && Width(s[n]) == 1
  {
    if n < |s| {
    }
  }

  /** The digits that are read are the next characters of the text. */
  lemma {:induction false} DigitsRun(q: string, i: nat, s: string, n: nat, more: nat, radix: nat, v: nat)
    returns (m: nat)
    requires SevenBit(s) && n <= |s| && i <= |q| && PrintedAt(q, i, s, n) && (radix == 8 || radix == 16)
    ensures n <= m <= |s| && Digits(q, i, more, radix, v).1 == i + (m - n) && PrintedAt(q, i + (m - n), s, m)
    ensures m == n ==> Digits(q, i, more, radix, v).0 == v
    ensures forall j | n <= j < m :: s[j] != FS
    ensures more > 0 && radix == 16 && IsHex(At(s, n)) ==> m > n
    decreases more
  {
    FirstPrinted(q, i, s, n);
    m := n;
    if more > 0 && i < |q| && (if radix == 8 then IsOctal(q[i]) else IsHex(q[i])) {
      m := DigitsRun(q, i + 1, s, n + 1, more - 1, radix, v * radix + DigitValue(q[i]));
    }
  }

  /** The character that comes behind a backslash too many. */
  lemma Behind(q: string, i: nat, s: string, n: nat)
    requires SevenBit(s) && n < |s| && i < |q| && q[i] == '\\' && PrintedAt(q, i + 1, s, n)
    ensures i + 1 < |q| && q[i + 1] == if Width(s[n]) == 1 then s[n] else '\\'
    ensures s[n] == '\\' ==> i + 2 < |q| && q[i + 2] == '\\' && PrintedAt(q, i + 3, s, n + 1)
    ensures Width(s[n]) == 1 ==> PrintedAt(q, i + 2, s, n + 1)
    ensures Width(s[n]) == 1 ==> (At(q, i + 2) == '-' <==> At(s, n + 1) == '-')
    ensures Width(s[n]) == 1 ==> (IsHex(At(q, i + 2)) <==> IsHex(At(s, n + 1)))
  {
    if Width(s[n]) == 1 {
      FirstPrinted(q, i + 2, s, n + 1);
    }
  }

  /** The characters that a backslash turns into another key at once. */
  lemma MisreadFirst(q: string, i: nat, s: string, n: nat, metaIsEsc: bool)
    requires SevenBit(s) && n < |s| && i < |q| && q[i] == '\\' && PrintedAt(q, i + 1, s, n)
    requires Misread(s[n], At(s, n + 1)) && !IsOctal(s[n]) && s[n] != 'x'
    ensures !Reads(q, i, s, n, metaIsEsc)
  {
    Behind(q, i, s, n);
    if (q[i + 1] == 'C' || q[i + 1] == 'M') && At(q, i + 2) == '-' {
      PrefixIsNoLetter(q, i + 1, metaIsEsc);
      ReadsOther(q, i, s, n, metaIsEsc);
    } else {
      var c := if Width(s[n]) > 1 then '\\' else Letter(s[n]);
      ReadsKey(q, i, s, n, metaIsEsc, c, i + 2);
    }
  }

  lemma PrefixIsNoLetter(q: string, j: nat, metaIsEsc: bool)
    requires j + 1 < |q|
    ensures var keys := Prefixed(q, j, metaIsEsc).keys;
      0 < |keys| <= 2 && keys[0] != 'C' && keys[0] != 'M'
  {
  }

  lemma ReadsOther(q: string, i: nat, s: string, n: nat, metaIsEsc: bool)
    requires i < |q| && n < |s| && |ReadStep(q, i, metaIsEsc).keys| > 0
    requires ReadStep(q, i, metaIsEsc).keys[0] != s[n]
    ensures !Reads(q, i, s, n, metaIsEsc)
  {
  }

  lemma NumberStep(q: string, i: nat, s: string, n: nat, metaIsEsc: bool) returns (key: char, m: nat)
    requires SevenBit(s) && n < |s| && i < |q| && q[i] == '\\' && PrintedAt(q, i + 1, s, n)
    requires Misread(s[n], At(s, n + 1)) && (IsOctal(s[n]) || s[n] == 'x')
    ensures n < m <= |s| && ReadStep(q, i, metaIsEsc) == Step([key], i + 1 + (m - n))
    ensures m == n + 1 ==> key != s[n]
    ensures PrintedAt(q, i + 1 + (m - n), s, m)
    ensures forall j | n + 1 <= j < m :: s[j] != FS
  {
    Behind(q, i, s, n);
    var octal := IsOctal(s[n]);
    m := DigitsRun(q, i + 2, s, n + 1, 2, if octal then 8 else 16, if octal then DigitValue(s[n]) else 0);
    key := Escaped(q, i + 1).keys[0];
  }

  /** A number swallows the characters that follow. */
  lemma MisreadNumber(q: string, i: nat, s: string, n: nat, metaIsEsc: bool)
    requires SevenBit(s) && n < |s| && i < |q| && q[i] == '\\' && PrintedAt(q, i + 1, s, n)
    requires Misread(s[n], At(s, n + 1)) && (IsOctal(s[n]) || s[n] == 'x')
    ensures !Reads(q, i, s, n, metaIsEsc)
  {
    var key, m := NumberStep(q, i, s, n, metaIsEsc);
    var next := i + 1 + (m - n);
    ReadsKey(q, i, s, n, metaIsEsc, key, next);
    if m > n + 1 {
      NeverShifted(q, next, s, n + 1, m - (n + 1), metaIsEsc);
    }
  }

  lemma NotMisread(q: string, i: nat, s: string, n: nat, metaIsEsc: bool)
    requires SevenBit(s) && n < |s| && i < |q| && q[i] == '\\' && PrintedAt(q, i + 1, s, n)
    requires !Misread(s[n], At(s, n + 1))
    ensures ReadStep(q, i, metaIsEsc) == Step([s[n]], i + 2)
    ensures if s[n] == '\\' then i + 2 < |q| && q[i + 2] == '\\' && PrintedAt(q, i + 3, s, n + 1)
            else PrintedAt(q, i + 2, s, n + 1)
  {
    Behind(q, i, s, n);
  }

  /**
   The printed form is read back as the text exactly if no character is misread that comes behind a file separator and
   any backslashes after it.
  */
  lemma {:induction false} ReadBack(q: string, i: nat, s: string, n: nat, leftover: bool, metaIsEsc: bool)
    requires SevenBit(s) && n <= |s|
    requires if leftover then i < |q| && q[i] == '\\' && PrintedAt(q, i + 1, s, n) else PrintedAt(q, i, s, n)
    ensures Reads(q, i, s, n, metaIsEsc) <==> Survives(s, n, leftover)
    decreases |s| - n
  {
    if n == |s| {
    } else if !leftover {
      ReadsPiece(q, i, s, n, s[n], metaIsEsc);
      ReadBack(q, i + Width(s[n]) - if s[n] == FS then 1 else 0, s, n + 1, s[n] == FS, metaIsEsc);
    } else if !Misread(s[n], At(s, n + 1)) {
      NotMisread(q, i, s, n, metaIsEsc);
      ReadsKey(q, i, s, n, metaIsEsc, s[n], i + 2);
      ReadBack(q, i + 2, s, n + 1, s[n] == '\\', metaIsEsc);
    } else if IsOctal(s[n]) || s[n] == 'x' {
      MisreadNumber(q, i, s, n, metaIsEsc);
    } else {
      MisreadFirst(q, i, s, n, metaIsEsc);
    }
  }

  /** The round trip, exactly. */
  lemma PrintedIsReadBack(s: string, metaIsEsc: bool)
    requires SevenBit(s)
    ensures Translated(Untranslated(s), 0, metaIsEsc) == Some(s) <==> Survives(s, 0, false)
  {
    var q := Untranslated(s);
    assert q[0..] == q && s[0..] == s;
    UntranslatedIsPrinted(q, 0, s, 0);
    ReadBack(q, 0, s, 0, false, metaIsEsc);
    ReadsIsTranslated(q, 0, s, 0, metaIsEsc);
  }

  lemma {:induction false} WithoutFSSurvives(s: string, n: nat)
    requires n <= |s| && FS !in s
    ensures Survives(s, n, false)
    decreases |s| - n
  {
    if n < |s| {
      WithoutFSSurvives(s, n + 1);
    }
  }

  /** Every text without a file separator comes back. */
  lemma RoundTrip(s: string, metaIsEsc: bool)
    requires SevenBit(s) && FS !in s
    ensures Translated(Untranslated(s), 0, metaIsEsc) == Some(s)
  {
    WithoutFSSurvives(s, 0);
    PrintedIsReadBack(s, metaIsEsc);
  }

  /** A file separator before the letter a does not. */
  lemma FSIsLost(metaIsEsc: bool)
    ensures Translated(Untranslated([FS, 'a']), 0, metaIsEsc) != Some([FS, 'a'])
  {
    assert Misread('a', NUL);
    PrintedIsReadBack([FS, 'a'], metaIsEsc);
  }

  // ----- the printer -----

  /** One character is printed. */
  method PrintKey(ret: array<char>, r: nat, s: char, ghost full: string) returns (next: nat)
    requires Agrees(ret, r, full) && r + |Piece(s)| <= |full| <= ret.Length
    requires forall j | 0 <= j < |Piece(s)| :: full[r + j] == Piece(s)[j]
    modifies ret
    ensures next == r + |Piece(s)| && Agrees(ret, next, full)
  {
    var c := s;
    next := r;
    ghost var p := Piece(s);
    assert full[r + 0] == p[0];
    assert |p| > 1 ==> full[r + 1] == p[1];
    assert |p| > 2 ==> full[r + 2] == p[2] && full[r + 3] == p[3];
    assert |p| > 4 ==> full[r + 4] == p[4];
    if 127 < c as int < 256 {
      next := Emit(ret, next, '\\', full);
      next := Emit(ret, next, 'M', full);
      next := Emit(ret, next, '-', full);
      c := Unmeta(c);
    } else if c == ESC {
      next := Emit(ret, next, '\\', full);
      c := 'e';
    } else if IsControl(c) {
      next := Emit(ret, next, '\\', full);
      next := Emit(ret, next, 'C', full);
      next := Emit(ret, next, '-', full);
      c := ToLower(Unctrl(c));
    } else if c == RUBOUT {
      next := Emit(ret, next, '\\', full);
      next := Emit(ret, next, 'C', full);
      next := Emit(ret, next, '-', full);
      c := '?';
    }
    if c == ESC {
      next := Emit(ret, next, '\\', full);
      c := 'e';
    } else if c == '\\' || c == '"' {
      next := Emit(ret, next, '\\', full);
    }
    next := Emit(ret, next, c, full);
  }

  /** The printed form is never more than five times as long. */
  lemma {:induction false} PrintedLength(s: string)
    ensures |Untranslated(s)| <= 5 * |s|
  {
    if s != [] {
      PrintedLength(s[1..]);
    }
  }

  /** _rl_untranslate_macro_value: the buffer of 7n + 1 characters is large enough. */
  method UntranslateMacroValue(text: string) returns (ret: array<char>)
    ensures |Untranslated(text)| < ret.Length == 7 * |text| + 1
    ensures ret[..|Untranslated(text)|] == Untranslated(text) && ret[|Untranslated(text)|] == NUL
  {
    ret := new char[7 * |text| + 1];
    ghost var full := Untranslated(text);
    PrintedLength(text);
    var r, s := 0, 0;
    assert full[r..] == Untranslated(text[s..]) by {
      assert text[0..] == text && full[0..] == full;
    }
    while s < |text|
      invariant 0 <= s <= |text| && 0 <= r <= |full| && full[r..] == Untranslated(text[s..])
      invariant Agrees(ret, r, full)
    {
      UntranslatedFrom(text, s);
      r := PrintNext(ret, r, text[s], full, Untranslated(text[s + 1..]));
      s := s + 1;
    }
    ret[r] := NUL;
  }

  lemma UntranslatedFrom(text: string, s: nat)
    requires s < |text|
    ensures Untranslated(text[s..]) == Piece(text[s]) + Untranslated(text[s + 1..])
  {
    assert text[s..][0] == text[s] && text[s..][1..] == text[s + 1..];
  }

  /** One turn of its loop. */
  method PrintNext(ret: array<char>, r: nat, c: char, ghost full: string, ghost rest: string) returns (next: nat)
    requires r <= |full| < ret.Length && full[r..] == Piece(c) + rest && Agrees(ret, r, full)
    modifies ret
    ensures r <= next <= |full| && full[next..] == rest && Agrees(ret, next, full)
  {
    Peel(full, r, Piece(c), rest);
    next := PrintKey(ret, r, c, full);
  }

  // ----- the reader -----

  /** The loops over octal and hexadecimal digits. */
  method ReadDigits(s: string, from: nat, radix: nat, start: nat) returns (c: nat, i: nat)
    requires from <= |s| && (radix == 8 || radix == 16)
    ensures (c, i) == Digits(s, from, 2, radix, start)
  {
    var temp := 2;
    c, i := start, from;
    while temp > 0 && i < |s| && (if radix == 8 then IsOctal(s[i]) else IsHex(s[i]))
      invariant from <= i <= |s| && 0 <= temp <= 2
      invariant Digits(s, i, temp, radix, c) == Digits(s, from, 2, radix, start)
    {
      c := c * radix + DigitValue(s[i]);
      temp := temp - 1;
      i := i + 1;
    }
  }

  /** A character behind a backslash. */
  method ReadEscape(s: string, at: nat) returns (key: char, i: nat)
    requires at < |s|
    ensures Step([key], i) == Escaped(s, at)
  {
    var c := s[at];
    i := at + 1;
    if IsOctal(c) {
      var v;
      v, i := ReadDigits(s, i, 8, DigitValue(c));
      key := (v % 256) as char;
    } else if c == 'x' {
      var v;
      v, i := ReadDigits(s, i, 16, 0);
      key := if i == at + 1 then 'x' else (v % 256) as char;
    } else {
      key := Letter(c);
    }
  }

  /** One turn of the loop: the keys go to the end of the array, and i moves on. */
  method ReadKey(s: string, at: nat, out: array<char>, length: nat, metaIsEsc: bool, ghost full: string)
    returns (i: nat, l: nat)
    requires at < |s| && length + 2 <= out.Length
    requires Agrees(out, length, full) && Reads(s, at, full, length, metaIsEsc)
    modifies out
    ensures at < i <= |s| && l <= length + 2
    ensures Agrees(out, l, full) && Reads(s, i, full, l, metaIsEsc)
  {
    i, l := at, length;
    if s[i] != '\\' {
      out[l] := s[i];
      l := l + 1;
      i := i + 1;
      return;
    }
    i := i + 1;
    if At(s, i) == NUL {
      i := |s|;
      return;
    }
    if (s[i] == 'C' || s[i] == 'M') && At(s, i + 1) == '-' {
      i, l := ReadModified(s, at, out, length, metaIsEsc, full);
      return;
    }
    var key;
    key, i := ReadEscape(s, i);
    out[l] := key;
    l := l + 1;
  }

  /** The part of it for keys behind \C- and \M-. */
  method ReadModified(s: string, at: nat, out: array<char>, length: nat, metaIsEsc: bool, ghost full: string)
    returns (i: nat, l: nat)
    requires at + 1 < |s| && length + 2 <= out.Length
    requires s[at] == '\\' && (s[at + 1] == 'C' || s[at + 1] == 'M') && At(s, at + 2) == '-'
    requires Agrees(out, length, full) && Reads(s, at, full, length, metaIsEsc)
    modifies out
    ensures at < i <= |s| && l <= length + 2
    ensures Agrees(out, l, full) && Reads(s, i, full, l, metaIsEsc)
  {
    i, l := at + 1, length;
    if s[i] == 'C' && At(s, i + 2) == '\\' && At(s, i + 3) == 'M' && At(s, i + 4) == '-' {
      out[l] := ESC;
      l := l + 1;
      i := i + 5;
      out[l] := Ctrl(ToUpper(At(s, i)));
      l := l + 1;
      if At(s, i) == NUL {
        i := i - 1;
      }
    } else if s[i] == 'M' {
      i := i + 1;
      if metaIsEsc {
        out[l] := ESC;
        l := l + 1;
      } else if At(s, i + 1) == '\\' && At(s, i + 2) == 'C' && At(s, i + 3) == '-' {
        i := i + 4;
        var temp := if At(s, i) == '?' then RUBOUT else Ctrl(ToUpper(At(s, i)));
        out[l] := Meta(temp);
        l := l + 1;
      } else {
        i := i + 1;
        out[l] := Meta(At(s, i));
        l := l + 1;
      }
    } else {
      i := i + 2;
      out[l] := if At(s, i) == '?' then RUBOUT else Ctrl(ToUpper(At(s, i)));
      l := l + 1;
    }
    i := i + 1;
  }

  /** rl_translate_keyseq, on a sequence that does not end in a bare \C- or \M-. */
  method TranslateKeyseq(s: string, out: array<char>, metaIsEsc: bool) returns (len: nat)
    requires out.Length > 2 * |s| && Translated(s, 0, metaIsEsc).Some?
    modifies out
    ensures len < out.Length && Translated(s, 0, metaIsEsc) == Some(out[..len]) && out[len] == NUL
  {
    ghost var full := Translated(s, 0, metaIsEsc).value;
    assert full[0..] == full;
    ReadsIsTranslated(s, 0, full, 0, metaIsEsc);
    var i, l := 0, 0;
    while i < |s|
      invariant 0 <= l <= 2 * i && Reads(s, i, full, l, metaIsEsc)
      invariant Agrees(out, l, full)
    {
      i, l := ReadKey(s, i, out, l, metaIsEsc, full);
    }
    assert l == |full| && out[..l] == full;
    out[l] := NUL;
    len := l;
  }
}
