/** Reading a text whose next piece is known, and filling a buffer with a known text. */
module Text {
  lemma Peel(q: string, i: nat, piece: string, tail: string)
    requires i <= |q| && q[i..] == piece + tail
    ensures |q| == i + |piece| + |tail|
    ensures forall j | 0 <= j < |piece| :: q[i + j] == piece[j]
    ensures q[i + |piece|..] == tail
    ensures q[i..i + |piece|] == piece
  {
    forall j | 0 <= j < |piece|
      ensures q[i + j] == piece[j]
    {
      assert q[i + j] == q[i..][j];
    }
    assert q[i + |piece|..] == q[i..][|piece|..];
  }

  /** From i on, q is the text. */
  predicate From(q: string, i: nat, text: string): (r: bool)
    ensures r ==> |q| == i + |text|
    decreases |text|
  {
    if text == [] then i == |q| else i < |q| && q[i] == text[0] && From(q, i + 1, text[1..])
  }

  lemma {:induction false} FromIs(q: string, i: nat, text: string)
    requires i <= |q|
    ensures From(q, i, text) <==> q[i..] == text
    decreases |text|
  {
    if text != [] && i < |q| {
      FromIs(q, i + 1, text[1..]);
      assert q[i..] == [q[i]] + q[i + 1..] && text == [text[0]] + text[1..];
    }
  }

  lemma Regroup<T>(a: seq<T>, b: seq<T>, c: seq<T>)
    ensures a + (b + c) == (a + b) + c
  {
  }

  /** The first r characters of the buffer are those of the text. */
  predicate Agrees(buf: array<char>, r: nat, full: string)
    reads buf
  {
    r <= buf.Length && r <= |full| && buf[..r] == full[..r]
  }

  /** One character goes to the output pointer, which moves on. */
  method Emit(buf: array<char>, r: nat, c: char, ghost full: string) returns (next: nat)
    requires Agrees(buf, r, full) && r < buf.Length && r < |full| && full[r] == c
    modifies buf
    ensures next == r + 1 && Agrees(buf, next, full)
  {
    buf[r] := c;
    next := r + 1;
  }
}
