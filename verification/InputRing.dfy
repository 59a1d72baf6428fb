/**
 The buffer of typed-ahead keys (readline-6.2/input.c): a ring of 512 places of which one stays empty.
*/
module InputRing {
  import opened Options

  /** ibuffer_len */
  const LAST: nat := 511
  const EOF: int := -1
  const NEWLINE: int := 10

  /** What is stored of a key: an unsigned character. */
  function Stored(key: int): int { key % 256 }

  datatype Op = Stuff(key: int) | Unget(key: int) | Get

  /** What an operation answers: whether there was space, or the key that was there. */
  datatype Answer = Done(ok: bool) | Key(key: Option<int>)

  // ----- a queue with two ends -----

  function After(q: seq<int>, op: Op): (r: seq<int>)
    ensures |q| <= LAST ==> |r| <= LAST
  {
    match op
    case Stuff(key) => if |q| >= LAST then q else q + [if key == EOF then NEWLINE else Stored(key)]
    case Unget(key) => if |q| >= LAST then q else [Stored(key)] + q
    case Get => if q == [] then q else q[1..]
  }

  function Reply(q: seq<int>, op: Op): Answer {
    match op
    case Stuff(_) => Done(|q| < LAST)
    case Unget(_) => Done(|q| < LAST)
    case Get => Key(if q == [] then None else Some(q[0]))
  }

  /** The queue after the first n operations. */
  function AfterFirst(q: seq<int>, ops: seq<Op>, n: nat): seq<int>
    requires n <= |ops|
  {
    if n == 0 then q else After(AfterFirst(q, ops, n - 1), ops[n - 1])
  }

  /** What the first n operations answered. */
  function Replies(q: seq<int>, ops: seq<Op>, n: nat): seq<Answer>
    requires n <= |ops|
  {
    if n == 0 then [] else Replies(q, ops, n - 1) + [Reply(AfterFirst(q, ops, n - 1), ops[n - 1])]
  }

  /** A key that is pushed back is the next one that is read, and the rest is as before. */
  lemma UngetThenGet(q: seq<int>, ops: seq<Op>, n: nat, key: int)
    requires n + 2 <= |ops| && ops[n] == Unget(key) && ops[n + 1] == Get && |AfterFirst(q, ops, n)| < LAST
    ensures AfterFirst(q, ops, n + 2) == AfterFirst(q, ops, n)
    ensures Reply(AfterFirst(q, ops, n + 1), ops[n + 1]) == Key(Some(Stored(key)))
  {
    var was := AfterFirst(q, ops, n);
    assert AfterFirst(q, ops, n + 1) == [Stored(key)] + was;
    assert ([Stored(key)] + was)[1..] == was;
  }

  /** Keys that are stuffed wait behind those that are there, in their order. */
  lemma {:induction false} StuffedInOrder(q: seq<int>, ops: seq<Op>, keys: seq<int>, n: nat)
    requires n <= |keys| == |ops| && |q| + n <= LAST
    requires forall k | 0 <= k < n :: 0 <= keys[k] < 256 && ops[k] == Stuff(keys[k])
    ensures AfterFirst(q, ops, n) == q + keys[..n]
  {
    if n > 0 {
      StuffedInOrder(q, ops, keys, n - 1);
      assert keys[..n] == keys[..n - 1] + [keys[n - 1]];
    }
  }

  /** And they are read in that order. */
  lemma {:induction false} ReadInOrder(q: seq<int>, ops: seq<Op>, n: nat)
    requires n <= |ops| && n <= |q| && forall k | 0 <= k < n :: ops[k] == Get
    ensures AfterFirst(q, ops, n) == q[n..]
    ensures |Replies(q, ops, n)| == n
    ensures forall k | 0 <= k < n :: Replies(q, ops, n)[k] == Key(Some(q[k]))
  {
    if n > 0 {
      ReadInOrder(q, ops, n - 1);
      assert q[n - 1..][1..] == q[n..];
    }
  }

  /** What an operation stores if there is space. */
  function KeyOf(op: Op): int
    requires !op.Get?
  {
    if op == Stuff(EOF) then NEWLINE else Stored(op.key)
  }

  /** How often n operations took a key in, told by their answers. */
  function TimesTaken(ops: seq<Op>, answers: seq<Answer>, n: nat, key: int): nat
    requires n <= |ops| && n <= |answers|
  {
    if n == 0 then 0
    else TimesTaken(ops, answers, n - 1, key) + if Takes(ops[n - 1], answers[n - 1], key) then 1 else 0
  }

  predicate Takes(op: Op, answer: Answer, key: int) {
    answer == Done(true) && !op.Get? && KeyOf(op) == key
  }

  /** How often n operations gave a key out. */
  function TimesGiven(answers: seq<Answer>, n: nat, key: int): nat
    requires n <= |answers|
  {
    if n == 0 then 0
    else TimesGiven(answers, n - 1, key) + if answers[n - 1] == Key(Some(key)) then 1 else 0
  }

  lemma {:induction false} SameFirst(ops: seq<Op>, a: seq<Answer>, b: seq<Answer>, n: nat, key: int)
    requires n <= |a| <= |b| && n <= |ops| && forall k | 0 <= k < n :: a[k] == b[k]
    ensures TimesTaken(ops, a, n, key) == TimesTaken(ops, b, n, key) && TimesGiven(a, n, key) == TimesGiven(b, n, key)
  {
    if n > 0 {
      SameFirst(ops, a, b, n - 1, key);
    }
  }

  lemma OneConserves(q: seq<int>, op: Op, key: int)
    ensures multiset(q)[key] + (if Takes(op, Reply(q, op), key) then 1 else 0) ==
      multiset(After(q, op))[key] + if Reply(q, op) == Key(Some(key)) then 1 else 0
  {
    match op
    case Stuff(k) =>
    case Unget(k) =>
      assert multiset([Stored(k)] + q) == multiset([Stored(k)]) + multiset(q);
    case Get =>
      if q != [] {
        assert q == [q[0]] + q[1..];
        assert multiset(q) == multiset([q[0]]) + multiset(q[1..]);
      }
  }

  lemma {:induction false} RepliesGrow(q: seq<int>, ops: seq<Op>, n: nat)
    requires n <= |ops|
    ensures |Replies(q, ops, n)| == n
  {
    if n > 0 {
      RepliesGrow(q, ops, n - 1);
    }
  }

  /** The counts after one operation more. */
  lemma CountsNext(q: seq<int>, ops: seq<Op>, n: nat, key: int)
    requires 0 < n <= |ops| && |Replies(q, ops, n - 1)| == n - 1 && |Replies(q, ops, n)| == n
    ensures var op, reply := ops[n - 1], Reply(AfterFirst(q, ops, n - 1), ops[n - 1]);
      && TimesTaken(ops, Replies(q, ops, n), n, key) ==
         TimesTaken(ops, Replies(q, ops, n - 1), n - 1, key) + (if Takes(op, reply, key) then 1 else 0)
      && TimesGiven(Replies(q, ops, n), n, key) ==
         TimesGiven(Replies(q, ops, n - 1), n - 1, key) + (if reply == Key(Some(key)) then 1 else 0)
  {
    SameFirst(ops, Replies(q, ops, n - 1), Replies(q, ops, n), n - 1, key);
  }

  /** No key is lost or made up: each one was there or taken in as often as it is there or was given out. */
  lemma {:induction false} KeysConserved(q: seq<int>, ops: seq<Op>, n: nat, key: int)
    requires n <= |ops|
    ensures |Replies(q, ops, n)| == n
    ensures var answers := Replies(q, ops, n);
      multiset(q)[key] + TimesTaken(ops, answers, n, key) ==
      multiset(AfterFirst(q, ops, n))[key] + TimesGiven(answers, n, key)
  {
    RepliesGrow(q, ops, n);
    if n > 0 {
      KeysConserved(q, ops, n - 1, key);
      CountsNext(q, ops, n, key);
      OneConserves(AfterFirst(q, ops, n - 1), ops[n - 1], key);
    }
  }

  // ----- the ring -----

  function Wrap(i: nat): nat { if i > LAST then i - (LAST + 1) else i }

  class Ring {
    var ibuffer: array<int>
    var popIndex: int
    var pushIndex: int
    /** rl_pending_input is EOF. */
    var pendingEof: bool
    /** The keys in the order of reading. */
    ghost var queue: seq<int>

    ghost predicate Valid()
      reads this, ibuffer
    {
      && ibuffer.Length == LAST + 1 && 0 <= popIndex <= LAST && 0 <= pushIndex <= LAST
      && |queue| <= LAST && pushIndex == Wrap(popIndex + |queue|)
      && forall k | 0 <= k < |queue| :: ibuffer[Wrap(popIndex + k)] == queue[k]
    }

    constructor ()
      ensures Valid() && queue == [] && !pendingEof && fresh(ibuffer)
    {
      ibuffer := new int[LAST + 1];
      popIndex, pushIndex, pendingEof, queue := 0, 0, false, [];
    }

    /** ibuffer_space: the room that is left. */
    method IbufferSpace() returns (space: nat)
      requires Valid()
      ensures space == LAST - |queue|
    {
      if popIndex > pushIndex {
        space := popIndex - pushIndex - 1;
      } else {
        space := LAST - (pushIndex - popIndex);
      }
    }

    /** rl_get_char */
    method GetChar() returns (key: Option<int>)
      requires Valid()
      modifies this`popIndex, this`queue
      ensures Valid() && queue == After(old(queue), Get) && Key(key) == Reply(old(queue), Get)
      ensures if old(queue) == [] then key == None && queue == []
              else key == Some(old(queue)[0]) && queue == old(queue)[1..]
    {
      if pushIndex == popIndex {
        return None;
      }
      key := Some(ibuffer[popIndex]);
      assert ibuffer[Wrap(popIndex + 0)] == queue[0];
      popIndex := popIndex + 1;
      if popIndex > LAST {
        popIndex := 0;
      }
      queue := queue[1..];
    }

    /** _rl_unget_char */
    method UngetChar(key: int) returns (ok: bool)
      requires Valid()
      modifies this`popIndex, this`queue, ibuffer
      ensures Valid() && queue == After(old(queue), Unget(key)) && Done(ok) == Reply(old(queue), Unget(key))
      ensures ok == (|old(queue)| < 511) && queue == if ok then [key % 256] + old(queue) else old(queue)
    {
      var space := IbufferSpace();
      if space > 0 {
        popIndex := popIndex - 1;
        if popIndex < 0 {
          popIndex := LAST;
        }
        ibuffer[popIndex] := Stored(key);
        queue := [Stored(key)] + queue;
        return true;
      }
      return false;
    }

    /** rl_stuff_char: the end of the input is stuffed as a newline, and noted. */
    method StuffChar(key: int) returns (ok: bool)
      requires Valid()
      modifies this`pushIndex, this`pendingEof, this`queue, ibuffer
      ensures Valid() && queue == After(old(queue), Stuff(key)) && Done(ok) == Reply(old(queue), Stuff(key))
      ensures ok == (|old(queue)| < 511)
      ensures queue == if ok then old(queue) + [if key == -1 then 10 else key % 256] else old(queue)
      ensures pendingEof == (old(pendingEof) || (ok && key == EOF))
    {
      var space := IbufferSpace();
      if space == 0 {
        return false;
      }
      var k := key;
      if k == EOF {
        k := NEWLINE;
        pendingEof := true;
      }
      ibuffer[pushIndex] := Stored(k);
      pushIndex := pushIndex + 1;
      if pushIndex > LAST {
        pushIndex := 0;
      }
      queue := queue + [Stored(k)];
      return true;
    }

    /** One operation. */
    method Perform(op: Op) returns (answer: Answer)
      requires Valid()
      modifies this, ibuffer
      ensures Valid() && ibuffer == old(ibuffer)
      ensures queue == After(old(queue), op) && answer == Reply(old(queue), op)
    {
      match op {
        case Stuff(key) =>
          var ok := StuffChar(key);
          answer := Done(ok);
        case Unget(key) =>
          var ok := UngetChar(key);
          answer := Done(ok);
        case Get =>
          var key := GetChar();
          answer := Key(key);
      }
    }

    /** Any mixture of operations answers as the queue does. */
    method Run(ops: seq<Op>) returns (answers: seq<Answer>)
      requires Valid()
      modifies this, ibuffer
      ensures Valid() && ibuffer == old(ibuffer)
      ensures queue == AfterFirst(old(queue), ops, |ops|) && answers == Replies(old(queue), ops, |ops|)
    {
      answers := [];
      var i := 0;
      while i < |ops|
        invariant 0 <= i <= |ops| && Valid() && ibuffer == old(ibuffer)
        invariant queue == AfterFirst(old(queue), ops, i) && answers == Replies(old(queue), ops, i)
      {
        var answer := Perform(ops[i]);
        answers := answers + [answer];
        i := i + 1;
      }
    }
  }
}
