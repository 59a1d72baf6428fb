/**
 The history list (readline-6.2/history.c): an array that grows in steps, shifted by one when it is full and stifled.
*/
module HistoryStore {
  import opened Options

  datatype Entry = Entry(line: string, timestamp: string)

  /** DEFAULT_HISTORY_GROW_SIZE */
  const GROW: nat := 50

  /** A stifled list keeps the last entries only. */
  function Kept<T>(s: seq<T>, stifled: bool, max: nat): (k: seq<T>)
    ensures !stifled || |s| <= max ==> k == s
    ensures stifled ==> |k| <= max
  {
    if stifled && |s| > max then s[|s| - max..] else s
  }

  /** Forgetting at each step what is too much is the same as forgetting it in the end. */
  lemma KeptTwice<T>(s: seq<T>, t: seq<T>, stifled: bool, max: nat)
    ensures Kept(Kept(s, stifled, max) + t, stifled, max) == Kept(s + t, stifled, max)
  {
  }

  class History {
    var slots: array<Option<Entry>>
    var size: nat
    var length: nat
    var base: nat
    var stifled: bool
    var maxEntries: nat
    /** The entries, oldest first. */
    ghost var contents: seq<Entry>

    constructor ()
      ensures Valid() && contents == [] && !stifled && base == 1 && fresh(slots)
    {
      slots := new Option<Entry>[0];
      size, length, base, stifled, maxEntries, contents := 0, 0, 1, false, 0, [];
    }

    /** There is always room for the null entry behind the last one, once there is an array. */
    ghost predicate Valid()
      reads this, slots
    {
      && slots.Length == size
      && (if size == 0 then length == 0 else length < size)
      && |contents| == length && (forall i | 0 <= i < length :: slots[i] == Some(contents[i]))
      && (stifled ==> length <= maxEntries)
    }

    /** xrealloc */
    method Grow()
      requires Valid()
      modifies this`slots, this`size
      ensures Valid() && size == old(size) + GROW && fresh(slots)
    {
      var bigger := new Option<Entry>[size + GROW](_ => None);
      var i := 0;
      while i < size
        invariant 0 <= i <= size
        invariant forall j | 0 <= j < i :: bigger[j] == slots[j]
        modifies bigger
      {
        bigger[i] := slots[i];
        i := i + 1;
      }
      slots, size := bigger, size + GROW;
    }

    /** The oldest entry makes room. */
    method ShiftDown()
      requires Valid() && length > 0
      modifies this`base, slots
      ensures slots.Length == size && base == old(base) + 1
      ensures forall j | 0 <= j < length - 1 :: slots[j] == old(slots[j + 1])
    {
      var i := 0;
      while i < length
        invariant 0 <= i <= length
        invariant forall j | 0 <= j < i :: slots[j] == old(slots[j + 1])
        invariant forall j | i <= j < size :: slots[j] == old(slots[j])
        modifies slots
      {
        slots[i] := slots[i + 1];
        i := i + 1;
      }
      base := base + 1;
    }

    /** The last slot is for the new entry; none if the list is stifled at nothing. */
    method MakeRoom() returns (room: bool)
      requires Valid()
      modifies this`slots, this`size, this`length, this`base, slots
      ensures slots.Length == size && (slots == old(slots) || fresh(slots))
      ensures !room ==> stifled && maxEntries == 0 && length == 0 && Valid() && base == old(base)
      ensures room ==> 0 < length < size && (stifled ==> length <= maxEntries)
      ensures room ==> var was := old(contents);
        var rest := if stifled && |was| == maxEntries then was[1..] else was;
        |rest| == length - 1 && forall j | 0 <= j < length - 1 :: slots[j] == Some(rest[j])
      ensures base == old(base) + if stifled && 0 < maxEntries == old(length) then 1 else 0
    {
      room := true;
      if stifled && length == maxEntries {
        if length == 0 {
          return false;
        }
        ShiftDown();
      } else if size == 0 {
        Grow();
        length := 1;
      } else {
        if length == size - 1 {
          Grow();
        }
        length := length + 1;
      }
    }

    /** add_history: the entry comes last, and the oldest one goes if the list is stifled and full. */
    method AddHistory(line: string, now: string)
      requires Valid()
      modifies this`slots, this`size, this`length, this`base, this`contents, slots
      ensures Valid() && (slots == old(slots) || fresh(slots))
      ensures contents == Kept(old(contents) + [Entry(line, now)], stifled, maxEntries)
      ensures contents ==
              if !stifled || |old(contents)| < maxEntries then old(contents) + [Entry(line, now)]
              else if maxEntries == 0 then []
              else old(contents)[1..] + [Entry(line, now)]
      ensures base == old(base) + if stifled && 0 < maxEntries == old(length) then 1 else 0
    {
      var room := MakeRoom();
      if room {
        slots[length] := None;
        slots[length - 1] := Some(Entry(line, now));
      }
      contents := Kept(contents + [Entry(line, now)], stifled, maxEntries);
    }

    /** add_history_time: the last entry gets another time. */
    method AddHistoryTime(timestamp: string)
      requires Valid() && length > 0
      modifies slots, this`contents
      ensures Valid()
      ensures contents == old(contents)[length - 1 := Entry(old(contents)[length - 1].line, timestamp)]
    {
      slots[length - 1] := Some(slots[length - 1].value.(timestamp := timestamp));
      contents := contents[length - 1 := Entry(contents[length - 1].line, timestamp)];
    }
  }
}
