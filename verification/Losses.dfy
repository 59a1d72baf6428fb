/**
 Where the dispatcher of the callback interface differs (readline-6.2/readline.c): entering a submap, it forgets the
 binding that is shadowed by the keymap in which it starts, or starts over after an upper-case redirection.
*/
module Losses {
  import opened Options
  import opened Keymaps
  import opened Dispatch

  /**
   The scan reaches a dead end while the last shadowed binding is one that a lossy scan has forgotten: carried says
   that this is so already.
  */
  ghost predicate Loses(st: Store, key: Key, m: MapId, start: bool, carried: bool, pend: seq<Key>)
    requires Ready(st) && m < |st|
    decreases |st| - m, IsUpper(key)
  {
    match st[m][key]
    case IsMacr(_) => false
    case IsFunc(fn) =>
      if fn == LowercaseVersion then Loses(st, Lower(key), m, true, false, pend)
      else fn == NoCommand && carried
    case IsKmap(c) =>
      pend != [] &&
      Loses(st, pend[0], c, false, !HasShadow(st, c) && (carried || (start && HasShadow(st, m))), pend[1..])
  }

  lemma {:induction false} LossyScan(st: Store, key: Key, m: MapId, start: bool, carried: bool, pend: seq<Key>,
                                     best: Option<Shadow>, trail: seq<Key>)
    requires Ready(st) && m < |st| && Candidate(st, m, best, trail)
    requires carried ==> best.Some? && !HasShadow(st, m) && !start
    requires start && !HasShadow(st, m) ==> best.None?
    ensures Scan(st, key, m, best, trail, pend, start, false)
              == Scan(st, key, m, if carried then None else best, if carried then [] else trail, pend, start, true)
            <==> !Loses(st, key, m, start, carried, pend)
    ensures Loses(st, key, m, start, carried, pend) ==>
              !Scan(st, key, m, best, trail, pend, start, false).Failed? &&
              Scan(st, key, m, if carried then None else best, if carried then [] else trail, pend, start, true).Failed?
    decreases |st| - m, IsUpper(key)
  {
    match st[m][key]
    case IsMacr(_) =>
    case IsFunc(fn) =>
      if fn == LowercaseVersion {
        LossyScan(st, Lower(key), m, true, false, pend, if HasShadow(st, m) then best else None, []);
      }
    case IsKmap(c) =>
      if pend != [] {
        LossyScan(st, pend[0], c, false, !HasShadow(st, c) && (carried || (start && HasShadow(st, m))), pend[1..],
                  BestBelow(st, c, key, best), TrailBelow(st, c, key, best, trail));
      }
  }

  /** Some keys read from keymap m on lose a binding, told by the keymaps alone. */
  ghost predicate CanLose(st: Store, m: MapId, start: bool, carried: bool)
    requires Ready(st) && m < |st|
    decreases |st| - m, 1
  {
    exists k: Key :: CanLoseBy(st, m, start, carried, k)
  }

  ghost predicate CanLoseBy(st: Store, m: MapId, start: bool, carried: bool, key: Key)
    requires Ready(st) && m < |st|
    decreases |st| - m, 0
  {
    var k := Landing(st, m, key);
    var e, start', carried' := st[m][k], start || k != key, carried && k == key;
    if e.IsKmap? then
      CanLose(st, e.child, false, !HasShadow(st, e.child) && (carried' || (start' && HasShadow(st, m))))
    else e == UNBOUND && carried'
  }

  lemma {:induction false} LosesByKeymaps(st: Store, key: Key, m: MapId, start: bool, carried: bool, pend: seq<Key>)
    requires Ready(st) && m < |st| && Loses(st, key, m, start, carried, pend)
    ensures CanLoseBy(st, m, start, carried, key)
    decreases |st| - m, IsUpper(key)
  {
    match st[m][key]
    case IsMacr(_) =>
    case IsFunc(fn) =>
      if fn == LowercaseVersion {
        LosesByKeymaps(st, Lower(key), m, true, false, pend);
      }
    case IsKmap(c) =>
      LosesByKeymaps(st, pend[0], c, false, !HasShadow(st, c) && (carried || (start && HasShadow(st, m))), pend[1..]);
  }

  /** If the keymaps let a binding be lost there are keys that lose it, and end just there. */
  lemma {:induction false} LosingKeys(st: Store, m: MapId, start: bool, carried: bool, best: Option<Shadow>,
                                      trail: seq<Key>) returns (keys: seq<Key>)
    requires Ready(st) && m < |st| && Candidate(st, m, best, trail) && CanLose(st, m, start, carried)
    requires carried ==> best.Some? && !HasShadow(st, m) && !start
    requires start && !HasShadow(st, m) ==> best.None?
    ensures keys != [] && Loses(st, keys[0], m, start, carried, keys[1..])
    ensures Scan(st, keys[0], m, if carried then None else best, if carried then [] else trail, keys[1..], start, true)
         == Failed([])
    decreases |st| - m
  {
    var key: Key :| CanLoseBy(st, m, start, carried, key);
    var k := Landing(st, m, key);
    var rest: seq<Key> := [];
    if st[m][k].IsKmap? {
      var c, best', trail' := st[m][k].child, best, trail;
      if k != key {
        best', trail' := if HasShadow(st, m) then best else None, [];
      }
      var start', carried' := start || k != key, carried && k == key;
      rest := LosingKeys(st, c, false, !HasShadow(st, c) && (carried' || (start' && HasShadow(st, m))),
                         BestBelow(st, c, k, best'), TrailBelow(st, c, k, best', trail'));
    }
    keys := [key] + rest;
    assert keys[1..] == rest;
  }

  /** No map shadows a binding where the dispatcher starts or starts over with a submap. */
  ghost predicate Clean(st: Store, root: MapId)
    requires Ready(st) && root < |st|
  {
    && !HasShadow(st, root)
    && forall m: nat, k: Slot | m < |st| && HasShadow(st, m) && st[m][k] == IsFunc(LowercaseVersion) ::
         !st[m][Lower(k)].IsKmap?
  }

  lemma {:induction false} CleanKeeps(st: Store, root: MapId, key: Key, m: MapId, start: bool, pend: seq<Key>)
    requires Ready(st) && root < |st| && m < |st| && Clean(st, root)
    requires start && HasShadow(st, m) ==> !st[m][key].IsKmap?
    ensures !Loses(st, key, m, start, false, pend)
    decreases |st| - m, IsUpper(key)
  {
    match st[m][key]
    case IsMacr(_) =>
    case IsFunc(fn) =>
      if fn == LowercaseVersion {
        CleanKeeps(st, root, Lower(key), m, true, pend);
      }
    case IsKmap(c) =>
      if pend != [] {
        CleanKeeps(st, root, pend[0], c, false, pend[1..]);
      }
  }
}
