/**
 Recursive key-sequence dispatch (readline-6.2/readline.c).

 RecDispatch and RecResult say what one call of the recursive dispatcher does to the pending input and which
 command it runs.  Scan is an independent description: one left-to-right pass over the trie that remembers the
 last shadowed binding it passed, the way a longest-match scanner does.
*/
module Dispatch {
  import opened Options
  import opened Keymaps
  import opened Characters

  /** What a command dispatch leaves behind for an observer. */
  datatype Event = Ran(fn: Command, key: Slot) | PushedMacro(text: string)

  /** A return from _rl_dispatch_subseq with its code, or the long jump out of _rl_abort_internal. */
  datatype Result =
    | Returned(code: int, ran: seq<Event>, pending: seq<Key>)
    | Aborted(pending: seq<Key>)

  predicate HasShadow(st: Store, m: MapId)
    requires m < |st|
  {
    st[m][ANYOTHERKEY] != UNBOUND
  }

  /** _rl_to_lower in the C locale. */
  function Lower(k: Slot): Slot {
    if IsUpper(k) then k + 32 else k
  }

  ghost predicate Ready(st: Store) {
    Linked(st) && Sane(st)
  }

  /** Running the binding that keymap m shadows, for the key that led to m. */
  function RunShadow(st: Store, m: MapId, key: Key): Event
    requires m < |st| && HasShadow(st, m) && !st[m][ANYOTHERKEY].IsKmap?
  {
    match st[m][ANYOTHERKEY]
    case IsMacr(text) => PushedMacro(text)
    case IsFunc(fn) => if fn == Insert then Ran(Insert, key) else Ran(fn, ANYOTHERKEY)
  }

  /** _rl_dispatch_subseq outside callback mode. */
  ghost function RecDispatch(st: Store, key: Key, m: MapId, got: bool, pend: seq<Key>): (r: Result)
    requires Ready(st) && m < |st|
    ensures r.Returned? ==> r.code in {0, -1, -2} && |r.ran| == if r.code == 0 then 1 else 0
    ensures r.Returned? && r.code == -2 ==> HasShadow(st, m)
    ensures r.Returned? && r.code == -1 ==> got && !HasShadow(st, m)
    decreases |st| - m, IsUpper(key)
  {
    match st[m][key]
    case IsMacr(text) => Returned(0, [PushedMacro(text)], pend)
    case IsFunc(fn) =>
      if fn == LowercaseVersion then RecDispatch(st, Lower(key), m, false, pend)
      else if fn != NoCommand then Returned(0, [Ran(fn, key)], pend)
      else if HasShadow(st, m) then Returned(-2, [], [key] + pend)
      else if got then Returned(-1, [], [key] + pend)
      else Aborted(pend)
    case IsKmap(c) =>
      if pend == [] then Aborted([])
      else
        var r := RecDispatch(st, pend[0], c, got || HasShadow(st, m), pend[1..]);
        RecResult(st, r, c, m, key, got)
  }

  /** _rl_subseq_result for the result r of a dispatch into keymap c, which key leads to from keymap m. */
  ghost function RecResult(st: Store, r: Result, c: MapId, m: MapId, key: Key, got: bool): Result
    requires Ready(st) && m < |st| && c < |st|
    requires r.Returned? && r.code == -2 ==> HasShadow(st, c)
  {
    if r.Aborted? then r
    else if r.code == -2 then Returned(0, [RunShadow(st, c, key)], r.pending)
    else if r.code != 0 && HasShadow(st, m) then Returned(-2, [], [key] + r.pending)
    else if r.code != 0 && got then Returned(-1, [], [key] + r.pending)
    else r
  }

  // ----- the one-pass scanner -----

  /** A shadowed binding that the scan passed: its keymap and the key that led there; the top map has no such key. */
  datatype Shadow = Shadow(node: MapId, via: Option<Key>)

  datatype Outcome =
    | Fired(ran: Event, pending: seq<Key>)     // a command ran; pending is what is left to read
    | BackedOut(pending: seq<Key>)             // the top map shadows a binding, and nothing ran
    | Failed(pending: seq<Key>)                // aborted

  ghost predicate Candidate(st: Store, m: MapId, best: Option<Shadow>, trail: seq<Key>)
    requires m < |st|
  {
    && (best.Some? ==> best.value.node <= m && HasShadow(st, best.value.node))
    && (HasShadow(st, m) <==> best.Some? && best.value.node == m)
    && (HasShadow(st, m) ==> trail == [])
  }

  /** The scanner's knowledge after key led from keymap m to keymap c. */
  function BestBelow(st: Store, c: MapId, key: Key, best: Option<Shadow>): Option<Shadow>
    requires c < |st|
  {
    if HasShadow(st, c) then Some(Shadow(c, Some(key))) else best
  }

  function TrailBelow(st: Store, c: MapId, key: Key, best: Option<Shadow>, trail: seq<Key>): seq<Key>
    requires c < |st|
  {
    if HasShadow(st, c) || best.None? then [] else trail + [key]
  }

  ghost function Fire(st: Store, best: Option<Shadow>, trail: seq<Key>, failed: seq<Key>): Outcome
    requires Linked(st) && (best.Some? ==> best.value.node < |st| && HasShadow(st, best.value.node))
  {
    match best
    case None => Failed(failed)
    case Some(Shadow(_, None)) => BackedOut(trail)
    case Some(Shadow(node, Some(via))) => Fired(RunShadow(st, node, via), trail)
  }

  /**
   One pass over the trie.  best is the last shadowed binding passed, trail the keys read since.  An upper-case
   redirection starts over in its map.  A lossy scan forgets the binding shadowed by the map it starts (over) in as
   soon as it enters a submap.
  */
  ghost function Scan(st: Store, key: Key, m: MapId, best: Option<Shadow>, trail: seq<Key>, pend: seq<Key>,
                      start: bool, lossy: bool): (o: Outcome)
    requires Ready(st) && m < |st| && Candidate(st, m, best, trail)
    ensures |o.pending| <= |pend| + if best.Some? then |trail| + 1 else 0
    ensures (best.Some? ==> best.value.via.Some?) ==> !o.BackedOut?
    decreases |st| - m, IsUpper(key)
  {
    match st[m][key]
    case IsMacr(text) => Fired(PushedMacro(text), pend)
    case IsFunc(fn) =>
      if fn == LowercaseVersion then
        Scan(st, Lower(key), m, if HasShadow(st, m) then best else None, [], pend, true, lossy)
      else if fn != NoCommand then Fired(Ran(fn, key), pend)
      else Fire(st, best, trail + [key] + pend, pend)
    case IsKmap(c) =>
      if pend == [] then Failed([])
      else
        var kept := if lossy && start then None else best;
        Scan(st, pend[0], c, BestBelow(st, c, key, kept), TrailBelow(st, c, key, kept, trail), pend[1..], false, lossy)
  }

  ghost function TopShadow(st: Store, root: MapId): Option<Shadow>
    requires root < |st|
  {
    if HasShadow(st, root) then Some(Shadow(root, None)) else None
  }

  /** What the scanner does with one command read from keymap root. */
  ghost function Match(st: Store, root: MapId, keys: seq<Key>, lossy: bool): Outcome
    requires Ready(st) && root < |st| && keys != []
  {
    Scan(st, keys[0], root, TopShadow(st, root), [], keys[1..], true, lossy)
  }

  /** A return of the recursive dispatcher, seen as an outcome. */
  ghost predicate Agrees(st: Store, r: Result, m: MapId, best: Option<Shadow>, trail: seq<Key>, o: Outcome)
    requires Ready(st) && m < |st| && Candidate(st, m, best, trail)
  {
    match r
    case Aborted(pending) => o == Failed(pending)
    case Returned(code, ran, pending) =>
      if code == 0 then |ran| == 1 && o == Fired(ran[0], pending)
      else best.Some? && o == Fire(st, best, trail + pending, [])
  }

  /** One level of backing out. */
  lemma AgreesAbove(st: Store, r: Result, c: MapId, m: MapId, key: Key, got: bool,
                    best: Option<Shadow>, trail: seq<Key>, o: Outcome)
    requires Ready(st) && m < c < |st| && st[m][key] == IsKmap(c) && Candidate(st, m, best, trail)
    requires best.Some? <==> got || HasShadow(st, m)
    requires r.Returned? ==> r.code in {0, -1, -2} && |r.ran| == if r.code == 0 then 1 else 0
    requires r.Returned? && r.code == -2 ==> HasShadow(st, c)
    requires r.Returned? && r.code == -1 ==> (got || HasShadow(st, m)) && !HasShadow(st, c)
    requires Agrees(st, r, c, BestBelow(st, c, key, best), TrailBelow(st, c, key, best, trail), o)
    ensures Agrees(st, RecResult(st, r, c, m, key, got), m, best, trail, o)
  {
    if r.Returned? {
      assert [] + r.pending == r.pending;
      assert trail + [key] + r.pending == trail + ([key] + r.pending);
    }
  }

  /** Backing out of the recursion level by level amounts to going back to the last shadowed binding at once. */
  lemma {:induction false} DispatchScans(st: Store, key: Key, m: MapId, got: bool, pend: seq<Key>,
                                         best: Option<Shadow>, trail: seq<Key>, start: bool)
    requires Ready(st) && m < |st| && Candidate(st, m, best, trail)
    requires best.Some? <==> got || HasShadow(st, m)
    ensures Agrees(st, RecDispatch(st, key, m, got, pend), m, best, trail,
                   Scan(st, key, m, best, trail, pend, start, false))
    decreases |st| - m, IsUpper(key)
  {
    match st[m][key]
    case IsMacr(_) =>
    case IsFunc(fn) =>
      if fn == LowercaseVersion {
        DispatchScans(st, Lower(key), m, false, pend, if HasShadow(st, m) then best else None, [], true);
      } else if fn == NoCommand {
        assert trail + [key] + pend == trail + ([key] + pend);
      }
    case IsKmap(c) =>
      if pend != [] {
        var best', trail' := BestBelow(st, c, key, best), TrailBelow(st, c, key, best, trail);
        DispatchScans(st, pend[0], c, got || HasShadow(st, m), pend[1..], best', trail', false);
        AgreesAbove(st, RecDispatch(st, pend[0], c, got || HasShadow(st, m), pend[1..]), c, m, key, got, best, trail,
                    Scan(st, pend[0], c, best', trail', pend[1..], false, false));
      }
  }

  /** The outcome of a top-level call of _rl_dispatch. */
  ghost function TopOutcome(r: Result): Outcome
    requires r.Returned? && r.code == 0 ==> |r.ran| == 1
  {
    match r
    case Aborted(pending) => Failed(pending)
    case Returned(code, ran, pending) => if code == 0 then Fired(ran[0], pending) else BackedOut(pending)
  }

  /** The recursive dispatcher is the scanner. */
  lemma DispatchIsMatch(st: Store, root: MapId, keys: seq<Key>)
    requires Ready(st) && root < |st| && keys != []
    ensures TopOutcome(RecDispatch(st, keys[0], root, false, keys[1..])) == Match(st, root, keys, false)
  {
    DispatchScans(st, keys[0], root, false, keys[1..], TopShadow(st, root), [], true);
    var r := RecDispatch(st, keys[0], root, false, keys[1..]);
    if r.Returned? {
      assert [] + r.pending == r.pending;
    }
  }

  // ----- redirections -----

  /** The key that decides, after a possible upper-case redirection. */
  ghost function Landing(st: Store, m: MapId, key: Slot): (k: Slot)
    requires Ready(st) && m < |st|
    ensures st[m][k] != IsFunc(LowercaseVersion)
    ensures st[m][k].IsKmap? ==> m < st[m][k].child < |st|
    ensures st[m][k] == UNBOUND || st[m][k].IsKmap? ==> k != ANYOTHERKEY || !HasShadow(st, m)
    ensures key != ANYOTHERKEY ==> k != ANYOTHERKEY
  {
    if st[m][key] == IsFunc(LowercaseVersion) then
      var low := Lower(key);
      assert IsUpper(key) && !IsUpper(low);
      low
    else key
  }

  /** The key of the i-th letter. */
  function UpperKey(i: nat): Key
    requires i < 26
  {
    Letters(i);
    UPPERCASE[i] as int
  }

  function LowerKey(i: nat): Key
    requires i < 26
  {
    Letters(i);
    LOWERCASE[i] as int
  }

  /** An upper-case key and the key of the same letter in lower case. */
  predicate LetterPair(up: Key, low: Key) {
    exists i: nat | i < 26 :: up == UpperKey(i) && low == LowerKey(i)
  }

  lemma LowerIsPair(k: Key)
    ensures IsUpper(k) ==> LetterPair(k, Lower(k))
    ensures !IsUpper(k) ==> Lower(k) == k && forall low: Key :: !LetterPair(k, low)
  {
    if IsUpper(k) {
      var i := k - 65;
      Letters(i);
      assert k == UpperKey(i) && Lower(k) == LowerKey(i);
    } else if low: Key :| LetterPair(k, low) {
      var i: nat :| i < 26 && k == UpperKey(i) && low == LowerKey(i);
      Letters(i);
    }
  }

  /**
   A redirected letter is dispatched as if the same letter in lower case had been typed in that keymap, without any
   shadowed binding of the keymaps above: it runs what that is bound to, goes on in the submap that it leads to, or
   else falls back on what the keymap itself shadows.
  */
  lemma RedirectIsLowercase(st: Store, m: MapId, i: nat, got: bool, pend: seq<Key>)
    requires Ready(st) && m < |st| && i < 26 && st[m][UpperKey(i)] == IsFunc(LowercaseVersion)
    ensures RecDispatch(st, UpperKey(i), m, got, pend) == RecDispatch(st, LowerKey(i), m, false, pend)
    ensures RecDispatch(st, UpperKey(i), m, got, pend) ==
              match st[m][LowerKey(i)]
              case IsMacr(text) => Returned(0, [PushedMacro(text)], pend)
              case IsFunc(NoCommand) =>
                if st[m][ANYOTHERKEY] != UNBOUND then Returned(-2, [], [LowerKey(i)] + pend) else Aborted(pend)
              case IsFunc(fn) => Returned(0, [Ran(fn, LowerKey(i))], pend)
              case IsKmap(c) =>
                if pend == [] then Aborted([])
                else RecResult(st, RecDispatch(st, pend[0], c, HasShadow(st, m), pend[1..]), c, m, LowerKey(i), false)
  {
    Letters(i);
    assert Lower(UpperKey(i)) == LowerKey(i);
  }

  /** The redirected key is looked up as the same letter in lower case, and no other key is changed. */
  lemma LandsOnLowercase(st: Store, m: MapId, key: Key)
    requires Ready(st) && m < |st|
    ensures st[m][key] == IsFunc(LowercaseVersion) ==> LetterPair(key, Landing(st, m, key))
    ensures st[m][key] != IsFunc(LowercaseVersion) ==> Landing(st, m, key) == key
  {
    LowerIsPair(key);
  }
}
