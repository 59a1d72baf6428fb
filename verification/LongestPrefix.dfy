/**
 Which binding a dispatch runs, told by the bindings alone (readline-6.2/readline.c).

 The dispatcher looks for the longest prefix of its input that is bound.  Upper-case redirections change the keys that
 are looked up, and can make it forget a binding that it has passed.
*/
module LongestPrefix {
  import opened Options
  import opened Keymaps
  import opened Dispatch

  /** Some non-empty prefix of keys of at most n keys is bound. */
  ghost predicate BoundAt(st: Store, root: MapId, keys: seq<Key>, n: nat)
    requires Linked(st) && root < |st|
  {
    0 < n <= |keys| && Binding(st, root, keys[..n]) != UNBOUND
  }

  /** The length of the longest bound prefix among the first n keys, 0 if there is none. */
  ghost function LongestBound(st: Store, root: MapId, keys: seq<Key>, n: nat): (r: nat)
    requires Linked(st) && root < |st|
    ensures r <= n && (r != 0 ==> BoundAt(st, root, keys, r))
  {
    if n == 0 then 0 else if BoundAt(st, root, keys, n) then n else LongestBound(st, root, keys, n - 1)
  }

  lemma {:induction false} LongestBoundIsLongest(st: Store, root: MapId, keys: seq<Key>, n: nat)
    requires Linked(st) && root < |st|
    ensures forall j: nat | LongestBound(st, root, keys, n) < j <= n :: !BoundAt(st, root, keys, j)
  {
    if n > 0 {
      LongestBoundIsLongest(st, root, keys, n - 1);
    }
  }

  /** The length of the longest prefix among the first n keys that leads to a keymap. */
  ghost function OnTrie(st: Store, root: MapId, keys: seq<Key>, n: nat): (r: nat)
    requires Linked(st) && root < |st| && n <= |keys|
    ensures r <= n && Reach(st, root, keys[..r]).Some?
  {
    if n == 0 || Reach(st, root, keys[..n]).Some? then n else OnTrie(st, root, keys, n - 1)
  }

  lemma {:induction false} OnTrieIsLongest(st: Store, root: MapId, keys: seq<Key>, n: nat)
    requires Linked(st) && root < |st| && n <= |keys|
    ensures forall j: nat | OnTrie(st, root, keys, n) < j <= n :: Reach(st, root, keys[..j]) == None
  {
    if n > 0 {
      OnTrieIsLongest(st, root, keys, n - 1);
    }
  }

  /** Running the effective binding of a sequence: a shadowed function other than rl_insert is told ANYOTHERKEY. */
  ghost function RunBinding(st: Store, root: MapId, s: seq<Key>): Event
    requires Linked(st) && root < |st| && s != [] && Binding(st, root, s) != UNBOUND
  {
    match Binding(st, root, s)
    case IsMacr(text) => PushedMacro(text)
    case IsFunc(fn) =>
      if Direct(st, root, s).IsKmap? && fn != Insert then Ran(fn, ANYOTHERKEY) else Ran(fn, s[|s| - 1])
  }

  /** The keys that are left when the walk is given up: those behind the key that left the trie. */
  ghost function GivenUp(st: Store, root: MapId, keys: seq<Key>): Outcome
    requires Linked(st) && root < |st|
  {
    var i := OnTrie(st, root, keys, |keys|);
    Failed(if i < |keys| then keys[i + 1..] else [])
  }

  /**
   What dispatching the keys must do, told by the bindings alone: run the binding of the longest bound prefix and put
   back the keys behind it.  Without one, a root that shadows a binding is told so and any other gives up, as it does
   when the keys end inside of the trie.
  */
  ghost function MaximalMunch(st: Store, root: MapId, keys: seq<Key>): Outcome
    requires Linked(st) && root < |st|
  {
    var n := LongestBound(st, root, keys, |keys|);
    if Reach(st, root, keys).Some? then Failed([])
    else if n > 0 then Fired(RunBinding(st, root, keys[..n]), keys[n..])
    else if HasShadow(st, root) then BackedOut(keys)
    else GivenUp(st, root, keys)
  }

  // ----- redirections -----

  /** The keys as they are looked up: a key that the walk finds redirected is replaced by its lower-case version. */
  ghost function Lowered(st: Store, m: MapId, keys: seq<Key>): (low: seq<Key>)
    requires Ready(st) && m < |st|
    ensures |low| == |keys|
    decreases |keys|
  {
    if keys == [] then []
    else
      var k := Landing(st, m, keys[0]);
      [k] + if st[m][k].IsKmap? then Lowered(st, st[m][k].child, keys[1..]) else keys[1..]
  }

  /** The walk along keys, of which the first i are behind it, passes a redirection at key i. */
  ghost predicate RedirectedAt(st: Store, root: MapId, keys: seq<Key>, i: nat)
    requires Ready(st) && root < |st| && i < |keys|
  {
    var r := Reach(st, root, Lowered(st, root, keys)[..i]);
    r.Some? && st[r.value][keys[i]] == IsFunc(LowercaseVersion)
  }

  lemma {:induction false} ReachTail(st: Store, root: MapId, keys: seq<Key>)
    requires Linked(st) && root < |st| && keys != []
    ensures var e := st[root][keys[0]];
            Reach(st, root, keys) == if e.IsKmap? then Reach(st, e.child, keys[1..]) else None
    decreases |keys|
  {
    var e := st[root][keys[0]];
    if |keys| > 1 {
      ReachTail(st, root, keys[..|keys| - 1]);
      assert keys[..|keys| - 1][1..] == keys[1..][..|keys| - 2];
    } else {
      assert keys[..0] == [] && keys[1..] == [];
    }
  }

  /** Only redirected keys are looked up as other keys. */
  lemma {:induction false} LoweredAt(st: Store, root: MapId, keys: seq<Key>, i: nat)
    requires Ready(st) && root < |st| && i < |keys|
    ensures Lowered(st, root, keys)[i] == if RedirectedAt(st, root, keys, i) then Lower(keys[i]) else keys[i]
    ensures RedirectedAt(st, root, keys, i) ==> LetterPair(keys[i], Lowered(st, root, keys)[i])
    decreases i
  {
    var low := Lowered(st, root, keys);
    LowerIsPair(keys[i]);
    if i == 0 {
      assert low[..0] == [];
    } else {
      ReachTail(st, root, low[..i]);
      assert low[..i][1..] == low[1..][..i - 1];
      var e := st[root][low[0]];
      if e.IsKmap? {
        LoweredAt(st, e.child, keys[1..], i - 1);
      }
    }
  }

  /** The keys that are put back are the ones that were typed exactly if none of them was redirected. */
  lemma PutBackAsTyped(st: Store, root: MapId, keys: seq<Key>, n: nat)
    requires Ready(st) && root < |st| && n <= |keys|
    ensures Lowered(st, root, keys)[n..] == keys[n..] <==>
              forall i | n <= i < |keys| :: !RedirectedAt(st, root, keys, i)
  {
    var low := Lowered(st, root, keys);
    forall i | n <= i < |keys|
      ensures low[i] == keys[i] <==> !RedirectedAt(st, root, keys, i)
      ensures low[n..][i - n] == low[i] && keys[n..][i - n] == keys[i]
    {
      LoweredAt(st, root, keys, i);
    }
  }

  /** The walk along keys meets no redirection. */
  ghost predicate Straight(st: Store, m: MapId, keys: seq<Key>)
    requires Ready(st) && m < |st|
    decreases |keys|
  {
    keys != [] ==>
      var e := st[m][keys[0]];
      e != IsFunc(LowercaseVersion) && (e.IsKmap? ==> Straight(st, e.child, keys[1..]))
  }

  /** A key that was looked up is not redirected again. */
  lemma {:induction false} LoweredStraight(st: Store, m: MapId, keys: seq<Key>)
    requires Ready(st) && m < |st|
    ensures Straight(st, m, Lowered(st, m, keys))
    decreases |keys|
  {
    if keys != [] {
      var k := Landing(st, m, keys[0]);
      if st[m][k].IsKmap? {
        LoweredStraight(st, st[m][k].child, keys[1..]);
        assert Lowered(st, m, keys)[1..] == Lowered(st, st[m][k].child, keys[1..]);
      }
    }
  }

  /**
   The walk reaches a dead end and a binding was passed that a redirection made the dispatcher forget.  live says that
   a binding was passed, lost that it is forgotten already.
  */
  ghost predicate Forgets(st: Store, key: Key, m: MapId, live: bool, lost: bool, pend: seq<Key>)
    requires Ready(st) && m < |st|
    decreases |st| - m, IsUpper(key)
  {
    match st[m][key]
    case IsMacr(_) => false
    case IsFunc(fn) =>
      if fn == LowercaseVersion then Forgets(st, Lower(key), m, live, live && !HasShadow(st, m), pend)
      else fn == NoCommand && lost
    case IsKmap(c) =>
      pend != [] && Forgets(st, pend[0], c, live || HasShadow(st, c), lost && !HasShadow(st, c), pend[1..])
  }

  /** Dispatching keys is dispatching them as they are looked up, unless the walk forgets a binding; then it fails. */
  lemma {:induction false} ScanLowered(st: Store, key: Key, m: MapId, best: Option<Shadow>, trail: seq<Key>, lost: bool,
                                       pend: seq<Key>, start: bool)
    requires Ready(st) && m < |st| && Candidate(st, m, best, trail)
    requires lost ==> best.Some? && !HasShadow(st, m)
    ensures var low := Lowered(st, m, [key] + pend);
            var o := Scan(st, key, m, if lost then None else best, if lost then [] else trail, pend, start, false);
            var o' := Scan(st, low[0], m, best, trail, low[1..], start, false);
            if Forgets(st, key, m, best.Some?, lost, pend) then o.Failed? && !o'.Failed? else o == o'
    decreases |st| - m, IsUpper(key)
  {
    var keys := [key] + pend;
    assert keys[1..] == pend;
    var low := Lowered(st, m, keys);
    var k := Landing(st, m, key);
    match st[m][key]
    case IsMacr(_) =>
    case IsFunc(fn) =>
      if fn == LowercaseVersion {
        var keys' := [k] + pend;
        assert keys'[1..] == pend;
        assert Lowered(st, m, keys') == low;
        assert k == Lower(key);
        ScanLowered(st, k, m, best, trail, best.Some? && !HasShadow(st, m), pend, true);
        StartOver(st, low[0], m, best, trail, low[1..], start, true);
      } else {
        assert low == keys;
      }
    case IsKmap(c) =>
      var rest := Lowered(st, c, pend);
      assert low == [key] + rest && low[1..] == rest;
      if pend != [] {
        assert pend == [pend[0]] + pend[1..];
        ScanLowered(st, pend[0], c, BestBelow(st, c, key, best), TrailBelow(st, c, key, best, trail),
                    lost && !HasShadow(st, c), pend[1..], false);
      }
  }

  /** Where a scan started matters to a lossy one only. */
  lemma StartOver(st: Store, key: Key, m: MapId, best: Option<Shadow>, trail: seq<Key>, pend: seq<Key>,
                  start: bool, start': bool)
    requires Ready(st) && m < |st| && Candidate(st, m, best, trail)
    ensures Scan(st, key, m, best, trail, pend, start, false) == Scan(st, key, m, best, trail, pend, start', false)
  {
  }

  // ----- the scanner munches -----

  /** trail is what comes just before key i. */
  predicate Trails(keys: seq<Key>, i: nat, trail: seq<Key>) {
    |trail| <= i <= |keys| && forall k | 0 <= k < |trail| :: trail[k] == keys[i - |trail| + k]
  }

  /** What the scanner knows after i keys that all lead to submaps. */
  ghost predicate Passed(st: Store, root: MapId, keys: seq<Key>, i: nat, m: MapId, best: Option<Shadow>,
                         trail: seq<Key>)
    requires Linked(st) && root < |st|
  {
    && i < |keys| && Reach(st, root, keys[..i]) == Some(m)
    && Trails(keys, i, trail)
    && match best
       case None => trail == [] && !HasShadow(st, root) && LongestBound(st, root, keys, i) == 0
       case Some(Shadow(node, via)) =>
         var n := i - |trail|;
         && LongestBound(st, root, keys, i) == n
         && Reach(st, root, keys[..n]) == Some(node)
         && if n > 0 then via == Some(keys[n - 1]) else via == None && HasShadow(st, root)
  }

  lemma {:induction false} DeadEnd(st: Store, root: MapId, keys: seq<Key>, i: nat, n: nat)
    requires Linked(st) && root < |st| && i < n <= |keys| && Reach(st, root, keys[..i]).Some?
    requires !Direct(st, root, keys[..i + 1]).IsKmap?
    ensures LongestBound(st, root, keys, n) == LongestBound(st, root, keys, i + 1)
    ensures OnTrie(st, root, keys, n) == i
  {
    ReachLast(st, root, keys[..i + 1]);
    assert OnTrie(st, root, keys, i) == i;
    if n > i + 1 {
      assert keys[..n][..i + 1] == keys[..i + 1];
      OffTrie(st, root, keys[..n], i + 1);
      DeadEnd(st, root, keys, i, n - 1);
    }
  }

  lemma DirectAt(st: Store, root: MapId, keys: seq<Key>, i: nat, m: MapId)
    requires Linked(st) && root < |st| && i < |keys| && Reach(st, root, keys[..i]) == Some(m)
    ensures var e := st[m][keys[i]];
            Direct(st, root, keys[..i + 1]) == e && (e.IsKmap? ==> e.child < |st|) &&
            Reach(st, root, keys[..i + 1]) == (if e.IsKmap? then Some(e.child) else None) &&
            (BoundAt(st, root, keys, i + 1) <==> if e.IsKmap? then HasShadow(st, e.child) else e != UNBOUND)
  {
    assert keys[..i + 1][..i] == keys[..i];
  }

  lemma PassKey(st: Store, root: MapId, keys: seq<Key>, i: nat, m: MapId, best: Option<Shadow>, trail: seq<Key>)
    requires Ready(st) && root < |st| && i + 1 < |keys|
    requires Passed(st, root, keys, i, m, best, trail) && Candidate(st, m, best, trail)
    requires st[m][keys[i]].IsKmap?
    ensures var c := st[m][keys[i]].child;
            var best', trail' := BestBelow(st, c, keys[i], best), TrailBelow(st, c, keys[i], best, trail);
            Passed(st, root, keys, i + 1, c, best', trail') && Candidate(st, c, best', trail')
  {
    DirectAt(st, root, keys, i, m);
    var c := st[m][keys[i]].child;
    assert LongestBound(st, root, keys, i + 1) == if HasShadow(st, c) then i + 1 else LongestBound(st, root, keys, i);
    assert Trails(keys, i + 1, TrailBelow(st, c, keys[i], best, trail));
  }

  lemma StraightTail(st: Store, m: MapId, keys: seq<Key>, i: nat)
    requires Ready(st) && m < |st| && i < |keys| && Straight(st, m, keys[i..])
    ensures var e := st[m][keys[i]];
            e != IsFunc(LowercaseVersion) && (e.IsKmap? ==> Straight(st, e.child, keys[i + 1..]))
  {
    assert keys[i..][0] == keys[i] && keys[i..][1..] == keys[i + 1..];
  }

  lemma ScanStep(st: Store, keys: seq<Key>, i: nat, m: MapId, best: Option<Shadow>, trail: seq<Key>, start: bool)
    requires Ready(st) && m < |st| && Candidate(st, m, best, trail) && i + 1 < |keys| && st[m][keys[i]].IsKmap?
    ensures Scan(st, keys[i], m, best, trail, keys[i + 1..], start, false) ==
              var c := st[m][keys[i]].child;
              Scan(st, keys[i + 1], c, BestBelow(st, c, keys[i], best), TrailBelow(st, c, keys[i], best, trail),
                   keys[i + 2..], false, false)
  {
    assert keys[i + 1..][0] == keys[i + 1] && keys[i + 1..][1..] == keys[i + 2..];
  }

  /** The scan that comes to o is at key i, in keymap m. */
  ghost predicate ScansAt(st: Store, root: MapId, keys: seq<Key>, i: nat, m: MapId, best: Option<Shadow>,
                          trail: seq<Key>, start: bool, o: Outcome)
    requires Ready(st) && root < |st|
  {
    && Passed(st, root, keys, i, m, best, trail) && Candidate(st, m, best, trail) && Straight(st, m, keys[i..])
    && o == Scan(st, keys[i], m, best, trail, keys[i + 1..], start, false)
  }

  lemma ScansOn(st: Store, root: MapId, keys: seq<Key>, i: nat, m: MapId, best: Option<Shadow>, trail: seq<Key>,
                start: bool, o: Outcome)
    requires Ready(st) && root < |st| && ScansAt(st, root, keys, i, m, best, trail, start, o)
    requires st[m][keys[i]].IsKmap? && i + 1 < |keys|
    ensures var c := st[m][keys[i]].child;
            ScansAt(st, root, keys, i + 1, c, BestBelow(st, c, keys[i], best), TrailBelow(st, c, keys[i], best, trail),
                    false, o)
  {
    StraightTail(st, m, keys, i);
    PassKey(st, root, keys, i, m, best, trail);
    ScanStep(st, keys, i, m, best, trail, start);
  }

  lemma {:induction false} ScanEnds(st: Store, root: MapId, keys: seq<Key>, i: nat, m: MapId, best: Option<Shadow>,
                                    trail: seq<Key>, start: bool, o: Outcome)
    requires Ready(st) && root < |st| && ScansAt(st, root, keys, i, m, best, trail, start, o)
    ensures o == MaximalMunch(st, root, keys)
    decreases |keys| - i
  {
    if st[m][keys[i]].IsKmap? && i + 1 < |keys| {
      var c := st[m][keys[i]].child;
      ScansOn(st, root, keys, i, m, best, trail, start, o);
      ScanEnds(st, root, keys, i + 1, c, BestBelow(st, c, keys[i], best), TrailBelow(st, c, keys[i], best, trail),
               false, o);
    } else {
      ScanEnded(st, root, keys, i, m, best, trail, start, o);
    }
  }

  lemma ScanEnded(st: Store, root: MapId, keys: seq<Key>, i: nat, m: MapId, best: Option<Shadow>, trail: seq<Key>,
                  start: bool, o: Outcome)
    requires Ready(st) && root < |st| && ScansAt(st, root, keys, i, m, best, trail, start, o)
    requires st[m][keys[i]].IsKmap? ==> i + 1 == |keys|
    ensures o == MaximalMunch(st, root, keys)
  {
    if st[m][keys[i]].IsKmap? {
      EndOfInputMunches(st, root, keys, i, m);
    } else {
      StraightTail(st, m, keys, i);
      EndMunches(st, root, keys, i, m, best, trail, start);
    }
  }

  lemma ScanMunches(st: Store, root: MapId, keys: seq<Key>)
    requires Ready(st) && root < |st| && keys != [] && Straight(st, root, keys)
    ensures Match(st, root, keys, false) == MaximalMunch(st, root, keys)
  {
    var shadow := TopShadow(st, root);
    assert Passed(st, root, keys, 0, root, shadow, []) by {
      assert keys[..0] == [];
    }
    assert Straight(st, root, keys[0..]) by {
      assert keys[0..] == keys;
    }
    ScanEnds(st, root, keys, 0, root, shadow, [], true, Match(st, root, keys, false));
  }

  lemma EndOfInputMunches(st: Store, root: MapId, keys: seq<Key>, i: nat, m: MapId)
    requires Ready(st) && root < |st| && i + 1 == |keys| && Reach(st, root, keys[..i]) == Some(m)
    requires st[m][keys[i]].IsKmap?
    ensures MaximalMunch(st, root, keys) == Failed([])
  {
    DirectAt(st, root, keys, i, m);
    assert keys[..i + 1] == keys;
  }

  lemma EndMunches(st: Store, root: MapId, keys: seq<Key>, i: nat, m: MapId, best: Option<Shadow>, trail: seq<Key>,
                   start: bool)
    requires Ready(st) && root < |st|
    requires Passed(st, root, keys, i, m, best, trail) && Candidate(st, m, best, trail)
    requires !st[m][keys[i]].IsKmap? && st[m][keys[i]] != IsFunc(LowercaseVersion)
    ensures Scan(st, keys[i], m, best, trail, keys[i + 1..], start, false) == MaximalMunch(st, root, keys)
  {
    DirectAt(st, root, keys, i, m);
    OffTrie(st, root, keys, i + 1);
    DeadEnd(st, root, keys, i, |keys|);
    if st[m][keys[i]] != UNBOUND {
      assert keys[..i + 1][i] == keys[i];
    } else {
      DeadEndMunches(st, root, keys, i, m, best, trail);
    }
  }

  lemma RunsShadow(st: Store, root: MapId, p: seq<Key>, node: MapId)
    requires Ready(st) && root < |st| && p != [] && Reach(st, root, p) == Some(node) && HasShadow(st, node)
    ensures Binding(st, root, p) != UNBOUND && RunBinding(st, root, p) == RunShadow(st, node, p[|p| - 1])
  {
    ReachLast(st, root, p);
  }

  lemma TrailAndRest(keys: seq<Key>, i: nat, trail: seq<Key>)
    requires i < |keys| && Trails(keys, i, trail)
    ensures trail + [keys[i]] + keys[i + 1..] == keys[i - |trail|..]
  {
  }

  /** At a dead end, the keys put back are the ones after the longest bound prefix. */
  lemma DeadEndMunches(st: Store, root: MapId, keys: seq<Key>, i: nat, m: MapId, best: Option<Shadow>, trail: seq<Key>)
    requires Ready(st) && root < |st|
    requires Passed(st, root, keys, i, m, best, trail) && Candidate(st, m, best, trail)
    requires Reach(st, root, keys) == None && OnTrie(st, root, keys, |keys|) == i
    requires LongestBound(st, root, keys, |keys|) == LongestBound(st, root, keys, i)
    ensures Fire(st, best, trail + [keys[i]] + keys[i + 1..], keys[i + 1..]) == MaximalMunch(st, root, keys)
  {
    match best
    case None =>
    case Some(Shadow(node, via)) =>
      var n := i - |trail|;
      TrailAndRest(keys, i, trail);
      if n > 0 {
        RunsShadow(st, root, keys[..n], node);
        assert keys[..n][n - 1] == keys[n - 1];
      }
  }

  /** What a top-level dispatch does with the keys that are there to read. */
  ghost function Dispatched(st: Store, root: MapId, keys: seq<Key>): Outcome
    requires Ready(st) && root < |st| && keys != []
  {
    TopOutcome(RecDispatch(st, keys[0], root, false, keys[1..]))
  }

  /**
   Dispatching keys, as they are looked up, runs the binding of the longest bound prefix and leaves exactly the keys
   after it, or gives up when no prefix is bound or the input ends inside the trie, if and only if the walk forgets no
   binding.  If it forgets one, nothing runs although a prefix is bound.
  */
  lemma DispatchRunsLongestPrefix(st: Store, root: MapId, keys: seq<Key>)
    requires Ready(st) && root < |st| && keys != []
    ensures var o := MaximalMunch(st, root, Lowered(st, root, keys));
            var forgets := Forgets(st, keys[0], root, HasShadow(st, root), false, keys[1..]);
            (Dispatched(st, root, keys) == o <==> !forgets) &&
            (forgets ==> Dispatched(st, root, keys).Failed? && (o.Fired? || o.BackedOut?))
  {
    var low := Lowered(st, root, keys);
    DispatchIsMatch(st, root, keys);
    assert keys == [keys[0]] + keys[1..];
    ScanLowered(st, keys[0], root, TopShadow(st, root), [], false, keys[1..], true);
    LoweredStraight(st, root, keys);
    ScanMunches(st, root, low);
  }

  /**
   A walk that forgets: 27 is bound to a keymap that shadows a function, 91 leads on to a map that shadows nothing, and
   there 65 is redirected to 97, which is unbound.  Nothing runs, although the prefix 27 is bound.
  */
  lemma RedirectForgets() returns (st: Store, keys: seq<Key>)
    ensures Tree(st) && Ready(st) && |st| == 3 && !HasShadow(st, 0) && keys == [27, 91, 65]
    ensures BoundAt(st, 0, keys, 1) && Dispatched(st, 0, keys) == Failed([])
  {
    var top := Bare()[27 := IsKmap(1)];
    var mid := Bare()[ANYOTHERKEY := IsFunc(Other(1))][91 := IsKmap(2)];
    var low := Bare()[65 := IsFunc(LowercaseVersion)];
    st, keys := [top, mid, low], [27, 91, 65];
    assert keys[1..] == [91, 65] && keys[1..][1..] == [65] && keys[1..][1..][1..] == [];
    assert keys[..1][..0] == [] && Direct(st, 0, keys[..1]) == IsKmap(1);
    assert Binding(st, 0, keys[..1]) == mid[ANYOTHERKEY];
    DispatchIsMatch(st, 0, keys);
    var shadow := Some(Shadow(1, Some(27)));
    assert Match(st, 0, keys, false) == Scan(st, 91, 1, shadow, [], [65], false, false);
    assert Scan(st, 91, 1, shadow, [], [65], false, false) == Scan(st, 65, 2, shadow, [91], [], false, false);
    assert Scan(st, 65, 2, shadow, [91], [], false, false) == Scan(st, 97, 2, None, [], [], true, false) == Failed([]);
  }
}
