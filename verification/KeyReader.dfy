/**
 The key reader: dispatching in its two forms (readline-6.2/readline.c, readline-6.2/callback.c).

 Outside callback mode a key bound to a keymap makes the dispatcher read another key and recurse.  In callback mode
 every key arrives in a call of its own, so the pending calls are kept in an explicit chain of contexts.
*/
module KeyReader {
  import opened Options
  import opened Text
  import opened Keymaps
  import opened Dispatch
  import opened Losses

  // ----- whole runs -----

  /** The commands that reading keys to the end runs, one dispatch after the other. */
  ghost function Session(st: Store, root: MapId, keys: seq<Key>, lossy: bool): seq<Event>
    requires Ready(st) && root < |st| && !HasShadow(st, root)
    decreases |keys|, 0
  {
    if keys == [] then [] else After(st, root, Match(st, root, keys, lossy), lossy)
  }

  /** The commands of an outcome and of reading what it leaves. */
  ghost function After(st: Store, root: MapId, o: Outcome, lossy: bool): seq<Event>
    requires Ready(st) && root < |st| && !HasShadow(st, root)
    decreases |o.pending|, 1
  {
    match o
    case Fired(ran, pending) => [ran] + Session(st, root, pending, lossy)
    case Failed(pending) => Session(st, root, pending, lossy)
    case BackedOut(_) => []
  }

  /** One command: the two forms of the dispatcher do the same exactly when the walk loses no shadowed binding; if
   it loses one the callback form fails where the recursion does not. */
  lemma SameCommand(st: Store, root: MapId, keys: seq<Key>)
    requires Ready(st) && root < |st| && keys != []
    ensures Match(st, root, keys, false) == Match(st, root, keys, true)
            <==> !Loses(st, keys[0], root, true, false, keys[1..])
    ensures Loses(st, keys[0], root, true, false, keys[1..]) ==>
              !Match(st, root, keys, false).Failed? && Match(st, root, keys, true).Failed?
  {
    LossyScan(st, keys[0], root, true, false, keys[1..], TopShadow(st, root), []);
  }

  /**
   A keymap in which they differ although the root shadows nothing: 27 leads to a map that shadows a function, where
   65 is a redirection and 97 leads on.  After 27 65 120 the recursion falls back to the shadowed function; the chain
   has forgotten it and aborts.
  */
  lemma RedirectLosesShadow() returns (st: Store, keys: seq<Key>)
    ensures Tree(st) && Ready(st) && |st| == 3 && !HasShadow(st, 0) && keys == [27, 65, 120]
    ensures Match(st, 0, keys, false) == Fired(Ran(Other(1), ANYOTHERKEY), [97, 120])
    ensures Match(st, 0, keys, true) == Failed([])
  {
    var top := Bare()[27 := IsKmap(1)];
    var mid := Bare()[ANYOTHERKEY := IsFunc(Other(1))][65 := IsFunc(LowercaseVersion)][97 := IsKmap(2)];
    st, keys := [top, mid, Bare()], [27, 65, 120];
    var shadow := Some(Shadow(1, Some(27)));
    assert keys[1..] == [65, 120] && keys[1..][1..] == [120] && keys[1..][1..][1..] == [];
    forall lossy: bool
      ensures Match(st, 0, keys, lossy) == Scan(st, 97, 1, shadow, [], [120], true, lossy)
    {
      assert Match(st, 0, keys, lossy) == Scan(st, 65, 1, shadow, [], [120], false, lossy);
    }
    assert Scan(st, 97, 1, shadow, [], [120], true, false) == Scan(st, 120, 2, shadow, [97], [], false, false);
    assert Scan(st, 97, 1, shadow, [], [120], true, true) == Scan(st, 120, 2, None, [], [], false, true);
    assert [97] + [120] + [] == [97, 120];
  }

  /** Reading keys to the end, no walk loses a shadowed binding. */
  ghost predicate NeverLoses(st: Store, root: MapId, keys: seq<Key>)
    requires Ready(st) && root < |st| && !HasShadow(st, root)
    decreases |keys|
  {
    keys != [] ==>
      !Loses(st, keys[0], root, true, false, keys[1..]) && NeverLoses(st, root, Match(st, root, keys, false).pending)
  }

  /** Whole runs: as long as no walk loses a shadowed binding the two forms run the same commands. */
  lemma {:induction false} SameRun(st: Store, root: MapId, keys: seq<Key>)
    requires Ready(st) && root < |st| && !HasShadow(st, root) && NeverLoses(st, root, keys)
    ensures Session(st, root, keys, false) == Session(st, root, keys, true)
    decreases |keys|
  {
    if keys != [] {
      SameCommand(st, root, keys);
      SameRun(st, root, Match(st, root, keys, false).pending);
    }
  }

  /** The keymaps let a binding be lost exactly if there are keys that lose one. */
  lemma LosingKeysExist(st: Store, root: MapId)
    requires Ready(st) && root < |st| && !HasShadow(st, root)
    ensures CanLose(st, root, true, false) <==>
              exists key: Key, pend: seq<Key> :: Loses(st, key, root, true, false, pend)
  {
    if CanLose(st, root, true, false) {
      var keys := LosingKeys(st, root, true, false, None, []);
      var key, pend := keys[0], keys[1..];
      assert Loses(st, key, root, true, false, pend);
      assert exists key: Key, pend: seq<Key> :: Loses(st, key, root, true, false, pend);
    } else {
      forall key: Key, pend: seq<Key>
        ensures !Loses(st, key, root, true, false, pend)
      {
        NothingToLose(st, root, key, pend);
      }
    }
  }

  lemma NothingToLose(st: Store, root: MapId, key: Key, pend: seq<Key>)
    requires Ready(st) && root < |st| && !CanLose(st, root, true, false)
    ensures !Loses(st, key, root, true, false, pend)
  {
    if Loses(st, key, root, true, false, pend) {
      LosesByKeymaps(st, key, root, true, false, pend);
    }
  }

  lemma {:induction false} NeverLosesAnything(st: Store, root: MapId, keys: seq<Key>)
    requires Ready(st) && root < |st| && !HasShadow(st, root) && !CanLose(st, root, true, false)
    ensures NeverLoses(st, root, keys)
    decreases |keys|
  {
    if keys != [] {
      NothingToLose(st, root, keys[0], keys[1..]);
      NeverLosesAnything(st, root, Match(st, root, keys, false).pending);
    }
  }

  /** Whatever is typed the two forms run the same commands, if and only if the keymaps let no binding be lost. */
  lemma SameSession(st: Store, root: MapId)
    requires Ready(st) && root < |st| && !HasShadow(st, root)
    ensures (forall keys :: Session(st, root, keys, false) == Session(st, root, keys, true))
            <==> !CanLose(st, root, true, false)
  {
    if CanLose(st, root, true, false) {
      var keys := SessionsDiffer(st, root);
      assert !(forall keys :: Session(st, root, keys, false) == Session(st, root, keys, true));
    } else {
      forall keys
        ensures Session(st, root, keys, false) == Session(st, root, keys, true)
      {
        NeverLosesAnything(st, root, keys);
        SameRun(st, root, keys);
      }
    }
  }

  /** After keys that lose a binding and end there, the recursion has run a command and the callback form none. */
  lemma SessionsDiffer(st: Store, root: MapId) returns (keys: seq<Key>)
    requires Ready(st) && root < |st| && !HasShadow(st, root) && CanLose(st, root, true, false)
    ensures Session(st, root, keys, true) == [] && Session(st, root, keys, false) != []
    ensures Session(st, root, keys, false) != Session(st, root, keys, true)
  {
    keys := LosingKeys(st, root, true, false, None, []);
    SameCommand(st, root, keys);
    assert Match(st, root, keys, true) == Failed([]) && Match(st, root, keys, false).Fired?;
  }

  /** Clean keymaps are such. */
  lemma CleanNeverLoses(st: Store, root: MapId)
    requires Ready(st) && root < |st| && Clean(st, root)
    ensures !CanLose(st, root, true, false)
  {
    LosingKeysExist(st, root);
    forall key, pend
      ensures !Loses(st, key, root, true, false, pend)
    {
      CleanKeeps(st, root, key, root, true, pend);
    }
  }

  /** _rl_keyseq_cxt: one suspended level of the recursion. */
  datatype Context = Context(okey: Key, oldmap: MapId, dmap: MapId, subseqArg: bool, subseq: bool, dispatched: bool,
                             childval: int)

  // ----- the context chain as an unfinished scan -----

  /** The contexts, innermost first, are suspended levels of one walk from root. */
  ghost predicate ChainOk(st: Store, root: MapId, chain: seq<Context>) {
    chain == [] ||
    var top := chain[0];
    && top.oldmap < |st| && top.dmap < |st| && st[top.oldmap][top.okey] == IsKmap(top.dmap)
    && top.subseqArg == (top.subseq || HasShadow(st, top.dmap))
    && (if |chain| == 1 then top.oldmap == root && !top.subseq
        else top.oldmap == chain[1].dmap && (top.subseq ==> chain[1].subseqArg))
    && ChainOk(st, root, chain[1..])
  }

  ghost function BestOf(st: Store, root: MapId, chain: seq<Context>): (best: Option<Shadow>)
    requires Ready(st) && ChainOk(st, root, chain)
    ensures chain != [] ==> (best.Some? <==> chain[0].subseqArg)
    ensures best.Some? ==> best.value.via.Some?
  {
    if chain == [] then None
    else if HasShadow(st, chain[0].dmap) then Some(Shadow(chain[0].dmap, Some(chain[0].okey)))
    else if chain[0].subseq then BestOf(st, root, chain[1..])
    else None
  }

  ghost function TrailOf(st: Store, root: MapId, chain: seq<Context>): seq<Key>
    requires Ready(st) && ChainOk(st, root, chain)
  {
    if chain == [] || HasShadow(st, chain[0].dmap) || !chain[0].subseq then []
    else TrailOf(st, root, chain[1..]) + [chain[0].okey]
  }

  lemma {:induction false} ChainCandidate(st: Store, root: MapId, chain: seq<Context>)
    requires Ready(st) && ChainOk(st, root, chain) && chain != []
    ensures var m := chain[0].dmap;
            root < m && Candidate(st, m, BestOf(st, root, chain), TrailOf(st, root, chain))
    decreases |chain|
  {
    if |chain| > 1 {
      ChainCandidate(st, root, chain[1..]);
    }
  }

  /** What the innermost context will come to, given the keys to read. */
  ghost function Resumed(st: Store, root: MapId, chain: seq<Context>, pend: seq<Key>): Outcome
    requires Ready(st) && ChainOk(st, root, chain) && chain != []
  {
    if pend == [] then Failed([])
    else
      ChainCandidate(st, root, chain);
      Scan(st, pend[0], chain[0].dmap, BestOf(st, root, chain), TrailOf(st, root, chain), pend[1..], false, true)
  }

  /** The outcome of going back to the last shadowed binding of the chain. */
  ghost function Unwound(st: Store, root: MapId, chain: seq<Context>, pend: seq<Key>): Outcome
    requires Ready(st) && ChainOk(st, root, chain) && chain != []
  {
    ChainCandidate(st, root, chain);
    Fire(st, BestOf(st, root, chain), TrailOf(st, root, chain) + pend, [])
  }

  ghost function RunEntry(e: Entry, key: Slot): Event
    requires e != UNBOUND && !e.IsKmap?
  {
    match e
    case IsMacr(text) => PushedMacro(text)
    case IsFunc(fn) => Ran(fn, key)
  }

  lemma EndFirst(st: Store, root: MapId, key: Key, pend: seq<Key>, k: Key)
    requires Ready(st) && root < |st| && !HasShadow(st, root)
    requires k == Landing(st, root, key) && !st[root][k].IsKmap?
    ensures Match(st, root, [key] + pend, true)
         == if st[root][k] != UNBOUND then Fired(RunEntry(st[root][k], k), pend) else Failed(pend)
  {
    assert ([key] + pend)[1..] == pend;
    if k != key {
      ScanLanding(st, key, root, None, pend, [], true);
    }
  }

  ghost predicate AllDispatched(chain: seq<Context>) {
    forall i | 0 <= i < |chain| :: chain[i].dispatched
  }

  /** Marking a context, or telling it the value of its child, changes nothing about the walk. */
  lemma {:induction false} Flagged(st: Store, root: MapId, chain: seq<Context>, i: nat, c: Context)
    requires Ready(st) && ChainOk(st, root, chain) && i < |chain|
    requires c == chain[i].(dispatched := c.dispatched, childval := c.childval)
    ensures var chain' := chain[i := c];
            ChainOk(st, root, chain') && BestOf(st, root, chain') == BestOf(st, root, chain) &&
            TrailOf(st, root, chain') == TrailOf(st, root, chain)
    decreases i
  {
    var chain' := chain[i := c];
    if i == 0 {
      assert chain'[1..] == chain[1..];
    } else {
      Flagged(st, root, chain[1..], i - 1, c);
      assert chain'[1..] == chain[1..][i - 1 := c];
    }
  }

  lemma {:induction false} TrailShort(st: Store, root: MapId, chain: seq<Context>)
    requires Ready(st) && ChainOk(st, root, chain) && BestOf(st, root, chain).Some?
    ensures |TrailOf(st, root, chain)| < |chain|
  {
    if !HasShadow(st, chain[0].dmap) {
      TrailShort(st, root, chain[1..]);
    }
  }

  /** One suspended level that did not match puts its key back and hands over to the level above. */
  lemma UnwindLevel(st: Store, root: MapId, chain: seq<Context>, pend: seq<Key>)
    requires Ready(st) && ChainOk(st, root, chain) && chain != [] && BestOf(st, root, chain).Some?
    requires !HasShadow(st, chain[0].dmap)
    ensures |chain| > 1 && BestOf(st, root, chain[1..]).Some?
    ensures Unwound(st, root, chain, pend) == Unwound(st, root, chain[1..], [chain[0].okey] + pend)
    ensures HasShadow(st, chain[0].oldmap) || chain[0].subseq
  {
    assert TrailOf(st, root, chain[1..]) + [chain[0].okey] + pend
        == TrailOf(st, root, chain[1..]) + ([chain[0].okey] + pend);
  }

  lemma ScanLanding(st: Store, key: Key, m: MapId, best: Option<Shadow>, pend: seq<Key>, trail: seq<Key>, start: bool)
    requires Ready(st) && m < |st| && Candidate(st, m, best, trail) && Landing(st, m, key) != key
    ensures Scan(st, key, m, best, trail, pend, start, true)
         == Scan(st, Landing(st, m, key), m, if HasShadow(st, m) then best else None, [], pend, true, true)
  {
  }

  /** A key that ends the walk of a chain. */
  lemma EndContext(st: Store, root: MapId, chain: seq<Context>, key: Key, pend: seq<Key>, k: Key)
    requires Ready(st) && ChainOk(st, root, chain) && chain != []
    requires chain[0].dmap < |st| && k == Landing(st, chain[0].dmap, key) && !st[chain[0].dmap][k].IsKmap?
    ensures var m := chain[0].dmap;
            var o := Resumed(st, root, chain, [key] + pend);
            if st[m][k] != UNBOUND then o == Fired(RunEntry(st[m][k], k), pend)
            else if HasShadow(st, m) || (chain[0].subseqArg && k == key) then
              BestOf(st, root, chain).Some? && o == Unwound(st, root, chain, [k] + pend)
            else o == Failed(pend)
  {
    var m, best, trail := chain[0].dmap, BestOf(st, root, chain), TrailOf(st, root, chain);
    ChainCandidate(st, root, chain);
    assert ([key] + pend)[1..] == pend;
    assert trail + [k] + pend == trail + ([k] + pend) && [] + [k] + pend == [] + ([k] + pend);
    if k != key {
      ScanLanding(st, key, m, best, pend, trail, false);
    }
  }

  /** What reading a key means for the walk of a chain, once its context is marked. */
  lemma ReadLevel(st: Store, root: MapId, chain: seq<Context>, pend: seq<Key>)
    requires Ready(st) && ChainOk(st, root, chain) && chain != [] && pend != [] && chain[0].dmap < |st|
    ensures var m, k := chain[0].dmap, Landing(st, chain[0].dmap, pend[0]);
            var g := chain[0].subseqArg && k == pend[0];
            var marked := chain[0 := chain[0].(dispatched := true)];
            var o := Resumed(st, root, chain, pend);
            ChainOk(st, root, marked) &&
            match st[m][k]
            case IsKmap(c) =>
              var chain' := [Context(k, m, c, g || HasShadow(st, c), g, false, 42)] + marked;
              ChainOk(st, root, chain') && o == Resumed(st, root, chain', pend[1..])
            case e =>
              if e != UNBOUND then o == Fired(RunEntry(e, k), pend[1..])
              else if HasShadow(st, m) || g then
                BestOf(st, root, marked).Some? && o == Unwound(st, root, marked, [k] + pend[1..])
              else o == Failed(pend[1..])
  {
    var k := Landing(st, chain[0].dmap, pend[0]);
    var c := chain[0].(dispatched := true);
    assert pend == [pend[0]] + pend[1..];
    Flagged(st, root, chain, 0, c);
    if st[chain[0].dmap][k].IsKmap? {
      PushContext(st, root, chain[0 := c], pend[0], pend[1..], k);
      ResumedFlagged(st, root, chain, c, pend);
    } else {
      EndContext(st, root, chain, pend[0], pend[1..], k);
    }
  }

  lemma ResumedFlagged(st: Store, root: MapId, chain: seq<Context>, c: Context, pend: seq<Key>)
    requires Ready(st) && ChainOk(st, root, chain) && chain != []
    requires c == chain[0].(dispatched := c.dispatched, childval := c.childval)
    ensures ChainOk(st, root, chain[0 := c])
    ensures Resumed(st, root, chain[0 := c], pend) == Resumed(st, root, chain, pend)
  {
    Flagged(st, root, chain, 0, c);
  }

  /** Entering a submap in callback mode continues the scan. */
  lemma PushContext(st: Store, root: MapId, chain: seq<Context>, key: Key, pend: seq<Key>, k: Key)
    requires Ready(st) && ChainOk(st, root, chain) && chain != []
    requires k == Landing(st, chain[0].dmap, key) && st[chain[0].dmap][k].IsKmap?
    ensures var m := chain[0].dmap;
            var c := st[m][k].child;
            var g := chain[0].subseqArg && k == key;
            var chain' := [Context(k, m, c, g || HasShadow(st, c), g, false, 42)] + chain;
            ChainOk(st, root, chain') && Resumed(st, root, chain', pend) == Resumed(st, root, chain, [key] + pend)
  {
    ChainCandidate(st, root, chain);
    var m := chain[0].dmap;
    var c := st[m][k].child;
    var g := chain[0].subseqArg && k == key;
    var chain' := [Context(k, m, c, g || HasShadow(st, c), g, false, 42)] + chain;
    assert chain'[1..] == chain;
    ChainCandidate(st, root, chain');
    assert ([key] + pend)[1..] == pend;
    if k != key {
      ScanLanding(st, key, m, BestOf(st, root, chain), pend, TrailOf(st, root, chain), false);
    }
  }

  lemma PushFirst(st: Store, root: MapId, key: Key, pend: seq<Key>, k: Key)
    requires Ready(st) && root < |st| && !HasShadow(st, root)
    requires k == Landing(st, root, key) && st[root][k].IsKmap?
    ensures var c := st[root][k].child;
            var chain := [Context(k, root, c, HasShadow(st, c), false, false, 42)];
            ChainOk(st, root, chain) && Resumed(st, root, chain, pend) == Match(st, root, [key] + pend, true)
  {
    var c := st[root][k].child;
    var chain := [Context(k, root, c, HasShadow(st, c), false, false, 42)];
    ChainCandidate(st, root, chain);
    assert ([key] + pend)[1..] == pend;
    if k != key {
      ScanLanding(st, key, root, None, pend, [], true);
    }
  }

  class Reader {
    var maps: Store
    var at: MapId              // _rl_dispatching_keymap
    var pushed: seq<Key>       // keys put back, next one first
    var terminal: seq<Key>     // keys not read yet
    var log: seq<Event>
    const callback: bool       // RL_STATE_CALLBACK
    var multikey: bool         // RL_STATE_MULTIKEY
    var chain: seq<Context>    // _rl_kscxt, innermost context first

    constructor (maps: Store, keys: seq<Key>, callback: bool)
      ensures this.maps == maps && this.callback == callback && terminal == keys && pushed == []
      ensures log == [] && chain == [] && !multikey
    {
      this.maps, this.at, this.pushed, this.terminal := maps, 0, [], keys;
      this.log, this.callback, this.multikey, this.chain := [], callback, false, [];
    }

    ghost function Pending(): seq<Key>
      reads this
    {
      pushed + terminal
    }

    /** rl_read_key; -1 at the end of the input. */
    method ReadKey() returns (k: int)
      modifies this`pushed, this`terminal
      ensures old(Pending()) == [] ==> k == -1 && Pending() == []
      ensures old(Pending()) != [] ==> k == old(Pending())[0] && Pending() == old(Pending())[1..]
    {
      if pushed != [] {
        k, pushed := pushed[0], pushed[1..];
      } else if terminal != [] {
        k, terminal := terminal[0], terminal[1..];
      } else {
        k := -1;
      }
    }

    /** _rl_unget_char. */
    method Unget(key: Key)
      modifies this`pushed
      ensures Pending() == [key] + old(Pending())
    {
      pushed := [key] + pushed;
      assert Pending() == [key] + (pushed[1..] + terminal);
    }

    /** The observable effect of a dispatch that comes to r, from a state with log was. */
    ghost predicate Came(r: Result, code: int, jumped: bool, was: seq<Event>)
      reads this
    {
      match r
      case Aborted(pending) => jumped && Pending() == pending && log == was
      case Returned(c, ran, pending) => !jumped && code == c && Pending() == pending && log == was + ran
    }

    /** _rl_dispatch. */
    method Dispatch(key: Slot, m: MapId) returns (r: int, jumped: bool)
      requires Ready(maps) && m < |maps| && (key == ANYOTHERKEY ==> HasShadow(maps, m))
      requires !callback ==> chain == [] && !multikey
      modifies this
      ensures maps == old(maps)
      ensures !jumped && r < 0 && r != -3 ==> at == m
      ensures !callback ==> chain == [] && !multikey
      ensures !callback && key != ANYOTHERKEY ==>
                Came(RecDispatch(old(maps), key, m, false, old(Pending())), r, jumped, old(log))
      ensures var k := Landing(old(maps), m, key);
              var e := old(maps)[m][k];
              e != UNBOUND && !e.IsKmap? ==>
                !jumped && r == 0 && log == old(log) + [RunEntry(e, k)] && Pending() == old(Pending()) &&
                chain == old(chain) && multikey == old(multikey)
      ensures var k := Landing(old(maps), m, key);
              var g := false;
              callback && old(maps)[m][k] == UNBOUND ==>
                log == old(log) &&
                if HasShadow(old(maps), m) || g then
                  !jumped && r == (if HasShadow(old(maps), m) then -2 else -1) && Pending() == [k] + old(Pending()) &&
                  chain == old(chain) && multikey == old(multikey)
                else jumped && Pending() == old(Pending()) && chain == [] && !multikey
      ensures var k := Landing(old(maps), m, key);
              var g := false;
              callback && old(maps)[m][k].IsKmap? ==>
                var c := old(maps)[m][k].child;
                !jumped && r == (if old(multikey) then -3 else 0) && at == c && multikey &&
                log == old(log) && Pending() == old(Pending()) &&
                chain == [Context(k, m, c, g || HasShadow(old(maps), c), g, false, 42)] + old(chain)
      decreases |maps| - m, if IsUpper(key) then 1 else 0, 3
    {
      at := m;
      r, jumped := DispatchSubseq(key, m, false);
    }

    /** _rl_dispatch_subseq. */
    method DispatchSubseq(key: Slot, m: MapId, got: bool) returns (r: int, jumped: bool)
      requires Ready(maps) && m < |maps| && at == m && (key == ANYOTHERKEY ==> HasShadow(maps, m))
      requires !callback ==> chain == [] && !multikey
      modifies this
      ensures maps == old(maps)
      ensures !jumped && r < 0 && r != -3 ==> at == m
      ensures !callback ==> chain == [] && !multikey
      ensures !callback && key != ANYOTHERKEY ==>
                Came(RecDispatch(old(maps), key, m, got, old(Pending())), r, jumped, old(log))
      ensures var k := Landing(old(maps), m, key);
              var e := old(maps)[m][k];
              e != UNBOUND && !e.IsKmap? ==>
                !jumped && r == 0 && log == old(log) + [RunEntry(e, k)] && Pending() == old(Pending()) &&
                chain == old(chain) && multikey == old(multikey)
      ensures var k := Landing(old(maps), m, key);
              var g := got && k == key;
              callback && old(maps)[m][k] == UNBOUND ==>
                log == old(log) &&
                if HasShadow(old(maps), m) || g then
                  !jumped && r == (if HasShadow(old(maps), m) then -2 else -1) && Pending() == [k] + old(Pending()) &&
                  chain == old(chain) && multikey == old(multikey)
                else jumped && Pending() == old(Pending()) && chain == [] && !multikey
      ensures var k := Landing(old(maps), m, key);
              var g := got && k == key;
              callback && old(maps)[m][k].IsKmap? ==>
                var c := old(maps)[m][k].child;
                !jumped && r == (if old(multikey) then -3 else 0) && at == c && multikey &&
                log == old(log) && Pending() == old(Pending()) &&
                chain == [Context(k, m, c, g || HasShadow(old(maps), c), g, false, 42)] + old(chain)
      decreases |maps| - m, if IsUpper(key) then 1 else 0, 2
    {
      r, jumped := 0, false;
      match maps[m][key]
      case IsFunc(fn) =>
        if fn != NoCommand {
          if fn == LowercaseVersion {
            r, jumped := Dispatch(Lower(key), m);
            return;
          }
          log := log + [Ran(fn, key)];
        } else if maps[m][ANYOTHERKEY] != UNBOUND {
          Unget(key);
          r := -2;
        } else if got {
          Unget(key);
          r := -1;
        } else {
          multikey := false;
          chain := [];
          jumped := true;
        }
      case IsKmap(c) =>
        at := c;
        if callback {
          r := if multikey then -3 else 0;
          chain := [Context(key, m, c, got || maps[c][ANYOTHERKEY] != UNBOUND, got, false, 42)] + chain;
          multikey := true;
        } else {
          r, jumped := DispatchSubmap(key, m, c, got);
        }
      case IsMacr(text) =>
        log := log + [PushedMacro(text)];
    }

    /** The recursive half of the ISKMAP case: read another key and dispatch it in the submap. */
    method DispatchSubmap(key: Key, m: MapId, c: MapId, got: bool) returns (r: int, jumped: bool)
      requires Ready(maps) && m < c < |maps| && at == c && maps[m][key] == IsKmap(c)
      requires !callback && chain == [] && !multikey
      modifies this
      ensures maps == old(maps) && chain == [] && !multikey
      ensures !jumped && r < 0 && r != -3 ==> at == m
      ensures Came(RecDispatch(old(maps), key, m, got, old(Pending())), r, jumped, old(log))
      decreases |maps| - m, 0, 1
    {
      r, jumped := 0, false;
      var newkey := ReadKey();
      if newkey < 0 {
        jumped := true;
        return;
      }
      r, jumped := DispatchSubseq(newkey, c, got || maps[m][ANYOTHERKEY] != UNBOUND);
      if !jumped {
        r := SubseqResult(r, m, key, got);
      }
    }

    /** _rl_subseq_result, for a keymap m in which key leads to a submap. */
    method SubseqResult(code: int, m: MapId, key: Key, got: bool) returns (r: int)
      requires Ready(maps) && m < |maps| && code in {0, -1, -2}
      requires code == -2 ==> m < at < |maps| && HasShadow(maps, at)
      requires !callback ==> chain == [] && !multikey
      modifies this
      ensures maps == old(maps) && chain == old(chain) && multikey == old(multikey)
      ensures code == -2 ==>
                r == 0 && log == old(log) + [RunShadow(old(maps), old(at), key)] && Pending() == old(Pending())
      ensures code != -2 ==> log == old(log)
      ensures code == -1 && (HasShadow(old(maps), m) || got) ==>
                r == (if HasShadow(old(maps), m) then -2 else -1) && at == m && Pending() == [key] + old(Pending())
      ensures code == 0 || (code == -1 && !HasShadow(old(maps), m) && !got) ==> r == code && Pending() == old(Pending())
      decreases |maps| - m, 0, 0
    {
      r := code;
      if r == -2 {
        var shadow := at;
        var e := maps[shadow][ANYOTHERKEY];
        var any: Slot := ANYOTHERKEY;
        assert !IsUpper(any) && maps[shadow][any] == e;
        var jumped;
        if e == IsFunc(Insert) {
          var saved := maps[shadow][key];
          maps := maps[shadow := maps[shadow][key := e]];
          r, jumped := Dispatch(key, shadow);
          maps := maps[shadow := maps[shadow][key := saved]];
          assert maps[shadow] == old(maps[shadow]);
          assert maps == old(maps);
        } else {
          r, jumped := Dispatch(ANYOTHERKEY, shadow);
        }
      } else if r != 0 && maps[m][ANYOTHERKEY] != UNBOUND {
        Unget(key);
        at := m;
        r := -2;
      } else if r != 0 && got {
        Unget(key);
        at := m;
        r := -1;
      }
    }

    /** The read loop of readline_internal_charloop, outside callback mode, to the end of the input. */
    method ReadAll(root: MapId)
      requires Ready(maps) && root < |maps| && !HasShadow(maps, root)
      requires !callback && chain == [] && !multikey
      modifies this
      ensures maps == old(maps) && Pending() == []
      ensures log == old(log) + Session(old(maps), root, old(Pending()), false)
    {
      while pushed != [] || terminal != []
        invariant maps == old(maps) && chain == [] && !multikey
        invariant log + Session(maps, root, Pending(), false)
               == old(log) + Session(maps, root, old(Pending()), false)
        decreases |Pending()|
      {
        ReadOne(root);
      }
    }

    /** One turn of that loop. */
    method ReadOne(root: MapId)
      requires Ready(maps) && root < |maps| && !HasShadow(maps, root) && Pending() != []
      requires !callback && chain == [] && !multikey
      modifies this
      ensures maps == old(maps) && chain == [] && !multikey && |Pending()| < |old(Pending())|
      ensures log + Session(maps, root, Pending(), false) == old(log) + Session(maps, root, old(Pending()), false)
    {
      ghost var keys, was := Pending(), log;
      var c := ReadKey();
      var r, jumped := Dispatch(c, root);
      DispatchIsMatch(maps, root, keys);
      if !jumped {
        Regroup(was, [log[|was|]], Session(maps, root, Pending(), false));
      }
    }

    // ----- callback mode -----

    /** The innermost context is about to learn that its walk did not match: code is the value handed up to it. */
    ghost predicate Backing(root: MapId, code: int, o: Outcome)
      reads this
    {
      && Ready(maps) && ChainOk(maps, root, chain) && chain != [] && AllDispatched(chain)
      && BestOf(maps, root, chain).Some? && o == Unwound(maps, root, chain, Pending())
      && chain[0].dmap < |maps| && at == chain[0].dmap
      && code == if HasShadow(maps, at) then -2 else -1
    }

    /** Between keys: either idle, or a chain whose innermost context waits for a key. */
    ghost predicate Waiting(root: MapId)
      reads this
    {
      && callback && Ready(maps) && root < |maps| && !HasShadow(maps, root)
      && (multikey <==> chain != [])
      && ChainOk(maps, root, chain)
      && (chain != [] ==> !chain[0].dispatched && AllDispatched(chain[1..]) && at == chain[0].dmap)
    }

    /** _rl_dispatch_callback, from the point where the value r for the innermost context is known. */
    method ResumeContext(code: int, root: MapId, ghost o: Outcome) returns (r: int)
      requires Ready(maps) && callback && multikey && chain != [] && ChainOk(maps, root, chain)
      requires code == 0 || Backing(root, code, o)
      modifies this
      ensures maps == old(maps)
      ensures code == 0 ==> r == 0 && chain == [] && !multikey && Pending() == old(Pending()) && log == old(log)
      ensures r == 0 || ((r == -1 || r == -2) && Backing(root, r, o) && chain[0].childval == r && multikey &&
                         |chain| < |old(chain)| && log == old(log))
      ensures r == 0 && code != 0 ==>
                chain == [] && !multikey && o.Fired? && Pending() == o.pending && log == old(log) + [o.ran]
    {
      var cxt := chain[0];
      ChainCandidate(maps, root, chain);
      if code == -1 {
        UnwindLevel(maps, root, chain, Pending());
      }
      r := SubseqResult(code, cxt.oldmap, cxt.okey, cxt.subseq);
      if r == 0 {
        chain := [];
        multikey := false;
        return;
      }
      chain := chain[1..];
      TellContext(r, root);
    }

    /** Handing a return value up to the context that is now innermost. */
    method TellContext(r: int, root: MapId)
      requires Ready(maps) && ChainOk(maps, root, chain) && chain != []
      modifies this`chain
      ensures chain == old(chain)[0 := old(chain)[0].(childval := r)]
      ensures ChainOk(maps, root, chain) && BestOf(maps, root, chain) == BestOf(maps, root, old(chain))
      ensures TrailOf(maps, root, chain) == TrailOf(maps, root, old(chain))
    {
      Flagged(maps, root, chain, 0, chain[0].(childval := r));
      chain := chain[0 := chain[0].(childval := r)];
    }

    /** The first half of _rl_dispatch_callback: a context that waits for a key reads it and dispatches it. */
    method ReadContext() returns (r: int, jumped: bool)
      requires callback && multikey && chain != [] && Ready(maps) && chain[0].dmap < |maps| && at == chain[0].dmap
      modifies this
      ensures maps == old(maps)
      ensures old(Pending()) == [] ==>
                jumped && Pending() == [] && log == old(log) && chain == old(chain) && at == old(at) && multikey
      ensures old(Pending()) != [] ==>
                var top, key, rest := old(chain)[0], old(Pending())[0], old(Pending())[1..];
                var k := Landing(maps, top.dmap, key);
                var g := top.subseqArg && k == key;
                var marked := old(chain)[0 := top.(dispatched := true)];
                var shadowed := HasShadow(maps, top.dmap);
                match maps[top.dmap][k]
                case IsKmap(c) =>
                  !jumped && r == -3 && at == c && multikey && Pending() == rest && log == old(log) &&
                  chain == [Context(k, top.dmap, c, g || HasShadow(maps, c), g, false, 42)] + marked
                case e =>
                  if e != UNBOUND then
                    !jumped && r == 0 && multikey && Pending() == rest && chain == marked &&
                    log == old(log) + [RunEntry(e, k)]
                  else if shadowed || g then
                    !jumped && r == (if shadowed then -2 else -1) && multikey && at == top.dmap &&
                    Pending() == [k] + rest && chain == marked && log == old(log)
                  else jumped && Pending() == rest && chain == [] && !multikey && log == old(log)
    {
      var cxt := chain[0];
      var nkey := ReadKey();
      if nkey < 0 {
        r, jumped := -1, true;
        return;
      }
      r, jumped := DispatchSubseq(nkey, cxt.dmap, cxt.subseqArg);
      if !jumped {
        var i := if r == -3 then 1 else 0;
        chain := chain[i := chain[i].(dispatched := true)];
      }
    }

    /** What that means for the walk. */
    method VisitContext(root: MapId, ghost o: Outcome) returns (r: int, jumped: bool)
      requires callback && multikey && chain != [] && Waiting(root) && o == Resumed(maps, root, chain, Pending())
      modifies this
      ensures maps == old(maps) && (jumped || r in {0, -1, -2, -3})
      ensures !jumped && r == 0 ==>
                multikey && chain != [] && ChainOk(maps, root, chain) && o.Fired? && Pending() == o.pending &&
                log == old(log) + [o.ran]
      ensures !jumped && (r == -1 || r == -2) ==>
                multikey && Backing(root, r, o) && log == old(log) && |chain| == |old(chain)|
      ensures !jumped && r == -3 ==>
                multikey && chain != [] && ChainOk(maps, root, chain) && !chain[0].dispatched &&
                AllDispatched(chain[1..]) && at == chain[0].dmap && o == Resumed(maps, root, chain, Pending()) &&
                log == old(log) && |Pending()| + 1 == |old(Pending())| && |chain| == |old(chain)| + 1
      ensures jumped ==>
                Waiting(root) && log == old(log) && o == Failed(Pending()) &&
                (multikey ==> old(Pending()) == [] && Pending() == [] && chain == old(chain)) &&
                (!multikey ==> |Pending()| < |old(Pending())|)
    {
      ghost var walk, pend := chain, Pending();
      r, jumped := ReadContext();
      if pend != [] {
        ReadLevel(maps, root, walk, pend);
      }
    }

    /** _rl_dispatch_callback for the innermost context. */
    method DispatchCallback(root: MapId, ghost o: Outcome) returns (r: int, jumped: bool)
      requires callback && multikey && chain != []
      requires !chain[0].dispatched ==> Waiting(root) && o == Resumed(maps, root, chain, Pending())
      requires chain[0].dispatched ==> Backing(root, chain[0].childval, o)
      modifies this
      ensures maps == old(maps)
      ensures jumped || r in {0, -1, -2, -3}
      ensures !jumped && r == 0 ==>
                chain == [] && !multikey && o.Fired? && Pending() == o.pending && log == old(log) + [o.ran]
      ensures !jumped && (r == -1 || r == -2) ==>
                Backing(root, r, o) && chain[0].childval == r && multikey && |chain| < |old(chain)| && log == old(log)
      ensures !jumped && r == -3 ==>
                !old(chain)[0].dispatched && Waiting(root) && multikey && o == Resumed(maps, root, chain, Pending()) &&
                log == old(log) && |Pending()| + 1 == |old(Pending())| && |chain| == |old(chain)| + 1
      ensures jumped ==>
                !old(chain)[0].dispatched && Waiting(root) && log == old(log) && o == Failed(Pending()) &&
                (multikey ==> old(Pending()) == [] && Pending() == [] && chain == old(chain)) &&
                (!multikey ==> |Pending()| < |old(Pending())|)
    {
      if !chain[0].dispatched {
        r, jumped := VisitContext(root, o);
        if jumped {
          return;
        }
      } else {
        r, jumped := chain[0].childval, false;
      }
      if r == -3 {
        ResumedFlagged(maps, root, chain, chain[0].(childval := r), Pending());
        TellContext(r, root);
      } else {
        r := ResumeContext(r, root, o);
      }
    }

    /** The commands still to come. */
    ghost function Future(root: MapId): seq<Event>
      requires Waiting(root)
      reads this
    {
      if multikey then After(maps, root, Resumed(maps, root, chain, Pending()), true)
      else Session(maps, root, Pending(), true)
    }

    /** Backing out level by level until the shadowed binding runs. */
    method BackOut(code: int, root: MapId, ghost o: Outcome)
      requires callback && multikey && Backing(root, code, o) && chain[0].childval == code
      modifies this
      ensures maps == old(maps) && chain == [] && !multikey
      ensures o.Fired? && Pending() == o.pending && log == old(log) + [o.ran]
    {
      var r, jumped := code, false;
      while (r == -1 || r == -2) && multikey && chain != [] && chain[0].dispatched
        invariant maps == old(maps) && r in {0, -1, -2}
        invariant r == 0 ==>
                    chain == [] && !multikey && o.Fired? && Pending() == o.pending && log == old(log) + [o.ran]
        invariant r != 0 ==> Backing(root, r, o) && chain[0].childval == r && multikey && log == old(log)
        decreases |chain|
      {
        r, jumped := DispatchCallback(root, o);
      }
    }

    /** The RL_STATE_MULTIKEY case of rl_callback_read_char: go on with the chain, then back out as far as needed. */
    method ContinueChain(root: MapId) returns (jumped: bool)
      requires Waiting(root) && multikey
      modifies this
      ensures maps == old(maps) && Waiting(root)
      ensures log + Future(root) == old(log) + old(Future(root))
      ensures |Pending()| + |chain| <= |old(Pending())| + |old(chain)|
      ensures old(Pending()) == [] ==> Pending() == []
      ensures old(Pending()) != [] && multikey ==> |Pending()| < |old(Pending())|
      ensures old(Pending()) != [] && !multikey ==> |Pending()| < |old(Pending())| + |old(chain)|
    {
      ghost var o := Resumed(maps, root, chain, Pending());
      assert |o.pending| < |Pending()| + |chain| by {
        if BestOf(maps, root, chain).Some? {
          TrailShort(maps, root, chain);
        }
      }
      var r;
      r, jumped := DispatchCallback(root, o);
      if !jumped && (r == -1 || r == -2) {
        BackOut(r, root, o);
      }
      assert o.Fired? && log == old(log) + [o.ran] ==>
          log + Future(root) == old(log) + ([o.ran] + Future(root));
    }

    /** The idle case of rl_callback_read_char: read a key and dispatch it in the top keymap. */
    method StartCommand(root: MapId)
      requires Waiting(root) && !multikey && Pending() != []
      modifies this
      ensures maps == old(maps) && Waiting(root)
      ensures log + Future(root) == old(log) + old(Future(root))
      ensures |Pending()| + |chain| <= |old(Pending())| && |Pending()| < |old(Pending())|
    {
      ghost var keys := Pending();
      var c := ReadKey();
      ghost var k := Landing(maps, root, c);
      assert keys == [c] + Pending();
      if maps[root][k].IsKmap? {
        PushFirst(maps, root, c, Pending(), k);
      } else {
        EndFirst(maps, root, c, Pending(), k);
      }
      var r, jumped := Dispatch(c, root);
      ghost var e := maps[root][k];
      if e.IsKmap? {
        assert chain == [Context(k, root, e.child, HasShadow(maps, e.child), false, false, 42)];
        assert Resumed(maps, root, chain, Pending()) == Match(maps, root, keys, true);
      } else if e != UNBOUND {
        assert log + Future(root) == old(log) + ([RunEntry(e, k)] + Future(root));
      }
      assert old(Future(root)) == After(maps, root, Match(maps, root, keys, true), true);
    }

    /**
     rl_callback_read_char: one key, and then as long as there are keys that were put back.  An abort inside of a chain
     returns at once, with the keys that are left for the next call.
    */
    method CallbackReadChar(root: MapId)
      requires Waiting(root) && Pending() != []
      modifies this
      ensures maps == old(maps) && Waiting(root)
      ensures log + Future(root) == old(log) + old(Future(root))
      ensures |Pending()| + |chain| < |old(Pending())| + |old(chain)| ||
              (|Pending()| + |chain| == |old(Pending())| + |old(chain)| && |Pending()| < |old(Pending())|)
    {
      var jumped := OneTurn(root);
      while !jumped && pushed != []
        invariant maps == old(maps) && Waiting(root)
        invariant log + Future(root) == old(log) + old(Future(root))
        invariant |Pending()| + |chain| < |old(Pending())| + |old(chain)| ||
                  (|Pending()| + |chain| == |old(Pending())| + |old(chain)| && |Pending()| < |old(Pending())|)
        decreases |Pending()| + |chain|, |Pending()|
      {
        jumped := OneTurn(root);
      }
    }

    /** The body of the do-while loop; jumped says that it was left by the long jump to rl_callback_read_char. */
    method OneTurn(root: MapId) returns (jumped: bool)
      requires Waiting(root) && Pending() != []
      modifies this
      ensures maps == old(maps) && Waiting(root)
      ensures log + Future(root) == old(log) + old(Future(root))
      ensures |Pending()| + |chain| < |old(Pending())| + |old(chain)| ||
              (|Pending()| + |chain| == |old(Pending())| + |old(chain)| && |Pending()| < |old(Pending())|)
    {
      if multikey {
        jumped := ContinueChain(root);
      } else {
        StartCommand(root);
        jumped := false;
      }
    }

    /** An application that calls rl_callback_read_char whenever there is input, to the end of the input. */
    method CallbackAll(root: MapId)
      requires Waiting(root) && !multikey
      modifies this
      ensures maps == old(maps) && Pending() == []
      ensures log == old(log) + Session(old(maps), root, old(Pending()), true)
    {
      while pushed != [] || terminal != []
        invariant maps == old(maps) && Waiting(root)
        invariant log + Future(root) == old(log) + old(Future(root))
        decreases |Pending()| + |chain|, |Pending()|
      {
        CallbackReadChar(root);
      }
      assert Future(root) == [];
    }
  }
}
