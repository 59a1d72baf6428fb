/**
 Keymaps and key binding (readline-6.2/keymaps.c, readline-6.2/bind.c).

 A keymap is an array of 257 entries, one for each byte and one extra slot, ANYOTHERKEY.  Keymaps
 refer to each other by pointer and are rewritten in place.  The model keeps all keymaps of a program in
 one store and uses the index of a keymap in that store as its address.
*/
module Keymaps {
  import opened Options

  const KEYMAP_SIZE := 257
  const ANYOTHERKEY := 256

  /** A byte of input. */
  type Key = k: int | 0 <= k < 256

  /** An index into a keymap: a byte, or ANYOTHERKEY. */
  type Slot = k: int | 0 <= k < KEYMAP_SIZE

  /** A bindable function.  Three of them get special treatment; NoCommand is the null pointer. */
  datatype Command = NoCommand | Insert | LowercaseVersion | NullFunction | Other(id: nat)

  type MapId = nat

  datatype Entry = IsFunc(fn: Command) | IsKmap(child: MapId) | IsMacr(text: string)

  const UNBOUND := IsFunc(NoCommand)

  type Keymap = s: seq<Entry> | |s| == KEYMAP_SIZE witness seq(KEYMAP_SIZE, _ => IsFunc(NoCommand))

  type Store = seq<Keymap>

  /** Every submap exists and was allocated after the map that refers to it, and ANYOTHERKEY holds no keymap. */
  ghost predicate Linked(st: Store) {
    && (forall m: nat, k: Slot | m < |st| && st[m][k].IsKmap? :: m < st[m][k].child < |st|)
    && (forall m: nat | m < |st| :: !st[m][ANYOTHERKEY].IsKmap?)
  }

  /** A keymap tree: no submap is referred to from two places. */
  ghost predicate Tree(st: Store) {
    && Linked(st)
    && (forall m: nat, k: Slot, n: nat, j: Slot | m < |st| && n < |st| && st[m][k].IsKmap? && st[m][k] == st[n][j] ::
          m == n && k == j)
  }

  predicate IsUpper(k: Slot) { 65 <= k <= 90 }

  /** rl_do_lowercase_version is a redirection of upper-case letters: it stands nowhere else. */
  ghost predicate Sane(st: Store) {
    forall m: nat, k: Slot | m < |st| && st[m][k] == IsFunc(LowercaseVersion) :: IsUpper(k)
  }

  /** The keymap that a key sequence leads to from keymap root, if every key on the way is bound to a keymap. */
  ghost function Reach(st: Store, root: MapId, keys: seq<Key>): (r: Option<MapId>)
    requires Linked(st) && root < |st|
    ensures r.Some? ==> root + |keys| <= r.value < |st|
  {
    if keys == [] then Some(root)
    else
      match Reach(st, root, keys[..|keys| - 1])
      case None => None
      case Some(m) =>
        var e := st[m][keys[|keys| - 1]];
        if e.IsKmap? then Some(e.child) else None
  }

  /** The entry a key sequence leads to; a sequence that leaves the trie is unbound. */
  ghost function Direct(st: Store, root: MapId, keys: seq<Key>): (e: Entry)
    requires Linked(st) && root < |st| && keys != []
    ensures e.IsKmap? ==> root < e.child < |st|
  {
    match Reach(st, root, keys[..|keys| - 1])
    case None => UNBOUND
    case Some(m) => st[m][keys[|keys| - 1]]
  }

  /** What a key sequence is bound to: its entry or, when that is a keymap, the binding the keymap shadows. */
  ghost function Binding(st: Store, root: MapId, keys: seq<Key>): Entry
    requires Linked(st) && root < |st| && keys != []
  {
    var e := Direct(st, root, keys);
    if e.IsKmap? then st[e.child][ANYOTHERKEY] else e
  }

  lemma ReachLast(st: Store, root: MapId, keys: seq<Key>)
    requires Linked(st) && root < |st| && keys != []
    ensures Direct(st, root, keys).IsKmap? <==> Reach(st, root, keys).Some?
    ensures Direct(st, root, keys).IsKmap? ==>
              Reach(st, root, keys) == Some(Direct(st, root, keys).child) && Direct(st, root, keys).child < |st|
  {
  }

  /** A sequence that has left the trie does not come back. */
  lemma {:induction false} OffTrie(st: Store, root: MapId, keys: seq<Key>, i: nat)
    requires Linked(st) && root < |st| && 0 < i <= |keys| && !Direct(st, root, keys[..i]).IsKmap?
    ensures Reach(st, root, keys) == None
    ensures i < |keys| ==> Direct(st, root, keys) == UNBOUND
    decreases |keys|
  {
    if i == |keys| {
      assert keys[..i] == keys;
    } else {
      assert keys[..|keys| - 1][..i] == keys[..i];
      OffTrie(st, root, keys[..|keys| - 1], i);
    }
  }

  /** In a tree, only one key sequence leads to a given keymap. */
  lemma {:induction false} UniquePath(st: Store, root: MapId, p: seq<Key>, q: seq<Key>)
    requires Tree(st) && root < |st|
    requires Reach(st, root, p).Some? && Reach(st, root, p) == Reach(st, root, q)
    ensures p == q
    decreases |p|
  {
    if p == [] || q == [] {
      assert |p| == |q| == 0;
    } else {
      UniquePath(st, root, p[..|p| - 1], q[..|q| - 1]);
      assert p == p[..|p| - 1] + [p[|p| - 1]];
      assert q == q[..|q| - 1] + [q[|q| - 1]];
    }
  }

  // ----- rl_generic_bind -----

  /** The shadowing rule of the loop: which overwritten entries are kept in ANYOTHERKEY. */
  predicate Saved(e: Entry) {
    e.IsMacr? || (e.IsFunc? && e.fn != NoCommand && e.fn != LowercaseVersion)
  }

  /** What rl_make_bare_keymap returns: a keymap of null functions. */
  function Bare(): (m: Keymap)
    ensures forall k: Slot :: m[k] == UNBOUND
  {
    seq(KEYMAP_SIZE, i => UNBOUND)
  }

  /** A fresh keymap that remembers the entry it replaces. */
  function Shadowing(e: Entry): Keymap
    requires !e.IsKmap?
  {
    if Saved(e) then Bare()[ANYOTHERKEY := e] else Bare()
  }

  /** The store after the entry at slot k of keymap m was replaced by a fresh keymap. */
  function Descend(st: Store, m: MapId, k: Key): Store
    requires m < |st| && !st[m][k].IsKmap?
  {
    st[m := st[m][k := IsKmap(|st|)]] + [Shadowing(st[m][k])]
  }

  /** What rl_generic_bind leaves at the last key. */
  function Stored(old_: Entry, data: Entry): Entry {
    if old_.IsKmap? && data == UNBOUND then IsFunc(NullFunction) else data
  }

  /** s is a proper prefix of keys whose own entry was rl_do_lowercase_version: the one binding that is lost. */
  ghost predicate Dropped(st: Store, root: MapId, keys: seq<Key>, s: seq<Key>)
    requires Linked(st) && root < |st| && s != []
  {
    s < keys && Direct(st, root, s) == IsFunc(LowercaseVersion)
  }

  /** The map update that rl_generic_bind performs on effective bindings. */
  ghost function Rebound(st: Store, root: MapId, keys: seq<Key>, data: Entry, s: seq<Key>): Entry
    requires Linked(st) && root < |st| && s != []
  {
    if s == keys then Stored(Direct(st, root, s), data)
    else if Dropped(st, root, keys, s) then UNBOUND
    else Binding(st, root, s)
  }

  /** A redirection is lost when a longer sequence is bound over it: after 65 97 is bound, 65 is unbound. */
  lemma RedirectDropped() returns (st: Store, keys: seq<Key>, data: Entry)
    ensures Tree(st) && Sane(st) && |st| == 1 && keys == [65, 97] && data == IsFunc(Other(1))
    ensures Binding(st, 0, keys[..1]) == IsFunc(LowercaseVersion) && Rebound(st, 0, keys, data, keys[..1]) == UNBOUND
  {
    st, keys, data := [Bare()[65 := IsFunc(LowercaseVersion)]], [65, 97], IsFunc(Other(1));
    assert keys[..1] == [65] && [65][..0] == [];
    assert Direct(st, 0, [65]) == st[0][65];
  }

  lemma DescendTree(st: Store, m: MapId, k: Key)
    requires Tree(st) && m < |st| && !st[m][k].IsKmap?
    ensures Tree(Descend(st, m, k))
  {
  }

  /** Descending changes the trie at one sequence only. */
  lemma {:induction false} DescendReach(st: Store, root: MapId, p: seq<Key>, k: Key, q: seq<Key>)
    requires Tree(st) && root < |st| && Reach(st, root, p).Some?
    requires !st[Reach(st, root, p).value][k].IsKmap?
    ensures var st' := Descend(st, Reach(st, root, p).value, k);
            Tree(st') && Reach(st', root, q) == if q == p + [k] then Some(|st|) else Reach(st, root, q)
    decreases |q|
  {
    var m := Reach(st, root, p).value;
    var st' := Descend(st, m, k);
    DescendTree(st, m, k);
    if q != [] {
      var q', j := q[..|q| - 1], q[|q| - 1];
      DescendReach(st, root, p, k, q');
      SnocEqual(q, p, k);
      if q' == p + [k] {
        assert Reach(st, root, q') == None by {
          assert (p + [k])[..|p|] == p;
        }
        assert st'[|st|][j] == UNBOUND;
      } else if q' == p {
        assert st'[m][j] == if j == k then IsKmap(|st|) else st[m][j];
      } else {
        OtherReach(st, root, p, q');
      }
    }
  }

  lemma SnocEqual(q: seq<Key>, p: seq<Key>, k: Key)
    requires q != []
    ensures q == p + [k] <==> q[..|q| - 1] == p && q[|q| - 1] == k
  {
    assert q == q[..|q| - 1] + [q[|q| - 1]];
  }

  lemma DescendDirect(st: Store, root: MapId, p: seq<Key>, k: Key, s: seq<Key>)
    requires Tree(st) && root < |st| && Reach(st, root, p).Some? && s != []
    requires !st[Reach(st, root, p).value][k].IsKmap?
    ensures var st' := Descend(st, Reach(st, root, p).value, k);
            Tree(st') && Direct(st', root, s) == if s == p + [k] then IsKmap(|st|) else Direct(st, root, s)
  {
    var m := Reach(st, root, p).value;
    var s', j := s[..|s| - 1], s[|s| - 1];
    var st' := Descend(st, m, k);
    assert s == s' + [j];
    DescendReach(st, root, p, k, s');
    if s' == p + [k] {
      assert Reach(st, root, s') == None by {
        assert (p + [k])[..|p|] == p;
      }
      assert st'[|st|][j] == UNBOUND;
      assert s != p + [k] by {
        assert |s| == |p| + 2;
      }
    } else if s' == p {
      assert Direct(st', root, s) == st'[m][j];
    } else {
      OtherReach(st, root, p, s');
      assert s != p + [k] by {
        assert (p + [k])[..|p|] == p;
      }
    }
  }

  /** Another sequence leads to another keymap. */
  lemma OtherReach(st: Store, root: MapId, p: seq<Key>, q: seq<Key>)
    requires Tree(st) && root < |st| && Reach(st, root, p).Some? && p != q
    ensures Reach(st, root, q) != Reach(st, root, p)
  {
    if Reach(st, root, q) == Reach(st, root, p) {
      UniquePath(st, root, p, q);
    }
  }

  /** Descending keeps every effective binding but a shadowed rl_do_lowercase_version. */
  lemma DescendBinding(st: Store, root: MapId, p: seq<Key>, k: Key, s: seq<Key>)
    requires Tree(st) && root < |st| && Reach(st, root, p).Some? && s != []
    requires !st[Reach(st, root, p).value][k].IsKmap?
    ensures var m := Reach(st, root, p).value;
            var st' := Descend(st, m, k);
            Tree(st') &&
            Binding(st', root, s) ==
              if s == p + [k] && st[m][k] == IsFunc(LowercaseVersion) then UNBOUND else Binding(st, root, s)
  {
    var m := Reach(st, root, p).value;
    DescendDirect(st, root, p, k, s);
    if s == p + [k] {
      assert s[..|p|] == p && s[|p|] == k;
      assert Direct(st, root, s) == st[m][k];
    } else {
      ReachLast(st, root, s);
    }
  }

  /** The store after slot k of keymap m was overwritten with something that is no keymap. */
  lemma {:induction false} WriteReach(st: Store, m: MapId, k: Slot, data: Entry, root: MapId, q: seq<Key>)
    requires Tree(st) && root < |st| && m < |st| && !st[m][k].IsKmap? && !data.IsKmap?
    ensures var st' := st[m := st[m][k := data]]; Tree(st') && Reach(st', root, q) == Reach(st, root, q)
  {
    if q != [] {
      WriteReach(st, m, k, data, root, q[..|q| - 1]);
    }
  }

  /** Overwriting the entry of a sequence changes the binding of that sequence only. */
  lemma WriteEntry(st: Store, root: MapId, p: seq<Key>, k: Key, data: Entry, s: seq<Key>)
    requires Tree(st) && root < |st| && Reach(st, root, p).Some? && s != [] && !data.IsKmap?
    requires !st[Reach(st, root, p).value][k].IsKmap?
    ensures var m := Reach(st, root, p).value;
            var st' := st[m := st[m][k := data]];
            Tree(st') && Binding(st', root, s) == if s == p + [k] then data else Binding(st, root, s)
  {
    var m := Reach(st, root, p).value;
    var s' := s[..|s| - 1];
    assert s == s' + [s[|s| - 1]];
    WriteReach(st, m, k, data, root, s');
    WriteReach(st, m, k, data, root, s);
    if Reach(st, root, s') == Some(m) {
      UniquePath(st, root, s', p);
    } else {
      assert s' != p;
    }
  }

  /** Overwriting the shadow slot of a keymap changes the binding of the sequence that leads there only. */
  lemma WriteShadow(st: Store, root: MapId, p: seq<Key>, data: Entry, s: seq<Key>)
    requires Tree(st) && root < |st| && p != [] && Reach(st, root, p).Some? && s != [] && !data.IsKmap?
    ensures var c := Reach(st, root, p).value;
            var st' := st[c := st[c][ANYOTHERKEY := data]];
            Tree(st') && Binding(st', root, s) == if s == p then data else Binding(st, root, s)
  {
    var c := Reach(st, root, p).value;
    WriteReach(st, c, ANYOTHERKEY, data, root, s[..|s| - 1]);
    ReachLast(st, root, s);
    if Reach(st, root, s) == Some(c) {
      UniquePath(st, root, s, p);
    }
  }

  /** What the binding loop has achieved when it arrives at key i of the sequence. */
  ghost predicate Arrived(was: Store, st: Store, root: MapId, keys: seq<Key>, i: nat, m: MapId) {
    && Tree(was) && Tree(st) && root < |was| <= |st| && i < |keys|
    && Reach(st, root, keys[..i]) == Some(m)
    && (forall s: seq<Key> | |s| > i :: Direct(st, root, s) == Direct(was, root, s))
    && (forall s: seq<Key> | s != [] ::
          Binding(st, root, s) ==
            if |s| <= i && Dropped(was, root, keys, s) then UNBOUND else Binding(was, root, s))
  }

  /** st' is st with the sequence p made to lead to keymap c, all else kept. */
  ghost predicate Deepened(st: Store, st': Store, root: MapId, p: seq<Key>, c: MapId)
    requires Tree(st) && root < |st| && p != []
  {
    && Tree(st') && |st| <= |st'|
    && Reach(st', root, p) == Some(c)
    && (forall s: seq<Key> | s != [] && s != p :: Direct(st', root, s) == Direct(st, root, s))
    && (forall s: seq<Key> | s != [] ::
          Binding(st', root, s) ==
            if s == p && Direct(st, root, p) == IsFunc(LowercaseVersion) then UNBOUND else Binding(st, root, s))
  }

  lemma DescendDeepens(st: Store, root: MapId, p: seq<Key>, k: Key)
    requires Tree(st) && root < |st| && Reach(st, root, p).Some?
    requires !st[Reach(st, root, p).value][k].IsKmap?
    ensures Deepened(st, Descend(st, Reach(st, root, p).value, k), root, p + [k], |st|)
  {
    var m, q := Reach(st, root, p).value, p + [k];
    var st' := Descend(st, m, k);
    assert q[..|p|] == p && Direct(st, root, q) == st[m][k];
    DescendReach(st, root, p, k, q);
    forall s: seq<Key> | s != [] && s != q
      ensures Direct(st', root, s) == Direct(st, root, s)
    {
      DescendDirect(st, root, p, k, s);
    }
    forall s: seq<Key> | s != []
      ensures Binding(st', root, s) ==
                if s == q && Direct(st, root, q) == IsFunc(LowercaseVersion) then UNBOUND else Binding(st, root, s)
    {
      DescendBinding(st, root, p, k, s);
    }
  }

  /** One turn of the loop: through a keymap that is there already, or with a fresh one in the place of an entry. */
  lemma ArriveNext(was: Store, st: Store, st': Store, root: MapId, keys: seq<Key>, i: nat, m: MapId, c: MapId)
    requires Arrived(was, st, root, keys, i, m) && i + 1 < |keys|
    requires Deepened(st, st', root, keys[..i + 1], c)
    ensures Arrived(was, st', root, keys, i + 1, c)
  {
    var p := keys[..i + 1];
    assert |p| > i;
    forall s: seq<Key> | s != []
      ensures Binding(st', root, s) ==
                if |s| <= i + 1 && Dropped(was, root, keys, s) then UNBOUND else Binding(was, root, s)
    {
      if |s| == i + 1 && s < keys {
        assert s == p;
      }
    }
  }

  lemma EnterDeepens(st: Store, root: MapId, keys: seq<Key>, i: nat, m: MapId)
    requires Tree(st) && root < |st| && i < |keys| && Reach(st, root, keys[..i]) == Some(m)
    ensures var e := st[m][keys[i]];
            Deepened(st, if e.IsKmap? then st else Descend(st, m, keys[i]), root, keys[..i + 1],
                     if e.IsKmap? then e.child else |st|)
  {
    var p := keys[..i + 1];
    assert p[..i] == keys[..i] && p == keys[..i] + [keys[i]];
    if !st[m][keys[i]].IsKmap? {
      DescendDeepens(st, root, keys[..i], keys[i]);
    }
  }

  /** The store after the last key was bound. */
  function Finish(st: Store, m: MapId, k: Key, data: Entry): Store
    requires m < |st| && (st[m][k].IsKmap? ==> st[m][k].child < |st|)
  {
    var e := st[m][k];
    if e.IsKmap? then st[e.child := st[e.child][ANYOTHERKEY := Stored(e, data)]]
    else st[m := st[m][k := data]]
  }

  lemma FinishAt(st: Store, root: MapId, keys: seq<Key>, m: MapId, data: Entry, s: seq<Key>)
    requires Tree(st) && root < |st| && keys != [] && s != [] && !data.IsKmap?
    requires Reach(st, root, keys[..|keys| - 1]) == Some(m)
    ensures var k := keys[|keys| - 1];
            var st' := Finish(st, m, k, data);
            Tree(st') && Binding(st', root, s) == if s == keys then Stored(st[m][k], data) else Binding(st, root, s)
  {
    var p, k := keys[..|keys| - 1], keys[|keys| - 1];
    assert keys == p + [k];
    var e := st[m][k];
    if e.IsKmap? {
      assert Reach(st, root, keys) == Some(e.child);
      WriteShadow(st, root, keys, Stored(e, data), s);
    } else {
      WriteEntry(st, root, p, k, data, s);
    }
  }

  lemma FinishBinding(was: Store, st: Store, root: MapId, keys: seq<Key>, m: MapId, data: Entry, s: seq<Key>)
    requires |keys| > 0 && Arrived(was, st, root, keys, |keys| - 1, m) && !data.IsKmap? && s != []
    ensures var st' := Finish(st, m, keys[|keys| - 1], data);
            Tree(st') && Binding(st', root, s) == Rebound(was, root, keys, data, s)
  {
    FinishAt(st, root, keys, m, data, s);
    assert Direct(st, root, keys) == Direct(was, root, keys) == st[m][keys[|keys| - 1]];
    if s < keys {
      assert |s| <= |keys| - 1;
    }
  }

  lemma FinishRebinds(was: Store, st: Store, root: MapId, keys: seq<Key>, m: MapId, data: Entry)
    requires |keys| > 0 && Arrived(was, st, root, keys, |keys| - 1, m) && !data.IsKmap?
    ensures var st' := Finish(st, m, keys[|keys| - 1], data);
            Tree(st') && forall s: seq<Key> | s != [] :: Binding(st', root, s) == Rebound(was, root, keys, data, s)
  {
    FinishBinding(was, st, root, keys, m, data, keys);
    var st' := Finish(st, m, keys[|keys| - 1], data);
    forall s: seq<Key> | s != []
      ensures Binding(st', root, s) == Rebound(was, root, keys, data, s)
    {
      FinishBinding(was, st, root, keys, m, data, s);
    }
  }

  class KeymapTable {
    var maps: Store

    constructor (maps: Store)
      ensures this.maps == maps
    {
      this.maps := maps;
    }

    /** rl_make_bare_keymap: a new keymap with every entry a null function. */
    method MakeBareKeymap() returns (id: MapId)
      modifies this
      ensures id == |old(maps)| && maps == old(maps) + [Bare()]
    {
      var keymap := new Entry[KEYMAP_SIZE];
      var i := 0;
      while i < KEYMAP_SIZE
        invariant 0 <= i <= KEYMAP_SIZE
        invariant forall j | 0 <= j < i :: keymap[j] == UNBOUND
        invariant maps == old(maps)
      {
        keymap[i] := IsFunc(NoCommand);
        i := i + 1;
      }
      assert keymap[..] == Bare();
      id := |maps|;
      maps := maps + [keymap[..]];
    }

    /** One turn of the binding loop before the last key: the submap below key k, made if there is none. */
    method Enter(m: MapId, k: Key) returns (child: MapId)
      requires Linked(maps) && m < |maps|
      modifies this
      ensures maps == if old(maps)[m][k].IsKmap? then old(maps) else Descend(old(maps), m, k)
      ensures m < child < |maps| && maps[m][k] == IsKmap(child)
      ensures Sane(old(maps)) ==> Sane(maps)
    {
      var saved := UNBOUND;
      if !maps[m][k].IsKmap? {
        saved := maps[m][k];
        var bare := MakeBareKeymap();
        maps := maps[m := maps[m][k := IsKmap(bare)]];
      }
      child := maps[m][k].child;
      if Saved(saved) {
        maps := maps[child := maps[child][ANYOTHERKEY := saved]];
      }
    }

    /** The turn for the last key. */
    method Store(m: MapId, k: Key, data: Entry)
      requires Linked(maps) && m < |maps| && !data.IsKmap?
      modifies this
      ensures maps == Finish(old(maps), m, k, data)
      ensures Sane(old(maps)) && data != IsFunc(LowercaseVersion) ==> Sane(maps)
    {
      var map_, slot: Slot, entry := m, k, data;
      if maps[m][k].IsKmap? {
        map_ := maps[m][k].child;
        slot := ANYOTHERKEY;
        if data == IsFunc(NoCommand) {
          entry := IsFunc(NullFunction);
        }
      }
      maps := maps[map_ := maps[map_][slot := entry]];
    }

    /** rl_generic_bind, after the key sequence was translated to bytes. */
    method GenericBind(keys: seq<Key>, data: Entry, root: MapId)
      requires Tree(maps) && root < |maps| && !data.IsKmap?
      modifies this
      ensures Tree(maps) && |old(maps)| <= |maps|
      ensures keys == [] ==> maps == old(maps)
      ensures Sane(old(maps)) && data != IsFunc(LowercaseVersion) ==> Sane(maps)
      ensures forall s: seq<Key> | s != [] && keys != [] ::
                Binding(maps, root, s) == Rebound(old(maps), root, keys, data, s)
      ensures keys != [] && data != UNBOUND ==> Binding(maps, root, keys) == data
      ensures keys != [] && data == UNBOUND ==>
                Binding(maps, root, keys) ==
                  if Reach(old(maps), root, keys).Some? then IsFunc(NullFunction) else UNBOUND
      ensures forall s: seq<Key> | s != [] && s != keys ::
                Binding(maps, root, s) ==
                  if s < keys && Direct(old(maps), root, s) == IsFunc(LowercaseVersion) then UNBOUND
                  else Binding(old(maps), root, s)
    {
      if keys == [] {
        return;
      }
      ghost var was := maps;
      var m := root;
      var i := 0;
      while i + 1 < |keys|
        invariant i < |keys| && Arrived(was, maps, root, keys, i, m)
        invariant Sane(was) ==> Sane(maps)
      {
        ghost var before, at := maps, m;
        m := Enter(m, keys[i]);
        EnterDeepens(before, root, keys, i, at);
        ArriveNext(was, before, maps, root, keys, i, at, m);
        i := i + 1;
      }
      FinishRebinds(was, maps, root, keys, m, data);
      ReachLast(was, root, keys);
      Store(m, keys[i], data);
    }

    /** rl_function_of_keyseq: the entry a sequence leads to, or a null function when it leaves the trie. */
    method FunctionOfKeyseq(keyseq: seq<Key>, root: MapId) returns (e: Entry)
      requires Tree(maps) && root < |maps|
      ensures e == if keyseq == [] then UNBOUND else Direct(maps, root, keyseq)
    {
      var m := root;
      var i := 0;
      while i < |keyseq|
        invariant i <= |keyseq|
        invariant i == |keyseq| ==> keyseq == []
        invariant Reach(maps, root, keyseq[..i]) == Some(m)
      {
        var ic := keyseq[i];
        assert keyseq[..i + 1][..i] == keyseq[..i];
        if maps[m][ic].IsKmap? {
          if i + 1 == |keyseq| {
            return maps[m][ic];
          }
          m := maps[m][ic].child;
        } else if i + 1 < |keyseq| {
          OffTrie(maps, root, keyseq, i + 1);
          return UNBOUND;
        } else {
          return maps[m][ic];
        }
        i := i + 1;
      }
      return UNBOUND;
    }
  }
}
