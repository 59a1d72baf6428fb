/**
 The list of possible completions (readline-6.2/complete.c): removing duplicates and finding the common prefix, with
 case-sensitive comparison of single-byte strings.
*/
module Completion {
  import opened Text

  // ----- the order of strings -----

  /** strcmp is negative or zero. */
  predicate AtMost(a: string, b: string) {
    if a == [] then true
    else if b == [] then false
    else if a[0] != b[0] then a[0] < b[0]
    else AtMost(a[1..], b[1..])
  }

  lemma {:induction false} AtMostTotal(a: string, b: string)
    ensures AtMost(a, b) || AtMost(b, a)
    ensures AtMost(a, b) && AtMost(b, a) ==> a == b
  {
    if a != [] && b != [] && a[0] == b[0] {
      AtMostTotal(a[1..], b[1..]);
      assert a == [a[0]] + a[1..] && b == [b[0]] + b[1..];
    }
  }

  lemma {:induction false} AtMostSelf(a: string)
    ensures AtMost(a, a)
  {
    if a != [] {
      AtMostSelf(a[1..]);
    }
  }

  lemma {:induction false} AtMostTransitive(a: string, b: string, c: string)
    requires AtMost(a, b) && AtMost(b, c)
    ensures AtMost(a, c)
  {
    if a != [] && a[0] == b[0] && b[0] == c[0] {
      AtMostTransitive(a[1..], b[1..], c[1..]);
    }
  }

  /** A prefix comes before the string, and otherwise the first characters that differ decide. */
  lemma {:induction false} AtMostIs(a: string, b: string)
    ensures AtMost(a, b) <==> a <= b || exists k: nat :: FirstLess(a, b, k)
  {
    if a != [] && b != [] {
      forall k: nat
        ensures FirstLess(a, b, k) <==>
                  if k == 0 then a[0] < b[0] else a[0] == b[0] && FirstLess(a[1..], b[1..], k - 1)
      {
        FirstLessPeels(a, b, k);
      }
      if a[0] == b[0] {
        AtMostIs(a[1..], b[1..]);
        assert a == [a[0]] + a[1..] && b == [b[0]] + b[1..];
        if k: nat :| FirstLess(a[1..], b[1..], k) {
          assert FirstLess(a, b, k + 1);
        }
      } else {
        assert FirstLess(a, b, 0) <==> a[0] < b[0];
      }
    }
  }

  lemma FirstLessPeels(a: string, b: string, k: nat)
    requires a != [] && b != []
    ensures FirstLess(a, b, k) <==>
              if k == 0 then a[0] < b[0] else a[0] == b[0] && FirstLess(a[1..], b[1..], k - 1)
  {
    if k > 0 && k < |a| && k < |b| {
      assert a[..k] == [a[0]] + a[1..][..k - 1] && b[..k] == [b[0]] + b[1..][..k - 1];
    }
  }

  /** The strings agree before k, and there a has the smaller byte. */
  predicate FirstLess(a: string, b: string, k: nat) {
    k < |a| && k < |b| && a[..k] == b[..k] && (a[k] as int) < (b[k] as int)
  }

  /** Comes before, and is another string. */
  predicate Before(a: string, b: string) { AtMost(a, b) && a != b }

  predicate Strict(s: seq<string>) {
    forall k | 0 < k < |s| :: Before(s[k - 1], s[k])
  }

  ghost predicate SameSet(a: seq<string>, b: seq<string>) {
    forall m :: m in a <==> m in b
  }

  predicate AllEqual(s: seq<string>, x: string) {
    forall m | m in s :: m == x
  }

  // ----- sorting, and removing duplicates -----

  function Insert(m: string, ms: seq<string>): (r: seq<string>)
    ensures multiset(r) == multiset(ms) + multiset{m}
  {
    if ms == [] then [m]
    else if AtMost(m, ms[0]) then
      assert [m] + ms == [m] + ms;
      [m] + ms
    else
      assert ms == [ms[0]] + ms[1..];
      [ms[0]] + Insert(m, ms[1..])
  }

  /** What qsort leaves, with strcmp. */
  function Sorted(ms: seq<string>): (r: seq<string>)
    ensures multiset(r) == multiset(ms)
  {
    if ms == [] then []
    else
      assert ms == [ms[0]] + ms[1..];
      Insert(ms[0], Sorted(ms[1..]))
  }

  /** No string comes before one that is not greater. */
  predicate Ascending(ms: seq<string>) {
    |ms| > 1 ==> AtMost(ms[0], ms[1]) && Ascending(ms[1..])
  }

  lemma {:induction false} InsertAscending(m: string, ms: seq<string>)
    requires Ascending(ms)
    ensures Ascending(Insert(m, ms))
  {
    if ms == [] {
    } else if AtMost(m, ms[0]) {
      assert ([m] + ms)[1..] == ms;
    } else {
      AtMostTotal(m, ms[0]);
      InsertAscending(m, ms[1..]);
      assert Insert(m, ms)[1..] == Insert(m, ms[1..]);
    }
  }

  lemma {:induction false} SortedAscending(ms: seq<string>)
    ensures Ascending(Sorted(ms))
  {
    if ms != [] {
      SortedAscending(ms[1..]);
      InsertAscending(ms[0], Sorted(ms[1..]));
    }
  }

  lemma {:induction false} AscendingAll(ms: seq<string>, i: nat, j: nat)
    requires Ascending(ms) && i <= j < |ms|
    ensures AtMost(ms[i], ms[j])
    decreases |ms|
  {
    if i > 0 {
      AscendingAll(ms[1..], i - 1, j - 1);
    } else if j == 0 {
      AtMostSelf(ms[0]);
    } else {
      AscendingAll(ms[1..], 0, j - 1);
      AtMostTransitive(ms[0], ms[1], ms[j]);
    }
  }

  /** The strings from the i-th on, without each that is equal to the next. */
  function Squeezed(ms: seq<string>, i: nat): seq<string>
    decreases |ms| - i
  {
    if i >= |ms| then []
    else if i + 1 < |ms| && ms[i] == ms[i + 1] then Squeezed(ms, i + 1)
    else [ms[i]] + Squeezed(ms, i + 1)
  }

  /** Nothing is lost, and nothing comes in. */
  lemma {:induction false} SqueezedKeeps(ms: seq<string>, i: nat, m: string)
    requires i <= |ms|
    ensures m in Squeezed(ms, i) <==> m in ms[i..]
    decreases |ms| - i
  {
    if i < |ms| {
      SqueezedKeeps(ms, i + 1, m);
      assert ms[i..] == [ms[i]] + ms[i + 1..];
    }
  }

  /** In a sorted list the strings that are left are all different, and still in order. */
  lemma {:induction false} SqueezedStrictly(ms: seq<string>, i: nat)
    requires Ascending(ms) && i < |ms|
    ensures Squeezed(ms, i) != [] && Squeezed(ms, i)[0] == ms[i]
    ensures Strict(Squeezed(ms, i))
    decreases |ms| - i
  {
    if i + 1 < |ms| {
      AscendingAll(ms, i, i + 1);
      SqueezedStrictly(ms, i + 1);
    }
  }

  /** The list with all but its first string sorted, if that is asked for. */
  function Arranged(ms: seq<string>, sort: bool): (r: seq<string>)
    requires ms != []
    ensures |r| == |ms| && r[0] == ms[0]
  {
    var others := if sort then Sorted(ms[1..]) else ms[1..];
    assert |Sorted(ms[1..])| == |multiset(Sorted(ms[1..]))|;
    [ms[0]] + others
  }

  lemma {:induction false} SqueezedBehind(m: string, ms: seq<string>, i: nat)
    requires i <= |ms|
    ensures Squeezed([m] + ms, i + 1) == Squeezed(ms, i)
    decreases |ms| - i
  {
    if i < |ms| {
      SqueezedBehind(m, ms, i + 1);
    }
  }

  /** The list without duplicates: the first string stays, the others are sorted if that is asked for. */
  function Deduped(ms: seq<string>, sort: bool): seq<string>
    requires ms != []
  {
    var squeezed := Squeezed(Arranged(ms, sort), 1);
    if squeezed == [ms[0]] then [ms[0]] else [ms[0]] + squeezed
  }

  /** Sorting and squeezing keeps the set, and puts it strictly in order. */
  lemma SortedSet(ms: seq<string>)
    ensures var r := Squeezed(Sorted(ms), 0);
      SameSet(r, ms) && (r == [] <==> ms == []) && Strict(r)
  {
    var sorted := Sorted(ms);
    SortedAscending(ms);
    assert sorted[0..] == sorted;
    forall m
      ensures m in Squeezed(sorted, 0) <==> m in ms
    {
      SqueezedKeeps(sorted, 0, m);
      assert m in sorted <==> m in multiset(sorted);
      assert m in ms <==> m in multiset(ms);
    }
    assert |sorted| == |multiset(sorted)| == |ms|;
    if sorted != [] {
      SqueezedStrictly(sorted, 0);
    }
  }

  /**
   The first string stays whatever it is; of the others the set is kept, strictly sorted, but that a single one equal to
   the first is dropped.
  */
  lemma DedupedIsSet(ms: seq<string>)
    requires ms != []
    ensures var r := Deduped(ms, true);
      && r != [] && r[0] == ms[0] && Strict(r[1..])
      && if |ms| > 1 && AllEqual(ms[1..], ms[0]) then r == [ms[0]] else SameSet(r[1..], ms[1..])
  {
    var others := ms[1..];
    var squeezed := Squeezed(Sorted(others), 0);
    SortedSet(others);
    DedupedForm(ms, squeezed);
    assert ([ms[0]] + squeezed)[1..] == squeezed;
    if others != [] && AllEqual(others, ms[0]) {
      OnlyOne(squeezed, others, ms[0]);
    } else if squeezed == [ms[0]] {
      AllTheSame(others, squeezed, ms[0]);
    }
  }

  lemma DedupedForm(ms: seq<string>, squeezed: seq<string>)
    requires ms != [] && squeezed == Squeezed(Sorted(ms[1..]), 0)
    ensures Deduped(ms, true) == if squeezed == [ms[0]] then [ms[0]] else [ms[0]] + squeezed
  {
    SqueezedBehind(ms[0], Sorted(ms[1..]), 0);
  }

  lemma AllTheSame(ms: seq<string>, r: seq<string>, x: string)
    requires r == [x] && SameSet(r, ms)
    ensures ms != [] && AllEqual(ms, x)
  {
    assert x in r;
  }

  lemma OnlyOne(s: seq<string>, ms: seq<string>, m: string)
    requires s != [] && SameSet(s, ms) && AllEqual(ms, m) && Strict(s)
    ensures s == [m]
  {
    assert s[0] in s;
    if |s| > 1 {
      FirstTwoDiffer(s);
    }
  }

  lemma FirstTwoDiffer(s: seq<string>)
    requires |s| > 1 && Strict(s)
    ensures s[0] in s && s[1] in s && s[0] != s[1]
  {
    assert Before(s[1 - 1], s[1]);
  }

  // ----- the common prefix -----

  /** The most characters that are compared. */
  const LIMIT: nat := 100000

  /** How far two strings agree, from i on. */
  function Agree(a: string, b: string, i: nat): (n: nat)
    ensures i <= n
    decreases |a| - i
  {
    if i < |a| && i < |b| && a[i] == b[i] then Agree(a, b, i + 1) else i
  }

  /** The least agreement of each string with the next, from the i-th on. */
  function Low(ms: seq<string>, i: nat, low: nat): (r: nat)
    ensures r <= low
    decreases |ms| - i
  {
    if i + 1 >= |ms| then low
    else
      var n := Agree(ms[i], ms[i + 1], 0);
      Low(ms, i + 1, if low > n then n else low)
  }

  lemma PrefixesAgree(a: string, b: string, p: string, i: nat)
    requires p <= a && p <= b && i < |p|
    ensures i < |a| && i < |b| && a[i] == b[i]
  {
    assert p[i] == a[i];
  }

  lemma {:induction false} AgreeIsLongest(a: string, b: string, i: nat)
    requires i <= |a| && i <= |b| && a[..i] == b[..i]
    ensures var n := Agree(a, b, i);
      n <= |a| && n <= |b| && a[..n] == b[..n] && forall p: string | p <= a && p <= b :: |p| <= n
    decreases |a| - i
  {
    if i < |a| && i < |b| && a[i] == b[i] {
      assert a[..i + 1] == a[..i] + [a[i]] && b[..i + 1] == b[..i] + [b[i]];
      AgreeIsLongest(a, b, i + 1);
    } else {
      forall p: string | p <= a && p <= b
        ensures |p| <= i
      {
        if |p| > i {
          PrefixesAgree(a, b, p, i);
        }
      }
    }
  }

  /** Strings that agree with their neighbours so far all agree so far. */
  lemma {:induction false} LowAgrees(ms: seq<string>, i: nat, low: nat, k: nat)
    requires i <= k < |ms| && |ms| > i + 1
    ensures var r := Low(ms, i, low);
      r <= |ms[i]| && r <= |ms[k]| && ms[k][..r] == ms[i][..r]
    decreases |ms| - i
  {
    var r, n := Low(ms, i, low), Agree(ms[i], ms[i + 1], 0);
    AgreeIsLongest(ms[i], ms[i + 1], 0);
    assert r <= n;
    Shorter(ms[i], ms[i + 1], n, r);
    if k > i {
      if i + 2 < |ms| {
        LowAgrees(ms, i + 1, if low > n then n else low, k);
      }
    }
  }

  lemma Shorter(a: string, b: string, n: nat, r: nat)
    requires r <= n <= |a| && n <= |b| && a[..n] == b[..n]
    ensures a[..r] == b[..r]
  {
    assert a[..r] == a[..n][..r] && b[..r] == b[..n][..r];
  }

  lemma {:induction false} LowIsLongest(ms: seq<string>, i: nat, low: nat, p: string)
    requires |p| <= low && forall m | m in ms :: p <= m
    ensures |p| <= Low(ms, i, low)
    decreases |ms| - i
  {
    if i + 1 < |ms| {
      assert ms[i] in ms && ms[i + 1] in ms;
      AgreeIsLongest(ms[i], ms[i + 1], 0);
      var n := Agree(ms[i], ms[i + 1], 0);
      LowIsLongest(ms, i + 1, if low > n then n else low, p);
    }
  }

  /** What goes to the first place: the only string, the text that was typed if nothing agrees, or the common prefix. */
  function Lcd(ms: seq<string>, text: string): string
    requires ms != []
  {
    var low := Low(ms, 0, LIMIT);
    if |ms| == 1 then ms[0]
    else if low == 0 && text != [] then text
    else if low <= |ms[0]| then ms[0][..low] else ms[0]
  }

  /** Comparing neighbours finds the longest prefix that all the strings have, up to the limit. */
  lemma NeighboursSuffice(ms: seq<string>, text: string)
    requires |ms| > 1 && (Low(ms, 0, LIMIT) > 0 || text == [])
    ensures forall m | m in ms :: Lcd(ms, text) <= m
    ensures |Lcd(ms, text)| <= LIMIT
    ensures forall p: string | |p| <= LIMIT && (forall m | m in ms :: p <= m) :: |p| <= |Lcd(ms, text)|
  {
    var low := Low(ms, 0, LIMIT);
    LowAgrees(ms, 0, LIMIT, 0);
    forall m | m in ms
      ensures Lcd(ms, text) <= m
    {
      var k :| 0 <= k < |ms| && ms[k] == m;
      LowAgrees(ms, 0, LIMIT, k);
    }
    forall p: string | |p| <= LIMIT && (forall m | m in ms :: p <= m)
      ensures |p| <= |Lcd(ms, text)|
    {
      LowIsLongest(ms, 0, LIMIT, p);
    }
  }

  /** All the strings start with the same character. */
  predicate StartAlike(ms: seq<string>)
    requires ms != []
  {
    forall m | m in ms :: m != [] && ms[0] != [] && m[0] == ms[0][0]
  }

  /** p is a prefix of all the strings, and the longest one of at most 100000 characters. */
  ghost predicate LongestCommon(p: string, ms: seq<string>) {
    && |p| <= 100000 && (forall m | m in ms :: p <= m)
    && forall q: string | |q| <= 100000 && (forall m | m in ms :: q <= m) :: |q| <= |p|
  }

  lemma LowIsPositive(ms: seq<string>)
    requires |ms| > 1
    ensures Low(ms, 0, LIMIT) > 0 <==> StartAlike(ms)
  {
    var low := Low(ms, 0, LIMIT);
    if low > 0 {
      forall m | m in ms
        ensures m != [] && ms[0] != [] && m[0] == ms[0][0]
      {
        var k :| 0 <= k < |ms| && ms[k] == m;
        LowAgrees(ms, 0, LIMIT, k);
        assert m[0] == m[..low][0] && ms[0][0] == ms[0][..low][0];
      }
    }
    if StartAlike(ms) {
      assert ms[0] in ms;
      var p := [ms[0][0]];
      forall m | m in ms
        ensures p <= m
      {
      }
      LowIsLongest(ms, 0, LIMIT, p);
    }
  }

  /** The first place: the only match, or the longest common prefix, or what was typed if there is none. */
  lemma LcdIs(ms: seq<string>, text: string)
    requires ms != []
    ensures |ms| == 1 ==> Lcd(ms, text) == ms[0]
    ensures |ms| > 1 && (StartAlike(ms) || text == []) ==> LongestCommon(Lcd(ms, text), ms)
    ensures |ms| > 1 && !StartAlike(ms) && text != [] ==> Lcd(ms, text) == text
  {
    if |ms| > 1 {
      LowIsPositive(ms);
      if StartAlike(ms) || text == [] {
        NeighboursSuffice(ms, text);
      }
    }
  }

  // ----- the arrays -----

  /** A place of the list: the null pointer, the mark of a string that is gone, or a string. */
  datatype Slot = Null | Dead | Text(text: string)

  ghost predicate IsList(a: array<Slot>, ms: seq<string>)
    reads a
  {
    |ms| < a.Length && a[|ms|] == Null && forall k | 0 <= k < |ms| :: a[k] == Text(ms[k])
  }

  /** The inner loop. */
  method CompareNeighbours(a: string, b: string) returns (si: nat)
    ensures si == Agree(a, b, 0)
  {
    si := 0;
    while si < |a| && si < |b|
      invariant 0 <= si && Agree(a, b, si) == Agree(a, b, 0)
      decreases |a| - si
    {
      if a[si] != b[si] {
        break;
      }
      si := si + 1;
    }
  }

  /** compute_lcd_of_matches: the matches are behind the first place, which is filled. */
  method ComputeLcdOfMatches(matchList: array<Slot>, matches: nat, text: string, ghost ms: seq<string>)
    returns (n: nat)
    requires 0 < matches == |ms| && matches < matchList.Length
    requires forall k | 0 <= k < matches :: matchList[1 + k] == Text(ms[k])
    modifies matchList
    ensures n == matches && matchList[0] == Text(Lcd(ms, text))
    ensures matches == 1 ==> matchList[0] == Text(ms[0])
    ensures matches > 1 && StartAlike(ms) ==> matchList[0].Text? && LongestCommon(matchList[0].text, ms)
    ensures matches > 1 && !StartAlike(ms) ==> matchList[0] == Text(text)
    ensures matchList[1] == if matches == 1 then Null else Text(ms[0])
    ensures forall k | 2 <= k < matchList.Length :: matchList[k] == old(matchList[k])
  {
    LcdIs(ms, text);
    n := matches;
    assert matchList[1 + 0] == Text(ms[0]);
    if matches == 1 {
      matchList[0] := matchList[1];
      matchList[1] := Null;
      return;
    }
    var i, low := 1, LIMIT;
    while i < matches
      invariant 1 <= i <= matches && Low(ms, i - 1, low) == Low(ms, 0, LIMIT)
      modifies {}
    {
      assert matchList[1 + (i - 1)] == Text(ms[i - 1]) && matchList[1 + i] == Text(ms[i]);
      var si := CompareNeighbours(matchList[i].text, matchList[i + 1].text);
      if low > si {
        low := si;
      }
      i := i + 1;
    }
    LowAgrees(ms, 0, LIMIT, 0);
    if low == 0 && text != [] {
      matchList[0] := Text(text);
    } else {
      matchList[0] := Text(matchList[1].text[..low]);
    }
  }

  /** The strings of the places from one on. */
  method Others(a: array<Slot>, n: nat, ghost ms: seq<string>) returns (others: seq<string>)
    requires 0 < n == |ms| <= a.Length && forall k | 0 <= k < n :: a[k] == Text(ms[k])
    ensures others == ms[1..]
  {
    others := [];
    var i := 1;
    while i < n
      invariant 1 <= i <= n && others == ms[1..i]
    {
      others := others + [a[i].text];
      i := i + 1;
    }
  }

  /** qsort, with strcmp, of the places from one on. */
  method QSort(a: array<Slot>, n: nat, ghost ms: seq<string>)
    requires 0 < n == |ms| <= a.Length && forall k | 0 <= k < n :: a[k] == Text(ms[k])
    modifies a
    ensures forall k | 0 <= k < n :: a[k] == Text(Arranged(ms, true)[k])
    ensures forall k | n <= k < a.Length :: a[k] == old(a[k])
  {
    ghost var arranged := Arranged(ms, true);
    var others := Others(a, n, ms);
    var sorted := Sorted(others);
    var i := 1;
    while i < n
      invariant 1 <= i <= n
      invariant forall k | 0 <= k < i :: a[k] == Text(arranged[k])
      invariant forall k | n <= k < a.Length :: a[k] == old(a[k])
    {
      a[i] := Text(sorted[i - 1]);
      i := i + 1;
    }
  }

  /** Whether the string is equal to the next one. */
  predicate Repeated(ms: seq<string>, k: nat) {
    k + 1 < |ms| && ms[k] == ms[k + 1]
  }

  /** Each string that is equal to the next is marked; the others but the last are counted. */
  method MarkDead(matches: array<Slot>, ghost ms: seq<string>) returns (newLen: nat)
    requires ms != [] && IsList(matches, ms)
    modifies matches
    ensures newLen + 1 == |Squeezed(ms, 0)|
    ensures matches[|ms|] == Null
    ensures forall k | 0 <= k < |ms| :: matches[k] == if Repeated(ms, k) then Dead else Text(ms[k])
  {
    newLen := 0;
    var i := 0;
    while matches[i + 1] != Null
      invariant 0 <= i < |ms| && newLen + |Squeezed(ms, i)| == |Squeezed(ms, 0)|
      invariant matches[|ms|] == Null
      invariant forall k | 0 <= k < i :: matches[k] == if Repeated(ms, k) then Dead else Text(ms[k])
      invariant forall k | i <= k < |ms| :: matches[k] == Text(ms[k])
      decreases |ms| - i
    {
      if matches[i].text == matches[i + 1].text {
        matches[i] := Dead;
      } else {
        newLen := newLen + 1;
      }
      i := i + 1;
    }
    assert Squeezed(ms, i) == [ms[i]];
  }

  /** The strings that are left of the second and later ones before the i-th. */
  function Live(ms: seq<string>, i: nat): seq<string>
    requires i <= |ms|
  {
    if i <= 1 then [] else Live(ms, i - 1) + if Repeated(ms, i - 1) then [] else [ms[i - 1]]
  }

  lemma {:induction false} LiveIsSqueezed(ms: seq<string>, i: nat)
    requires 1 <= i <= |ms|
    ensures |Live(ms, i)| + |Squeezed(ms, i)| == |Squeezed(ms, 1)|
    ensures Live(ms, i) + Squeezed(ms, i) == Squeezed(ms, 1)
  {
    if i > 1 {
      LiveIsSqueezed(ms, i - 1);
      var step := if Repeated(ms, i - 1) then [] else [ms[i - 1]];
      assert Squeezed(ms, i - 1) == step + Squeezed(ms, i);
      Regroup(Live(ms, i - 1), step, Squeezed(ms, i));
    }
  }

  lemma LiveFits(ms: seq<string>, i: nat)
    requires 1 <= i <= |ms|
    ensures |Live(ms, i)| <= |Squeezed(ms, 1)|
  {
    LiveIsSqueezed(ms, i);
  }

  lemma LiveIsAll(ms: seq<string>)
    requires ms != []
    ensures Live(ms, |ms|) == Squeezed(ms, 1)
  {
    LiveIsSqueezed(ms, |ms|);
    assert Squeezed(ms, |ms|) == [];
  }

  /** The strings that are left are copied, from the second place on. */
  method CopyLive(matches: array<Slot>, temp: array<Slot>, ghost ms: seq<string>) returns (j: nat)
    requires ms != [] && |ms| < matches.Length && matches[|ms|] == Null && matches != temp
    requires forall k | 0 <= k < |ms| :: matches[k] == if Repeated(ms, k) then Dead else Text(ms[k])
    requires |Squeezed(ms, 1)| + 1 < temp.Length
    modifies temp
    ensures j == |Squeezed(ms, 1)| + 1 && temp[j] == Null
    ensures Copied(temp, Squeezed(ms, 1))
  {
    var i: nat;
    i, j := 1, 1;
    LiveFits(ms, 1);
    while matches[i] != Null
      invariant 1 <= i <= |ms| && j == 1 + |Live(ms, i)| <= 1 + |Squeezed(ms, 1)|
      invariant Copied(temp, Live(ms, i))
      decreases |ms| - i
    {
      LiveFits(ms, i + 1);
      j := CopyNext(matches[i], temp, j, Repeated(ms, i), ms[i], Live(ms, i));
      i := i + 1;
    }
    LiveIsAll(ms);
    temp[j] := Null;
  }

  /** From the second place on the array holds these strings. */
  predicate Copied(temp: array<Slot>, live: seq<string>)
    reads temp
  {
    |live| < temp.Length && forall k | 1 <= k <= |live| :: temp[k] == Text(live[k - 1])
  }

  /** One string is copied, unless it is dead. */
  method CopyNext(slot: Slot, temp: array<Slot>, j: nat, ghost dead: bool, ghost m: string, ghost live: seq<string>)
    returns (next: nat)
    requires slot == (if dead then Dead else Text(m)) && Copied(temp, live) && j == 1 + |live| && j < temp.Length
    modifies temp
    ensures var now := live + if dead then [] else [m]; Copied(temp, now) && next == 1 + |now|
  {
    next := j;
    if slot != Dead {
      temp[next] := slot;
      next := next + 1;
    } else {
      assert live + [] == live;
    }
  }

  lemma SqueezedShorter(ms: seq<string>)
    requires ms != []
    ensures |Squeezed(ms, 1)| <= |Squeezed(ms, 0)| <= |Squeezed(ms, 1)| + 1
  {
  }

  /** remove_duplicate_matches: the new array holds the list without duplicates, and is large enough for it. */
  method RemoveDuplicateMatches(matches: array<Slot>, n: nat, sort: bool, ghost ms: seq<string>)
    returns (temp: array<Slot>)
    requires ms != [] && n == |ms| && IsList(matches, ms)
    modifies matches
    ensures fresh(temp) && IsList(temp, Deduped(ms, sort))
  {
    ghost var arranged := Arranged(ms, sort);
    if sort {
      QSort(matches, n, ms);
    }
    var lowestCommon := matches[0].text;
    var newLen := MarkDead(matches, arranged);
    SqueezedShorter(arranged);
    temp := new Slot[3 + newLen](_ => Null);
    var j := CopyLive(matches, temp, arranged);
    temp[0] := Text(lowestCommon);
    if j == 2 && temp[0].text == temp[1].text {
      assert Squeezed(arranged, 1) == [ms[0]];
      temp[1] := Null;
    }
  }
}
