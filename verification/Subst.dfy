/**
 The substitution modifiers :s and :gs of history expansion (readline-6.2/histexpand.c, the loop of
 history_expand_internal), on single-byte text.
*/
module Subst {
  import opened Options

  predicate OccursAt(t: string, i: nat, lhs: string) {
    i + |lhs| <= |t| && t[i..i + |lhs|] == lhs
  }

  predicate Occurs(t: string, lhs: string) {
    exists i :: 0 <= i <= |t| && OccursAt(t, i, lhs)
  }

  /** For each place of the text whether the pattern is found there. */
  function Hits(t: string, lhs: string): (hits: seq<bool>)
    ensures |hits| == |t| + 1
  {
    seq(|t| + 1, i requires 0 <= i => OccursAt(t, i, lhs))
  }

  lemma HitFits(t: string, lhs: string, k: nat)
    requires k <= |t| && Hits(t, lhs)[k]
    ensures k + |lhs| <= |t|
  {
  }

  // ----- where the pattern is replaced -----

  /** The places from i on where n characters are replaced: the first hit, and, globally, the same behind it. */
  function Cuts(hits: seq<bool>, n: nat, globally: bool, i: nat): (cuts: seq<nat>)
    requires n > 0
    decreases |hits| - i
  {
    if i >= |hits| then []
    else if !hits[i] then Cuts(hits, n, globally, i + 1)
    else if globally then [i] + Cuts(hits, n, globally, i + n)
    else [i]
  }

  predicate NoneIn(hits: seq<bool>, from: nat, to: nat)
    requires to <= |hits|
  {
    forall j | from <= j < to :: !hits[j]
  }

  /**
   What replacing from left to right without overlap means: every place is the first hit that starts behind the one
   replaced before it, and, if the replacing is global, there is none behind the last.
  */
  predicate LeftToRight(hits: seq<bool>, n: nat, globally: bool, i: nat, cuts: seq<nat>)
    decreases |cuts|
  {
    if cuts == [] then NoneIn(hits, i, |hits|)
    else
      && i <= cuts[0] < |hits| && hits[cuts[0]] && NoneIn(hits, i, cuts[0])
      && if globally then LeftToRight(hits, n, globally, cuts[0] + n, cuts[1..]) else |cuts| == 1
  }

  lemma FromBefore(hits: seq<bool>, n: nat, globally: bool, i: nat, cuts: seq<nat>)
    requires i < |hits| && !hits[i] && LeftToRight(hits, n, globally, i + 1, cuts)
    ensures LeftToRight(hits, n, globally, i, cuts)
  {
  }

  lemma {:induction false} CutsLeftToRight(hits: seq<bool>, n: nat, globally: bool, i: nat)
    requires n > 0
    ensures LeftToRight(hits, n, globally, i, Cuts(hits, n, globally, i))
    decreases |hits| - i
  {
    if i < |hits| {
      if !hits[i] {
        CutsLeftToRight(hits, n, globally, i + 1);
        FromBefore(hits, n, globally, i, Cuts(hits, n, globally, i + 1));
      } else if globally {
        CutsLeftToRight(hits, n, globally, i + n);
        var later := Cuts(hits, n, globally, i + n);
        assert ([i] + later)[1..] == later;
      }
    }
  }

  /** No other places are like that. */
  lemma {:induction false} OneWayToCut(hits: seq<bool>, n: nat, globally: bool, i: nat, cuts: seq<nat>)
    requires n > 0 && LeftToRight(hits, n, globally, i, cuts)
    ensures cuts == Cuts(hits, n, globally, i)
    decreases |hits| - i
  {
    if i < |hits| {
      if !hits[i] {
        OneWayToCut(hits, n, globally, i + 1, cuts);
      } else if globally {
        OneWayToCut(hits, n, globally, i + n, cuts[1..]);
      }
    }
  }

  /** A place inside of a replaced occurrence. */
  predicate Covered(cuts: seq<nat>, n: nat, j: nat) {
    cuts != [] && (cuts[0] <= j < cuts[0] + n || Covered(cuts[1..], n, j))
  }

  /** Globally, every occurrence is replaced or starts inside of a replaced one. */
  lemma {:induction false} EveryHitCovered(hits: seq<bool>, n: nat, i: nat, cuts: seq<nat>, j: nat)
    requires LeftToRight(hits, n, true, i, cuts) && i <= j < |hits| && hits[j]
    ensures Covered(cuts, n, j)
    decreases |cuts|
  {
    if cuts != [] && j >= cuts[0] + n {
      EveryHitCovered(hits, n, cuts[0] + n, cuts[1..], j);
    }
  }

  /** The text from i on, with the n characters at each place exchanged for the replacement. */
  function Spliced(t: string, cuts: seq<nat>, i: nat, n: nat, rhs: string): string
    requires n > 0
    decreases |t| - i
  {
    if i >= |t| then []
    else if cuts != [] && cuts[0] == i then rhs + Spliced(t, cuts[1..], i + n, n, rhs)
    else [t[i]] + Spliced(t, cuts, i + 1, n, rhs)
  }

  /** :s, and :gs if globally. */
  function Replaced(t: string, lhs: string, rhs: string, globally: bool): string
    requires lhs != []
  {
    Spliced(t, Cuts(Hits(t, lhs), |lhs|, globally, 0), 0, |lhs|, rhs)
  }

  /** Without places to replace the text stays. */
  lemma {:induction false} SplicedNowhere(t: string, i: nat, n: nat, rhs: string)
    requires n > 0 && i <= |t|
    ensures Spliced(t, [], i, n, rhs) == t[i..]
    decreases |t| - i
  {
    if i < |t| {
      SplicedNowhere(t, i + 1, n, rhs);
    }
  }

  lemma FirstCharacter(t: string, i: nat, k: nat, rest: string)
    requires i < k <= |t|
    ensures [t[i]] + (t[i + 1..k] + rest) == t[i..k] + rest
  {
  }

  /** :s exchanges the first occurrence and nothing else. */
  lemma {:induction false} SplicedOnce(t: string, k: nat, i: nat, n: nat, rhs: string)
    requires n > 0 && i <= k && k + n <= |t|
    ensures Spliced(t, [k], i, n, rhs) == t[i..k] + (rhs + t[k + n..])
    decreases k - i
  {
    if i < k {
      SplicedOnce(t, k, i + 1, n, rhs);
      FirstCharacter(t, i, k, rhs + t[k + n..]);
    } else {
      SplicedNowhere(t, k + n, n, rhs);
      assert [k][1..] == [] && t[i..k] == [];
    }
  }

  lemma FirstReplaced(t: string, lhs: string, rhs: string, k: nat)
    requires lhs != [] && OccursAt(t, k, lhs) && forall j: nat | j < k :: !OccursAt(t, j, lhs)
    ensures Replaced(t, lhs, rhs, false) == t[..k] + (rhs + t[k + |lhs|..])
  {
    OneWayToCut(Hits(t, lhs), |lhs|, false, 0, [k]);
    SplicedOnce(t, k, 0, |lhs|, rhs);
    assert t[0..k] == t[..k];
  }

  lemma HitPeels(t: string, lhs: string, i: nat)
    requires i <= |t| && Hits(t, lhs)[i]
    ensures i + |lhs| <= |t| && lhs + t[i + |lhs|..] == t[i..]
  {
    assert t[i..] == t[i..i + |lhs|] + t[i + |lhs|..];
  }

  /** Replacing a pattern by itself changes nothing. */
  lemma {:induction false} ReplacedBySelf(t: string, lhs: string, globally: bool, i: nat)
    requires lhs != [] && i <= |t|
    ensures Spliced(t, Cuts(Hits(t, lhs), |lhs|, globally, i), i, |lhs|, lhs) == t[i..]
    decreases |t| - i
  {
    var hits, n := Hits(t, lhs), |lhs|;
    if i < |t| && hits[i] {
      HitPeels(t, lhs, i);
      if globally {
        ReplacedBySelf(t, lhs, globally, i + n);
        SplicedAt(t, Cuts(hits, n, globally, i + n), i, n, lhs);
      } else {
        SplicedNowhere(t, i + n, n, lhs);
        SplicedAt(t, [], i, n, lhs);
        assert [i] + [] == [i];
      }
    } else if i < |t| {
      ReplacedBySelf(t, lhs, globally, i + 1);
      CutsBehind(hits, n, globally, i + 1);
      assert [t[i]] + t[i + 1..] == t[i..];
    }
  }

  lemma {:induction false} CutsBehind(hits: seq<bool>, n: nat, globally: bool, i: nat)
    requires n > 0
    ensures Cuts(hits, n, globally, i) != [] ==> Cuts(hits, n, globally, i)[0] >= i
    decreases |hits| - i
  {
    if i < |hits| && !hits[i] {
      CutsBehind(hits, n, globally, i + 1);
    }
  }

  /** The length changes by the same amount at each replaced occurrence. */
  lemma {:induction false} ReplacedLength(t: string, lhs: string, rhs: string, globally: bool, i: nat)
    requires lhs != [] && i <= |t|
    ensures var cuts := Cuts(Hits(t, lhs), |lhs|, globally, i);
      |Spliced(t, cuts, i, |lhs|, rhs)| == |t| - i + |cuts| * (|rhs| - |lhs|)
    decreases |t| - i
  {
    var hits, n := Hits(t, lhs), |lhs|;
    assert hits[i] ==> i + n <= |t|;
    if i < |t| && hits[i] {
      var later := if globally then Cuts(hits, n, globally, i + n) else [];
      assert ([i] + later)[1..] == later;
      if globally {
        ReplacedLength(t, lhs, rhs, globally, i + n);
      } else {
        SplicedNowhere(t, i + n, n, rhs);
      }
      Times(|later|, |rhs| - n);
    } else if i < |t| {
      ReplacedLength(t, lhs, rhs, globally, i + 1);
      CutsBehind(hits, n, globally, i + 1);
    } else {
      assert Cuts(hits, n, globally, i) == [];
    }
  }

  lemma Times(n: nat, d: int)
    ensures (n + 1) * d == d + n * d
  {
  }

  /** There is something to replace exactly when the pattern occurs. */
  lemma {:induction false} CutsFindSome(hits: seq<bool>, n: nat, globally: bool, i: nat)
    requires n > 0
    ensures Cuts(hits, n, globally, i) == [] <==> forall j | i <= j < |hits| :: !hits[j]
    decreases |hits| - i
  {
    if i < |hits| && !hits[i] {
      CutsFindSome(hits, n, globally, i + 1);
    }
  }

  lemma OccursIsCut(t: string, lhs: string, globally: bool)
    requires lhs != []
    ensures Occurs(t, lhs) <==> Cuts(Hits(t, lhs), |lhs|, globally, 0) != []
  {
    var hits := Hits(t, lhs);
    CutsFindSome(hits, |lhs|, globally, 0);
    if i :| 0 <= i <= |t| && OccursAt(t, i, lhs) {
      assert hits[i];
    }
  }

  // ----- the whole replacement, occurrence by occurrence -----

  /** What the text becomes from i on. */
  function Rest(t: string, lhs: string, rhs: string, globally: bool, i: nat): string
    requires lhs != []
  {
    Spliced(t, Cuts(Hits(t, lhs), |lhs|, globally, i), i, |lhs|, rhs)
  }

  lemma RestStep(t: string, lhs: string, rhs: string, globally: bool, i: nat)
    requires lhs != [] && i < |t|
    ensures !OccursAt(t, i, lhs) ==> Rest(t, lhs, rhs, globally, i) == [t[i]] + Rest(t, lhs, rhs, globally, i + 1)
    ensures OccursAt(t, i, lhs) && globally ==>
              Rest(t, lhs, rhs, globally, i) == rhs + Rest(t, lhs, rhs, globally, i + |lhs|)
    ensures OccursAt(t, i, lhs) && !globally ==> Rest(t, lhs, rhs, globally, i) == rhs + t[i + |lhs|..]
  {
    var hits, n := Hits(t, lhs), |lhs|;
    assert hits[i] == OccursAt(t, i, lhs);
    if !hits[i] {
      CutsBehind(hits, n, globally, i + 1);
    } else if globally {
      SplicedAt(t, Cuts(hits, n, globally, i + n), i, n, rhs);
    } else {
      SplicedAt(t, [], i, n, rhs);
      assert [i] + [] == [i];
      SplicedNowhere(t, i + n, n, rhs);
    }
  }

  /** Text is replaced in the same way wherever it stands. */
  lemma {:induction false} RestOfTail(t: string, lhs: string, rhs: string, globally: bool, d: nat, i: nat)
    requires lhs != [] && d <= i <= |t|
    ensures Rest(t[d..], lhs, rhs, globally, i - d) == Rest(t, lhs, rhs, globally, i)
    decreases |t| - i
  {
    var t', j := t[d..], i - d;
    if i < |t| {
      OccursInTail(t, t', lhs, d, i);
      RestStep(t, lhs, rhs, globally, i);
      RestStep(t', lhs, rhs, globally, j);
      if !OccursAt(t, i, lhs) {
        RestOfTail(t, lhs, rhs, globally, d, i + 1);
      } else if globally {
        RestOfTail(t, lhs, rhs, globally, d, i + |lhs|);
      }
    } else {
      assert Rest(t, lhs, rhs, globally, i) == [] == Rest(t', lhs, rhs, globally, j);
    }
  }

  lemma OccursInTail(t: string, t': string, lhs: string, d: nat, i: nat)
    requires d <= i <= |t| && t' == t[d..]
    ensures OccursAt(t, i, lhs) <==> OccursAt(t', i - d, lhs)
    ensures OccursAt(t, i, lhs) ==> t'[i - d + |lhs|..] == t[i + |lhs|..]
  {
    if i + |lhs| <= |t| {
      assert t'[i - d..i - d + |lhs|] == t[i..i + |lhs|];
    }
  }

  /** Before the first occurrence nothing changes. */
  lemma {:induction false} RestBefore(t: string, lhs: string, rhs: string, globally: bool, i: nat, k: nat)
    requires lhs != [] && i <= k <= |t| && forall j: nat | i <= j < k :: !OccursAt(t, j, lhs)
    ensures Rest(t, lhs, rhs, globally, i) == t[i..k] + Rest(t, lhs, rhs, globally, k)
    decreases k - i
  {
    if i < k {
      RestStep(t, lhs, rhs, globally, i);
      RestBefore(t, lhs, rhs, globally, i + 1, k);
      FirstCharacter(t, i, k, Rest(t, lhs, rhs, globally, k));
    }
  }

  /**
   The global replacement is what comes before the first occurrence, the new text, and the global replacement of what
   comes behind the occurrence; a text in which the pattern does not occur stays.
  */
  lemma ReplacedGlobally(t: string, lhs: string, rhs: string, k: nat)
    requires lhs != [] && OccursAt(t, k, lhs) && forall j: nat | j < k :: !OccursAt(t, j, lhs)
    ensures Replaced(t, lhs, rhs, true) == t[..k] + (rhs + Replaced(t[k + |lhs|..], lhs, rhs, true))
  {
    RestBefore(t, lhs, rhs, true, 0, k);
    RestStep(t, lhs, rhs, true, k);
    RestOfTail(t, lhs, rhs, true, k + |lhs|, k + |lhs|);
    assert t[0..k] == t[..k];
  }

  lemma NothingReplaced(t: string, lhs: string, rhs: string, globally: bool)
    requires lhs != [] && !Occurs(t, lhs)
    ensures Replaced(t, lhs, rhs, globally) == t
  {
    RestBefore(t, lhs, rhs, globally, 0, |t|);
    assert t[0..|t|] == t;
  }

  // ----- the loop -----

  datatype Outcome = Substituted(text: string) | NoPreviousSubstitution | SubstitutionFailed

  /** From si on the buffer is the line from k on. */
  predicate SameTail(line: string, temp: string, k: nat, si: nat): (r: bool)
    ensures r ==> k <= |line| && si <= |temp| && |temp| - si == |line| - k
    decreases |line| - k
  {
    if k >= |line| then k == |line| && si == |temp|
    else si < |temp| && temp[si] == line[k] && SameTail(line, temp, k + 1, si + 1)
  }

  lemma {:induction false} TailIs(line: string, temp: string, k: nat, si: nat)
    requires k <= |line| && si <= |temp|
    ensures SameTail(line, temp, k, si) <==> temp[si..] == line[k..]
    decreases |line| - k
  {
    if k < |line| && si < |temp| {
      TailIs(line, temp, k + 1, si + 1);
      assert temp[si..] == [temp[si]] + temp[si + 1..] && line[k..] == [line[k]] + line[k + 1..];
    }
  }

  /** The buffer up to si is finished. */
  ghost predicate Finished(line: string, temp: string, k: nat, si: nat, lhs: string, rhs: string, globally: bool)
    requires lhs != []
  {
    && si <= |temp|
    && Replaced(line, lhs, rhs, globally) ==
       temp[..si] + Spliced(line, Cuts(Hits(line, lhs), |lhs|, globally, k), k, |lhs|, rhs)
  }

  /** Whether something was replaced before k. */
  predicate Failing(line: string, k: nat, lhs: string, globally: bool, failed: bool)
    requires lhs != []
  {
    var hits := Hits(line, lhs);
    if failed then Cuts(hits, |lhs|, globally, 0) == Cuts(hits, |lhs|, globally, k)
    else globally && Cuts(hits, |lhs|, globally, 0) != []
  }

  /** How much of the line was scanned, if the buffer is finished up to si and the line from k on behind it. */
  ghost function Scanned(line: string, temp: string, k: nat, si: nat, lhs: string, rhs: string,
                         globally: bool, failed: bool): Option<nat>
    requires lhs != []
  {
    if && SameTail(line, temp, k, si) && Finished(line, temp, k, si, lhs, rhs, globally)
       && Failing(line, k, lhs, globally, failed)
    then Some(k) else None
  }

  lemma Starts(line: string, lhs: string, rhs: string, globally: bool)
    requires lhs != []
    ensures Scanned(line, line, 0, 0, lhs, rhs, globally, true) == Some(0)
  {
    TailIs(line, line, 0, 0);
    assert line[..0] == [];
  }

  /** The same characters are compared in the buffer as in the line. */
  lemma SameTest(line: string, temp: string, k: nat, si: nat, lhs: string)
    requires SameTail(line, temp, k, si) && si + |lhs| <= |temp|
    ensures temp[si..si + |lhs|] == lhs <==> Hits(line, lhs)[k]
  {
    TailIs(line, temp, k, si);
    assert temp[si..si + |lhs|] == temp[si..][..|lhs|] == line[k..][..|lhs|] == line[k..k + |lhs|];
    assert Hits(line, lhs)[k] == OccursAt(line, k, lhs);
  }

  lemma Skipped(line: string, temp: string, k: nat, si: nat, lhs: string, rhs: string, globally: bool, failed: bool)
    requires lhs != [] && Scanned(line, temp, k, si, lhs, rhs, globally, failed) == Some(k)
    requires k <= |line| && !Hits(line, lhs)[k] && si < |temp|
    ensures Scanned(line, temp, k + 1, si + 1, lhs, rhs, globally, failed) == Some(k + 1)
  {
    var n := |lhs|;
    var cuts := Cuts(Hits(line, lhs), n, globally, k + 1);
    var rest := Spliced(line, cuts, k + 1, n, rhs);
    CutsBehind(Hits(line, lhs), n, globally, k + 1);
    assert Cuts(Hits(line, lhs), n, globally, k) == cuts;
    assert Spliced(line, cuts, k, n, rhs) == [line[k]] + rest;
    Assoc(temp[..si], [line[k]], rest);
    assert temp[..si + 1] == temp[..si] + [temp[si]];
  }

  lemma Exchanged(line: string, temp: string, k: nat, si: nat, n: nat, rhs: string, next: string)
    requires SameTail(line, temp, k, si) && si + n <= |temp| && next == temp[..si] + rhs + temp[si + n..]
    ensures SameTail(line, next, k + n, si + |rhs|) && next[..si + |rhs|] == temp[..si] + rhs
    ensures next == next[..si + |rhs|] + line[k + n..]
  {
    TailIs(line, temp, k, si);
    assert temp[si + n..] == temp[si..][n..] == line[k..][n..] == line[k + n..];
    assert next[si + |rhs|..] == temp[si + n..];
    TailIs(line, next, k + n, si + |rhs|);
  }

  /** Splicing on at a place that is replaced. */
  lemma SplicedAt(t: string, later: seq<nat>, k: nat, n: nat, rhs: string)
    requires n > 0 && k < |t|
    ensures Spliced(t, [k] + later, k, n, rhs) == rhs + Spliced(t, later, k + n, n, rhs)
  {
    assert ([k] + later)[1..] == later;
  }

  lemma Assoc(a: string, b: string, c: string)
    ensures a + (b + c) == a + b + c
  {
  }

  lemma Replaces(line: string, temp: string, k: nat, si: nat, lhs: string, rhs: string, globally: bool, next: string)
    requires lhs != [] && Finished(line, temp, k, si, lhs, rhs, globally)
    requires k + |lhs| <= |line| && Hits(line, lhs)[k]
    requires si + |rhs| <= |next| && next[..si + |rhs|] == temp[..si] + rhs
    ensures globally ==> Finished(line, next, k + |lhs|, si + |rhs|, lhs, rhs, globally)
    ensures !globally ==> Replaced(line, lhs, rhs, globally) == next[..si + |rhs|] + line[k + |lhs|..]
  {
    var n := |lhs|;
    var later := if globally then Cuts(Hits(line, lhs), n, globally, k + n) else [];
    var rest := Spliced(line, later, k + n, n, rhs);
    SplicedAt(line, later, k, n, rhs);
    assert Cuts(Hits(line, lhs), n, globally, k) == [k] + later;
    Assoc(temp[..si], rhs, rest);
    if !globally {
      SplicedNowhere(line, k + n, n, rhs);
    }
  }

  lemma {:induction false} TooShort(line: string, lhs: string, k: nat, globally: bool)
    requires lhs != [] && k <= |line| < k + |lhs|
    ensures Cuts(Hits(line, lhs), |lhs|, globally, k) == []
    decreases |line| - k
  {
    assert Hits(line, lhs)[k] == OccursAt(line, k, lhs);
    if k < |line| {
      TooShort(line, lhs, k + 1, globally);
    }
  }

  lemma Ends(line: string, temp: string, k: nat, si: nat, lhs: string, rhs: string, globally: bool, failed: bool)
    requires lhs != [] && Scanned(line, temp, k, si, lhs, rhs, globally, failed) == Some(k)
    requires si + |lhs| > |temp|
    ensures temp == Replaced(line, lhs, rhs, globally)
    ensures failed == (Cuts(Hits(line, lhs), |lhs|, globally, 0) == [])
  {
    TooShort(line, lhs, k, globally);
    SplicedNowhere(line, k, |lhs|, rhs);
    TailIs(line, temp, k, si);
    assert temp == temp[..si] + temp[si..];
  }

  /** The new event, with the replacement for the pattern at si. */
  method NewEvent(ghost line: string, temp: string, ghost k: nat, si: nat, lhs: string, rhs: string,
                  ghost globally: bool, ghost failed: bool)
    returns (newEvent: string)
    requires lhs != [] && Scanned(line, temp, k, si, lhs, rhs, globally, failed) == Some(k)
    requires k <= |line| && Hits(line, lhs)[k]
    ensures |newEvent| - (si + |rhs|) == |line| - (k + |lhs|) >= 0
    ensures globally ==> Scanned(line, newEvent, k + |lhs|, si + |rhs|, lhs, rhs, globally, false) == Some(k + |lhs|)
    ensures !globally ==> newEvent == Replaced(line, lhs, rhs, globally)
    ensures Cuts(Hits(line, lhs), |lhs|, globally, 0) != []
  {
    HitFits(line, lhs, k);
    newEvent := temp[..si] + rhs + temp[si + |lhs|..];
    Exchanged(line, temp, k, si, |lhs|, rhs, newEvent);
    Replaces(line, temp, k, si, lhs, rhs, globally, newEvent);
  }

  /** STREQN: the pattern is at si. */
  method AtPattern(ghost line: string, temp: string, ghost k: nat, si: nat, lhs: string, ghost rhs: string,
                   ghost globally: bool, ghost failed: bool)
    returns (found: bool)
    requires lhs != [] && Scanned(line, temp, k, si, lhs, rhs, globally, failed) == Some(k) && si + |lhs| <= |temp|
    ensures k <= |line| && found == Hits(line, lhs)[k]
  {
    SameTest(line, temp, k, si, lhs);
    found := temp[si..si + |lhs|] == lhs;
  }

  /** The loop over si: inserted text is never searched again, whatever it contains. */
  method SearchLoop(line: string, lhs: string, rhs: string, globally: bool) returns (temp: string, failed: bool)
    requires lhs != []
    ensures failed == (Cuts(Hits(line, lhs), |lhs|, globally, 0) == [])
    ensures !failed ==> temp == Replaced(line, lhs, rhs, globally)
  {
    temp := line;
    var lTemp, si: int := |line|, 0;
    failed := true;
    ghost var k: nat := 0;
    Starts(line, lhs, rhs, globally);
    while si + |lhs| <= lTemp
      invariant 0 <= si && lTemp == |temp| && k <= |line| && lTemp - si == |line| - k
      invariant Scanned(line, temp, k, si, lhs, rhs, globally, failed) == Some(k)
      decreases lTemp - si
    {
      var found := AtPattern(line, temp, k, si, lhs, rhs, globally, failed);
      if found {
        temp := NewEvent(line, temp, k, si, lhs, rhs, globally, failed);
        failed := false;
        if !globally {
          return;
        }
        si := si + |rhs| - 1;
        lTemp := |temp|;
        k := k + |lhs|;
      } else {
        Skipped(line, temp, k, si, lhs, rhs, globally, failed);
        k := k + 1;
      }
      si := si + 1;
    }
    Ends(line, temp, k, si, lhs, rhs, globally, failed);
  }

  /**
   The modifier.  An empty pattern and a pattern that does not occur are errors; otherwise the first occurrence is
   replaced, or, globally, every one from left to right.
  */
  method Substitute(line: string, lhs: string, rhs: string, globally: bool) returns (r: Outcome)
    ensures lhs == [] ==> r == NoPreviousSubstitution
    ensures lhs != [] && !Occurs(line, lhs) ==> r == SubstitutionFailed
    ensures lhs != [] && Occurs(line, lhs) ==> r == Substituted(Replaced(line, lhs, rhs, globally))
  {
    if |lhs| == 0 {
      return NoPreviousSubstitution;
    }
    OccursIsCut(line, lhs, globally);
    if |lhs| > |line| {
      TooShort(line, lhs, 0, globally);
      return SubstitutionFailed;
    }
    var temp, failed := SearchLoop(line, lhs, rhs, globally);
    return if failed then SubstitutionFailed else Substituted(temp);
  }
}
