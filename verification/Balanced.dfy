/**
 balanced-match and the comma splitting of brace expansion: finding the leftmost matched pair of
 brackets with a stack scanner, and splitting at the commas outside every matched pair of braces.
 */
module Balanced {
  import opened Basics

  // ---------- Matching, without a stack ----------

  /** Openers minus closers among the first i characters. */
  function Level(s: string, a: char, b: char, i: nat): int
    requires i <= |s|
  {
    if i == 0 then 0
    else Level(s, a, b, i - 1) + if s[i - 1] == a then 1 else if s[i - 1] == b then -1 else 0
  }

  /** The text between an opener at l and a closer at r is bracket-balanced. */
  ghost predicate Matched(s: string, a: char, b: char, l: nat, r: nat) {
    && l < r < |s| && s[l] == a && s[r] == b
    && Level(s, a, b, r) == Level(s, a, b, l + 1)
    && forall k :: l < k <= r ==> Level(s, a, b, k) >= Level(s, a, b, l + 1)
  }

  /** An opener has at most one closer. */
  lemma CloserIsUnique(s: string, a: char, b: char, l: nat, r: nat, r': nat)
    requires a != b && Matched(s, a, b, l, r) && Matched(s, a, b, l, r')
    ensures r == r'
  {
    assert Level(s, a, b, r + 1) == Level(s, a, b, r) - 1;
    assert Level(s, a, b, r' + 1) == Level(s, a, b, r') - 1;
  }

  /** Matched pairs do not cross. */
  lemma PairsNest(s: string, a: char, b: char, l: nat, r: nat, l': nat, r': nat)
    requires a != b && Matched(s, a, b, l, r) && Matched(s, a, b, l', r')
    requires l < l' < r
    ensures r' < r
  {
    assert Level(s, a, b, l' + 1) == Level(s, a, b, l') + 1;
    assert Level(s, a, b, l') >= Level(s, a, b, l + 1);
  }

  // ---------- The scanner ----------

  /** String.prototype.indexOf for one character. */
  function IndexOf(s: string, c: char, from: nat): (i: int)
    requires from <= |s|
    ensures i == -1 || (from <= i < |s| && s[i] == c)
    ensures forall k :: from <= k < (if i == -1 then |s| else i) ==> s[k] != c
    decreases |s| - from
  {
    if from == |s| then -1 else if s[from] == c then from else IndexOf(s, c, from + 1)
  }

  lemma {:induction false} LevelFlat(s: string, a: char, b: char, i: nat, j: nat)
    requires i <= j <= |s|
    requires forall k :: i <= k < j ==> s[k] != a && s[k] != b
    ensures Level(s, a, b, j) == Level(s, a, b, i)
    decreases j
  {
    if i < j {
      LevelFlat(s, a, b, i, j - 1);
    }
  }

  /** The openers on the stack are those still open after the first n characters: the level has not
      fallen below any of them since. */
  ghost predicate StillOpen(s: string, a: char, b: char, begs: seq<nat>, n: nat)
    requires n <= |s|
  {
    forall k :: 0 <= k < |begs| ==>
      && begs[k] < n && s[begs[k]] == a
      && (k > 0 ==> begs[k - 1] < begs[k])
      && Level(s, a, b, n) == Level(s, a, b, begs[k] + 1) + (|begs| - 1 - k)
      && NeverBelow(s, a, b, begs[k], n)
  }

  ghost predicate NeverBelow(s: string, a: char, b: char, l: nat, n: nat)
    requires l < n <= |s|
  {
    forall j :: l < j <= n ==> Level(s, a, b, j) >= Level(s, a, b, l + 1)
  }

  /** Every opener among the first n characters is on the stack or not to the left of `left`. */
  ghost predicate OthersFrom(s: string, a: char, begs: seq<nat>, left: nat, n: nat)
    requires n <= |s|
  {
    forall p: nat :: p < n && s[p] == a && p !in begs ==> left <= p
  }

  lemma AcrossGap(s: string, a: char, b: char, begs: seq<nat>, n: nat, i: nat)
    requires n <= i <= |s| && StillOpen(s, a, b, begs, n)
    requires forall k :: n <= k < i ==> s[k] != a && s[k] != b
    ensures StillOpen(s, a, b, begs, i)
  {
    LevelFlat(s, a, b, n, i);
    forall k | 0 <= k < |begs|
      ensures NeverBelow(s, a, b, begs[k], i)
    {
      forall j | begs[k] < j <= i
        ensures Level(s, a, b, j) >= Level(s, a, b, begs[k] + 1)
      {
        assert NeverBelow(s, a, b, begs[k], n);
        if n < j {
          LevelFlat(s, a, b, n, j);
        }
      }
    }
  }

  lemma PushOpener(s: string, a: char, b: char, begs: seq<nat>, i: nat)
    requires a != b && i < |s| && s[i] == a && StillOpen(s, a, b, begs, i)
    ensures StillOpen(s, a, b, begs + [i], i + 1)
  {
  }

  /** A closer matches the opener on top of the stack. */
  lemma PopOpener(s: string, a: char, b: char, begs: seq<nat>, i: nat)
    requires a != b && i < |s| && s[i] == b && begs != [] && StillOpen(s, a, b, begs, i)
    ensures Matched(s, a, b, begs[|begs| - 1], i)
    ensures StillOpen(s, a, b, begs[..|begs| - 1], i + 1)
  {
  }

  /** What is still open after the last closer is never matched. */
  lemma OpenIsUnmatched(s: string, a: char, b: char, begs: seq<nat>, n: nat, l: nat, r: nat)
    requires a != b && n <= |s| && StillOpen(s, a, b, begs, n)
    requires forall k :: n <= k < |s| ==> s[k] != b
    requires l in begs
    ensures !Matched(s, a, b, l, r)
  {
    var k :| 0 <= k < |begs| && begs[k] == l;
    assert NeverBelow(s, a, b, begs[k], n);
    if l < r < |s| && s[r] == b {
      assert Level(s, a, b, r + 1) == Level(s, a, b, r) - 1;
    }
  }

  /** No matched pair starts further to the left. */
  ghost predicate LeftmostMatch(s: string, a: char, b: char, l: nat, r: nat) {
    && Matched(s, a, b, l, r)
    && forall l': nat, r': nat :: Matched(s, a, b, l', r') ==> l <= l'
  }

  ghost predicate NoPair(s: string, a: char, b: char) {
    forall i, j :: 0 <= i < j < |s| && s[i] == a ==> s[j] != b
  }

  method Range(a: char, b: char, str: string) returns (result: Option<(nat, nat)>)
    ensures a != b ==> (result.None? <==> NoPair(str, a, b))
    ensures a != b && result.Some? ==> LeftmostMatch(str, a, b, result.value.0, result.value.1)
    ensures a == b && result.Some? ==>
              && result.value.0 < result.value.1 < |str| && str[result.value.0] == a == str[result.value.1]
              && forall k :: 0 <= k < result.value.1 && k != result.value.0 ==> str[k] != a
    ensures a == b && result.None? ==> NoPair(str, a, a)
  {
    hide Level, IndexOf, LeftmostMatch;
    var ai := IndexOf(str, a, 0);
    var bi := IndexOf(str, b, ai + 1);
    result := None;
    if ai >= 0 && bi > 0 {
      if a == b {
        return Some((ai, bi));
      }
      IndexAfter(str, b, ai, ai);
      result := Scan(a, b, str, ai, bi);
      MatchIsPair(str, a, b, result.value.0, result.value.1);
    }
  }

  lemma MatchIsPair(s: string, a: char, b: char, l: nat, r: nat)
    requires LeftmostMatch(s, a, b, l, r)
    ensures !NoPair(s, a, b)
  {
  }

  /** The scanning loop, from the first opener and the first closer after it. */
  method Scan(a: char, b: char, str: string, firstOpener: nat, firstCloser: nat) returns (result: Option<(nat, nat)>)
    requires a != b && firstOpener < firstCloser < |str|
    requires firstOpener == IndexOf(str, a, 0) && firstCloser == IndexOf(str, b, firstOpener)
    ensures result.Some? && LeftmostMatch(str, a, b, result.value.0, result.value.1)
  {
    hide Level, StillOpen, Matched, OthersFrom, IndexOf, LeftmostMatch, NeverBelow;
    var ai: int, bi: int, i: int := firstOpener, firstCloser, firstOpener;
    ghost var n := firstOpener;
    var begs: seq<nat> := [];
    var left: nat, right: nat := |str|, 0;
    result := None;
    IndexAgain(str, a, 0);
    NothingOpen(str, a, b, left, n);
    while i >= 0 && result.None?
      invariant n <= |str| && -1 <= i
      invariant result.None? ==>
                  && ai == IndexOf(str, a, n) && bi == IndexOf(str, b, n)
                  && i == (if ai < bi && ai >= 0 then ai else bi)
                  && (if begs == [] then n == firstOpener == ai else begs[0] == firstOpener)
                  && StillOpen(str, a, b, begs, n)
                  && OthersFrom(str, a, begs, left, n)
                  && (left < |str| || bi == firstCloser)
                  && (left < |str| ==> Matched(str, a, b, left, right))
      invariant result.Some? ==> begs == [] && result.value.0 == firstOpener
                                 && Matched(str, a, b, firstOpener, result.value.1)
      decreases result.None?, |str| - n
    {
      AcrossGap(str, a, b, begs, n, i);
      OthersAcrossGap(str, a, begs, left, n, i);
      if i == ai {
        PushOpener(str, a, b, begs, i);
        OthersAfterPush(str, a, begs, left, i);
        begs := begs + [i];
        ai := IndexOf(str, a, i + 1);
        IndexAfter(str, b, n, i);
      } else if |begs| == 1 {
        PopOpener(str, a, b, begs, i);
        result := Some((begs[0], bi));
        begs := [];
      } else {
        PopOpener(str, a, b, begs, i);
        OthersAfterPop(str, a, begs, left, i);
        var beg := begs[|begs| - 1];
        begs := begs[..|begs| - 1];
        if beg < left {
          left, right := beg, bi;
        }
        bi := IndexOf(str, b, i + 1);
        IndexAfter(str, a, n, i);
      }
      n := i + 1;
      i := if ai < bi && ai >= 0 then ai else bi;
    }
    if |begs| > 0 {
      result := Some((left, right));
      LeftIsLeftmost(str, a, b, begs, n, left, right);
    } else {
      FirstIsLeftmost(str, a, b, firstOpener, result.value.1);
    }
  }

  lemma IndexAgain(s: string, c: char, from: nat)
    requires from <= |s| && IndexOf(s, c, from) >= 0
    ensures IndexOf(s, c, IndexOf(s, c, from)) == IndexOf(s, c, from)
  {
  }

  lemma NothingOpen(s: string, a: char, b: char, left: nat, n: nat)
    requires n <= |s| && forall k :: 0 <= k < n ==> s[k] != a
    ensures StillOpen(s, a, b, [], n) && OthersFrom(s, a, [], left, n)
  {
  }

  lemma OthersAcrossGap(s: string, a: char, begs: seq<nat>, left: nat, n: nat, i: nat)
    requires n <= i <= |s| && OthersFrom(s, a, begs, left, n)
    requires forall k :: n <= k < i ==> s[k] != a
    ensures OthersFrom(s, a, begs, left, i)
  {
  }

  lemma OthersAfterPush(s: string, a: char, begs: seq<nat>, left: nat, i: nat)
    requires i < |s| && OthersFrom(s, a, begs, left, i)
    ensures OthersFrom(s, a, begs + [i], left, i + 1)
  {
  }

  lemma OthersAfterPop(s: string, a: char, begs: seq<nat>, left: nat, i: nat)
    requires i < |s| && s[i] != a && begs != [] && OthersFrom(s, a, begs, left, i)
    ensures var beg := begs[|begs| - 1];
            OthersFrom(s, a, begs[..|begs| - 1], if beg < left then beg else left, i + 1)
  {
  }

  lemma LeftIsLeftmost(s: string, a: char, b: char, begs: seq<nat>, n: nat, left: nat, right: nat)
    requires a != b && n <= |s| && StillOpen(s, a, b, begs, n) && OthersFrom(s, a, begs, left, n)
    requires forall k :: n <= k < |s| ==> s[k] != b
    requires left < |s| && Matched(s, a, b, left, right)
    ensures LeftmostMatch(s, a, b, left, right)
  {
    hide Level, StillOpen;
    forall l, r | Matched(s, a, b, l, r)
      ensures left <= l
    {
      if l in begs {
        OpenIsUnmatched(s, a, b, begs, n, l, r);
      }
    }
  }

  lemma FirstIsLeftmost(s: string, a: char, b: char, l: nat, r: nat)
    requires l == IndexOf(s, a, 0) && Matched(s, a, b, l, r)
    ensures LeftmostMatch(s, a, b, l, r)
  {
  }

  /** Skipping a character that is not the one sought. */
  lemma IndexAfter(s: string, c: char, n: nat, i: nat)
    requires n <= i < |s|
    requires forall k :: n <= k <= i ==> s[k] != c
    ensures IndexOf(s, c, i + 1) == IndexOf(s, c, n)
  {
  }
}
