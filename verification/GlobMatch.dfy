/**
 The segment matcher of the glob engine: Minimatch.prototype.matchOne, with its full mode
 (does this path match?) and its partial mode (can some path below this one still match?).
 */
module GlobMatch {

  /** One compiled pattern segment. Regular expressions are abstract predicates on one name;
      Broken is the `false` left behind by a segment that did not compile. */
  datatype Segment =
    | Literal(text: string)
    | Wildcard(accepts: string -> bool)
    | GlobStar
    | Broken

  /** A segment other than `**` accepts exactly one file segment. */
  predicate Hits(p: Segment, f: string) {
    match p
    case Literal(text) => f == text
    case Wildcard(accepts) => accepts(f)
    case _ => false
  }

  /** `**` never absorbs "." or "..", and absorbs dot names only when asked to. */
  predicate Swallows(dot: bool, f: string) {
    f != "." && f != ".." && (dot || f == "" || f[0] != '.')
  }

  predicate AllSwallowed(dot: bool, file: seq<string>) {
    forall k :: 0 <= k < |file| ==> Swallows(dot, file[k])
  }

  // ---------- What a match means, without reference to any search order ----------

  /** Pattern segment p is given the file segments lo..hi. */
  predicate SpanFits(dot: bool, file: seq<string>, p: Segment, lo: int, hi: int, last: bool) {
    && 0 <= lo <= hi <= |file|
    && if p.GlobStar? then
         (last ==> lo < hi) && AllSwallowed(dot, file[lo..hi])
       else
         hi == lo + 1 && Hits(p, file[lo])
  }

  predicate SpanAt(dot: bool, file: seq<string>, pattern: seq<Segment>, cuts: seq<int>, i: nat)
    requires i < |pattern| && |cuts| == |pattern| + 1
  {
    SpanFits(dot, file, pattern[i], cuts[i], cuts[i + 1], i == |pattern| - 1)
  }

  /** The pattern may stop at the end of the file or before one empty last segment, which is what
      a trailing slash leaves. */
  predicate MayStopAt(file: seq<string>, end: int) {
    end == |file| || (0 <= end == |file| - 1 && file[end] == "")
  }

  /** cuts[i] is the index of the first file segment given to pattern segment i. */
  ghost predicate Aligned(dot: bool, file: seq<string>, pattern: seq<Segment>, cuts: seq<int>) {
    && |cuts| == |pattern| + 1
    && cuts[0] == 0
    && MayStopAt(file, cuts[|pattern|])
    && forall i :: 0 <= i < |pattern| ==> SpanAt(dot, file, pattern, cuts, i)
  }

  ghost predicate Matches(dot: bool, file: seq<string>, pattern: seq<Segment>) {
    exists cuts :: Aligned(dot, file, pattern, cuts)
  }

  // ---------- The recursion the matcher performs ----------

  /** `**` absorbs the first k segments and the rest of the pattern takes over. */
  ghost predicate HandsOver(dot: bool, file: seq<string>, k: nat, rest: seq<Segment>, partial: bool)
    requires k <= |file|
    decreases |rest|, 1
  {
    AllSwallowed(dot, file[..k]) && RecMatch(dot, file[k..], rest, partial)
  }

  /** A `**` with more pattern after it; in partial mode it may also absorb the whole file. */
  ghost predicate GlobStarMatch(dot: bool, file: seq<string>, rest: seq<Segment>, partial: bool)
    decreases |rest|, 2
  {
    || (exists k: nat :: k < |file| && HandsOver(dot, file, k, rest, partial))
    || (partial && AllSwallowed(dot, file))
  }

  ghost predicate RecMatch(dot: bool, file: seq<string>, pattern: seq<Segment>, partial: bool)
    decreases |pattern|, 0
  {
    if pattern == [] then
      file == [] || file == [""]
    else if file == [] then
      partial
    else if pattern[0].GlobStar? then
      if |pattern| == 1 then
        AllSwallowed(dot, file)
      else
        GlobStarMatch(dot, file, pattern[1..], partial)
    else
      Hits(pattern[0], file[0]) && RecMatch(dot, file[1..], pattern[1..], partial)
  }

  method MatchOne(dot: bool, file: seq<string>, pattern: seq<Segment>, partial: bool) returns (hit: bool)
    ensures hit == RecMatch(dot, file, pattern, partial)
    ensures !partial ==> hit == Matches(dot, file, pattern)
    decreases |pattern|, 1
  {
    if !partial {
      FullModeIsAlignment(dot, file, pattern);
    }
    var fi, pi := 0, 0;
    while fi < |file| && pi < |pattern|
      invariant 0 <= fi <= |file| && 0 <= pi <= |pattern|
      invariant RecMatch(dot, file, pattern, partial) == RecMatch(dot, file[fi..], pattern[pi..], partial)
    {
      var p, f := pattern[pi], file[fi];
      if p.Broken? {
        return false;
      }
      assert pattern[pi..][1..] == pattern[pi + 1..];
      assert file[fi..][1..] == file[fi + 1..];
      if p.GlobStar? {
        if pi + 1 == |pattern| {
          hit := SwallowsRest(dot, file[fi..]);
        } else {
          hit := HandOver(dot, file[fi..], pattern[pi + 1..], partial);
        }
        return;
      }
      if !Hits(p, f) {
        return false;
      }
      fi, pi := fi + 1, pi + 1;
    }
    if fi == |file| && pi == |pattern| {
      return true;
    } else if fi == |file| {
      return partial;
    } else {
      return fi == |file| - 1 && file[fi] == "";
    }
  }

  /** A `**` at the end takes every remaining segment. */
  method SwallowsRest(dot: bool, file: seq<string>) returns (all: bool)
    ensures all == AllSwallowed(dot, file)
  {
    var fi := 0;
    while fi < |file|
      invariant 0 <= fi <= |file|
      invariant forall k :: 0 <= k < fi ==> Swallows(dot, file[k])
    {
      if !Swallows(dot, file[fi]) {
        return false;
      }
      fi := fi + 1;
    }
    return true;
  }

  /** A `**` before `rest` absorbs one more segment each time `rest` does not match what follows. */
  method HandOver(dot: bool, file: seq<string>, rest: seq<Segment>, partial: bool) returns (hit: bool)
    requires file != []
    ensures hit == GlobStarMatch(dot, file, rest, partial)
    decreases |rest|, 2
  {
    var fr := 0;
    while fr < |file|
      invariant 0 <= fr <= |file|
      invariant forall k :: 0 <= k < fr ==> Swallows(dot, file[k])
      invariant forall k: nat :: k < fr ==> !HandsOver(dot, file, k, rest, partial)
    {
      hit := MatchOne(dot, file[fr..], rest, partial);
      if hit {
        assert HandsOver(dot, file, fr, rest, partial);
        return true;
      }
      if !Swallows(dot, file[fr]) {
        assert forall k :: fr < k <= |file| ==> file[..k][fr] == file[fr];
        return false;
      }
      fr := fr + 1;
    }
    return partial;
  }

  // ---------- Full mode decides the declarative meaning ----------

  lemma FullModeIsAlignment(dot: bool, file: seq<string>, pattern: seq<Segment>)
    ensures RecMatch(dot, file, pattern, false) <==> Matches(dot, file, pattern)
  {
    if RecMatch(dot, file, pattern, false) {
      var cuts := AlignmentOf(dot, file, pattern);
    }
    if Matches(dot, file, pattern) {
      var cuts :| Aligned(dot, file, pattern, cuts);
      AlignedIsFound(dot, file, pattern, cuts);
    }
  }

  lemma SpanShift(dot: bool, file: seq<string>, p: Segment, lo: int, hi: int, last: bool, w: nat)
    requires w <= |file| && 0 <= lo
    ensures SpanFits(dot, file[w..], p, lo, hi, last) == SpanFits(dot, file, p, lo + w, hi + w, last)
  {
    if lo <= hi <= |file| - w {
      assert file[w..][lo..hi] == file[lo + w..hi + w];
    }
  }

  function Shifted(w: int, cuts: seq<int>): (r: seq<int>)
    ensures |r| == |cuts| && forall i :: 0 <= i < |cuts| ==> r[i] == cuts[i] + w
  {
    seq(|cuts|, i requires 0 <= i < |cuts| => cuts[i] + w)
  }

  /** Prefixing one fitting span to an alignment of the remainder. */
  lemma AlignedCons(dot: bool, file: seq<string>, pattern: seq<Segment>, w: nat, rest: seq<int>)
    requires pattern != [] && w <= |file|
    requires SpanFits(dot, file, pattern[0], 0, w, |pattern| == 1)
    requires Aligned(dot, file[w..], pattern[1..], rest)
    ensures Aligned(dot, file, pattern, [0] + Shifted(w, rest))
  {
    var cuts := [0] + Shifted(w, rest);
    forall i | 0 <= i < |pattern|
      ensures SpanAt(dot, file, pattern, cuts, i)
    {
      if i > 0 {
        var lo, hi := rest[i - 1], rest[i];
        assert SpanAt(dot, file[w..], pattern[1..], rest, i - 1);
        SpanShift(dot, file, pattern[i], lo, hi, i == |pattern| - 1, w);
      }
    }
  }

  /** Reads an alignment off a successful match. */
  lemma {:induction false} AlignmentOf(dot: bool, file: seq<string>, pattern: seq<Segment>) returns (cuts: seq<int>)
    requires RecMatch(dot, file, pattern, false)
    ensures Aligned(dot, file, pattern, cuts)
    decreases |pattern|
  {
    if pattern == [] {
      cuts := [0];
    } else if pattern[0].GlobStar? && |pattern| == 1 {
      assert file[0..|file|] == file;
      cuts := [0, |file|];
    } else {
      var w := 1;
      if pattern[0].GlobStar? {
        assert GlobStarMatch(dot, file, pattern[1..], false);
        w :| 0 <= w < |file| && HandsOver(dot, file, w, pattern[1..], false);
      }
      assert file[0..w] == file[..w];
      var rest := AlignmentOf(dot, file[w..], pattern[1..]);
      AlignedCons(dot, file, pattern, w, rest);
      cuts := [0] + Shifted(w, rest);
    }
  }

  lemma CutsAscend(dot: bool, file: seq<string>, pattern: seq<Segment>, cuts: seq<int>, i: nat, j: nat)
    requires Aligned(dot, file, pattern, cuts)
    requires i <= j <= |pattern|
    ensures cuts[i] <= cuts[j]
    decreases j
  {
    if i < j {
      assert SpanAt(dot, file, pattern, cuts, j - 1);
      CutsAscend(dot, file, pattern, cuts, i, j - 1);
    }
  }

  lemma AlignedTail(dot: bool, file: seq<string>, pattern: seq<Segment>, cuts: seq<int>)
    requires pattern != [] && Aligned(dot, file, pattern, cuts)
    ensures SpanFits(dot, file, pattern[0], 0, cuts[1], |pattern| == 1)
    ensures Aligned(dot, file[cuts[1]..], pattern[1..], Shifted(-cuts[1], cuts[1..]))
  {
    var w := cuts[1];
    assert SpanAt(dot, file, pattern, cuts, 0);
    var rest := Shifted(-w, cuts[1..]);
    CutsAscend(dot, file, pattern, cuts, 1, |pattern|);
    forall i | 0 <= i < |pattern[1..]|
      ensures SpanAt(dot, file[w..], pattern[1..], rest, i)
    {
      var j := i + 1;
      assert SpanAt(dot, file, pattern, cuts, j);
      CutsAscend(dot, file, pattern, cuts, 1, j);
      SpanShift(dot, file, pattern[j], rest[i], rest[i + 1], j == |pattern| - 1, w);
    }
  }

  /** No alignment is missed by the left-to-right search with its early breaks. */
  lemma {:induction false} AlignedIsFound(dot: bool, file: seq<string>, pattern: seq<Segment>, cuts: seq<int>)
    requires Aligned(dot, file, pattern, cuts)
    ensures RecMatch(dot, file, pattern, false)
    decreases |pattern|
  {
    if pattern != [] {
      var w := cuts[1];
      AlignedTail(dot, file, pattern, cuts);
      assert file[0..w] == file[..w];
      if |pattern| == 1 && pattern[0].GlobStar? {
        assert forall i :: 0 <= i < w ==> file[..w][i] == file[i];
      } else {
        AlignedIsFound(dot, file[w..], pattern[1..], Shifted(-w, cuts[1..]));
        if pattern[0].GlobStar? {
          assert HandsOver(dot, file, w, pattern[1..], false);
        }
      }
    }
  }

  // ---------- Partial mode ----------

  /** A match of a longer path, full or partial, is a partial match of every path above it.
      This is what makes pruning safe, and it asks nothing of the pattern. */
  lemma {:induction false} PartialKeepsAncestors(dot: bool, file: seq<string>, ext: seq<string>,
      pattern: seq<Segment>, partial: bool)
    requires RecMatch(dot, file + ext, pattern, partial)
    ensures RecMatch(dot, file, pattern, true)
    decreases |pattern|
  {
    if pattern == [] {
      assert |file + ext| <= 1;
      assert file != [] ==> file == file + ext;
    } else if file != [] {
      var whole := file + ext;
      assert whole != [];
      assert forall i :: 0 <= i < |file| ==> whole[i] == file[i];
      if pattern[0].GlobStar? {
        if |pattern| > 1 && !AllSwallowed(dot, file) {
          assert !AllSwallowed(dot, whole) by {
            var bad :| 0 <= bad < |file| && !Swallows(dot, file[bad]);
            assert whole[bad] == file[bad];
          }
          assert GlobStarMatch(dot, whole, pattern[1..], partial);
          var k :| 0 <= k < |whole| && HandsOver(dot, whole, k, pattern[1..], partial);
          var bad :| 0 <= bad < |file| && !Swallows(dot, file[bad]);
          assert forall i :: 0 <= i < k ==> whole[..k][i] == whole[i];
          assert whole[k..] == file[k..] + ext && whole[..k] == file[..k];
          PartialKeepsAncestors(dot, file[k..], ext, pattern[1..], partial);
          assert HandsOver(dot, file, k, pattern[1..], true);
        }
      } else {
        assert whole[1..] == file[1..] + ext && whole[0] == file[0];
        PartialKeepsAncestors(dot, file[1..], ext, pattern[1..], partial);
      }
    }
  }

  ghost predicate Satisfiable(p: Segment) {
    match p
    case Literal(_) => true
    case GlobStar => true
    case Wildcard(accepts) => exists f :: accepts(f)
    case Broken => false
  }

  ghost predicate AllSatisfiable(pattern: seq<Segment>) {
    forall i :: 0 <= i < |pattern| ==> Satisfiable(pattern[i])
  }

  /** Some path at or below `file` matches in full. */
  ghost predicate Extends(dot: bool, file: seq<string>, pattern: seq<Segment>) {
    exists ext :: RecMatch(dot, file + ext, pattern, false)
  }

  /** A file that matches a pattern none of whose segments is impossible. */
  lemma {:induction false} Witness(dot: bool, pattern: seq<Segment>) returns (file: seq<string>)
    requires AllSatisfiable(pattern)
    ensures RecMatch(dot, file, pattern, false)
  {
    if pattern == [] {
      file := [];
    } else {
      var rest := Witness(dot, pattern[1..]);
      assert Satisfiable(pattern[0]);
      match pattern[0]
      case GlobStar =>
        if |pattern| == 1 {
          file := ["a"];
        } else {
          file := rest;
          assert rest[0..] == rest;
          assert HandsOver(dot, rest, 0, pattern[1..], false);
        }
      case Literal(text) =>
        file := [text] + rest;
        assert file[1..] == rest;
      case Wildcard(accepts) =>
        var f :| accepts(f);
        file := [f] + rest;
        assert file[1..] == rest;
    }
  }

  lemma {:induction false} PartialHasExtension(dot: bool, file: seq<string>, pattern: seq<Segment>)
    returns (ext: seq<string>)
    requires AllSatisfiable(pattern)
    requires RecMatch(dot, file, pattern, true)
    ensures RecMatch(dot, file + ext, pattern, false)
    decreases |pattern|
  {
    ext := [];
    assert file + ext == file;
    if pattern != [] {
      if file == [] {
        ext := Witness(dot, pattern);
        assert file + ext == ext;
      } else if pattern[0].GlobStar? {
        if |pattern| > 1 {
          var k: nat := |file|;
          assert GlobStarMatch(dot, file, pattern[1..], true);
          if exists k: nat :: k < |file| && HandsOver(dot, file, k, pattern[1..], true) {
            k :| 0 <= k < |file| && HandsOver(dot, file, k, pattern[1..], true);
            ext := PartialHasExtension(dot, file[k..], pattern[1..]);
          } else {
            ext := Witness(dot, pattern[1..]);
            assert file[..k] == file;
            assert file[k..] + ext == ext;
          }
          assert (file + ext)[k..] == file[k..] + ext && (file + ext)[..k] == file[..k];
          assert HandsOver(dot, file + ext, k, pattern[1..], false);
        }
      } else {
        ext := PartialHasExtension(dot, file[1..], pattern[1..]);
        assert (file + ext)[1..] == file[1..] + ext;
      }
    }
  }

  lemma {:induction false} MatchedIsSatisfiable(dot: bool, file: seq<string>, pattern: seq<Segment>)
    requires RecMatch(dot, file, pattern, false)
    ensures AllSatisfiable(pattern)
    decreases |pattern|
  {
    if pattern != [] {
      if pattern[0].GlobStar? {
        if |pattern| > 1 {
          assert GlobStarMatch(dot, file, pattern[1..], false);
          var k :| 0 <= k < |file| && HandsOver(dot, file, k, pattern[1..], false);
          MatchedIsSatisfiable(dot, file[k..], pattern[1..]);
        }
      } else {
        MatchedIsSatisfiable(dot, file[1..], pattern[1..]);
      }
      assert pattern == [pattern[0]] + pattern[1..];
    }
  }

  /** Partial mode is exact on the files the matcher is handed, which are never empty. */
  ghost predicate PartialIsExact(dot: bool, pattern: seq<Segment>) {
    forall file :: file != [] ==> (RecMatch(dot, file, pattern, true) <==> Extends(dot, file, pattern))
  }

  /** Partial mode answers "can a path at or below this one match?" on every path if and only if no
      segment of the pattern is impossible, or already the first one is. */
  lemma PartialModeIsExact(dot: bool, pattern: seq<Segment>)
    ensures PartialIsExact(dot, pattern)
            <==> AllSatisfiable(pattern) || (pattern != [] && !Satisfiable(pattern[0]))
  {
    forall file | Extends(dot, file, pattern)
      ensures RecMatch(dot, file, pattern, true)
    {
      var ext :| RecMatch(dot, file + ext, pattern, false);
      PartialKeepsAncestors(dot, file, ext, pattern, false);
    }
    if AllSatisfiable(pattern) {
      forall file | RecMatch(dot, file, pattern, true)
        ensures Extends(dot, file, pattern)
      {
        var ext := PartialHasExtension(dot, file, pattern);
      }
    } else if Satisfiable(pattern[0]) {
      var file := FirstSegmentOnly(dot, pattern);
      if Extends(dot, file, pattern) {
        var ext :| RecMatch(dot, file + ext, pattern, false);
        MatchedIsSatisfiable(dot, file + ext, pattern);
      }
    }
  }

  /** One name that satisfies the first segment is enough for partial mode. */
  lemma FirstSegmentOnly(dot: bool, pattern: seq<Segment>) returns (file: seq<string>)
    requires pattern != [] && Satisfiable(pattern[0])
    ensures file != [] && RecMatch(dot, file, pattern, true)
  {
    match pattern[0]
    case Literal(text) =>
      file := [text];
    case Wildcard(accepts) =>
      var f :| accepts(f);
      file := [f];
    case GlobStar =>
      file := ["a"];
  }

  // ---------- What a match leaves open ----------

  /** Segments in front of the first `**` are matched name by name. */
  lemma {:induction false} MatchesNameByName(dot: bool, file: seq<string>, pattern: seq<Segment>, n: nat)
    requires n <= |pattern| && forall i :: 0 <= i < n ==> !pattern[i].GlobStar?
    ensures RecMatch(dot, file, pattern, false)
            <==> && n <= |file| && (forall i :: 0 <= i < n ==> Hits(pattern[i], file[i]))
                 && RecMatch(dot, file[n..], pattern[n..], false)
    decreases n
  {
    if n == 0 {
      assert file[0..] == file && pattern[0..] == pattern;
    } else if file != [] {
      MatchesNameByName(dot, file[1..], pattern[1..], n - 1);
      assert pattern[1..][n - 1..] == pattern[n..];
      if n <= |file| {
        assert file[1..][n - 1..] == file[n..];
        assert forall i :: 0 < i < n ==> file[1..][i - 1] == file[i] && pattern[1..][i - 1] == pattern[i];
      }
    }
  }

  /** A `**` at the end also takes the empty part that a trailing slash leaves. */
  lemma {:induction false} StarTakesSlash(dot: bool, file: seq<string>, pattern: seq<Segment>)
    requires pattern != [] && pattern[|pattern| - 1].GlobStar?
    requires RecMatch(dot, file, pattern, false)
    ensures RecMatch(dot, file + [""], pattern, false)
    decreases |pattern|
  {
    var longer := file + [""];
    if |pattern| > 1 {
      var k := 1;
      if pattern[0].GlobStar? {
        assert GlobStarMatch(dot, file, pattern[1..], false);
        k :| 0 <= k < |file| && HandsOver(dot, file, k, pattern[1..], false);
      }
      StarTakesSlash(dot, file[k..], pattern[1..]);
      assert longer[k..] == file[k..] + [""] && longer[..k] == file[..k];
      assert pattern[0].GlobStar? ==> HandsOver(dot, longer, k, pattern[1..], false);
    }
  }

  // ---------- What single segments accept ----------

  function Literals(names: seq<string>): seq<Segment> {
    seq(|names|, i requires 0 <= i < |names| => Literal(names[i]))
  }

  /** Literal segments match exactly their own texts, with or without a trailing slash. */
  lemma {:induction false} LiteralsMatch(dot: bool, file: seq<string>, names: seq<string>)
    ensures Matches(dot, file, Literals(names)) <==> file == names || file == names + [""]
    decreases |names|
  {
    FullModeIsAlignment(dot, file, Literals(names));
    if names != [] && file != [] {
      assert Literals(names)[1..] == Literals(names[1..]);
      FullModeIsAlignment(dot, file[1..], Literals(names[1..]));
      LiteralsMatch(dot, file[1..], names[1..]);
      assert file == [file[0]] + file[1..] && names == [names[0]] + names[1..];
      assert names + [""] == [names[0]] + (names[1..] + [""]);
    }
  }

  function Wildcards(accepts: seq<string -> bool>): seq<Segment> {
    seq(|accepts|, i requires 0 <= i < |accepts| => Wildcard(accepts[i]))
  }

  /** Segments with a regular expression match name by name what the expressions accept. */
  lemma {:induction false} WildcardsMatch(dot: bool, file: seq<string>, accepts: seq<string -> bool>)
    ensures Matches(dot, file, Wildcards(accepts))
            <==> && MayStopAt(file, |accepts|)
                 && forall i :: 0 <= i < |accepts| ==> accepts[i](file[i])
    decreases |accepts|
  {
    FullModeIsAlignment(dot, file, Wildcards(accepts));
    if accepts != [] && file != [] {
      var rest := accepts[1..];
      assert Wildcards(accepts)[1..] == Wildcards(rest);
      FullModeIsAlignment(dot, file[1..], Wildcards(rest));
      WildcardsMatch(dot, file[1..], rest);
      assert forall i :: 0 < i < |accepts| ==> accepts[i] == rest[i - 1];
      assert forall i :: 0 < i < |file| ==> file[i] == file[1..][i - 1];
    }
  }

  /** A name that `**` may stand for, spelled out. */
  predicate IsAbsorbed(dot: bool, name: string) {
    name != "." && name != ".." && (dot || !("." <= name))
  }

  /** A lone `**` matches any names but "." and "..", and names with a leading dot only when asked
      to; it matches at least one. */
  lemma StarMatches(dot: bool, file: seq<string>)
    ensures Matches(dot, file, [GlobStar])
            <==> file != [] && forall k :: 0 <= k < |file| ==> IsAbsorbed(dot, file[k])
  {
    FullModeIsAlignment(dot, file, [GlobStar]);
    StarAbsorbs(dot, file);
  }

  lemma StarAbsorbs(dot: bool, file: seq<string>)
    ensures AllSwallowed(dot, file) <==> forall k :: 0 <= k < |file| ==> IsAbsorbed(dot, file[k])
  {
    forall k | 0 <= k < |file|
      ensures Swallows(dot, file[k]) <==> IsAbsorbed(dot, file[k])
    {
    }
  }

  /** Names from a first to a last one, with any absorbed names, or none, in between. */
  ghost predicate Spans(dot: bool, file: seq<string>, first: string, last: string) {
    && |file| >= 2 && file[0] == first && file[|file| - 1] == last
    && forall k :: 0 < k < |file| - 1 ==> IsAbsorbed(dot, file[k])
  }

  /** A `**` between two names stands for any number of names, none included. */
  lemma StarBetween(dot: bool, file: seq<string>, first: string, last: string)
    ensures Matches(dot, file, [Literal(first), GlobStar, Literal(last)])
            <==> || Spans(dot, file, first, last)
                 || (file != [] && file[|file| - 1] == "" && Spans(dot, file[..|file| - 1], first, last))
  {
    var pattern := [Literal(first), GlobStar, Literal(last)];
    FullModeIsAlignment(dot, file, pattern);
    if file != [] {
      var rest := file[1..];
      assert pattern[1..] == [GlobStar, Literal(last)] && pattern[1..][1..] == [Literal(last)];
      if RecMatch(dot, file, pattern, false) {
        assert GlobStarMatch(dot, rest, [Literal(last)], false);
        var k: nat :| k < |rest| && HandsOver(dot, rest, k, [Literal(last)], false);
        OneNameLeft(dot, file, k, last);
      }
      if Spans(dot, file, first, last) {
        OneNameLeft(dot, file, |file| - 2, last);
        assert GlobStarMatch(dot, rest, [Literal(last)], false);
      } else if file[|file| - 1] == "" && Spans(dot, file[..|file| - 1], first, last) {
        OneNameLeft(dot, file, |file| - 3, last);
        assert GlobStarMatch(dot, rest, [Literal(last)], false);
      }
    }
  }

  lemma AbsorbedFront(dot: bool, file: seq<string>, k: nat)
    requires k + 1 <= |file|
    ensures AllSwallowed(dot, file[1..][..k]) <==> forall i :: 0 < i <= k ==> IsAbsorbed(dot, file[i])
  {
    var front := file[1..][..k];
    forall i | 0 < i <= k
      ensures Swallows(dot, file[i]) <==> IsAbsorbed(dot, file[i])
      ensures file[i] == front[i - 1]
    {
    }
    assert forall i :: 0 <= i < k ==> front[i] == file[i + 1];
  }

  lemma OneNameLast(dot: bool, file: seq<string>, last: string)
    ensures RecMatch(dot, file, [Literal(last)], false)
            <==> file != [] && file[0] == last && (|file| == 1 || (|file| == 2 && file[1] == ""))
  {
    assert [Literal(last)][1..] == [];
    if |file| == 2 {
      assert file[1..] == [file[1]];
    }
  }

  lemma OneNameLeft(dot: bool, file: seq<string>, k: nat, last: string)
    requires k + 1 < |file|
    ensures HandsOver(dot, file[1..], k, [Literal(last)], false)
            <==> && (forall i :: 0 < i <= k ==> IsAbsorbed(dot, file[i])) && file[k + 1] == last
                 && MayStopAt(file, k + 2)
  {
    hide IsAbsorbed, AllSwallowed, RecMatch;
    AbsorbedFront(dot, file, k);
    OneNameLast(dot, file[1..][k..], last);
  }

  /** A segment that did not compile matches nothing. */
  lemma BrokenNeverMatches(dot: bool, file: seq<string>, pattern: seq<Segment>)
    requires Broken in pattern
    ensures !Matches(dot, file, pattern)
  {
    FullModeIsAlignment(dot, file, pattern);
    if RecMatch(dot, file, pattern, false) {
      MatchedIsSatisfiable(dot, file, pattern);
    }
  }
}
