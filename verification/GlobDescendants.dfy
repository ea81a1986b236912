/**
 What a pattern written by the user means on the paths that directory listings produce, and what
 the implicit descendant patterns add to it.
 */
module GlobDescendants {
  import opened GlobMatch
  import opened GlobPattern
  import opened GlobWalk

  /** The names a directory listing can report. */
  predicate OrdinaryNames(path: Path) {
    forall i :: 0 <= i < |path| ==> path[i] != "" && path[i] != "." && path[i] != ".."
  }

  /** The compiler turns a segment into its own non-empty text or puts a lookahead for one character
      in front of its regular expression. */
  ghost predicate RefusesEmptyName(p: Pattern) {
    forall i :: 0 <= i < |p.segments| ==> !Hits(p.segments[i], "")
  }

  // ---------- Covering a path ----------

  /** The pattern takes all the parts in order, each `**` any number of them, none included. */
  ghost predicate Covers(file: seq<string>, pattern: seq<Segment>)
    decreases |pattern|, 0
  {
    if pattern == [] then
      file == []
    else
      var before, last := pattern[..|pattern| - 1], pattern[|pattern| - 1];
      if last.GlobStar? then
        exists m: nat :: m <= |file| && CoversUpTo(file, before, m)
      else
        file != [] && Hits(last, file[|file| - 1]) && Covers(file[..|file| - 1], before)
  }

  /** The first m parts are covered and a `**` takes the others. */
  ghost predicate CoversUpTo(file: seq<string>, pattern: seq<Segment>, m: nat)
    requires m <= |file|
    decreases |pattern|, 1
  {
    Covers(file[..m], pattern) && AllSwallowed(DOT, file[m..])
  }

  /** Segment i is given the parts between two cuts, possibly none when it is a `**`. */
  predicate SpansFit(file: seq<string>, pattern: seq<Segment>, cuts: seq<int>, n: nat)
    requires n <= |pattern| && n < |cuts|
  {
    forall i :: 0 <= i < n ==> SpanFits(DOT, file, pattern[i], cuts[i], cuts[i + 1], false)
  }

  lemma {:induction false} SpansCover(file: seq<string>, pattern: seq<Segment>, cuts: seq<int>, n: nat)
    requires n <= |pattern| && n < |cuts| && cuts[0] == 0 && SpansFit(file, pattern, cuts, n)
    ensures 0 <= cuts[n] <= |file| && Covers(file[..cuts[n]], pattern[..n])
  {
    if n > 0 {
      SpansCover(file, pattern, cuts, n - 1);
      var lo, hi := cuts[n - 1], cuts[n];
      assert SpanFits(DOT, file, pattern[n - 1], lo, hi, false);
      assert file[..hi][..lo] == file[..lo] && file[..hi][lo..] == file[lo..hi];
      assert pattern[..n][..n - 1] == pattern[..n - 1];
      if pattern[n - 1].GlobStar? {
        assert CoversUpTo(file[..hi], pattern[..n - 1], lo);
      }
    }
  }

  lemma AlignedSpansFit(file: seq<string>, pattern: seq<Segment>, cuts: seq<int>)
    requires Aligned(DOT, file, pattern, cuts)
    ensures SpansFit(file, pattern, cuts, |pattern|)
  {
    forall i | 0 <= i < |pattern|
      ensures SpanFits(DOT, file, pattern[i], cuts[i], cuts[i + 1], false)
    {
      assert SpanAt(DOT, file, pattern, cuts, i);
    }
  }

  lemma {:induction false} CoverSpans(file: seq<string>, c: nat, pattern: seq<Segment>) returns (cuts: seq<int>)
    requires c <= |file| && Covers(file[..c], pattern)
    ensures |cuts| == |pattern| + 1 && cuts[0] == 0 && cuts[|pattern|] == c
    ensures SpansFit(file, pattern, cuts, |pattern|)
    decreases |pattern|
  {
    if pattern == [] {
      cuts := [0];
    } else {
      var n := |pattern| - 1;
      var m: nat := if pattern[n].GlobStar? then c else c - 1;
      if pattern[n].GlobStar? {
        m :| m <= c && CoversUpTo(file[..c], pattern[..n], m);
      }
      assert file[..c][..m] == file[..m] && file[..c][m..] == file[m..c];
      var before := CoverSpans(file, m, pattern[..n]);
      cuts := before + [c];
    }
  }

  /** There is a place before `limit` where a further `**` can take over. */
  ghost predicate TakesOver(file: seq<string>, pattern: seq<Segment>, limit: nat)
    requires limit <= |file| + 1
  {
    exists m: nat :: m < limit && CoversUpTo(file, pattern, m)
  }

  /** A `**` at the end takes at least one part, here the empty one of a trailing slash if need be. */
  lemma StarEndMatches(file: seq<string>, pattern: seq<Segment>)
    ensures Matches(DOT, file, pattern + [GlobStar]) <==> TakesOver(file, pattern, |file|)
  {
    hide CoversUpTo;
    if Matches(DOT, file, pattern + [GlobStar]) {
      var cuts :| Aligned(DOT, file, pattern + [GlobStar], cuts);
      var m := StarEndTakesOver(file, pattern, cuts);
    }
    if TakesOver(file, pattern, |file|) {
      var m: nat :| m < |file| && CoversUpTo(file, pattern, m);
      StarEndAligned(file, pattern, m);
    }
  }

  lemma StarEndTakesOver(file: seq<string>, pattern: seq<Segment>, cuts: seq<int>) returns (m: nat)
    requires Aligned(DOT, file, pattern + [GlobStar], cuts)
    ensures m < |file| && CoversUpTo(file, pattern, m)
  {
    hide Covers;
    var n, longer := |pattern|, pattern + [GlobStar];
    assert longer[..n] == pattern;
    AlignedSpansFit(file, longer, cuts);
    SpansCover(file, longer, cuts, n);
    assert SpanAt(DOT, file, longer, cuts, n);
    m := cuts[n];
    var hi := cuts[n + 1];
    forall k | m <= k < hi
      ensures Swallows(DOT, file[k])
    {
      assert file[m..hi][k - m] == file[k];
    }
  }

  lemma StarEndAligned(file: seq<string>, pattern: seq<Segment>, m: nat)
    requires m < |file| && CoversUpTo(file, pattern, m)
    ensures Matches(DOT, file, pattern + [GlobStar])
  {
    hide Covers;
    var longer := pattern + [GlobStar];
    var before := CoverSpans(file, m, pattern);
    var cuts := before + [|file|];
    assert file[m..|file|] == file[m..];
    forall i | 0 <= i < |longer|
      ensures SpanAt(DOT, file, longer, cuts, i)
    {
    }
    assert Aligned(DOT, file, longer, cuts);
  }

  /** Any other segment at the end leaves at most an empty last part over. */
  lemma NameEndMatches(file: seq<string>, pattern: seq<Segment>)
    requires pattern != [] && !pattern[|pattern| - 1].GlobStar?
    ensures Matches(DOT, file, pattern)
            <==> || Covers(file, pattern)
                 || (file != [] && file[|file| - 1] == "" && Covers(file[..|file| - 1], pattern))
  {
    hide Covers;
    var n := |pattern|;
    assert pattern[..n] == pattern && file[..|file|] == file;
    if Matches(DOT, file, pattern) {
      var cuts :| Aligned(DOT, file, pattern, cuts);
      AlignedSpansFit(file, pattern, cuts);
      SpansCover(file, pattern, cuts, n);
    }
    if Covers(file, pattern) {
      NameEndAligned(file, |file|, pattern);
    } else if file != [] && file[|file| - 1] == "" && Covers(file[..|file| - 1], pattern) {
      NameEndAligned(file, |file| - 1, pattern);
    }
  }

  lemma NameEndAligned(file: seq<string>, c: nat, pattern: seq<Segment>)
    requires pattern != [] && !pattern[|pattern| - 1].GlobStar?
    requires MayStopAt(file, c) && Covers(file[..c], pattern)
    ensures Matches(DOT, file, pattern)
  {
    hide Covers;
    var cuts := CoverSpans(file, c, pattern);
    forall i | 0 <= i < |pattern|
      ensures SpanAt(DOT, file, pattern, cuts, i)
    {
    }
    assert Aligned(DOT, file, pattern, cuts);
  }

  // ---------- Patterns as the user wrote them ----------

  function FromRoot(path: Path): seq<string> {
    [""] + path
  }

  function Rooted(segments: seq<Segment>): seq<Segment> {
    [Literal("")] + segments
  }

  lemma {:induction false} CoversSomething(file: seq<string>, segments: seq<Segment>)
    requires Covers(file, Rooted(segments))
    ensures file != []
    decreases |segments|
  {
    if segments != [] {
      var n := |segments| - 1;
      assert Rooted(segments)[..n + 1] == Rooted(segments[..n]);
      if file == [] && segments[n].GlobStar? {
        var m: nat :| m <= |file| && CoversUpTo(file, Rooted(segments[..n]), m);
        CoversSomething(file[..m], segments[..n]);
      }
    }
  }

  /** On the paths of directory listings a pattern the user wrote matches exactly the paths it covers
      name by name, each `**` standing for any number of names: the trailing slash added for a final
      `**`, the empty part after a slash and the two empty parts of the root make no difference. */
  lemma KindsAreCovers(p: Pattern, path: Path)
    requires !p.implicit && RefusesEmptyName(p) && OrdinaryNames(path)
    ensures p.Kinds(path) != MATCH_NONE <==> Covers(FromRoot(path), Rooted(p.segments))
    ensures p.Kinds(path) != {} ==>
              p.Kinds(path) == if p.trailingSeparator then {DirectoryKind} else {DirectoryKind, FileKind}
  {
    hide Covers, Matches;
    if p.EndsInGlobStar() {
      StarKindsAreCovers(p, path);
    } else if p.segments == [] {
      RootKindsAreCovers(p, path);
    } else {
      NameKindsAreCovers(p, path);
    }
  }

  lemma CoversWithStar(file: seq<string>, before: seq<Segment>)
    ensures Covers(file, before + [GlobStar]) <==> TakesOver(file, before, |file| + 1)
  {
    assert (before + [GlobStar])[..|before|] == before;
  }

  lemma SlashTakesOver(file: seq<string>, pattern: seq<Segment>)
    ensures TakesOver(file + [""], pattern, |file| + 1) <==> TakesOver(file, pattern, |file| + 1)
  {
    hide Covers;
    forall m: nat | m <= |file|
      ensures CoversUpTo(file + [""], pattern, m) <==> CoversUpTo(file, pattern, m)
    {
      var longer := file + [""];
      assert longer[..m] == file[..m] && longer[m..] == file[m..] + [""];
      assert forall k :: 0 <= k < |file[m..]| ==> longer[m..][k] == file[m..][k];
    }
  }

  lemma StarKindsAreCovers(p: Pattern, path: Path)
    requires !p.implicit && p.EndsInGlobStar()
    ensures p.Kinds(path) != MATCH_NONE <==> Covers(FromRoot(path), Rooted(p.segments))
  {
    hide Matches, Covers, TakesOver;
    var before := Rooted(p.segments[..|p.segments| - 1]);
    assert Rooted(p.segments) == before + [GlobStar] && p.Subject(path) == FromRoot(path) + [""];
    StarEndMatches(p.Subject(path), before);
    SlashTakesOver(FromRoot(path), before);
    CoversWithStar(FromRoot(path), before);
  }

  lemma NameKindsAreCovers(p: Pattern, path: Path)
    requires p.segments != [] && !p.EndsInGlobStar() && RefusesEmptyName(p) && OrdinaryNames(path)
    ensures p.Kinds(path) != MATCH_NONE <==> Covers(FromRoot(path), Rooted(p.segments))
  {
    hide Matches;
    var n := |p.segments|;
    NameEndMatches(p.Subject(path), p.Compiled());
    if path == [] {
      assert !Hits(p.segments[n - 1], "");
      assert Parts([])[..1] == FromRoot([]);
    } else {
      assert Parts(path)[|path|] == path[|path| - 1];
    }
  }

  lemma RootKindsAreCovers(p: Pattern, path: Path)
    requires p.segments == [] && OrdinaryNames(path)
    ensures p.Kinds(path) != MATCH_NONE <==> Covers(FromRoot(path), Rooted(p.segments))
  {
    hide Matches;
    NameEndMatches(p.Subject(path), p.Compiled());
    assert p.Compiled()[..1] == [Literal("")] && Parts([])[..1] == [""];
  }

  /** A pattern of literal names matches the path with these names and no other, whether it is an
      include or an exclude: as a directory or a file, or as a directory only after a separator. */
  lemma LiteralPatternMatches(p: Pattern, names: Path, path: Path)
    requires p.segments == Literals(names) && OrdinaryNames(names) && OrdinaryNames(path)
    ensures p.Kinds(path) == if path != names then {}
                             else if p.trailingSeparator then {DirectoryKind}
                             else {DirectoryKind, FileKind}
  {
    hide Matches, Aligned;
    var parts := if names == [] then ["", ""] else [""] + names;
    assert p.Compiled() == Literals(parts);
    assert p.Subject(path) == Parts(path);
    LiteralsMatch(DOT, Parts(path), parts);
    if path != [] {
      assert Parts(path)[|path|] == path[|path| - 1] && Parts(path)[1..] == path;
    }
    assert names != [] ==> parts[1] == names[0] && parts[1..] == names;
  }

  // ---------- One more `**` ----------

  lemma NothingAbove(p: Pattern, file: seq<string>)
    ensures !CoversUpTo(file, Rooted(p.segments), 0)
  {
    hide Covers;
    if CoversUpTo(file, Rooted(p.segments), 0) {
      CoversSomething(file[..0], p.segments);
    }
  }

  lemma CoversOneAbove(p: Pattern, q: Path, k: nat)
    requires !p.implicit && RefusesEmptyName(p) && OrdinaryNames(q)
    requires k <= |q|
    ensures CoversUpTo(FromRoot(q), Rooted(p.segments), k + 1) <==> p.Kinds(q[..k]) != MATCH_NONE
  {
    hide Covers, Pattern.Kinds;
    KindsAreCovers(p, q[..k]);
    assert FromRoot(q)[..k + 1] == FromRoot(q[..k]) && FromRoot(q)[k + 1..] == q[k..];
  }

  /** The places where a further `**` can take over are the paths above that the pattern matches. */
  lemma TakesOverBelow(p: Pattern, q: Path, n: nat)
    requires !p.implicit && RefusesEmptyName(p) && OrdinaryNames(q)
    requires n <= |q| + 1
    ensures TakesOver(FromRoot(q), Rooted(p.segments), n + 1)
            <==> exists k :: 0 <= k < n && p.Kinds(q[..k]) != MATCH_NONE
  {
    hide Pattern.Kinds, CoversUpTo;
    var file, pattern := FromRoot(q), Rooted(p.segments);
    if TakesOver(file, pattern, n + 1) {
      var m: nat :| m < n + 1 && CoversUpTo(file, pattern, m);
      NothingAbove(p, file);
      CoversOneAbove(p, q, m - 1);
    }
    if exists k :: 0 <= k < n && p.Kinds(q[..k]) != MATCH_NONE {
      var k :| 0 <= k < n && p.Kinds(q[..k]) != MATCH_NONE;
      CoversOneAbove(p, q, k);
      assert CoversUpTo(file, pattern, k + 1);
    }
  }

  lemma DescendantsKinds(p: Pattern, q: Path)
    ensures Descendants(p).Kinds(q) != MATCH_NONE <==> TakesOver(Parts(q), Rooted(p.segments), |Parts(q)|)
  {
    hide Matches, TakesOver;
    assert Descendants(p).Compiled() == Rooted(p.segments) + [GlobStar];
    StarEndMatches(Parts(q), Rooted(p.segments));
  }

  /** The pattern added for the descendants of a pattern matches exactly what lies properly below
      something that pattern matches. */
  lemma DescendantsMatchBelow(p: Pattern, q: Path)
    requires !p.implicit && RefusesEmptyName(p) && OrdinaryNames(q)
    requires q != []
    ensures Descendants(p).Kinds(q) != MATCH_NONE
            <==> exists k :: 0 <= k < |q| && p.Kinds(q[..k]) != MATCH_NONE
  {
    hide Pattern.Kinds, TakesOver;
    DescendantsKinds(p, q);
    TakesOverBelow(p, q, |q|);
  }

  /** Nothing lies above the root, where the added pattern matches if the pattern itself does. */
  lemma DescendantsAtRoot(p: Pattern)
    requires !p.implicit && RefusesEmptyName(p)
    ensures Descendants(p).Kinds([]) != MATCH_NONE <==> p.Kinds([]) != MATCH_NONE
  {
    hide Pattern.Kinds, Covers;
    var pattern := Rooted(p.segments);
    DescendantsKinds(p, []);
    NothingAbove(p, Parts([]));
    KindsAreCovers(p, []);
    assert Parts([])[..1] == FromRoot([]) && Parts([])[1..] == [""];
    assert CoversUpTo(Parts([]), pattern, 1) <==> Covers(FromRoot([]), pattern);
  }

  /** A pattern with a `**` that the user wrote behind `p` matches exactly what p matches and what
      lies below that. */
  lemma WrittenStarMatchesAtOrBelow(p: Pattern, starred: Pattern, q: Path)
    requires !p.implicit && RefusesEmptyName(p) && OrdinaryNames(q)
    requires starred.segments == p.segments + [GlobStar] && !starred.implicit
    ensures starred.Kinds(q) != MATCH_NONE <==> exists k :: 0 <= k <= |q| && p.Kinds(q[..k]) != MATCH_NONE
  {
    hide Pattern.Kinds, Covers, TakesOver;
    StarKindsAreCovers(starred, q);
    assert Rooted(starred.segments) == Rooted(p.segments) + [GlobStar];
    CoversWithStar(FromRoot(q), Rooted(p.segments));
    TakesOverBelow(p, q, |q| + 1);
  }

  // ---------- What a search with implicit descendants matches ----------

  /** The pattern matches the directory the path lies in or one above; the root lies in itself. */
  ghost predicate MatchesAbove(p: Pattern, q: Path) {
    exists k :: 0 <= k <= |Dirname(q)| && p.Kinds(q[..k]) != MATCH_NONE
  }

  /** The pattern mentions the kind at the path or matches a directory above. */
  ghost function MentionsAtOrAbove(q: Path, kind: Kind): Pattern -> bool {
    (p: Pattern) => kind in p.Kinds(q) || MatchesAbove(p, q)
  }

  lemma DescendantsMatchAbove(p: Pattern, q: Path)
    requires !p.implicit && RefusesEmptyName(p) && OrdinaryNames(q)
    ensures Descendants(p).Kinds(q) == if MatchesAbove(p, q) then MATCH_ALL else MATCH_NONE
  {
    hide Descendants;
    if q == [] {
      DescendantsAtRoot(p);
      assert q[..0] == q;
      assert MatchesAbove(p, q) <==> p.Kinds(q[..0]) != MATCH_NONE;
    } else {
      DescendantsMatchBelow(p, q);
    }
    DescendantsMatchAll(p, q);
  }

  lemma DescendantsMatchAll(p: Pattern, q: Path)
    ensures Descendants(p).Kinds(q) == MATCH_NONE || Descendants(p).Kinds(q) == MATCH_ALL
  {
  }

  /** A pattern that already ends in `**` needs no other for what lies below. */
  lemma StarMatchesBelow(p: Pattern, q: Path)
    requires !p.implicit && RefusesEmptyName(p) && OrdinaryNames(q)
    requires p.EndsInGlobStar() && MatchesAbove(p, q)
    ensures p.Kinds(q) != MATCH_NONE
  {
    hide Pattern.Kinds;
    var n := |p.segments| - 1;
    var front := Pattern(p.negate, p.segments[..n], p.literals, p.trailingSeparator, false);
    assert p.segments == front.segments + [GlobStar];
    var k :| 0 <= k <= |Dirname(q)| && p.Kinds(q[..k]) != MATCH_NONE;
    WrittenStarMatchesAtOrBelow(front, p, q[..k]);
    var m :| 0 <= m <= k && front.Kinds(q[..k][..m]) != MATCH_NONE;
    assert q[..k][..m] == q[..m];
    WrittenStarMatchesAtOrBelow(front, p, q);
  }

  /** A pattern and the one added for it, if any, together. */
  lemma PairMentions(options: Options, p: Pattern, q: Path, kind: Kind)
    requires options.implicitDescendants && !p.implicit && RefusesEmptyName(p) && OrdinaryNames(q)
    ensures MentionsAtOrAbove(q, kind)(p)
            <==> kind in p.Kinds(q) || (NeedsDescendants(options, p) && kind in Descendants(p).Kinds(q))
  {
    hide MatchesAbove, Descendants, RefusesEmptyName, OrdinaryNames;
    DescendantsMatchAbove(p, q);
    if !NeedsDescendants(options, p) && MatchesAbove(p, q) {
      StarMatchesBelow(p, q);
    }
  }

  lemma MatchAllSnoc(patterns: seq<Pattern>, p: Pattern, q: Path)
    ensures MatchAll(patterns + [p], q)
            == if p.negate then MatchAll(patterns, q) - p.Kinds(q) else MatchAll(patterns, q) + p.Kinds(q)
  {
    assert (patterns + [p])[..|patterns|] == patterns;
  }

  /** Folding in one more pattern and the one added for it. */
  lemma MatchAllExpanded(options: Options, patterns: seq<Pattern>, q: Path, kind: Kind)
    requires patterns != []
    ensures var p := patterns[|patterns| - 1];
            kind in MatchAll(Expanded(options, patterns), q)
            <==> if kind in p.Kinds(q) || (NeedsDescendants(options, p) && kind in Descendants(p).Kinds(q)) then
                   !p.negate
                 else
                   kind in MatchAll(Expanded(options, patterns[..|patterns| - 1]), q)
  {
    hide Pattern.Kinds, MatchAll;
    var n := |patterns| - 1;
    var p, before := patterns[n], Expanded(options, patterns[..n]);
    MatchAllSnoc(before, p, q);
    MatchAllSnoc(before + [p], Descendants(p), q);
    assert before + [p] + [] == before + [p];
  }

  /** With implicit descendants a path is matched exactly when the last pattern the user wrote that
      mentions its kind there, or matches a directory above it, is an include. */
  lemma {:induction false} LastWrittenDecides(options: Options, patterns: seq<Pattern>, q: Path, kind: Kind)
    requires options.implicitDescendants && OrdinaryNames(q)
    requires forall p :: p in patterns ==> !p.implicit && RefusesEmptyName(p)
    ensures kind in MatchAll(Expanded(options, patterns), q)
            <==> LastIsInclude(patterns, MentionsAtOrAbove(q, kind))
  {
    hide Pattern.Kinds, LastIsInclude, MentionsAtOrAbove, NeedsDescendants, RefusesEmptyName, OrdinaryNames;
    if patterns == [] {
      NothingDecides(MentionsAtOrAbove(q, kind));
    } else {
      var n := |patterns| - 1;
      assert patterns[n] in patterns;
      LastIsIncludeStep(patterns, MentionsAtOrAbove(q, kind));
      PairMentions(options, patterns[n], q, kind);
      MatchAllExpanded(options, patterns, q, kind);
      LastWrittenDecides(options, patterns[..n], q, kind);
    }
  }
}
