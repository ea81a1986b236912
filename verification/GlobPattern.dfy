/**
 Patterns and the pattern helper of the glob engine on POSIX: matching one path, folding include
 and exclude patterns, and choosing the directories to search.

 An absolute path is the sequence of names below the root directory; the root itself is [].
 */
module GlobPattern {
  import opened GlobMatch

  type Path = seq<string>

  /** The bits of MatchKind; None is {}, All is {DirectoryKind, FileKind}. */
  datatype Kind = DirectoryKind | FileKind
  type MatchKind = set<Kind>

  const MATCH_NONE: MatchKind := {}
  const MATCH_DIRECTORY: MatchKind := {DirectoryKind}
  const MATCH_ALL: MatchKind := {DirectoryKind, FileKind}

  /** Minimatch is created with `dot: true`. */
  const DOT := true

  // ---------- Patterns ----------

  ghost predicate OnlyHits(p: Segment, text: string) {
    forall f :: Hits(p, f) ==> f == text
  }

  /** segments are the compiled names below the root, literals[i] is the literal text read from
      segment i, or "" when the segment is not a literal. */
  datatype Pattern = Pattern(
    negate: bool,
    segments: seq<Segment>,
    literals: seq<string>,
    trailingSeparator: bool,
    implicit: bool)
  {
    /** There is one literal text for each segment, and none is read from `**`. */
    predicate LiteralsRead() {
      && |literals| == |segments|
      && forall i :: 0 <= i < |segments| && literals[i] != "" ==> !segments[i].GlobStar?
    }

    /** Each segment that contributes to the search path accepts only the name it contributes. */
    ghost predicate SearchPathIsFaithful()
      requires LiteralsRead()
    {
      forall i :: 0 <= i < LiteralCount(literals) ==> OnlyHits(segments[i], literals[i])
    }

    /** Nothing the pattern matches lies outside its search path. */
    ghost predicate MatchesStayBelow() {
      forall path :: Kinds(path) != MATCH_NONE ==> SearchPath() <= path
    }

    predicate EndsInGlobStar() {
      segments != [] && segments[|segments| - 1].GlobStar?
    }

    /** What the pattern text splits into at its slashes; the root pattern "/" gives two empty parts. */
    function Compiled(): seq<Segment> {
      if segments == [] then [Literal(""), Literal("")] else [Literal("")] + segments
    }

    /** The literal names before the first segment that is not a literal. */
    function SearchPath(): Path {
      literals[..LiteralCount(literals)]
    }

    /** The parts of the path handed to the matcher: a final `**` that the user wrote gets a
        trailing slash so that it also matches the directory in front of it. */
    function Subject(path: Path): seq<string> {
      if EndsInGlobStar() && !implicit && path != [] then
        Parts(path) + [""]
      else
        Parts(path)
    }

    /** The kinds of entries this pattern matches at a path. */
    ghost function Kinds(path: Path): MatchKind {
      if Matches(DOT, Subject(path), Compiled()) then
        if trailingSeparator then MATCH_DIRECTORY else MATCH_ALL
      else
        MATCH_NONE
    }

    method Match(path: Path) returns (kinds: MatchKind)
      ensures kinds == Kinds(path)
    {
      var hit := MatchOne(DOT, Subject(path), Compiled(), false);
      if hit {
        return if trailingSeparator then MATCH_DIRECTORY else MATCH_ALL;
      }
      return MATCH_NONE;
    }

    ghost predicate MatchesAtOrBelow(path: Path) {
      exists below :: path <= below && Kinds(below) != MATCH_NONE
    }

    /** The root regular expression of an absolute POSIX pattern is "/", which the root matches. */
    ghost predicate MayMatchBelow(path: Path) {
      path == [] || RecMatch(DOT, Parts(path), Compiled(), true)
    }

    method PartialMatch(path: Path) returns (hit: bool)
      ensures hit == MayMatchBelow(path)
      ensures MatchesAtOrBelow(path) ==> hit
      ensures AllSatisfiable(segments) ==> (hit <==> MatchesAtOrBelow(path))
    {
      PartialMatchMeans(this, path);
      if path == [] {
        return true;
      }
      hit := MatchOne(DOT, Parts(path), Compiled(), true);
    }
  }

  function LiteralCount(literals: seq<string>): (n: nat)
    ensures n <= |literals|
    ensures forall i :: 0 <= i < n ==> literals[i] != ""
    ensures n < |literals| ==> literals[n] == ""
  {
    if literals == [] || literals[0] == "" then 0 else 1 + LiteralCount(literals[1..])
  }

  /** "/a/b" splits into "", "a", "b"; "/" splits into two empty parts. */
  function Parts(path: Path): seq<string> {
    if path == [] then ["", ""] else [""] + path
  }

  function Dirname(path: Path): Path {
    if path == [] then [] else path[..|path| - 1]
  }

  lemma KindsByRecursion(p: Pattern, path: Path)
    ensures p.Kinds(path) != MATCH_NONE <==> RecMatch(DOT, p.Subject(path), p.Compiled(), false)
  {
    FullModeIsAlignment(DOT, p.Subject(path), p.Compiled());
  }

  /** A pattern that matches at `path` may match at or below every ancestor of it. */
  lemma MatchReachesAncestors(p: Pattern, path: Path, ancestor: Path)
    requires p.Kinds(path) != MATCH_NONE
    requires ancestor <= path
    ensures p.MayMatchBelow(ancestor)
  {
    hide Pattern.Kinds, Pattern.Compiled, RecMatch;
    if ancestor != [] {
      var rest := path[|ancestor|..] + if p.EndsInGlobStar() && !p.implicit then [""] else [];
      assert path == ancestor + path[|ancestor|..];
      assert Parts(ancestor) + rest == p.Subject(path);
      KindsByRecursion(p, path);
      PartialKeepsAncestors(DOT, Parts(ancestor), rest, p.Compiled(), false);
    }
  }

  /** A path whose parts match in full, the extra trailing slash included. */
  lemma MatchedParts(p: Pattern, path: Path)
    requires RecMatch(DOT, Parts(path), p.Compiled(), false)
    ensures p.Kinds(path) != MATCH_NONE
  {
    hide RecMatch, Pattern.Kinds;
    KindsByRecursion(p, path);
    if p.EndsInGlobStar() {
      StarTakesSlash(DOT, Parts(path), p.Compiled());
    }
  }

  lemma CompiledSatisfiable(p: Pattern)
    ensures AllSatisfiable(p.Compiled()) <==> AllSatisfiable(p.segments)
  {
    if p.segments != [] {
      assert forall i :: 0 <= i < |p.segments| ==> p.Compiled()[i + 1] == p.segments[i];
    }
  }

  /** The path that a list of parts comes from. */
  lemma PathOfParts(p: Pattern, file: seq<string>) returns (path: Path)
    requires RecMatch(DOT, file, p.Compiled(), false)
    ensures file == Parts(path)
  {
    var rest := p.Compiled()[1..];
    assert p.Compiled()[0] == Literal("") && rest != [];
    assert file[1..] != [];
    path := file[1..];
  }

  lemma PartialHasMatch(p: Pattern, path: Path)
    requires AllSatisfiable(p.segments) && p.MayMatchBelow(path)
    ensures p.MatchesAtOrBelow(path)
  {
    hide RecMatch, Pattern.Kinds, Pattern.Compiled, AllSatisfiable;
    CompiledSatisfiable(p);
    if path == [] {
      var file := Witness(DOT, p.Compiled());
      var below := PathOfParts(p, file);
      MatchedParts(p, below);
    } else {
      var ext := PartialHasExtension(DOT, Parts(path), p.Compiled());
      assert Parts(path + ext) == Parts(path) + ext;
      MatchedParts(p, path + ext);
    }
  }

  lemma PartialMatchMeans(p: Pattern, path: Path)
    ensures p.MatchesAtOrBelow(path) ==> p.MayMatchBelow(path)
    ensures AllSatisfiable(p.segments) ==> (p.MayMatchBelow(path) <==> p.MatchesAtOrBelow(path))
  {
    hide Pattern.Kinds, Pattern.MayMatchBelow, AllSatisfiable;
    if p.MatchesAtOrBelow(path) {
      var below :| path <= below && p.Kinds(below) != MATCH_NONE;
      MatchReachesAncestors(p, below, path);
    }
    if AllSatisfiable(p.segments) && p.MayMatchBelow(path) {
      PartialHasMatch(p, path);
    }
  }

  lemma MatchedSegments(p: Pattern, path: Path)
    requires p.Kinds(path) != MATCH_NONE
    ensures AllSatisfiable(p.segments)
  {
    hide RecMatch, Pattern.Kinds, Pattern.Compiled, AllSatisfiable;
    KindsByRecursion(p, path);
    MatchedIsSatisfiable(DOT, p.Subject(path), p.Compiled());
    CompiledSatisfiable(p);
  }

  /** The answer "may match at or below" is right on every path if and only if no segment is
      impossible; the root, for which the answer is always yes, is where it fails otherwise. */
  lemma MayMatchBelowIsExact(p: Pattern)
    ensures (forall path :: p.MayMatchBelow(path) <==> p.MatchesAtOrBelow(path)) <==> AllSatisfiable(p.segments)
  {
    hide Pattern.Kinds, AllSatisfiable;
    forall path
      ensures p.MatchesAtOrBelow(path) ==> p.MayMatchBelow(path)
      ensures AllSatisfiable(p.segments) ==> (p.MayMatchBelow(path) <==> p.MatchesAtOrBelow(path))
    {
      PartialMatchMeans(p, path);
    }
    assert p.MayMatchBelow([]);
    if p.MatchesAtOrBelow([]) {
      var below :| [] <= below && p.Kinds(below) != MATCH_NONE;
      MatchedSegments(p, below);
    }
  }

  lemma PartialReachesAncestors(p: Pattern, path: Path, ancestor: Path)
    requires p.MayMatchBelow(path)
    requires ancestor <= path
    ensures p.MayMatchBelow(ancestor)
  {
    if ancestor != [] {
      assert path == ancestor + path[|ancestor|..];
      assert Parts(ancestor) + path[|ancestor|..] == Parts(path);
      PartialKeepsAncestors(DOT, Parts(ancestor), path[|ancestor|..], p.Compiled(), true);
    }
  }

  lemma FirstPartMatches(names: seq<string>, segments: seq<Segment>)
    ensures RecMatch(DOT, [""] + names, [Literal("")] + segments, false) <==> RecMatch(DOT, names, segments, false)
  {
    assert ([""] + names)[1..] == names && ([Literal("")] + segments)[1..] == segments;
  }

  /** With a search path that is not the root, a match takes the names behind it one by one. */
  lemma LiteralPrefixMatches(p: Pattern, names: seq<string>)
    requires p.LiteralsRead() && LiteralCount(p.literals) > 0
    ensures var n := LiteralCount(p.literals);
            RecMatch(DOT, [""] + names, p.Compiled(), false)
            <==> && n <= |names| && (forall i :: 0 <= i < n ==> Hits(p.segments[i], names[i]))
                 && RecMatch(DOT, names[n..], p.segments[n..], false)
  {
    hide RecMatch, Hits;
    FirstPartMatches(names, p.segments);
    MatchesNameByName(DOT, names, p.segments, LiteralCount(p.literals));
  }

  lemma SubjectStarts(p: Pattern, path: Path)
    ensures |p.Subject(path)| > 0 && p.Subject(path) == [""] + p.Subject(path)[1..]
  {
  }

  lemma SubjectPart(p: Pattern, path: Path, k: nat)
    requires k < |p.Subject(path)[1..]| && p.Subject(path)[1..][k] != ""
    ensures k < |path| && path[k] == p.Subject(path)[1..][k]
  {
  }

  /** A name that a segment on the search path accepts is the name on the path there. */
  lemma FaithfulName(p: Pattern, path: Path, i: nat)
    requires p.LiteralsRead() && p.SearchPathIsFaithful()
    requires i < LiteralCount(p.literals) && i + 1 < |p.Subject(path)|
    requires Hits(p.segments[i], p.Subject(path)[1..][i])
    ensures i < |path| && path[i] == p.literals[i]
  {
    assert p.Subject(path)[1..][i] == p.literals[i] != "";
    SubjectPart(p, path, i);
  }

  lemma PrefixOf(a: seq<string>, n: nat, b: seq<string>)
    requires n <= |a| && n <= |b| && forall i :: 0 <= i < n ==> b[i] == a[i]
    ensures a[..n] <= b
  {
  }

  lemma MatchFollowsLiterals(p: Pattern, path: Path)
    requires p.LiteralsRead() && p.SearchPathIsFaithful()
    requires p.Kinds(path) != MATCH_NONE
    ensures p.SearchPath() <= path
  {
    hide RecMatch, Hits, Pattern.Kinds, Pattern.Compiled, Pattern.Subject, Pattern.SearchPathIsFaithful;
    SubjectStarts(p, path);
    var n, names := LiteralCount(p.literals), p.Subject(path)[1..];
    if n > 0 {
      KindsByRecursion(p, path);
      LiteralPrefixMatches(p, names);
      FaithfulName(p, path, n - 1);
      forall i | 0 <= i < n
        ensures path[i] == p.literals[i]
      {
        FaithfulName(p, path, i);
      }
      PrefixOf(p.literals, n, path);
    }
  }

  /** A segment taken for a literal that accepts another name matches outside the search path. */
  lemma MisreadLeadsElsewhere(p: Pattern, i: nat, f: string) returns (path: Path)
    requires p.LiteralsRead() && AllSatisfiable(p.segments)
    requires i < LiteralCount(p.literals) && Hits(p.segments[i], f)
    ensures p.Kinds(path) != MATCH_NONE
    ensures i < |path| && path[i] == f
  {
    hide RecMatch, Pattern.Kinds, Pattern.Compiled;
    CompiledSatisfiable(p);
    var file := Witness(DOT, p.Compiled());
    var matched := PathOfParts(p, file);
    var names := file[1..];
    assert file == [""] + names;
    LiteralPrefixMatches(p, names);
    path := names[i := f];
    assert path[LiteralCount(p.literals)..] == names[LiteralCount(p.literals)..];
    LiteralPrefixMatches(p, path);
    MatchedParts(p, path);
  }

  /** Everything a pattern matches lies at or below its search path, if and only if each segment
      taken for a literal on the search path accepts no other name, or the pattern matches nothing. */
  lemma MatchesBelowSearchPath(p: Pattern)
    requires p.LiteralsRead()
    ensures p.MatchesStayBelow() <==> p.SearchPathIsFaithful() || !AllSatisfiable(p.segments)
  {
    hide Pattern.Kinds, AllSatisfiable;
    if p.SearchPathIsFaithful() || !AllSatisfiable(p.segments) {
      forall path | p.Kinds(path) != MATCH_NONE
        ensures p.SearchPath() <= path
      {
        MatchedSegments(p, path);
        MatchFollowsLiterals(p, path);
      }
    } else {
      var i :| 0 <= i < LiteralCount(p.literals) && !OnlyHits(p.segments[i], p.literals[i]);
      var f :| Hits(p.segments[i], f) && f != p.literals[i];
      var path := MisreadLeadsElsewhere(p, i, f);
      assert p.SearchPath()[i] == p.literals[i];
    }
  }

  // ---------- Include and exclude patterns ----------

  /** Folds the patterns in order: includes add their kinds, excludes take theirs away. */
  ghost function MatchAll(patterns: seq<Pattern>, path: Path): MatchKind {
    if patterns == [] then
      MATCH_NONE
    else
      var p := patterns[|patterns| - 1];
      var before := MatchAll(patterns[..|patterns| - 1], path);
      if p.negate then before - p.Kinds(path) else before + p.Kinds(path)
  }

  ghost predicate PartialMatchAny(patterns: seq<Pattern>, path: Path) {
    exists i :: 0 <= i < |patterns| && !patterns[i].negate && patterns[i].MayMatchBelow(path)
  }

  /** An include, never an exclude, matches something at or below the path. */
  ghost predicate SomeIncludeMatches(patterns: seq<Pattern>, path: Path) {
    exists p :: p in patterns && !p.negate && p.MatchesAtOrBelow(path)
  }

  lemma PartialMatchAnyMeans(patterns: seq<Pattern>, path: Path)
    ensures SomeIncludeMatches(patterns, path) ==> PartialMatchAny(patterns, path)
    ensures (forall p :: p in patterns ==> p.negate || AllSatisfiable(p.segments)) ==>
              (PartialMatchAny(patterns, path) <==> SomeIncludeMatches(patterns, path))
  {
    hide Pattern.MayMatchBelow, Pattern.MatchesAtOrBelow, AllSatisfiable;
    forall p | p in patterns
      ensures p.MatchesAtOrBelow(path) ==> p.MayMatchBelow(path)
      ensures AllSatisfiable(p.segments) ==> (p.MayMatchBelow(path) <==> p.MatchesAtOrBelow(path))
    {
      PartialMatchMeans(p, path);
    }
  }

  method Match(patterns: seq<Pattern>, path: Path) returns (result: MatchKind)
    ensures result == MatchAll(patterns, path)
  {
    result := MATCH_NONE;
    for i := 0 to |patterns|
      invariant result == MatchAll(patterns[..i], path)
    {
      assert patterns[..i + 1][..i] == patterns[..i];
      var kinds := patterns[i].Match(path);
      if patterns[i].negate {
        result := result - kinds;
      } else {
        result := result + kinds;
      }
    }
    assert patterns[..|patterns|] == patterns;
  }

  method PartialMatch(patterns: seq<Pattern>, path: Path) returns (hit: bool)
    ensures hit == PartialMatchAny(patterns, path)
    ensures SomeIncludeMatches(patterns, path) ==> hit
    ensures (forall p :: p in patterns ==> p.negate || AllSatisfiable(p.segments)) ==>
              (hit <==> SomeIncludeMatches(patterns, path))
  {
    hide Pattern.MayMatchBelow, Pattern.MatchesAtOrBelow, AllSatisfiable, SomeIncludeMatches;
    PartialMatchAnyMeans(patterns, path);
    for i := 0 to |patterns|
      invariant forall k :: 0 <= k < i ==> patterns[k].negate || !patterns[k].MayMatchBelow(path)
    {
      if !patterns[i].negate {
        hit := patterns[i].PartialMatch(path);
        if hit {
          return true;
        }
      }
    }
    return false;
  }

  /** Include i mentions what is asked about and no exclude after it does. */
  ghost predicate Decides(patterns: seq<Pattern>, mentions: Pattern -> bool, i: int) {
    && 0 <= i < |patterns|
    && !patterns[i].negate && mentions(patterns[i])
    && forall j :: i < j < |patterns| && patterns[j].negate ==> !mentions(patterns[j])
  }

  /** The last pattern that mentions it, if there is one, is an include. */
  ghost predicate LastIsInclude(patterns: seq<Pattern>, mentions: Pattern -> bool) {
    exists i :: Decides(patterns, mentions, i)
  }

  lemma DecidesBefore(patterns: seq<Pattern>, mentions: Pattern -> bool, i: int)
    requires patterns != [] && !mentions(patterns[|patterns| - 1])
    ensures Decides(patterns, mentions, i) == Decides(patterns[..|patterns| - 1], mentions, i)
  {
    var n := |patterns| - 1;
    assert patterns == patterns[..n] + [patterns[n]];
  }

  lemma LastIsIncludeStep(patterns: seq<Pattern>, mentions: Pattern -> bool)
    requires patterns != []
    ensures var last := patterns[|patterns| - 1];
            LastIsInclude(patterns, mentions)
            <==> if mentions(last) then !last.negate else LastIsInclude(patterns[..|patterns| - 1], mentions)
  {
    var n := |patterns| - 1;
    if mentions(patterns[n]) {
      assert Decides(patterns, mentions, n) <==> !patterns[n].negate;
    } else {
      forall i
        ensures Decides(patterns, mentions, i) == Decides(patterns[..n], mentions, i)
      {
        DecidesBefore(patterns, mentions, i);
      }
    }
  }

  ghost function Mentions(path: Path, kind: Kind): Pattern -> bool {
    (p: Pattern) => kind in p.Kinds(path)
  }

  /** The last pattern that mentions a kind at this path decides whether it is in the result. */
  lemma {:induction false} LastMentionDecides(patterns: seq<Pattern>, path: Path, kind: Kind)
    ensures kind in MatchAll(patterns, path) <==> LastIsInclude(patterns, Mentions(path, kind))
  {
    hide Pattern.Kinds, LastIsInclude;
    if patterns == [] {
      NothingDecides(Mentions(path, kind));
    } else {
      LastIsIncludeStep(patterns, Mentions(path, kind));
      LastMentionDecides(patterns[..|patterns| - 1], path, kind);
    }
  }

  lemma NothingDecides(mentions: Pattern -> bool)
    ensures !LastIsInclude([], mentions)
  {
  }

  /** A pattern with a `!` in front takes away exactly what the pattern without it adds. */
  lemma NegationUndoes(patterns: seq<Pattern>, p: Pattern, path: Path)
    requires !p.negate
    ensures MatchAll(patterns + [p, p.(negate := true)], path) == MatchAll(patterns + [p.(negate := true)], path)
    ensures MatchAll(patterns + [p, p.(negate := true)], path) * MatchAll([p], path) == {}
    ensures MatchAll([p], path) == p.Kinds(path)
  {
    hide Pattern.Kinds;
    var n := p.(negate := true);
    NegateKeepsKinds(p, path);
    assert (patterns + [p, n])[..|patterns| + 1] == patterns + [p];
    assert (patterns + [p])[..|patterns|] == patterns && (patterns + [n])[..|patterns|] == patterns;
    assert [p][..0] == [];
  }

  lemma NegateKeepsKinds(p: Pattern, path: Path)
    ensures p.(negate := true).Kinds(path) == p.Kinds(path)
  {
    hide Aligned;
  }

  lemma {:induction false} MatchComesFromInclude(patterns: seq<Pattern>, path: Path) returns (i: nat)
    requires MatchAll(patterns, path) != MATCH_NONE
    ensures i < |patterns| && !patterns[i].negate && patterns[i].Kinds(path) != MATCH_NONE
  {
    var n := |patterns| - 1;
    if !patterns[n].negate && patterns[n].Kinds(path) != MATCH_NONE {
      i := n;
    } else {
      i := MatchComesFromInclude(patterns[..n], path);
    }
  }

  /** The search keeps an entry only if it matches or something below it may. */
  ghost predicate Interesting(patterns: seq<Pattern>, path: Path) {
    MatchAll(patterns, path) != MATCH_NONE || PartialMatchAny(patterns, path)
  }

  /** Excludes take part in the match but never in the pruning, so pruning an entry loses nothing
      below it. */
  lemma PruningIsSafe(patterns: seq<Pattern>, path: Path, ancestor: Path)
    requires ancestor <= path
    requires Interesting(patterns, path)
    ensures Interesting(patterns, ancestor)
  {
    if ancestor != path {
      if MatchAll(patterns, path) != MATCH_NONE {
        var i := MatchComesFromInclude(patterns, path);
        MatchReachesAncestors(patterns[i], path, ancestor);
      } else {
        var i :| 0 <= i < |patterns| && !patterns[i].negate && patterns[i].MayMatchBelow(path);
        PartialReachesAncestors(patterns[i], path, ancestor);
      }
    }
  }
}
