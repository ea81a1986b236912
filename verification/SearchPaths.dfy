/**
 The search roots of the glob engine: the literal paths in front of the include patterns, without
 those that lie below another one.
 */
module SearchPaths {
  import opened Basics
  import opened GlobPattern

  datatype Mark = Candidate | Included

  /** The search paths of the include patterns, in pattern order. */
  function IncludedPaths(patterns: seq<Pattern>): (paths: seq<Path>)
  {
    if patterns == [] then
      []
    else
      var before := IncludedPaths(patterns[..|patterns| - 1]);
      var p := patterns[|patterns| - 1];
      if p.negate then before else before + [p.SearchPath()]
  }

  lemma {:induction false} IncludedPathsFrom(patterns: seq<Pattern>, path: Path)
    ensures path in IncludedPaths(patterns)
            <==> exists i :: 0 <= i < |patterns| && !patterns[i].negate && patterns[i].SearchPath() == path
  {
    if patterns != [] {
      var n := |patterns| - 1;
      IncludedPathsFrom(patterns[..n], path);
      assert patterns == patterns[..n] + [patterns[n]];
      if exists i :: 0 <= i < |patterns| && !patterns[i].negate && patterns[i].SearchPath() == path {
        var i :| 0 <= i < |patterns| && !patterns[i].negate && patterns[i].SearchPath() == path;
        assert i < n ==> patterns[..n][i] == patterns[i];
      }
      if path in IncludedPaths(patterns[..n]) {
        var i :| 0 <= i < n && !patterns[..n][i].negate && patterns[..n][i].SearchPath() == path;
        assert patterns[i] == patterns[..n][i];
      }
    }
  }

  /** No other path of the collection is an ancestor. */
  ghost predicate IsTop(paths: seq<Path>, path: Path) {
    path in paths && forall other :: other in paths && other <= path ==> other == path
  }

  /** The top paths of `all`, each once, in the order in which `paths` first mentions them. */
  ghost function TopPaths(paths: seq<Path>, all: seq<Path>): (roots: seq<Path>)
  {
    if paths == [] then
      []
    else
      var before := TopPaths(paths[..|paths| - 1], all);
      var path := paths[|paths| - 1];
      if IsTop(all, path) && path !in before then before + [path] else before
  }

  ghost function SearchRoots(patterns: seq<Pattern>): (roots: seq<Path>)
  {
    TopPaths(IncludedPaths(patterns), IncludedPaths(patterns))
  }

  method GetSearchPaths(patterns: seq<Pattern>) returns (result: seq<Path>)
    ensures result == SearchRoots(patterns)
  {
    var paths := IgnoreNegated(patterns);
    var searchPathMap := CandidateMap(paths);
    result := [];
    for i := 0 to |paths|
      invariant result == TopPaths(paths[..i], paths)
      invariant forall path :: path in searchPathMap <==> path in paths
      invariant forall path :: path in searchPathMap ==> (searchPathMap[path] == Included <==> path in result)
    {
      assert paths[..i + 1][..i] == paths[..i];
      var key := paths[i];
      if searchPathMap[key] != Included {
        var foundAncestor := HasAncestor(searchPathMap, key);
        assert IsTop(paths, key) <==> !foundAncestor;
        if !foundAncestor {
          result := result + [key];
          searchPathMap := searchPathMap[key := Included];
        }
      }
    }
    assert paths[..|paths|] == paths;
  }

  method IgnoreNegated(patterns: seq<Pattern>) returns (paths: seq<Path>)
    ensures paths == IncludedPaths(patterns)
  {
    paths := [];
    for i := 0 to |patterns|
      invariant paths == IncludedPaths(patterns[..i])
    {
      assert patterns[..i + 1][..i] == patterns[..i];
      if !patterns[i].negate {
        paths := paths + [patterns[i].SearchPath()];
      }
    }
    assert patterns[..|patterns|] == patterns;
  }

  method CandidateMap(paths: seq<Path>) returns (searchPathMap: map<Path, Mark>)
    ensures searchPathMap == map path | path in paths :: Candidate
  {
    searchPathMap := map[];
    for i := 0 to |paths|
      invariant searchPathMap == map path | path in paths[..i] :: Candidate
    {
      assert paths[..i + 1] == paths[..i] + [paths[i]];
      searchPathMap := searchPathMap[paths[i] := Candidate];
    }
    assert paths[..|paths|] == paths;
  }

  /** Climbs from a path to the root, which is its own parent. */
  method HasAncestor(searchPathMap: map<Path, Mark>, key: Path) returns (found: bool)
    ensures found <==> exists other :: other in searchPathMap && other <= key && other != key
  {
    var tempKey := key;
    var parent := Dirname(tempKey);
    while parent != tempKey
      invariant tempKey <= key && parent == Dirname(tempKey)
      invariant forall other :: other in searchPathMap && other <= key && other != key ==> |other| < |tempKey|
      decreases |tempKey|
    {
      if parent in searchPathMap {
        return true;
      }
      assert forall other :: other <= key && |other| == |parent| ==> other == parent;
      tempKey := parent;
      parent := Dirname(tempKey);
    }
    return false;
  }

  ghost predicate Antichain(paths: seq<Path>) {
    forall i, j :: 0 <= i < |paths| && 0 <= j < |paths| && i != j ==> !(paths[i] <= paths[j])
  }

  lemma {:induction false} TopPathsAre(paths: seq<Path>, all: seq<Path>)
    ensures forall path :: path in TopPaths(paths, all) <==> path in paths && IsTop(all, path)
    ensures Distinct(TopPaths(paths, all))
  {
    if paths != [] {
      TopPathsAre(paths[..|paths| - 1], all);
      assert paths == paths[..|paths| - 1] + [paths[|paths| - 1]];
    }
  }

  lemma {:induction false} HasTopAncestor(paths: seq<Path>, path: Path) returns (top: Path)
    requires path in paths
    ensures IsTop(paths, top) && top <= path
    decreases |path|
  {
    if IsTop(paths, path) {
      top := path;
    } else {
      var other :| other in paths && other <= path && other != path;
      top := HasTopAncestor(paths, other);
    }
  }

  /** The roots are pairwise incomparable, are search paths themselves, and lie above the search
      path of every include pattern. */
  lemma RootsCoverIncludes(patterns: seq<Pattern>)
    ensures Distinct(SearchRoots(patterns)) && Antichain(SearchRoots(patterns))
    ensures forall root :: root in SearchRoots(patterns) <==> IsTop(IncludedPaths(patterns), root)
    ensures forall i :: 0 <= i < |patterns| && !patterns[i].negate ==>
              exists root :: root in SearchRoots(patterns) && root <= patterns[i].SearchPath()
  {
    var paths := IncludedPaths(patterns);
    var roots := SearchRoots(patterns);
    TopPathsAre(paths, paths);
    forall i, j | 0 <= i < |roots| && 0 <= j < |roots| && i != j
      ensures !(roots[i] <= roots[j])
    {
      assert IsTop(paths, roots[j]) && roots[i] in paths;
      assert roots[i] != roots[j] by {
        assert i < j || j < i;
      }
    }
    forall i | 0 <= i < |patterns| && !patterns[i].negate
      ensures exists root :: root in roots && root <= patterns[i].SearchPath()
    {
      IncludedPathsFrom(patterns, patterns[i].SearchPath());
      var top := HasTopAncestor(paths, patterns[i].SearchPath());
    }
  }

  /** Pattern m is an include with this search path. */
  predicate MentionedAt(patterns: seq<Pattern>, path: Path, m: int) {
    0 <= m < |patterns| && !patterns[m].negate && patterns[m].SearchPath() == path
  }

  /** An earlier root is mentioned before any mention of a later one. */
  lemma RootsByFirstMention(patterns: seq<Pattern>, i: nat, j: nat)
    requires i < j < |SearchRoots(patterns)|
    ensures exists m :: && MentionedAt(patterns, SearchRoots(patterns)[i], m)
                        && forall n :: MentionedAt(patterns, SearchRoots(patterns)[j], n) ==> m < n
  {
    var m := FirstMention(patterns, IncludedPaths(patterns), i, j);
  }

  lemma {:induction false} FirstMention(patterns: seq<Pattern>, all: seq<Path>, i: nat, j: nat) returns (m: nat)
    requires i < j < |TopPaths(IncludedPaths(patterns), all)|
    ensures var roots := TopPaths(IncludedPaths(patterns), all);
            && MentionedAt(patterns, roots[i], m)
            && forall n :: MentionedAt(patterns, roots[j], n) ==> m < n
  {
    hide Pattern.SearchPath, IsTop;
    var last := |patterns| - 1;
    var front := patterns[..last];
    var before, roots := TopPaths(IncludedPaths(front), all), TopPaths(IncludedPaths(patterns), all);
    TopPathsStep(patterns, all);
    if j < |before| {
      m := FirstMention(front, all, i, j);
      assert MentionedAt(front, before[i], m);
      forall n | MentionedAt(patterns, roots[j], n)
        ensures m < n
      {
        if n < last {
          assert MentionedAt(front, before[j], n);
        }
      }
    } else {
      TopPathsAre(IncludedPaths(front), all);
      assert before[i] in before;
      IncludedPathsFrom(front, before[i]);
      m :| 0 <= m < last && !front[m].negate && front[m].SearchPath() == before[i];
      IncludedPathsFrom(front, roots[j]);
      assert forall n :: 0 <= n < last && !front[n].negate ==> front[n].SearchPath() != roots[j];
      assert forall n :: 0 <= n < last ==> patterns[n] == front[n];
    }
  }

  /** One more pattern adds its search path at the end, or nothing. */
  lemma TopPathsStep(patterns: seq<Pattern>, all: seq<Path>)
    requires patterns != []
    ensures var last := |patterns| - 1;
            var before, roots := TopPaths(IncludedPaths(patterns[..last]), all), TopPaths(IncludedPaths(patterns), all);
            || roots == before
            || (&& roots == before + [patterns[last].SearchPath()] && !patterns[last].negate
                && patterns[last].SearchPath() !in before && IsTop(all, patterns[last].SearchPath()))
  {
    var paths, path := IncludedPaths(patterns[..|patterns| - 1]), patterns[|patterns| - 1].SearchPath();
    assert (paths + [path])[..|paths|] == paths;
  }

  /** Which directories are searched depends on the set of include patterns only. */
  lemma RootsIgnoreOrder(patterns: seq<Pattern>, reordered: seq<Pattern>)
    requires forall p :: p in patterns <==> p in reordered
    ensures forall root :: root in SearchRoots(patterns) <==> root in SearchRoots(reordered)
  {
    RootsCoverIncludes(patterns);
    RootsCoverIncludes(reordered);
    forall path
      ensures path in IncludedPaths(patterns) <==> path in IncludedPaths(reordered)
    {
      IncludedPathsFrom(patterns, path);
      IncludedPathsFrom(reordered, path);
      assert forall i :: 0 <= i < |patterns| ==> patterns[i] in reordered;
      assert forall i :: 0 <= i < |reordered| ==> reordered[i] in patterns;
    }
  }
}
