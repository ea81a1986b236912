/**
 The glob search on directory trees without symbolic links: what it yields, and when that is all the
 patterns match.
 */
module GlobTree {
  import opened Basics
  import opened GlobMatch
  import opened GlobPattern
  import opened SearchPaths
  import opened FileSystem
  import opened GlobWalk
  import opened GlobSearch
  import opened GlobResults
  import PatternLiteral

  ghost predicate SymlinkFree(fs: Fs) {
    forall d, e :: d in fs.dirs && e in fs.dirs[d] ==> !e.dirent.Symlink?
  }

  /** Without links a directory's real path is the path it was looked up by. */
  lemma {:induction false} RealIsPath(fs: Fs, path: Path)
    requires SymlinkFree(fs)
    ensures Stat(fs, path) == Lstat(fs, path)
    ensures Lstat(fs, path) != Fault(ELOOP)
    ensures Lstat(fs, path).IsDirectory? ==> Lstat(fs, path).realPath == path
    decreases |path|
  {
    if path != [] {
      var parent, name := Dirname(path), path[|path| - 1];
      assert path == parent + [name];
      RealIsPath(fs, parent);
      if Lstat(fs, parent).IsDirectory? {
        var found := Find(fs.dirs[parent], name);
        assert found.Some? ==> !Entry(name, found.value).dirent.Symlink?;
      }
    }
  }

  /** A path exists exactly when its parent is a directory that lists its last name. */
  lemma ExistsIsListed(fs: Fs, options: Options, path: Path)
    requires SymlinkFree(fs) && path != []
    ensures !Lstat(fs, path).Fault? <==> Lists(fs, options, Dirname(path), path[|path| - 1])
  {
  }

  lemma {:induction false} ExistsBelow(fs: Fs, options: Options, root: Path, q: Path)
    requires SymlinkFree(fs) && root <= q
    ensures !Lstat(fs, q).Fault?
            <==> !Lstat(fs, root).Fault? && forall i :: |root| <= i < |q| ==> Lists(fs, options, q[..i], q[i])
    decreases |q|
  {
    hide Lstat, Lists;
    if root != q {
      var n := |q| - 1;
      var parent := q[..n];
      ExistsIsListed(fs, options, q);
      ExistsBelow(fs, options, root, parent);
      assert forall i :: 0 <= i < n ==> parent[..i] == q[..i] && parent[i] == q[i];
      if Lists(fs, options, parent, q[n]) {
        DirectoryExists(fs, options, parent, q[n]);
      }
    }
  }

  lemma DirectoryExists(fs: Fs, options: Options, path: Path, name: string)
    requires SymlinkFree(fs) && Lists(fs, options, path, name)
    ensures !Lstat(fs, path).Fault?
  {
  }

  lemma RealOfParent(fs: Fs, options: Options, path: Path)
    requires SymlinkFree(fs) && Examine(fs, options, path).Branch?
    ensures Real(fs, options, path) == path
  {
    RealIsPath(fs, path);
  }

  /** Going down a tree the real paths get longer, so none is met twice. */
  lemma {:induction false} TrailGrows(fs: Fs, options: Options, q: Path, n: nat)
    requires SymlinkFree(fs) && n <= |q|
    requires forall i :: |q| - n <= i < |q| ==> Examine(fs, options, q[..i]).Branch?
    ensures forall i :: 0 <= i < n ==> |Trail(fs, options, q, n)[i]| == |q| - n + i
    decreases n
  {
    hide Examine;
    if n > 0 {
      var parent := q[..|q| - 1];
      forall i | |parent| - (n - 1) <= i < |parent|
        ensures Examine(fs, options, parent[..i]).Branch?
      {
        assert parent[..i] == q[..i];
      }
      TrailGrows(fs, options, parent, n - 1);
      RealOfParent(fs, options, parent);
    }
  }

  lemma LengthsAscend(paths: seq<Path>, from: nat)
    requires forall i :: 0 <= i < |paths| ==> |paths[i]| == from + i
    ensures Distinct(paths)
  {
  }

  lemma TreeReached(fs: Fs, options: Options, root: Path, q: Path)
    requires SymlinkFree(fs) && root <= q
    requires !Lstat(fs, q).Fault?
    ensures Reached(fs, options, root, [], q)
  {
    hide Lstat, Stat, Examine, Trail;
    ExistsBelow(fs, options, root, q);
    var n := |q| - |root|;
    forall i | |root| <= i < |q|
      ensures Examine(fs, options, q[..i]).Branch?
    {
      assert Lists(fs, options, q[..i], q[i]);
    }
    TrailGrows(fs, options, q, n);
    var places := Places(fs, options, q, n);
    if Examine(fs, options, q).Branch? {
      RealOfParent(fs, options, q);
    }
    LengthsAscend(places, |root|);
    assert [] + places == places;
  }

  lemma {:induction false} ExpandedComesFrom(options: Options, patterns: seq<Pattern>, e: Pattern)
    requires e in Expanded(options, patterns)
    ensures exists p :: p in patterns && (e == p || e == Descendants(p))
  {
    var n := |patterns| - 1;
    assert patterns == patterns[..n] + [patterns[n]];
    if e in Expanded(options, patterns[..n]) {
      ExpandedComesFrom(options, patterns[..n], e);
      var p :| p in patterns[..n] && (e == p || e == Descendants(p));
      assert p in patterns;
    } else {
      assert patterns[n] in patterns;
    }
  }

  lemma {:induction false} CountIgnoresEmptyEnd(literals: seq<string>)
    ensures LiteralCount(literals + [""]) == LiteralCount(literals)
  {
    if literals != [] {
      assert (literals + [""])[1..] == literals[1..] + [""];
      CountIgnoresEmptyEnd(literals[1..]);
    }
  }

  /** The pattern for the descendants has the search path of its pattern and is as faithful. */
  lemma DescendantsAsFaithful(p: Pattern)
    requires p.LiteralsRead()
    ensures Descendants(p).LiteralsRead() && Descendants(p).SearchPath() == p.SearchPath()
    ensures Descendants(p).SearchPathIsFaithful() <==> p.SearchPathIsFaithful()
    ensures AllSatisfiable(Descendants(p).segments) <==> AllSatisfiable(p.segments)
  {
    var d := Descendants(p);
    CountIgnoresEmptyEnd(p.literals);
    assert forall i :: 0 <= i < |p.segments| ==> d.segments[i] == p.segments[i] && d.literals[i] == p.literals[i];
  }

  lemma DescendantsStayBelow(p: Pattern)
    requires p.LiteralsRead() && p.MatchesStayBelow()
    ensures Descendants(p).MatchesStayBelow()
  {
    hide Pattern.MatchesStayBelow, Pattern.SearchPathIsFaithful, AllSatisfiable, Descendants;
    DescendantsAsFaithful(p);
    MatchesBelowSearchPath(p);
    MatchesBelowSearchPath(Descendants(p));
  }

  lemma ExpandedStayBelow(options: Options, patterns: seq<Pattern>, e: Pattern)
    requires forall p :: p in patterns && !p.negate ==> p.LiteralsRead() && p.MatchesStayBelow()
    requires e in Expanded(options, patterns) && !e.negate
    ensures e.MatchesStayBelow()
  {
    hide Pattern.MatchesStayBelow, Pattern.LiteralsRead;
    ExpandedComesFrom(options, patterns, e);
    var p :| p in patterns && (e == p || e == Descendants(p));
    DescendantsStayBelow(p);
  }

  /** When no include matches outside its search path, all that is matched lies below a search root. */
  lemma MatchHasRoot(expanded: seq<Pattern>, q: Path) returns (root: Path)
    requires forall e :: e in expanded && !e.negate ==> e.MatchesStayBelow()
    requires MatchAll(expanded, q) != MATCH_NONE
    ensures root in SearchRoots(expanded) && root <= q
  {
    hide Pattern.Kinds, Pattern.MatchesStayBelow, Pattern.SearchPath, MatchAll;
    var i := MatchComesFromInclude(expanded, q);
    assert expanded[i] in expanded;
    StaysBelow(expanded[i], q);
    RootsCoverIncludes(expanded);
    root :| root in SearchRoots(expanded) && root <= expanded[i].SearchPath();
  }

  lemma StaysBelow(p: Pattern, q: Path)
    requires p.MatchesStayBelow() && p.Kinds(q) != MATCH_NONE
    ensures p.SearchPath() <= q
  {
  }

  /** On a tree without links only the lookup of a search root can throw. */
  lemma TreeSearchThrows(fs: Fs, options: Options, patterns: seq<Pattern>)
    requires SymlinkFree(fs)
    ensures Search(fs, options, patterns).thrown.None? <==> RootsLookUp(fs, SearchRoots(Expanded(options, patterns)))
  {
    hide Lstat, Examine, Search, SearchRoots, Expanded, Reached, RootsLookUp, Interesting;
    SearchThrows(fs, options, patterns);
    forall root, q | !Lstat(fs, root).Fault? && Reached(fs, options, root, [], q)
      ensures !Examine(fs, options, q).Failed?
    {
      ReachedExists(fs, options, root, q);
      NotFailed(fs, options, q);
    }
  }

  lemma ReachedExists(fs: Fs, options: Options, root: Path, q: Path)
    requires SymlinkFree(fs) && !Lstat(fs, root).Fault? && Reached(fs, options, root, [], q)
    ensures !Lstat(fs, q).Fault?
  {
    hide Lstat, Lists, Distinct;
    ExistsBelow(fs, options, root, q);
  }

  lemma NotFailed(fs: Fs, options: Options, q: Path)
    requires SymlinkFree(fs)
    ensures Lstat(fs, q).Fault? <==> Examine(fs, options, q).Failed? || Examine(fs, options, q).Gone?
  {
  }

  /** On a tree without links the pruned search yields exactly the paths of the tree at or below a
      search root that the patterns match for their kind, each once, whatever the patterns. */
  lemma TreeSearchYields(fs: Fs, options: Options, patterns: seq<Pattern>)
    requires SymlinkFree(fs)
    requires RootsLookUp(fs, SearchRoots(Expanded(options, patterns)))
    ensures var result := Search(fs, options, patterns);
            var expanded := Expanded(options, patterns);
            && result.thrown.None?
            && Distinct(result.yielded)
            && forall q :: q in result.yielded
                 <==> WantedAt(fs, options, expanded, q) && exists root :: root in SearchRoots(expanded) && root <= q
  {
    hide Reached, Lstat, MatchAll, RootsLookUp, FailuresArePruned, Search, SearchRoots, Expanded, SymlinkFree, Examine;
    var expanded := Expanded(options, patterns);
    TreeSearchThrows(fs, options, patterns);
    SearchThrows(fs, options, patterns);
    SearchFinds(fs, options, patterns);
    forall q, root | WantedAt(fs, options, expanded, q) && root in SearchRoots(expanded) && root <= q
      ensures !Lstat(fs, root).Fault? && Reached(fs, options, root, [], q)
    {
      NotFailed(fs, options, q);
      ExistsBelow(fs, options, root, q);
      TreeReached(fs, options, root, q);
    }
    forall root, q | Reached(fs, options, root, [], q)
      ensures root <= q
    {
      ReachedBelow(fs, options, root, q);
    }
  }

  lemma ReachedBelow(fs: Fs, options: Options, root: Path, q: Path)
    requires Reached(fs, options, root, [], q)
    ensures root <= q
  {
  }

  /** The search yields whatever the patterns match for its kind. */
  ghost predicate FindsAll(fs: Fs, options: Options, patterns: seq<Pattern>) {
    forall q :: q in Search(fs, options, patterns).yielded <==> WantedAt(fs, options, Expanded(options, patterns), q)
  }

  /** When no include is misread on its search path, that is everything the patterns match: neither
      pruning nor starting from the roots nor the excludes lose a match. */
  lemma TreeSearchFinds(fs: Fs, options: Options, patterns: seq<Pattern>)
    requires SymlinkFree(fs)
    requires RootsLookUp(fs, SearchRoots(Expanded(options, patterns)))
    requires forall p :: p in patterns && !p.negate ==>
               p.LiteralsRead() && (p.SearchPathIsFaithful() || !AllSatisfiable(p.segments))
    ensures FindsAll(fs, options, patterns)
  {
    hide Examine, MatchAll, RootsLookUp, Search, Expanded, Pattern.MatchesStayBelow, AllSatisfiable;
    var expanded := Expanded(options, patterns);
    TreeSearchYields(fs, options, patterns);
    forall p | p in patterns && !p.negate
      ensures p.MatchesStayBelow()
    {
      MatchesBelowSearchPath(p);
    }
    forall e | e in expanded && !e.negate
      ensures e.MatchesStayBelow()
    {
      ExpandedStayBelow(options, patterns, e);
    }
    forall q | WantedAt(fs, options, expanded, q)
      ensures exists root :: root in SearchRoots(expanded) && root <= q
    {
      var root := MatchHasRoot(expanded, q);
    }
  }

  // ---------- When the search is complete on every tree ----------

  /** The directories on the way to a path, itself included if it is to be one. */
  function LineDirs(q: Path, last: Dirent): set<Path> {
    (set i | 0 <= i < |q| :: q[..i]) + if last.Subdirectory? then {q} else {}
  }

  /** Each of them lists the next name only. */
  function Line(q: Path, last: Dirent): map<Path, seq<Entry>> {
    map d | d in LineDirs(q, last) ::
      if |d| < |q| then [Entry(q[|d|], if |d| == |q| - 1 then last else Subdirectory)] else []
  }

  lemma LineHas(q: Path, last: Dirent, i: nat)
    requires i < |q|
    ensures q[..i] in Line(q, last)
    ensures Line(q, last)[q[..i]] == [Entry(q[i], if i == |q| - 1 then last else Subdirectory)]
  {
    assert q[..i] in LineDirs(q, last);
  }

  lemma LineKey(q: Path, last: Dirent, d: Path)
    requires d in Line(q, last)
    ensures |d| <= |q| && d == q[..|d|]
    ensures |d| == |q| ==> Line(q, last)[d] == []
    ensures |d| < |q| || last.Subdirectory?
  {
  }

  lemma LineLeads(q: Path, last: Dirent, n: nat)
    requires n < |q| && !last.Symlink?
    ensures Volume(Line(q, last)).Leads(q[..n], Entry(q[n], if n == |q| - 1 then last else Subdirectory))
  {
    assert q[..n] + [q[n]] == q[..n + 1];
    if n < |q| - 1 {
      LineHas(q, last, n + 1);
    } else {
      assert q[..n + 1] == q;
    }
  }

  lemma LineIsTree(q: Path, last: Dirent) returns (fs: Fs)
    requires q != [] && !last.Symlink?
    ensures fs.dirs == Line(q, last) && SymlinkFree(fs)
  {
    hide Line, Volume.Leads;
    var dirs := Line(q, last);
    LineHas(q, last, 0);
    forall d | d in dirs
      ensures DistinctNames(dirs[d])
      ensures forall e :: e in dirs[d] ==> Volume(dirs).Leads(d, e) && !e.dirent.Symlink?
    {
      LineKey(q, last, d);
      if |d| < |q| {
        LineHas(q, last, |d|);
        LineLeads(q, last, |d|);
      }
    }
    assert q[..0] == [];
    fs := Volume(dirs);
  }

  lemma RootLookup(fs: Fs)
    ensures Lstat(fs, []) == IsDirectory([])
  {
  }

  /** One step of a lookup on a tree. */
  lemma LookupStep(fs: Fs, parent: Path, name: string)
    requires SymlinkFree(fs)
    ensures Lstat(fs, parent).IsFile? ==> Lstat(fs, parent + [name]) == Fault(ENOTDIR)
    ensures Lstat(fs, parent).Fault? ==> Lstat(fs, parent + [name]) == Lstat(fs, parent)
    ensures Lstat(fs, parent).IsDirectory? ==>
              parent in fs.dirs
              && Lstat(fs, parent + [name])
                 == match Find(fs.dirs[parent], name)
                    case None => Fault(ENOENT)
                    case Some(dirent) => if dirent.Subdirectory? then IsDirectory(parent + [name]) else IsFile
  {
    RealIsPath(fs, parent);
    assert Dirname(parent + [name]) == parent;
    if Lstat(fs, parent).IsDirectory? {
      var found := Find(fs.dirs[parent], name);
      assert found.Some? ==> !Entry(name, found.value).dirent.Symlink?;
    }
  }

  lemma {:induction false} LineLookup(fs: Fs, q: Path, last: Dirent, i: nat)
    requires SymlinkFree(fs) && fs.dirs == Line(q, last) && !last.Symlink?
    requires q != [] && i <= |q|
    ensures Lstat(fs, q[..i]) == if i < |q| || last.Subdirectory? then IsDirectory(q[..i]) else IsFile
    decreases i
  {
    hide Lstat, Line, SymlinkFree;
    if i == 0 {
      RootLookup(fs);
      assert q[..0] == [];
    } else {
      LineLookup(fs, q, last, i - 1);
      LineHas(q, last, i - 1);
      LookupStep(fs, q[..i - 1], q[i - 1]);
      assert q[..i] == q[..i - 1] + [q[i - 1]];
    }
  }

  /** Where another path leaves the line there is no entry. */
  lemma OffTheLine(fs: Fs, q: Path, last: Dirent, i: nat, name: string)
    requires SymlinkFree(fs) && fs.dirs == Line(q, last) && !last.Symlink?
    requires i < |q| && name != q[i]
    ensures Lstat(fs, q[..i] + [name]) == Fault(ENOENT)
  {
    hide Lstat, Line, SymlinkFree;
    LineLookup(fs, q, last, i);
    LineHas(q, last, i);
    LookupStep(fs, q[..i], name);
  }

  lemma {:induction false} MissingBelow(fs: Fs, missing: Path, other: Path)
    requires SymlinkFree(fs) && missing <= other && Lstat(fs, missing) == Fault(ENOENT)
    ensures Lstat(fs, other) == Fault(ENOENT)
    decreases |other|
  {
    hide Lstat, SymlinkFree;
    if missing != other {
      var n := |other| - 1;
      assert other == other[..n] + [other[n]];
      MissingBelow(fs, missing, other[..n]);
      LookupStep(fs, other[..n], other[n]);
    }
  }

  lemma {:induction false} FirstDifference(a: Path, b: Path) returns (i: nat)
    requires a != b && !(a <= b) && !(b <= a)
    ensures i < |a| && i < |b| && a[..i] == b[..i] && a[i] != b[i]
  {
    if a[0] == b[0] {
      i := FirstDifference(a[1..], b[1..]);
      assert a[..i + 1] == [a[0]] + a[1..][..i] && b[..i + 1] == [b[0]] + b[1..][..i];
      i := i + 1;
    } else {
      i := 0;
    }
  }

  lemma SameSearchPath(p: Pattern)
    ensures Descendants(p).SearchPath() == p.SearchPath()
  {
    CountIgnoresEmptyEnd(p.literals);
  }

  /** An include and its descendants pattern have one search path, the only root. */
  lemma OneRoot(options: Options, p: Pattern, root: Path)
    requires root in SearchRoots(Expanded(options, [p]))
    ensures root == p.SearchPath()
  {
    hide IncludedPaths, SearchRoots, Expanded, Pattern.SearchPath, MatchAll, AllSatisfiable;
    var expanded := Expanded(options, [p]);
    RootsCoverIncludes(expanded);
    IncludedPathsFrom(expanded, root);
    var i :| 0 <= i < |expanded| && !expanded[i].negate && expanded[i].SearchPath() == root;
    ExpandedComesFrom(options, [p], expanded[i]);
    SameSearchPath(p);
  }

  /** An include and its descendants pattern both add to what is matched. */
  lemma OneIncludeMatches(options: Options, p: Pattern, q: Path)
    requires !p.negate
    ensures var kinds := MatchAll(Expanded(options, [p]), q);
            if NeedsDescendants(options, p) then
              kinds == p.Kinds(q) + Descendants(p).Kinds(q)
            else
              kinds == p.Kinds(q)
  {
    hide Pattern.Kinds;
    assert [p][..0] == [];
    assert MatchAll([p], q) == p.Kinds(q);
    assert [p] + [Descendants(p)] == [p, Descendants(p)] && [p, Descendants(p)][..1] == [p];
  }

  /** A tree on which the search misses a path that an include or its descendants pattern matches
      outside the search path. */
  lemma TreeWithLostMatch(options: Options, p: Pattern, e: Pattern, q: Path) returns (fs: Fs)
    requires !p.negate && (e == p || (e == Descendants(p) && NeedsDescendants(options, p)))
    requires options.matchDirectories || !e.trailingSeparator
    requires e.Kinds(q) != MATCH_NONE && !(p.SearchPath() <= q) && !(q <= p.SearchPath())
    ensures SymlinkFree(fs) && RootsLookUp(fs, SearchRoots(Expanded(options, [p])))
    ensures !FindsAll(fs, options, [p])
  {
    hide Lstat, Stat, Line, SymlinkFree, MatchAll, Search, Expanded, Pattern.SearchPath;
    var last := if options.matchDirectories then Subdirectory else RegularFile;
    var expanded := Expanded(options, [p]);
    fs := LineIsTree(q, last);
    LineLookup(fs, q, last, |q|);
    assert q[..|q|] == q;
    RealIsPath(fs, q);
    OneIncludeMatches(options, p, q);
    assert WantedAt(fs, options, expanded, q);
    var i := FirstDifference(p.SearchPath(), q);
    var name := p.SearchPath()[i];
    OffTheLine(fs, q, last, i, name);
    assert q[..i] + [name] <= p.SearchPath();
    MissingBelow(fs, q[..i] + [name], p.SearchPath());
    forall root | root in SearchRoots(expanded)
      ensures root == p.SearchPath()
    {
      OneRoot(options, p, root);
    }
    TreeSearchYields(fs, options, [p]);
  }

  lemma MatchElsewhere(p: Pattern) returns (q: Path)
    requires p.LiteralsRead() && !p.SearchPathIsFaithful() && AllSatisfiable(p.segments)
    ensures p.Kinds(q) != MATCH_NONE && !(p.SearchPath() <= q) && !(q <= p.SearchPath())
  {
    hide Pattern.Kinds, AllSatisfiable;
    var i :| 0 <= i < LiteralCount(p.literals) && !OnlyHits(p.segments[i], p.literals[i]);
    var f :| Hits(p.segments[i], f) && f != p.literals[i];
    q := MisreadLeadsElsewhere(p, i, f);
    assert p.SearchPath()[i] == p.literals[i];
  }

  /** The patterns ask for directories only, and the options for none. */
  predicate AsksForNothing(options: Options, p: Pattern) {
    p.trailingSeparator && !options.matchDirectories && !options.implicitDescendants
  }

  lemma NothingWanted(fs: Fs, options: Options, p: Pattern)
    requires SymlinkFree(fs) && RootsLookUp(fs, SearchRoots(Expanded(options, [p])))
    requires !p.negate && AsksForNothing(options, p)
    ensures FindsAll(fs, options, [p])
  {
    hide SymlinkFree, RootsLookUp, Search, SearchRoots, Examine, MatchAll, Expanded;
    TreeSearchYields(fs, options, [p]);
    forall q
      ensures !WantedAt(fs, options, Expanded(options, [p]), q)
    {
      OneIncludeMatches(options, p, q);
    }
  }

  lemma SearchLosesMatch(options: Options, p: Pattern) returns (fs: Fs)
    requires !p.negate && p.LiteralsRead() && !AsksForNothing(options, p)
    requires !p.SearchPathIsFaithful() && AllSatisfiable(p.segments)
    ensures SymlinkFree(fs) && RootsLookUp(fs, SearchRoots(Expanded(options, [p])))
    ensures !FindsAll(fs, options, [p])
  {
    hide Pattern.Kinds, Pattern.SearchPath, Pattern.SearchPathIsFaithful, AllSatisfiable, FindsAll, RootsLookUp;
    DescendantsAsFaithful(p);
    var e := if options.matchDirectories || !p.trailingSeparator then p else Descendants(p);
    var q := MatchElsewhere(e);
    fs := TreeWithLostMatch(options, p, e, q);
  }

  /** The search for one include finds all it matches on every tree on which its search path can be
      looked up, if and only if each segment taken for a literal on the search path accepts no other
      name, or the pattern matches nothing or asks for nothing. */
  lemma SearchIsComplete(options: Options, p: Pattern)
    requires !p.negate && p.LiteralsRead()
    ensures (forall fs: Fs :: SymlinkFree(fs) && RootsLookUp(fs, SearchRoots(Expanded(options, [p]))) ==>
                                FindsAll(fs, options, [p]))
            <==> p.SearchPathIsFaithful() || !AllSatisfiable(p.segments) || AsksForNothing(options, p)
  {
    hide SymlinkFree, RootsLookUp, FindsAll, Pattern.SearchPathIsFaithful, AllSatisfiable, Expanded, AsksForNothing;
    if p.SearchPathIsFaithful() || !AllSatisfiable(p.segments) || AsksForNothing(options, p) {
      forall fs: Fs | SymlinkFree(fs) && RootsLookUp(fs, SearchRoots(Expanded(options, [p])))
        ensures FindsAll(fs, options, [p])
      {
        if AsksForNothing(options, p) {
          NothingWanted(fs, options, p);
        } else {
          TreeSearchFinds(fs, options, [p]);
        }
      }
    } else {
      var fs := SearchLosesMatch(options, p);
    }
  }

  // ---------- A segment that is not the literal it is taken for ----------

  /** What "[!]" compiles to: the class [^], which takes any one character but a line terminator,
      behind the guard that refuses the name ".". */
  predicate AnyOneCharacter(f: string) {
    |f| == 1 && f[0] !in ".\n\r\U{2028}\U{2029}"
  }

  /** The pattern "/[!]": its one segment is read as the literal "!". */
  const MISREAD := Pattern(false, [Wildcard(AnyOneCharacter)],
                           [PatternLiteral.OrEmpty(PatternLiteral.Literal("[!]"))], false, false)

  lemma MisreadSearchPath()
    ensures MISREAD.literals == ["!"] && MISREAD.SearchPath() == ["!"]
    ensures MISREAD.LiteralsRead() && !MISREAD.SearchPathIsFaithful() && AllSatisfiable(MISREAD.segments)
  {
    PatternLiteral.MisreadSets();
    assert Hits(MISREAD.segments[0], "a");
  }

  lemma MisreadMatches()
    ensures MISREAD.Kinds(["a"]) == MATCH_ALL
  {
    assert MISREAD.Compiled() == [Literal(""), MISREAD.segments[0]] && MISREAD.Subject(["a"]) == ["", "a"];
    assert Aligned(DOT, ["", "a"], MISREAD.Compiled(), [0, 1, 2]);
  }

  /** The search for "/[!]" looks below "/!" only and misses "/a", which the pattern matches. */
  lemma MisreadLiteralLosesMatch()
    ensures var volume := Volume(map[[] := [Entry("a", RegularFile)]]);
            var options := Options(true, false, true, true);
            && volume.Valid()
            && SymlinkFree(volume)
            && WantedAt(volume, options, [MISREAD], ["a"])
            && Search(volume, options, [MISREAD]) == Outcome([], None)
  {
    hide Pattern.Kinds;
    var volume := Volume(map[[] := [Entry("a", RegularFile)]]);
    var options := Options(true, false, true, true);
    var fs: Fs := volume;
    MisreadSearchPath();
    MisreadMatches();
    assert SymlinkFree(fs);
    assert [MISREAD][..0] == [];
    assert MatchAll([MISREAD], ["a"]) == MATCH_ALL;
    assert Dirname(["a"]) == [];
    assert Lstat(fs, ["a"]) == IsFile;
    assert Expanded(options, [MISREAD]) == [MISREAD];
    assert IncludedPaths([MISREAD]) == [["!"]];
    var paths: seq<Path> := [["!"]];
    assert paths[..0] == [];
    assert IsTop(paths, ["!"]);
    assert SearchRoots([MISREAD]) == [["!"]];
    assert Dirname(["!"]) == [];
    assert Lstat(fs, ["!"]) == Fault(ENOENT);
  }
}
