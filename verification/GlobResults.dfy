/**
 What the search finds and when it throws, on any directory graph, cyclic or not.
 */
module GlobResults {
  import opened Basics
  import opened GlobPattern
  import opened SearchPaths
  import opened FileSystem
  import opened GlobWalk
  import opened GlobSearch

  // ---------- Which paths the walk reaches ----------

  /** The directory at `path` lists `name`. */
  ghost predicate Lists(fs: Fs, options: Options, path: Path, name: string) {
    var s := Examine(fs, options, path);
    s.Branch? && exists e :: e in fs.dirs[s.realPath] && e.name == name
  }

  /** The real directories on the last n steps down to a path, the path itself included. */
  function Places(fs: Fs, options: Options, path: Path, n: nat): (places: seq<Path>)
    requires n <= |path|
  {
    Trail(fs, options, path, n) + if Examine(fs, options, path).Branch? then [Real(fs, options, path)] else []
  }

  /** From root down to q every step is listed and no real directory is entered twice. */
  ghost predicate Reached(fs: Fs, options: Options, root: Path, chain: seq<Path>, q: Path) {
    && root <= q
    && (forall i :: |root| <= i < |q| ==> Lists(fs, options, q[..i], q[i]))
    && Distinct(chain + Places(fs, options, q, |q| - |root|))
  }

  ghost predicate Appears(q: Path, visits: seq<Visit>) {
    exists v :: v in visits && v.path == q
  }

  lemma {:induction false} TrailFront(fs: Fs, options: Options, path: Path, n: nat)
    requires 0 < n <= |path|
    ensures Trail(fs, options, path, n) == [Real(fs, options, path[..|path| - n])] + Trail(fs, options, path, n - 1)
  {
    if n > 1 {
      var parent := path[..|path| - 1];
      TrailFront(fs, options, parent, n - 1);
      assert parent[..|parent| - (n - 1)] == path[..|path| - n];
    }
  }

  lemma {:induction false} WalkAllAppears(fs: Fs, options: Options, path: Path, entries: seq<Entry>,
      chain: seq<Path>, q: Path)
    ensures Appears(q, WalkAll(fs, options, path, entries, chain))
            <==> exists e :: e in entries && Appears(q, Walk(fs, options, path + [e.name], chain))
  {
    hide Walk;
    if entries != [] {
      WalkAllAppears(fs, options, path, entries[1..], chain, q);
      AppearsAppend(q, Walk(fs, options, path + [entries[0].name], chain),
                    WalkAll(fs, options, path, entries[1..], chain));
      assert entries == [entries[0]] + entries[1..];
    }
  }

  lemma AppearsAppend(q: Path, a: seq<Visit>, b: seq<Visit>)
    ensures Appears(q, a + b) <==> Appears(q, a) || Appears(q, b)
  {
  }

  /** Stepping from a directory to the next name on the way to q. */
  lemma ReachedStep(fs: Fs, options: Options, path: Path, chain: seq<Path>, q: Path)
    requires path < q
    ensures Reached(fs, options, path, chain, q)
            <==> && Lists(fs, options, path, q[|path|])
                 && Reached(fs, options, path + [q[|path|]], chain + [Real(fs, options, path)], q)
  {
    hide Lists, Real, Examine;
    var next := path + [q[|path|]];
    var n := |q| - |path|;
    assert q[..|q| - n] == path && next <= q;
    TrailFront(fs, options, q, n);
    assert chain + Places(fs, options, q, n) == (chain + [Real(fs, options, path)]) + Places(fs, options, q, n - 1);
  }

  lemma RepeatIsNotDistinct<T>(a: seq<T>, x: T, b: seq<T>)
    requires x in a
    ensures !Distinct(a + [x] + b)
  {
    var i :| 0 <= i < |a| && a[i] == x;
    var s := a + [x] + b;
    assert s[i] == s[|a|];
  }

  /** The walk reports exactly the paths that can be reached without entering a real directory
      twice, whatever the links form. */
  lemma {:induction false} WalkReaches(fs: Fs, options: Options, path: Path, chain: seq<Path>, q: Path)
    requires Distinct(chain)
    ensures Appears(q, Walk(fs, options, path, chain))
            <==> Reached(fs, options, path, chain, q) && !Examine(fs, options, q).Gone?
    decreases |q| - |path|
  {
    WalkStaysBelow(fs, options, path, chain);
    if path <= q {
      var s := Examine(fs, options, path);
      if path == q {
        WalkOwn(fs, options, path, chain);
      } else if s.Branch? && s.realPath !in chain {
        var entries := fs.dirs[s.realPath];
        DistinctSnoc(chain, s.realPath);
        WalkAllAppears(fs, options, path, entries, chain + [s.realPath], q);
        ReachedStep(fs, options, path, chain, q);
        EntryOnTheWay(fs, options, path, entries, chain + [s.realPath], q);
        WalkReaches(fs, options, path + [q[|path|]], chain + [s.realPath], q);
        WalkBranch(fs, options, path, chain, q);
      } else {
        WalkStops(fs, options, path, chain, q);
      }
    }
  }

  lemma WalkOwn(fs: Fs, options: Options, path: Path, chain: seq<Path>)
    requires Distinct(chain)
    ensures Appears(path, Walk(fs, options, path, chain))
            <==> Reached(fs, options, path, chain, path) && !Examine(fs, options, path).Gone?
  {
    hide WalkAll, Stat, Lstat;
    var s := Examine(fs, options, path);
    if s.Branch? {
      assert Places(fs, options, path, 0) == [s.realPath];
      if s.realPath in chain {
        RepeatIsNotDistinct(chain, s.realPath, []);
        assert chain + [s.realPath] + [] == chain + [s.realPath];
      } else {
        DistinctSnoc(chain, s.realPath);
        assert Walk(fs, options, path, chain)[0] == DirectoryVisit(path);
      }
    } else {
      assert chain + Places(fs, options, path, 0) == chain;
      if !s.Gone? {
        assert Walk(fs, options, path, chain)[0].path == path;
      }
    }
  }

  lemma WalkStops(fs: Fs, options: Options, path: Path, chain: seq<Path>, q: Path)
    requires path < q
    requires var s := Examine(fs, options, path); !s.Branch? || s.realPath in chain
    ensures !Appears(q, Walk(fs, options, path, chain))
    ensures !Reached(fs, options, path, chain, q)
  {
    hide WalkAll, Stat, Lstat;
    if Reached(fs, options, path, chain, q) {
      ReachedStep(fs, options, path, chain, q);
      RepeatIsNotDistinct(chain, Real(fs, options, path), Places(fs, options, q, |q| - |path| - 1));
    }
  }

  lemma EntryOnTheWay(fs: Fs, options: Options, path: Path, entries: seq<Entry>, chain: seq<Path>, q: Path)
    requires path < q
    ensures (exists e :: e in entries && Appears(q, Walk(fs, options, path + [e.name], chain)))
            <==> && (exists e :: e in entries && e.name == q[|path|])
                 && Appears(q, Walk(fs, options, path + [q[|path|]], chain))
  {
    hide Walk;
    forall e | e in entries && Appears(q, Walk(fs, options, path + [e.name], chain))
      ensures e.name == q[|path|]
    {
      WalkStaysBelow(fs, options, path + [e.name], chain);
      assert (path + [e.name])[|path|] == e.name;
    }
  }

  lemma WalkBranch(fs: Fs, options: Options, path: Path, chain: seq<Path>, q: Path)
    requires path < q
    requires var s := Examine(fs, options, path); s.Branch? && s.realPath !in chain
    ensures var s := Examine(fs, options, path);
            Appears(q, Walk(fs, options, path, chain))
            <==> Appears(q, WalkAll(fs, options, path, fs.dirs[s.realPath], chain + [s.realPath]))
  {
  }

  // ---------- Kinds and repetitions ----------

  /** The visit a sight gives rise to. */
  ghost predicate Fits(fs: Fs, options: Options, v: Visit) {
    match Examine(fs, options, v.path)
    case Gone => false
    case Failed => v.FaultVisit?
    case Leaf => v.FileVisit?
    case Branch(_) => v.DirectoryVisit?
  }

  lemma {:induction false} WalkFits(fs: Fs, options: Options, path: Path, chain: seq<Path>)
    ensures forall v :: v in Walk(fs, options, path, chain) ==> Fits(fs, options, v)
    decreases fs.dirs.Keys - (set c | c in chain), 0
  {
    hide Stat, Lstat;
    var s := Examine(fs, options, path);
    if s.Branch? && s.realPath !in chain {
      assert s.realPath in fs.dirs.Keys - (set c | c in chain) && s.realPath in chain + [s.realPath];
      WalkAllFits(fs, options, path, fs.dirs[s.realPath], chain + [s.realPath]);
    }
  }

  lemma {:induction false} WalkAllFits(fs: Fs, options: Options, path: Path, entries: seq<Entry>, chain: seq<Path>)
    ensures forall v :: v in WalkAll(fs, options, path, entries, chain) ==> Fits(fs, options, v)
    decreases fs.dirs.Keys - (set c | c in chain), 1 + |entries|
  {
    hide Fits;
    if entries != [] {
      WalkFits(fs, options, path + [entries[0].name], chain);
      WalkAllFits(fs, options, path, entries[1..], chain);
    }
  }

  /** No path is reported twice. */
  predicate Once(visits: seq<Visit>) {
    forall i, j :: 0 <= i < j < |visits| ==> visits[i].path != visits[j].path
  }

  lemma OnceAppend(a: seq<Visit>, b: seq<Visit>)
    requires Once(a) && Once(b)
    requires forall v, w :: v in a && w in b ==> v.path != w.path
    ensures Once(a + b)
  {
  }

  lemma {:induction false} WalkOnce(fs: Fs, options: Options, path: Path, chain: seq<Path>)
    ensures Once(Walk(fs, options, path, chain))
    decreases fs.dirs.Keys - (set c | c in chain), 0
  {
    hide Stat, Lstat, WalkAll;
    var s := Examine(fs, options, path);
    if s.Branch? && s.realPath !in chain {
      assert s.realPath in fs.dirs.Keys - (set c | c in chain) && s.realPath in chain + [s.realPath];
      var entries := fs.dirs[s.realPath];
      WalkAllOnce(fs, options, path, entries, chain + [s.realPath]);
      WalkAllStaysBelow(fs, options, path, entries, chain + [s.realPath]);
      OnceAppend([DirectoryVisit(path)], WalkAll(fs, options, path, entries, chain + [s.realPath]));
    }
  }

  lemma {:induction false} WalkAllOnce(fs: Fs, options: Options, path: Path, entries: seq<Entry>, chain: seq<Path>)
    requires DistinctNames(entries)
    ensures Once(WalkAll(fs, options, path, entries, chain))
    decreases fs.dirs.Keys - (set c | c in chain), 1 + |entries|
  {
    hide Walk;
    if entries != [] {
      var child := path + [entries[0].name];
      WalkOnce(fs, options, child, chain);
      WalkAllOnce(fs, options, path, entries[1..], chain);
      SiblingsDiffer(fs, options, path, entries, chain);
      OnceAppend(Walk(fs, options, child, chain), WalkAll(fs, options, path, entries[1..], chain));
    }
  }

  lemma SiblingsDiffer(fs: Fs, options: Options, path: Path, entries: seq<Entry>, chain: seq<Path>)
    requires entries != [] && DistinctNames(entries)
    ensures forall v, w ::
              && v in Walk(fs, options, path + [entries[0].name], chain)
              && w in WalkAll(fs, options, path, entries[1..], chain)
              ==> v.path != w.path
  {
    hide Walk, WalkAll;
    var child := path + [entries[0].name];
    WalkStaysBelow(fs, options, child, chain);
    WalkAllStaysBelow(fs, options, path, entries[1..], chain);
    forall v, w | v in Walk(fs, options, child, chain) && w in WalkAll(fs, options, path, entries[1..], chain)
      ensures v.path != w.path
    {
      assert child[|path|] == entries[0].name;
      var e :| e in entries[1..] && w.path[|path|] == e.name;
      var k :| 0 <= k < |entries[1..]| && entries[1..][k] == e;
      assert entries[k + 1].name != entries[0].name;
    }
  }

  lemma {:induction false} RootsReach(fs: Fs, options: Options, roots: seq<Path>, q: Path)
    ensures Appears(q, WalkRoots(fs, options, roots))
            <==> !Examine(fs, options, q).Gone? && exists root :: root in roots && Reached(fs, options, root, [], q)
  {
    hide Walk, Reached, Examine;
    if roots != [] {
      RootsReach(fs, options, roots[1..], q);
      WalkReaches(fs, options, roots[0], [], q);
      AppearsAppend(q, Walk(fs, options, roots[0], []), WalkRoots(fs, options, roots[1..]));
      assert roots == [roots[0]] + roots[1..];
    }
  }

  lemma {:induction false} RootsBelow(fs: Fs, options: Options, roots: seq<Path>)
    ensures forall v :: v in WalkRoots(fs, options, roots) ==>
              Fits(fs, options, v) && exists root :: root in roots && root <= v.path
  {
    hide Walk, Fits;
    if roots != [] {
      WalkFits(fs, options, roots[0], []);
      WalkStaysBelow(fs, options, roots[0], []);
      RootsBelow(fs, options, roots[1..]);
      assert forall root :: root in roots[1..] ==> root in roots;
      assert roots[0] in roots;
    }
  }

  lemma {:induction false} RootsOnce(fs: Fs, options: Options, roots: seq<Path>)
    requires Antichain(roots)
    ensures Once(WalkRoots(fs, options, roots))
  {
    hide Walk, Fits;
    if roots != [] {
      var first, rest := roots[0], roots[1..];
      WalkOnce(fs, options, first, []);
      assert Antichain(rest) by {
        assert forall i :: 0 <= i < |rest| ==> rest[i] == roots[i + 1];
      }
      RootsOnce(fs, options, rest);
      WalkStaysBelow(fs, options, first, []);
      RootsBelow(fs, options, rest);
      forall v, w | v in Walk(fs, options, first, []) && w in WalkRoots(fs, options, rest)
        ensures v.path != w.path
      {
        var root :| root in rest && root <= w.path;
        var k :| 0 <= k < |rest| && rest[k] == root;
        assert !(roots[0] <= roots[k + 1]) && !(roots[k + 1] <= roots[0]);
      }
      OnceAppend(Walk(fs, options, first, []), WalkRoots(fs, options, rest));
    }
  }

  // ---------- What a caller receives ----------

  /** The entry at q is of a kind the patterns ask for. */
  ghost predicate WantedAt(fs: Fs, options: Options, patterns: seq<Pattern>, q: Path) {
    match Examine(fs, options, q)
    case Leaf => FileKind in MatchAll(patterns, q)
    case Branch(_) => DirectoryKind in MatchAll(patterns, q) && options.matchDirectories
    case _ => false
  }

  lemma {:induction false} KeptOnce(keep: Visit -> bool, visits: seq<Visit>)
    requires Once(visits)
    ensures Once(Kept(keep, visits))
  {
    if visits != [] {
      var rest := visits[1..];
      KeptOnce(keep, rest);
      forall v | v in Kept(keep, rest)
        ensures v.path != visits[0].path
      {
        KeptMembers(keep, rest, v);
        var k :| 0 <= k < |rest| && rest[k] == v;
        assert visits[k + 1] == v;
      }
      OnceAppend(if keep(visits[0]) then [visits[0]] else [], Kept(keep, rest));
    }
  }

  /** Without an exception the report is the paths of the visits, in order. */
  lemma {:induction false} ReportIsPaths(visits: seq<Visit>)
    ensures Report(visits).thrown.None? <==> forall v :: v in visits ==> !v.FaultVisit?
    ensures Report(visits).thrown.None? ==> Report(visits).yielded == PathsOf(visits)
  {
    if visits != [] {
      ReportIsPaths(visits[1..]);
      assert visits == [visits[0]] + visits[1..];
    }
  }

  lemma AntichainSnoc(paths: seq<Path>, path: Path)
    requires Antichain(paths)
    requires forall other :: other in paths ==> !(other <= path) && !(path <= other)
    ensures Antichain(paths + [path])
  {
    forall i | 0 <= i < |paths|
      ensures !(paths[i] <= path) && !(path <= paths[i])
    {
      assert paths[i] in paths;
    }
  }

  lemma {:induction false} ExistingRootsAre(fs: Fs, roots: seq<Path>)
    requires ExistingRoots(fs, roots).Starts?
    ensures forall root :: root in ExistingRoots(fs, roots).roots
                           <==> root in roots && !Lstat(fs, root).Fault?
    ensures Antichain(roots) ==> Antichain(ExistingRoots(fs, roots).roots)
  {
    hide Lstat;
    if roots != [] {
      var n := |roots| - 1;
      var before := roots[..n];
      ExistingRootsAre(fs, before);
      assert roots == before + [roots[n]];
      if Antichain(roots) {
        assert forall i :: 0 <= i < n ==> before[i] == roots[i];
        var kept := ExistingRoots(fs, before).roots;
        forall root | root in kept
          ensures !(root <= roots[n]) && !(roots[n] <= root)
        {
          var k :| 0 <= k < n && before[k] == root;
          assert roots[k] == root;
        }
        AntichainSnoc(kept, roots[n]);
      }
    }
  }

  /** The roots can be looked up without an error other than "no such entry". */
  ghost predicate RootsLookUp(fs: Fs, roots: seq<Path>) {
    forall root :: root in roots && Lstat(fs, root).Fault? ==> Lstat(fs, root).errno == ENOENT
  }

  lemma {:induction false} StartsWhenRootsLookUp(fs: Fs, roots: seq<Path>)
    ensures ExistingRoots(fs, roots).Starts? <==> RootsLookUp(fs, roots)
  {
    hide Lstat;
    if roots != [] {
      var n := |roots| - 1;
      StartsWhenRootsLookUp(fs, roots[..n]);
      assert roots == roots[..n] + [roots[n]];
    }
  }

  /** Every path that can be reached but not examined, such as a dangling link, is one the search has
      no reason to look at. */
  ghost predicate FailuresArePruned(fs: Fs, options: Options, expanded: seq<Pattern>) {
    forall root, q ::
      && root in SearchRoots(expanded) && !Lstat(fs, root).Fault?
      && Reached(fs, options, root, [], q) && Examine(fs, options, q).Failed?
      ==> !Interesting(expanded, q)
  }

  /** A failing visit is among those reported exactly when a failing path is reached from a root. */
  lemma FaultIsVisited(fs: Fs, options: Options, roots: seq<Path>, q: Path)
    ensures FaultVisit(q) in WalkRoots(fs, options, roots)
            <==> Examine(fs, options, q).Failed? && exists root :: root in roots && Reached(fs, options, root, [], q)
  {
    hide Reached, Examine, Walk, WalkRoots;
    var visits := WalkRoots(fs, options, roots);
    RootsBelow(fs, options, roots);
    RootsReach(fs, options, roots, q);
    if Appears(q, visits) && Examine(fs, options, q).Failed? {
      var v :| v in visits && v.path == q;
      assert Fits(fs, options, v);
      assert v == FaultVisit(q);
    }
    if FaultVisit(q) in visits {
      assert Fits(fs, options, FaultVisit(q));
    }
  }

  /** On every file system the search throws if and only if a search root cannot be looked up, other
      than for not being there, or it has reason to look at a reachable path that it cannot examine. */
  lemma SearchThrows(fs: Fs, options: Options, patterns: seq<Pattern>)
    ensures var expanded := Expanded(options, patterns);
            Search(fs, options, patterns).thrown.None?
            <==> RootsLookUp(fs, SearchRoots(expanded)) && FailuresArePruned(fs, options, expanded)
  {
    hide Reached, Examine, Lstat, WalkRoots, Interesting, RootsLookUp, MatchAll;
    var expanded := Expanded(options, patterns);
    StartsWhenRootsLookUp(fs, SearchRoots(expanded));
    if ExistingRoots(fs, SearchRoots(expanded)).Starts? {
      var roots := ExistingRoots(fs, SearchRoots(expanded)).roots;
      var keep, visits := Wanted(expanded, options), WalkRoots(fs, options, roots);
      ExistingRootsAre(fs, SearchRoots(expanded));
      ReportIsPaths(Kept(keep, visits));
      forall v
        ensures v in Kept(keep, visits) <==> v in visits && keep(v)
      {
        KeptMembers(keep, visits, v);
      }
      forall q
        ensures FaultVisit(q) in Kept(keep, visits)
                <==> && Examine(fs, options, q).Failed? && Interesting(expanded, q)
                     && exists root :: root in roots && Reached(fs, options, root, [], q)
      {
        FaultIsVisited(fs, options, roots, q);
        assert keep(FaultVisit(q)) == Interesting(expanded, q);
      }
      assert (forall v :: v in Kept(keep, visits) ==> !v.FaultVisit?)
             <==> forall q :: FaultVisit(q) !in Kept(keep, visits);
    }
  }

  /** On every file system, whatever its symbolic links form, a search with nothing in its way yields
      each wanted path that can be reached from an existing search root without entering a real
      directory twice, and nothing else, each once. */
  lemma SearchFinds(fs: Fs, options: Options, patterns: seq<Pattern>)
    requires RootsLookUp(fs, SearchRoots(Expanded(options, patterns)))
    requires FailuresArePruned(fs, options, Expanded(options, patterns))
    ensures var found := Search(fs, options, patterns).yielded;
            var expanded := Expanded(options, patterns);
            && Search(fs, options, patterns).thrown.None?
            && Distinct(found)
            && forall q :: q in found
                 <==> && WantedAt(fs, options, expanded, q)
                      && exists root :: && root in SearchRoots(expanded) && !Lstat(fs, root).Fault?
                                        && Reached(fs, options, root, [], q)
  {
    hide Reached, Examine, Lstat, Walk, MatchAll, RootsLookUp, FailuresArePruned;
    SearchThrows(fs, options, patterns);
    var expanded := Expanded(options, patterns);
    var roots := ExistingRoots(fs, SearchRoots(expanded)).roots;
    var keep := Wanted(expanded, options);
    var visits := WalkRoots(fs, options, roots);
    var kept := Kept(keep, visits);
    RootsCoverIncludes(expanded);
    ExistingRootsAre(fs, SearchRoots(expanded));
    ReportIsPaths(kept);
    RootsOnce(fs, options, roots);
    KeptOnce(keep, visits);
    forall q
      ensures q in PathsOf(kept) <==> Appears(q, visits) && WantedAt(fs, options, expanded, q)
    {
      KeptPaths(fs, options, expanded, visits, q) by {
        RootsBelow(fs, options, roots);
      }
      RootsReach(fs, options, roots, q);
    }
    forall q
      ensures Appears(q, visits) && WantedAt(fs, options, expanded, q)
              <==> && WantedAt(fs, options, expanded, q)
                   && exists root :: && root in SearchRoots(expanded) && !Lstat(fs, root).Fault?
                                     && Reached(fs, options, root, [], q)
    {
      RootsReach(fs, options, roots, q);
    }
  }

  lemma KeptPaths(fs: Fs, options: Options, patterns: seq<Pattern>, visits: seq<Visit>, q: Path)
    requires forall v :: v in visits ==> Fits(fs, options, v)
    requires forall v :: v in Kept(Wanted(patterns, options), visits) ==> !v.FaultVisit?
    ensures q in PathsOf(Kept(Wanted(patterns, options), visits))
            <==> Appears(q, visits) && WantedAt(fs, options, patterns, q)
  {
    hide Examine, MatchAll, Interesting;
    var keep := Wanted(patterns, options);
    var kept := Kept(keep, visits);
    forall v
      ensures v in kept <==> v in visits && keep(v)
    {
      KeptMembers(keep, visits, v);
    }
    if q in PathsOf(kept) {
      var k :| 0 <= k < |kept| && PathsOf(kept)[k] == q;
      assert kept[k] in kept;
    }
    if Appears(q, visits) && WantedAt(fs, options, patterns, q) {
      var v :| v in visits && v.path == q;
      assert Fits(fs, options, v);
      assert keep(v);
      var k :| 0 <= k < |kept| && kept[k] == v;
      assert PathsOf(kept)[k] == q;
    }
  }
}
