/**
 The order in which a search yields its paths, and what it has yielded when it throws.
 */
module GlobOrder {
  import opened Basics
  import opened GlobPattern
  import opened SearchPaths
  import opened FileSystem
  import opened GlobWalk
  import opened GlobSearch
  import opened GlobResults

  // ---------- The order of a walk ----------

  /** The listing names x before y. */
  ghost predicate ListsBefore(entries: seq<Entry>, x: string, y: string) {
    exists m, n :: 0 <= m < n < |entries| && entries[m].name == x && entries[n].name == y
  }

  /** The paths agree up to a directory that lists the next name of a before that of b. */
  ghost predicate PartAt(fs: Fs, options: Options, a: Path, b: Path, d: nat) {
    && d < |a| && d < |b| && a[..d] == b[..d]
    && var s := Examine(fs, options, a[..d]);
       s.Branch? && ListsBefore(fs.dirs[s.realPath], a[d], b[d])
  }

  /** A directory comes before what lies below it, and entries in the order of their listing, each
      with everything below it. */
  ghost predicate Earlier(fs: Fs, options: Options, a: Path, b: Path) {
    (a <= b && a != b) || exists d :: PartAt(fs, options, a, b, d)
  }

  ghost function IsEarlier(fs: Fs, options: Options): (Path, Path) -> bool {
    (a: Path, b: Path) => Earlier(fs, options, a, b)
  }

  lemma ListedOnce(entries: seq<Entry>, x: string, y: string)
    requires DistinctNames(entries) && ListsBefore(entries, x, y)
    ensures x != y && !ListsBefore(entries, y, x)
  {
  }

  lemma PartsOnce(fs: Fs, options: Options, a: Path, b: Path, d: nat)
    requires PartAt(fs, options, a, b, d)
    ensures a[d] != b[d] && !PartAt(fs, options, b, a, d)
  {
    var s := Examine(fs, options, a[..d]);
    ListedOnce(fs.dirs[s.realPath], a[d], b[d]);
  }

  lemma EarlierIsStrict(fs: Fs, options: Options, a: Path, b: Path)
    requires Earlier(fs, options, a, b)
    ensures a != b && !Earlier(fs, options, b, a)
  {
    hide PartAt;
    forall d: nat | PartAt(fs, options, a, b, d)
      ensures d < |a| && d < |b| && a[..d] == b[..d] && a[d] != b[d] && !PartAt(fs, options, b, a, d)
    {
      PartBounds(fs, options, a, b, d);
      PartsOnce(fs, options, a, b, d);
    }
    forall d: nat | PartAt(fs, options, b, a, d)
      ensures d < |a| && d < |b| && a[..d] == b[..d] && a[d] != b[d]
    {
      PartBounds(fs, options, b, a, d);
      PartsOnce(fs, options, b, a, d);
    }
    if Earlier(fs, options, b, a) && !(a <= b) && !(b <= a) {
      var d: nat :| PartAt(fs, options, a, b, d);
      var e: nat :| PartAt(fs, options, b, a, e);
      AgreeBefore(a, b, d);
      AgreeBefore(a, b, e);
    }
  }

  lemma AgreeBefore(a: Path, b: Path, d: nat)
    requires d <= |a| && d <= |b| && a[..d] == b[..d]
    ensures forall i :: 0 <= i < d ==> a[i] == b[i]
  {
    forall i | 0 <= i < d
      ensures a[i] == b[i]
    {
      assert a[..d][i] == b[..d][i];
    }
  }

  lemma PartBounds(fs: Fs, options: Options, a: Path, b: Path, d: nat)
    requires PartAt(fs, options, a, b, d)
    ensures d < |a| && d < |b| && a[..d] == b[..d]
  {
  }

  /** Every visit is before every later one. */
  ghost predicate Pairwise(visits: seq<Visit>, before: (Path, Path) -> bool) {
    forall i, j :: 0 <= i < j < |visits| ==> before(visits[i].path, visits[j].path)
  }

  lemma PairwiseAppend(a: seq<Visit>, b: seq<Visit>, before: (Path, Path) -> bool)
    requires Pairwise(a, before) && Pairwise(b, before)
    requires forall v, w :: v in a && w in b ==> before(v.path, w.path)
    ensures Pairwise(a + b, before)
  {
    var all := a + b;
    forall i, j | 0 <= i < j < |all|
      ensures before(all[i].path, all[j].path)
    {
      if j < |a| {
      } else if i < |a| {
        assert a[i] in a && b[j - |a|] in b;
      } else {
        assert before(b[i - |a|].path, b[j - |a|].path);
      }
    }
  }

  lemma {:induction false} WalkInOrder(fs: Fs, options: Options, path: Path, chain: seq<Path>)
    ensures Pairwise(Walk(fs, options, path, chain), IsEarlier(fs, options))
    decreases fs.dirs.Keys - (set c | c in chain), 0
  {
    hide Stat, Lstat, WalkAll, Earlier;
    var s := Examine(fs, options, path);
    if s.Branch? && s.realPath !in chain {
      assert s.realPath in fs.dirs.Keys - (set c | c in chain) && s.realPath in chain + [s.realPath];
      var entries := fs.dirs[s.realPath];
      assert entries[0..] == entries;
      WalkAllInOrder(fs, options, path, 0, chain + [s.realPath]);
      WalkAllStaysBelow(fs, options, path, entries, chain + [s.realPath]);
      var below := WalkAll(fs, options, path, entries, chain + [s.realPath]);
      forall v | v in below
        ensures Earlier(fs, options, path, v.path)
      {
        DirectoryFirst(fs, options, path, v.path);
      }
      PairwiseAppend([DirectoryVisit(path)], below, IsEarlier(fs, options));
    }
  }

  lemma DirectoryFirst(fs: Fs, options: Options, path: Path, q: Path)
    requires path <= q && |path| < |q|
    ensures Earlier(fs, options, path, q)
  {
  }

  /** The entries of a directory from the n-th on. */
  lemma {:induction false} WalkAllInOrder(fs: Fs, options: Options, path: Path, n: nat, chain: seq<Path>)
    requires Examine(fs, options, path).Branch? && n <= |fs.dirs[Real(fs, options, path)]|
    ensures Pairwise(WalkAll(fs, options, path, fs.dirs[Real(fs, options, path)][n..], chain),
                     IsEarlier(fs, options))
    decreases fs.dirs.Keys - (set c | c in chain), 1 + |fs.dirs[Real(fs, options, path)]| - n
  {
    hide Stat, Lstat, Walk, Earlier, Examine;
    var all := fs.dirs[Real(fs, options, path)];
    if n < |all| {
      var child := path + [all[n].name];
      WalkInOrder(fs, options, child, chain);
      WalkAllInOrder(fs, options, path, n + 1, chain);
      assert all[n..][1..] == all[n + 1..] && all[n..][0] == all[n];
      var first, rest := Walk(fs, options, child, chain), WalkAll(fs, options, path, all[n + 1..], chain);
      WalkStaysBelow(fs, options, child, chain);
      WalkAllStaysBelow(fs, options, path, all[n + 1..], chain);
      forall v, w | v in first && w in rest
        ensures Earlier(fs, options, v.path, w.path)
      {
        var e :| e in all[n + 1..] && w.path[|path|] == e.name;
        SiblingsInOrder(fs, options, path, n, e, v.path, w.path);
      }
      PairwiseAppend(first, rest, IsEarlier(fs, options));
    }
  }

  lemma SiblingsInOrder(fs: Fs, options: Options, path: Path, n: nat, e: Entry, a: Path, b: Path)
    requires Examine(fs, options, path).Branch? && n < |fs.dirs[Real(fs, options, path)]|
    requires e in fs.dirs[Real(fs, options, path)][n + 1..]
    requires path + [fs.dirs[Real(fs, options, path)][n].name] <= a
    requires path <= b && |path| < |b| && b[|path|] == e.name
    ensures Earlier(fs, options, a, b)
  {
    hide Examine;
    var all := fs.dirs[Real(fs, options, path)];
    var k :| 0 <= k < |all[n + 1..]| && all[n + 1..][k] == e;
    assert all[n + 1 + k] == e;
    var child := path + [all[n].name];
    assert a[|path|] == child[|path|] == all[n].name;
    assert a[..|path|] == path && b[..|path|] == path;
    assert PartAt(fs, options, a, b, |path|);
  }

  // ---------- The order of a search ----------

  /** What lies below an earlier root comes first; below one root the order is that of the walk. */
  ghost predicate InOrder(fs: Fs, options: Options, roots: seq<Path>, a: Path, b: Path) {
    BelowEarlierRoot(roots, a, b) || (BelowOneRoot(roots, a, b) && Earlier(fs, options, a, b))
  }

  ghost predicate BelowEarlierRoot(roots: seq<Path>, a: Path, b: Path) {
    exists m, n :: 0 <= m < n < |roots| && roots[m] <= a && roots[n] <= b
  }

  ghost predicate BelowOneRoot(roots: seq<Path>, a: Path, b: Path) {
    exists root :: root in roots && root <= a && root <= b
  }

  ghost function IsInOrder(fs: Fs, options: Options, roots: seq<Path>): (Path, Path) -> bool {
    (a: Path, b: Path) => InOrder(fs, options, roots, a, b)
  }

  /** Of two paths at most one comes first. */
  lemma OrderIsStrict(fs: Fs, options: Options, roots: seq<Path>, a: Path, b: Path)
    requires Antichain(roots) && InOrder(fs, options, roots, a, b)
    ensures a != b && !InOrder(fs, options, roots, b, a)
  {
    hide Earlier, BelowEarlierRoot, BelowOneRoot;
    OneRootIsSymmetric(roots, a, b);
    if BelowEarlierRoot(roots, a, b) {
      RootsAreStrict(roots, a, b);
    } else {
      EarlierIsStrict(fs, options, a, b);
      if BelowEarlierRoot(roots, b, a) {
        RootsAreStrict(roots, b, a);
      }
    }
  }

  lemma OneRootIsSymmetric(roots: seq<Path>, a: Path, b: Path)
    ensures BelowOneRoot(roots, a, b) <==> BelowOneRoot(roots, b, a)
  {
  }

  lemma RootsAreStrict(roots: seq<Path>, a: Path, b: Path)
    requires Antichain(roots) && BelowEarlierRoot(roots, a, b)
    ensures a != b && !BelowEarlierRoot(roots, b, a) && !BelowOneRoot(roots, a, b)
  {
    forall i, j | 0 <= i < |roots| && 0 <= j < |roots| && i != j
      ensures !(roots[i] <= a && roots[j] <= a)
      ensures !(roots[i] <= b && roots[j] <= b)
    {
      PrefixesCompare(roots[i], roots[j], a);
      PrefixesCompare(roots[i], roots[j], b);
    }
  }

  lemma PrefixesCompare(x: Path, y: Path, q: Path)
    ensures x <= q && y <= q ==> x <= y || y <= x
  {
  }

  lemma MoreRoots(fs: Fs, options: Options, first: Path, rest: seq<Path>, a: Path, b: Path)
    requires InOrder(fs, options, rest, a, b)
    ensures InOrder(fs, options, [first] + rest, a, b)
  {
    hide Earlier;
    var roots := [first] + rest;
    if exists m, n :: 0 <= m < n < |rest| && rest[m] <= a && rest[n] <= b {
      var m, n :| 0 <= m < n < |rest| && rest[m] <= a && rest[n] <= b;
      assert roots[m + 1] <= a && roots[n + 1] <= b;
    } else {
      var root :| root in rest && root <= a && root <= b;
      assert root in roots;
    }
  }

  lemma {:induction false} RootsInOrder(fs: Fs, options: Options, roots: seq<Path>)
    ensures Pairwise(WalkRoots(fs, options, roots), IsInOrder(fs, options, roots))
  {
    hide Walk, Earlier, InOrder;
    if roots != [] {
      var root, rest := roots[0], roots[1..];
      assert roots == [root] + rest;
      var first, later := Walk(fs, options, root, []), WalkRoots(fs, options, rest);
      WalkInOrder(fs, options, root, []);
      WalkStaysBelow(fs, options, root, []);
      RootsInOrder(fs, options, rest);
      RootsBelow(fs, options, rest);
      forall i, j | 0 <= i < j < |first|
        ensures InOrder(fs, options, roots, first[i].path, first[j].path)
      {
        assert first[i] in first && first[j] in first;
        assert IsEarlier(fs, options)(first[i].path, first[j].path);
        SameRoot(fs, options, roots, root, first[i].path, first[j].path);
      }
      forall i, j | 0 <= i < j < |later|
        ensures InOrder(fs, options, roots, later[i].path, later[j].path)
      {
        assert IsInOrder(fs, options, rest)(later[i].path, later[j].path);
        MoreRoots(fs, options, root, rest, later[i].path, later[j].path);
      }
      forall v, w | v in first && w in later
        ensures InOrder(fs, options, roots, v.path, w.path)
      {
        var other :| other in rest && other <= w.path;
        LaterRoot(fs, options, root, rest, other, v.path, w.path);
      }
      PairwiseAppend(first, later, IsInOrder(fs, options, roots));
    }
  }

  lemma SameRoot(fs: Fs, options: Options, roots: seq<Path>, root: Path, a: Path, b: Path)
    requires root in roots && root <= a && root <= b && Earlier(fs, options, a, b)
    ensures InOrder(fs, options, roots, a, b)
  {
  }

  lemma LaterRoot(fs: Fs, options: Options, first: Path, rest: seq<Path>, other: Path, a: Path, b: Path)
    requires other in rest && first <= a && other <= b
    ensures InOrder(fs, options, [first] + rest, a, b)
  {
    var n :| 0 <= n < |rest| && rest[n] == other;
    var roots := [first] + rest;
    assert roots[0] <= a && roots[n + 1] <= b;
  }

  /** Roots that are passed over leave the others in their order. */
  lemma {:induction false} ExistingRootsInOrder(fs: Fs, roots: seq<Path>, m: nat, n: nat) returns (i: nat, j: nat)
    requires ExistingRoots(fs, roots).Starts?
    requires m < n < |ExistingRoots(fs, roots).roots|
    ensures i < j < |roots|
    ensures roots[i] == ExistingRoots(fs, roots).roots[m] && roots[j] == ExistingRoots(fs, roots).roots[n]
  {
    hide Lstat;
    var k := |roots| - 1;
    var before := ExistingRoots(fs, roots[..k]).roots;
    if n < |before| {
      i, j := ExistingRootsInOrder(fs, roots[..k], m, n);
    } else {
      ExistingRootsAre(fs, roots[..k]);
      assert before[m] in before;
      i :| 0 <= i < k && roots[..k][i] == before[m];
      j := k;
    }
  }

  lemma ExistingOrder(fs: Fs, options: Options, roots: seq<Path>, a: Path, b: Path)
    requires ExistingRoots(fs, roots).Starts?
    requires InOrder(fs, options, ExistingRoots(fs, roots).roots, a, b)
    ensures InOrder(fs, options, roots, a, b)
  {
    hide Earlier, Lstat, ExistingRoots;
    var existing := ExistingRoots(fs, roots).roots;
    ExistingRootsAre(fs, roots);
    if exists m, n :: 0 <= m < n < |existing| && existing[m] <= a && existing[n] <= b {
      var m, n :| 0 <= m < n < |existing| && existing[m] <= a && existing[n] <= b;
      var i, j := ExistingRootsInOrder(fs, roots, m, n);
      assert roots[i] <= a && roots[j] <= b;
    }
  }

  lemma {:induction false} KeptPairwise(keep: Visit -> bool, visits: seq<Visit>, before: (Path, Path) -> bool)
    requires Pairwise(visits, before)
    ensures Pairwise(Kept(keep, visits), before)
  {
    if visits != [] {
      var rest := visits[1..];
      KeptPairwise(keep, rest, before);
      forall v | v in Kept(keep, rest)
        ensures before(visits[0].path, v.path)
      {
        KeptMembers(keep, rest, v);
        var k :| 0 <= k < |rest| && rest[k] == v;
        assert visits[k + 1] == v;
      }
      PairwiseAppend(if keep(visits[0]) then [visits[0]] else [], Kept(keep, rest), before);
    }
  }

  /** The visits a search reports, up to the first that throws. */
  lemma {:induction false} ReportStops(visits: seq<Visit>) returns (n: nat)
    ensures n <= |visits| && Report(visits).yielded == PathsOf(visits[..n])
    ensures forall i :: 0 <= i < n ==> !visits[i].FaultVisit?
    ensures Report(visits).thrown.None? ==> n == |visits|
    ensures Report(visits).thrown.Some? ==> n < |visits| && visits[n] == FaultVisit(Report(visits).thrown.value)
  {
    if visits == [] || visits[0].FaultVisit? {
      n := 0;
    } else {
      var k := ReportStops(visits[1..]);
      n := k + 1;
      assert visits[..n] == [visits[0]] + visits[1..][..k];
      assert PathsOf(visits[..n]) == [visits[0].path] + PathsOf(visits[1..][..k]);
    }
  }

  /** The visits a search keeps, in order. */
  lemma KeptInOrder(fs: Fs, options: Options, patterns: seq<Pattern>, roots: seq<Path>)
    requires ExistingRoots(fs, roots).Starts?
    ensures Pairwise(Kept(Wanted(patterns, options), WalkRoots(fs, options, ExistingRoots(fs, roots).roots)),
                     IsInOrder(fs, options, roots))
  {
    hide Walk, WalkRoots, InOrder, ExistingRoots, Kept, Wanted;
    var existing := ExistingRoots(fs, roots).roots;
    var kept := Kept(Wanted(patterns, options), WalkRoots(fs, options, existing));
    RootsInOrder(fs, options, existing);
    KeptPairwise(Wanted(patterns, options), WalkRoots(fs, options, existing), IsInOrder(fs, options, existing));
    forall i, j | 0 <= i < j < |kept|
      ensures InOrder(fs, options, roots, kept[i].path, kept[j].path)
    {
      assert IsInOrder(fs, options, existing)(kept[i].path, kept[j].path);
      ExistingOrder(fs, options, roots, kept[i].path, kept[j].path);
    }
  }

  /** The paths of a search come in the order of the search roots, below each root directories before
      their contents and entries in the order of their listing, whether it throws in the end or not. */
  lemma SearchInOrder(fs: Fs, options: Options, patterns: seq<Pattern>)
    ensures var found := Search(fs, options, patterns).yielded;
            var roots := SearchRoots(Expanded(options, patterns));
            forall i, j :: 0 <= i < j < |found| ==> InOrder(fs, options, roots, found[i], found[j])
  {
    hide Walk, WalkRoots, InOrder, ExistingRoots, Kept, Wanted, SearchRoots, Expanded, Pairwise;
    var expanded := Expanded(options, patterns);
    var roots := SearchRoots(expanded);
    if ExistingRoots(fs, roots).Starts? {
      var kept := Kept(Wanted(expanded, options), WalkRoots(fs, options, ExistingRoots(fs, roots).roots));
      KeptInOrder(fs, options, expanded, roots);
      var n := ReportStops(kept);
      forall i, j | 0 <= i < j < n
        ensures InOrder(fs, options, roots, kept[i].path, kept[j].path)
      {
        PairOf(kept, IsInOrder(fs, options, roots), i, j);
      }
    }
  }

  lemma PairOf(visits: seq<Visit>, before: (Path, Path) -> bool, i: nat, j: nat)
    requires Pairwise(visits, before) && i < j < |visits|
    ensures before(visits[i].path, visits[j].path)
  {
  }

  // ---------- What a search has yielded when it throws ----------

  /** The path lies below an existing root and can be reached from it. */
  ghost predicate IsReached(fs: Fs, options: Options, roots: seq<Path>, q: Path) {
    exists root :: root in roots && !Lstat(fs, root).Fault? && Reached(fs, options, root, [], q)
  }

  /** The visits a search keeps are the wanted paths that can be reached, and the failing ones it has
      reason to look at. */
  lemma KeptVisit(fs: Fs, options: Options, patterns: seq<Pattern>, roots: seq<Path>, v: Visit)
    requires ExistingRoots(fs, roots).Starts?
    ensures v in Kept(Wanted(patterns, options), WalkRoots(fs, options, ExistingRoots(fs, roots).roots))
            <==> && IsReached(fs, options, roots, v.path) && Fits(fs, options, v)
                 && if v.FaultVisit? then Interesting(patterns, v.path) else WantedAt(fs, options, patterns, v.path)
  {
    hide Reached, Walk, WalkRoots, ExistingRoots, Lstat, Stat, MatchAll, Interesting;
    var existing := ExistingRoots(fs, roots).roots;
    var visits := WalkRoots(fs, options, existing);
    ExistingRootsAre(fs, roots);
    KeptMembers(Wanted(patterns, options), visits, v);
    RootsBelow(fs, options, existing);
    RootsReach(fs, options, existing, v.path);
    if Appears(v.path, visits) {
      var w :| w in visits && w.path == v.path;
      assert Fits(fs, options, w);
      assert Fits(fs, options, v) ==> v == w;
    }
  }

  /** When a search throws for a path, what it has yielded is every wanted path that comes before. */
  lemma SearchStopsAt(fs: Fs, options: Options, patterns: seq<Pattern>, q: Path)
    requires RootsLookUp(fs, SearchRoots(Expanded(options, patterns)))
    requires Search(fs, options, patterns).thrown == Some(q)
    ensures var expanded := Expanded(options, patterns);
            var roots := SearchRoots(expanded);
            var found := Search(fs, options, patterns).yielded;
            && IsReached(fs, options, roots, q)
            && Examine(fs, options, q).Failed? && Interesting(expanded, q)
            && (forall w :: w in found ==> && IsReached(fs, options, roots, w) && WantedAt(fs, options, expanded, w)
                                           && InOrder(fs, options, roots, w, q))
            && (forall w :: IsReached(fs, options, roots, w) && WantedAt(fs, options, expanded, w)
                            ==> w in found || InOrder(fs, options, roots, q, w))
  {
    hide Walk, WalkRoots, InOrder, ExistingRoots, Kept, Wanted, SearchRoots, Expanded, Pairwise, IsReached;
    hide WantedAt, Interesting, Examine, RootsLookUp;
    var expanded := Expanded(options, patterns);
    var roots := SearchRoots(expanded);
    StartsWhenRootsLookUp(fs, roots);
    var kept := Kept(Wanted(expanded, options), WalkRoots(fs, options, ExistingRoots(fs, roots).roots));
    KeptInOrder(fs, options, expanded, roots);
    var n := ReportStops(kept);
    KeptVisit(fs, options, expanded, roots, kept[n]);
    var found := Search(fs, options, patterns).yielded;
    forall w | w in found
      ensures IsReached(fs, options, roots, w) && WantedAt(fs, options, expanded, w)
      ensures InOrder(fs, options, roots, w, q)
    {
      var i :| 0 <= i < |found| && found[i] == w;
      KeptVisit(fs, options, expanded, roots, kept[i]);
      PairOf(kept, IsInOrder(fs, options, roots), i, n);
    }
    forall w | IsReached(fs, options, roots, w) && WantedAt(fs, options, expanded, w)
      ensures w in found || InOrder(fs, options, roots, q, w)
    {
      var v := WantedVisit(fs, options, expanded, w);
      KeptVisit(fs, options, expanded, roots, v);
      var i :| 0 <= i < |kept| && kept[i] == v;
      if i < n {
        assert found[i] == w;
      } else {
        PairOf(kept, IsInOrder(fs, options, roots), n, i);
      }
    }
  }

  lemma WantedVisit(fs: Fs, options: Options, patterns: seq<Pattern>, w: Path) returns (v: Visit)
    requires WantedAt(fs, options, patterns, w)
    ensures v.path == w && Fits(fs, options, v) && !v.FaultVisit?
  {
    v := if Examine(fs, options, w).Leaf? then FileVisit(w) else DirectoryVisit(w);
  }

  /** When a root cannot be looked up the search yields nothing, and throws for the first such root. */
  lemma FirstRootThrows(fs: Fs, options: Options, patterns: seq<Pattern>)
    requires !RootsLookUp(fs, SearchRoots(Expanded(options, patterns)))
    ensures var roots := SearchRoots(Expanded(options, patterns));
            var result := Search(fs, options, patterns);
            && result.yielded == []
            && exists m :: && 0 <= m < |roots| && result.thrown == Some(roots[m])
                           && Lstat(fs, roots[m]).Fault? && Lstat(fs, roots[m]).errno != ENOENT
                           && RootsLookUp(fs, roots[..m])
  {
    hide RootsLookUp, SearchRoots, Lstat, Expanded;
    var roots := SearchRoots(Expanded(options, patterns));
    StartsWhenRootsLookUp(fs, roots);
    var m := CulpritIsFirst(fs, roots);
  }

  lemma {:induction false} CulpritIsFirst(fs: Fs, roots: seq<Path>) returns (m: nat)
    requires ExistingRoots(fs, roots).NoStart?
    ensures m < |roots| && ExistingRoots(fs, roots).culprit == roots[m]
    ensures Lstat(fs, roots[m]).Fault? && Lstat(fs, roots[m]).errno != ENOENT
    ensures RootsLookUp(fs, roots[..m])
  {
    hide Lstat, RootsLookUp;
    var n := |roots| - 1;
    if ExistingRoots(fs, roots[..n]).NoStart? {
      m := CulpritIsFirst(fs, roots[..n]);
      assert roots[..n][..m] == roots[..m];
    } else {
      m := n;
      StartsWhenRootsLookUp(fs, roots[..n]);
    }
  }
}
