/**
 DefaultGlobber: the depth-first search that prunes by partial match and detects symbolic link
 cycles with a traversal chain.
 */
module GlobSearch {
  import opened Basics
  import opened GlobPattern
  import opened SearchPaths
  import opened FileSystem
  import opened GlobWalk

  // ---------- The search itself ----------

  datatype SearchState = SearchState(path: Path, level: nat)

  /** The real path of a directory. */
  function Real(fs: Fs, options: Options, path: Path): Path {
    var s := Examine(fs, options, path);
    if s.Branch? then s.realPath else []
  }

  /** The real paths of the n directories directly above a path, outermost first. */
  function Trail(fs: Fs, options: Options, path: Path, n: nat): (trail: seq<Path>)
    requires n <= |path|
    ensures |trail| == n
  {
    if n == 0 then
      []
    else
      Trail(fs, options, path[..|path| - 1], n - 1) + [Real(fs, options, path[..|path| - 1])]
  }

  /** The path an item was reached from: one name back for each level beyond the first. */
  function Origin(item: SearchState): Path
    requires 1 <= item.level <= |item.path| + 1
  {
    item.path[..|item.path| - (item.level - 1)]
  }

  /** An item waiting on the stack at level L: it is L - 1 names below a search root, and the chain
      still holds, in front, the L - 1 pairwise distinct directories it was reached through. */
  ghost predicate Waiting(fs: Fs, options: Options, roots: seq<Path>, item: SearchState, chain: seq<Path>) {
    && 1 <= item.level <= |item.path| + 1
    && Origin(item) in roots
    && var trail := Trail(fs, options, item.path, item.level - 1);
       && Distinct(trail)
       && (options.followSymbolicLinks ==> trail <= chain)
       && (!options.followSymbolicLinks ==> Shorter(trail, Examine(fs, options, item.path)))
  }

  /** Without following links a directory's real path is longer than those above it. */
  ghost predicate Shorter(trail: seq<Path>, s: Sight) {
    s.Branch? ==> forall c :: c in trail ==> |c| < |s.realPath|
  }

  ghost predicate StackOk(fs: Fs, options: Options, roots: seq<Path>, stack: seq<SearchState>, chain: seq<Path>) {
    && (forall i :: 0 <= i < |stack| ==> Waiting(fs, options, roots, stack[i], chain))
    && (forall i, j :: 0 <= i < j < |stack| ==> stack[i].level <= stack[j].level)
  }

  /** The item is a directory that is not among the directories it was reached through. */
  ghost predicate Enters(fs: Fs, options: Options, item: SearchState)
    requires 1 <= item.level <= |item.path| + 1
  {
    && Examine(fs, options, item.path).Branch?
    && Real(fs, options, item.path) !in Trail(fs, options, item.path, item.level - 1)
  }

  /** The search is in a directory at level L: the chain is the L pairwise distinct real directories
      from its search root down to it. */
  ghost predicate Inside(fs: Fs, options: Options, roots: seq<Path>, item: SearchState,
                         chain: seq<Path>) {
    && 1 <= item.level <= |item.path| + 1
    && Origin(item) in roots
    && var way := Trail(fs, options, item.path, item.level - 1) + [Real(fs, options, item.path)];
       && |way| == item.level && Distinct(way)
       && (options.followSymbolicLinks ==> chain == way)
  }

  /** The walk an item on the stack stands for. */
  ghost function Remaining(fs: Fs, options: Options): SearchState -> seq<Visit> {
    (item: SearchState) =>
      if 1 <= item.level <= |item.path| + 1 then
        Walk(fs, options, item.path, Trail(fs, options, item.path, item.level - 1))
      else
        []
  }

  /** What is left to walk, from the top of the stack down. */
  function Pending(walk: SearchState -> seq<Visit>, stack: seq<SearchState>): (visits: seq<Visit>) {
    if stack == [] then [] else walk(stack[|stack| - 1]) + Pending(walk, stack[..|stack| - 1])
  }

  // ---------- Steps of the search ----------

  /** The roots as first pushed: the first root is on top. */
  function RootStack(roots: seq<Path>): (stack: seq<SearchState>)
    ensures |stack| == |roots|
    ensures forall i :: 0 <= i < |stack| ==> stack[i].level == 1 && stack[i].path in roots
  {
    if roots == [] then [] else [SearchState(roots[|roots| - 1], 1)] + RootStack(roots[..|roots| - 1])
  }

  /** The children of a directory as pushed: the first entry is on top. */
  function ChildStack(path: Path, level: nat, entries: seq<Entry>): (stack: seq<SearchState>)
    ensures forall item :: item in stack ==>
              item.level == level && exists e :: e in entries && item.path == path + [e.name]
  {
    if entries == [] then
      []
    else
      ChildStack(path, level, entries[1..]) + [SearchState(path + [entries[0].name], level)]
  }

  lemma RootStackWaits(fs: Fs, options: Options, roots: seq<Path>)
    ensures StackOk(fs, options, roots, RootStack(roots), [])
  {
    var stack := RootStack(roots);
    forall i | 0 <= i < |stack|
      ensures Waiting(fs, options, roots, stack[i], [])
    {
      assert Trail(fs, options, stack[i].path, 0) == [];
      assert Origin(stack[i]) == stack[i].path;
    }
  }

  lemma {:induction false} RootStackPending(fs: Fs, options: Options, roots: seq<Path>)
    ensures Pending(Remaining(fs, options), RootStack(roots)) == WalkRoots(fs, options, roots)
  {
    if roots != [] {
      RootStackLast(roots);
      RootStackPending(fs, options, roots[1..]);
      var first := SearchState(roots[0], 1);
      var below := RootStack(roots[1..]);
      assert (below + [first])[..|below|] == below;
    }
  }

  lemma {:induction false} RootStackLast(roots: seq<Path>)
    requires roots != []
    ensures RootStack(roots) == RootStack(roots[1..]) + [SearchState(roots[0], 1)]
  {
    if |roots| > 1 {
      RootStackLast(roots[..|roots| - 1]);
      assert roots[..|roots| - 1][1..] == roots[1..][..|roots[1..]| - 1];
    }
  }

  lemma TrailOfChild(fs: Fs, options: Options, item: SearchState, name: string)
    requires 1 <= item.level <= |item.path| + 1
    ensures Trail(fs, options, item.path + [name], item.level)
            == Trail(fs, options, item.path, item.level - 1) + [Real(fs, options, item.path)]
  {
    assert (item.path + [name])[..|item.path|] == item.path;
  }

  /** Without following links the real path of a subdirectory extends that of its parent. */
  lemma ChildRealIsLonger(fs: Fs, options: Options, path: Path, name: string)
    requires !options.followSymbolicLinks
    requires Examine(fs, options, path).Branch?
    requires Examine(fs, options, path + [name]).Branch?
    ensures |Real(fs, options, path + [name])| == |Real(fs, options, path)| + 1
  {
    assert Dirname(path + [name]) == path;
    assert Stat(fs, path) == Lstat(fs, path);
  }

  /** The children of an accepted directory wait with that directory at the end of their trail. */
  lemma ChildWaits(fs: Fs, options: Options, roots: seq<Path>, item: SearchState, name: string,
      before: seq<Path>, chain: seq<Path>)
    requires Waiting(fs, options, roots, item, before)
    requires Enters(fs, options, item) && Inside(fs, options, roots, item, chain)
    ensures Waiting(fs, options, roots, SearchState(item.path + [name], item.level + 1), chain)
  {
    hide Trail, Examine;
    var child := item.path + [name];
    assert Origin(SearchState(child, item.level + 1)) == Origin(item);
    TrailOfChild(fs, options, item, name);
    DistinctSnoc(Trail(fs, options, item.path, item.level - 1), Real(fs, options, item.path));
    if !options.followSymbolicLinks {
      assert Shorter(Trail(fs, options, child, item.level), Examine(fs, options, child)) by {
        if Examine(fs, options, child).Branch? {
          ChildRealIsLonger(fs, options, item.path, name);
        }
      }
    }
  }

  lemma DistinctSnoc<T>(s: seq<T>, x: T)
    requires Distinct(s) && x !in s
    ensures Distinct(s + [x])
  {
  }

  lemma {:induction false} PendingChildren(fs: Fs, options: Options, walk: SearchState -> seq<Visit>,
                                            path: Path, level: nat, entries: seq<Entry>, chain: seq<Path>)
    requires forall e :: e in entries ==>
               walk(SearchState(path + [e.name], level)) == Walk(fs, options, path + [e.name], chain)
    ensures Pending(walk, ChildStack(path, level, entries)) == WalkAll(fs, options, path, entries, chain)
  {
    if entries != [] {
      assert entries[0] in entries;
      PendingChildren(fs, options, walk, path, level, entries[1..], chain);
      PendingAppend(walk, ChildStack(path, level, entries[1..]), [SearchState(path + [entries[0].name], level)]);
    }
  }

  lemma {:induction false} PendingAppend(walk: SearchState -> seq<Visit>, stack: seq<SearchState>,
      pushed: seq<SearchState>)
    ensures Pending(walk, stack + pushed) == Pending(walk, pushed) + Pending(walk, stack)
    ensures |pushed| == 1 ==> Pending(walk, pushed) == walk(pushed[0])
  {
    if pushed == [] {
      assert stack + pushed == stack;
    } else {
      var n := |pushed| - 1;
      assert (stack + pushed)[..|stack + pushed| - 1] == stack + pushed[..n];
      PendingAppend(walk, stack, pushed[..n]);
    }
  }

  lemma ChildRemains(fs: Fs, options: Options, item: SearchState, name: string)
    requires 1 <= item.level <= |item.path| + 1
    ensures Remaining(fs, options)(SearchState(item.path + [name], item.level + 1))
            == Walk(fs, options, item.path + [name],
                    Trail(fs, options, item.path, item.level - 1) + [Real(fs, options, item.path)])
  {
    hide Walk, Trail, Real;
    TrailOfChild(fs, options, item, name);
  }

  /** The children of a directory stand for the walk of its entries. */
  lemma ChildrenRemain(fs: Fs, options: Options, item: SearchState, entries: seq<Entry>)
    requires 1 <= item.level <= |item.path| + 1
    ensures Pending(Remaining(fs, options), ChildStack(item.path, item.level + 1, entries))
            == WalkAll(fs, options, item.path, entries,
                       Trail(fs, options, item.path, item.level - 1) + [Real(fs, options, item.path)])
  {
    hide Remaining, Trail, Real, Walk, WalkAll, Pending, ChildStack;
    var chain := Trail(fs, options, item.path, item.level - 1) + [Real(fs, options, item.path)];
    forall e | e in entries
      ensures Remaining(fs, options)(SearchState(item.path + [e.name], item.level + 1))
              == Walk(fs, options, item.path + [e.name], chain)
    {
      ChildRemains(fs, options, item, e.name);
    }
    PendingChildren(fs, options, Remaining(fs, options), item.path, item.level + 1, entries, chain);
  }

  lemma TopWaits(fs: Fs, options: Options, roots: seq<Path>, stack: seq<SearchState>, item: SearchState,
      chain: seq<Path>)
    requires StackOk(fs, options, roots, stack + [item], chain)
    ensures Waiting(fs, options, roots, item, chain)
  {
    assert (stack + [item])[|stack|] == item;
  }

  /** Popping keeps the rest of the stack waiting on any chain that still starts with the trail of
      the popped item. */
  lemma StackOkAfterPop(fs: Fs, options: Options, roots: seq<Path>, stack: seq<SearchState>, item: SearchState,
      before: seq<Path>, chain: seq<Path>)
    requires StackOk(fs, options, roots, stack + [item], before)
    requires 1 <= item.level <= |item.path| + 1
    requires options.followSymbolicLinks ==> Trail(fs, options, item.path, item.level - 1) <= chain
    ensures StackOk(fs, options, roots, stack, chain)
  {
    var all := stack + [item];
    forall i | 0 <= i < |stack|
      ensures Waiting(fs, options, roots, stack[i], chain)
    {
      assert Waiting(fs, options, roots, all[i], before) && Waiting(fs, options, roots, all[|stack|], before);
      assert all[i].level <= all[|stack|].level;
    }
    forall i, j | 0 <= i < j < |stack|
      ensures stack[i].level <= stack[j].level
    {
      assert all[i].level <= all[j].level;
    }
  }

  lemma StackOkAfterPush(fs: Fs, options: Options, roots: seq<Path>, stack: seq<SearchState>, item: SearchState,
      entries: seq<Entry>, before: seq<Path>, chain: seq<Path>)
    requires StackOk(fs, options, roots, stack + [item], before)
    requires 1 <= item.level <= |item.path| + 1
    requires Enters(fs, options, item) && Inside(fs, options, roots, item, chain)
    ensures StackOk(fs, options, roots, stack + ChildStack(item.path, item.level + 1, entries), chain)
  {
    hide Waiting, Trail, Real, Examine;
    StackOkAfterPop(fs, options, roots, stack, item, before, chain);
    TopWaits(fs, options, roots, stack, item, before);
    var pushed := ChildStack(item.path, item.level + 1, entries);
    var all := stack + [item];
    forall i | 0 <= i < |pushed|
      ensures Waiting(fs, options, roots, pushed[i], chain)
    {
      assert pushed[i] in pushed;
      var e :| e in entries && pushed[i].path == item.path + [e.name];
      ChildWaits(fs, options, roots, item, e.name, before, chain);
      assert pushed[i] == SearchState(item.path + [e.name], item.level + 1);
    }
    forall i | 0 <= i < |stack|
      ensures stack[i].level <= item.level
    {
      assert all[i].level <= all[|stack|].level;
    }
    assert forall i :: 0 <= i < |pushed| ==> pushed[i] in pushed;
  }

  function Extend(yielded: seq<Path>, rest: Outcome): Outcome {
    Outcome(yielded + rest.yielded, rest.thrown)
  }

  function PathsOf(visits: seq<Visit>): (paths: seq<Path>)
    ensures |paths| == |visits|
  {
    seq(|visits|, i requires 0 <= i < |visits| => visits[i].path)
  }

  /** One item has been dealt with: the kept part of its walk is what was found and then what the
      pushed items stand for. */
  ghost predicate Handled(keep: Visit -> bool, walk: SearchState -> seq<Visit>, item: SearchState,
                          found: seq<Path>, pushed: seq<SearchState>, threw: bool, head: seq<Visit>) {
    if threw then
      Kept(keep, walk(item)) == [FaultVisit(item.path)]
    else
      && found == PathsOf(head)
      && (head == [] || (|head| == 1 && !head[0].FaultVisit?))
      && Kept(keep, walk(item)) == head + Kept(keep, Pending(walk, pushed))
      && (pushed == [] || |Pending(walk, pushed)| < |walk(item)|)
  }

  /** An item the search does not report and does not enter. */
  lemma HandledNothing(keep: Visit -> bool, walk: SearchState -> seq<Visit>, item: SearchState)
    requires Kept(keep, walk(item)) == []
    ensures Handled(keep, walk, item, [], [], false, [])
  {
  }

  lemma HandledPruned(fs: Fs, options: Options, patterns: seq<Pattern>, item: SearchState)
    requires 1 <= item.level <= |item.path| + 1
    requires !Interesting(patterns, item.path)
    ensures Handled(Wanted(patterns, options), Remaining(fs, options), item, [], [], false, [])
  {
    hide Walk, Kept, Trail, Wanted, Interesting, Handled;
    PrunedWalkKeepsNothing(fs, options, patterns, item.path, Trail(fs, options, item.path, item.level - 1));
    HandledNothing(Wanted(patterns, options), Remaining(fs, options), item);
  }

  lemma HandledFault(fs: Fs, options: Options, patterns: seq<Pattern>, item: SearchState)
    requires 1 <= item.level <= |item.path| + 1
    requires Examine(fs, options, item.path).Failed? && Interesting(patterns, item.path)
    ensures Handled(Wanted(patterns, options), Remaining(fs, options), item, [], [], true, [])
  {
    hide MatchAll, Interesting, Examine, Trail, Pending;
    var keep, v := Wanted(patterns, options), FaultVisit(item.path);
    assert Remaining(fs, options)(item) == [v] && [v][1..] == [];
    assert keep(v);
    assert Kept(keep, [v]) == [v] + Kept(keep, []);
  }

  lemma HandledFound(keep: Visit -> bool, walk: SearchState -> seq<Visit>, item: SearchState, v: Visit,
      pushed: seq<SearchState>)
    requires !v.FaultVisit?
    requires walk(item) == [v] + Pending(walk, pushed)
    ensures Handled(keep, walk, item, if keep(v) then [v.path] else [], pushed, false, if keep(v) then [v] else [])
  {
    hide Pending;
    assert walk(item)[1..] == Pending(walk, pushed);
  }

  lemma HandledLeaf(fs: Fs, options: Options, patterns: seq<Pattern>, item: SearchState)
    requires 1 <= item.level <= |item.path| + 1
    requires Examine(fs, options, item.path).Leaf?
    ensures var wanted := FileKind in MatchAll(patterns, item.path);
            Handled(Wanted(patterns, options), Remaining(fs, options), item,
                    if wanted then [item.path] else [], [], false, if wanted then [FileVisit(item.path)] else [])
  {
    hide MatchAll, Handled, Examine;
    var v := FileVisit(item.path);
    HandledFound(Wanted(patterns, options), Remaining(fs, options), item, v, []);
  }

  lemma HandledBranch(fs: Fs, options: Options, patterns: seq<Pattern>, item: SearchState)
    requires 1 <= item.level <= |item.path| + 1
    requires Enters(fs, options, item)
    ensures var wanted := DirectoryKind in MatchAll(patterns, item.path) && options.matchDirectories;
            Handled(Wanted(patterns, options), Remaining(fs, options), item,
                    if wanted then [item.path] else [],
                    ChildStack(item.path, item.level + 1, fs.dirs[Real(fs, options, item.path)]), false,
                    if wanted then [DirectoryVisit(item.path)] else [])
  {
    hide MatchAll, Handled, Examine, WalkAll, Trail, ChildStack, Pending;
    var realPath := Real(fs, options, item.path);
    var v := DirectoryVisit(item.path);
    ChildrenRemain(fs, options, item, fs.dirs[realPath]);
    HandledFound(Wanted(patterns, options), Remaining(fs, options), item, v,
                 ChildStack(item.path, item.level + 1, fs.dirs[realPath]));
  }

  lemma ReportHead(head: seq<Visit>, rest: seq<Visit>)
    requires head == [] || (|head| == 1 && !head[0].FaultVisit?)
    ensures Report(head + rest) == Extend(PathsOf(head), Report(rest))
  {
    if head == [] {
      assert head + rest == rest;
    } else {
      assert (head + rest)[1..] == rest;
    }
  }

  lemma NothingPending(keep: Visit -> bool, walk: SearchState -> seq<Visit>)
    ensures Report(Kept(keep, Pending(walk, []))) == Outcome([], None)
  {
  }

  lemma ReportFault(path: Path, rest: seq<Visit>)
    ensures Report([FaultVisit(path)] + rest) == Outcome([], Some(path))
  {
  }

  /** Handling the top item moves its share of the report to the paths already yielded. */
  lemma HandledReport(keep: Visit -> bool, walk: SearchState -> seq<Visit>, stack: seq<SearchState>, item: SearchState,
                      found: seq<Path>, pushed: seq<SearchState>, threw: bool, head: seq<Visit>)
    requires Handled(keep, walk, item, found, pushed, threw, head)
    ensures threw ==> Report(Kept(keep, Pending(walk, stack + [item]))) == Outcome([], Some(item.path))
    ensures !threw ==> Report(Kept(keep, Pending(walk, stack + [item])))
                       == Extend(found, Report(Kept(keep, Pending(walk, stack + pushed))))
    ensures !threw ==> (|| |Pending(walk, stack + pushed)| < |Pending(walk, stack + [item])|
                        || (pushed == [] && |Pending(walk, stack)| <= |Pending(walk, stack + [item])|))
  {
    hide Kept, Report, Pending;
    var rest := Pending(walk, stack);
    PendingAppend(walk, stack, [item]);
    KeptAppend(keep, walk(item), rest);
    if threw {
      ReportFault(item.path, Kept(keep, rest));
    } else {
      PendingAppend(walk, stack, pushed);
      KeptAppend(keep, Pending(walk, pushed), rest);
      var kept := Kept(keep, Pending(walk, pushed));
      assert (head + kept) + Kept(keep, rest) == head + (kept + Kept(keep, rest));
      ReportHead(head, kept + Kept(keep, rest));
    }
  }

  /** The chain cut back to the ancestors of an item at a level. */
  function FixedUp(chain: seq<Path>, level: nat): seq<Path>
    requires level >= 1
  {
    if |chain| >= level then chain[..level - 1] else chain
  }

  /** The answer of StatItem and the chain it leaves. */
  ghost predicate StatLeaves(fs: Fs, options: Options, item: SearchState, before: seq<Path>, stats: Sight,
                             after: seq<Path>)
    requires item.level >= 1
  {
    var s := Examine(fs, options, item.path);
    var above := FixedUp(before, item.level);
    if !s.Branch? || !options.followSymbolicLinks then
      stats == s && after == before
    else if s.realPath in above then
      stats == Gone && after == above
    else
      stats == s && after == above + [s.realPath]
  }

  // ---------- Depth and the traversal chain ----------

  lemma {:induction false} DistinctIsBounded<T>(s: seq<T>, all: set<T>)
    requires Distinct(s)
    requires forall x :: x in s ==> x in all
    ensures |s| <= |all|
  {
    if s != [] {
      var n := |s| - 1;
      assert forall x :: x in s[..n] ==> x in all - {s[n]};
      DistinctIsBounded(s[..n], all - {s[n]});
    }
  }

  lemma {:induction false} TrailIsReal(fs: Fs, options: Options, path: Path, n: nat)
    requires n <= |path|
    ensures forall d :: d in Trail(fs, options, path, n) ==> d in fs.dirs
  {
    if n > 0 {
      TrailIsReal(fs, options, path[..|path| - 1], n - 1);
    }
  }

  /** No item waits at a level beyond the number of directories by more than one, and a directory
      that is entered lies within it. */
  lemma LevelIsBounded(fs: Fs, options: Options, roots: seq<Path>, item: SearchState, chain: seq<Path>)
    requires Waiting(fs, options, roots, item, chain)
    ensures item.level <= |fs.dirs| + 1
    ensures Enters(fs, options, item) ==> item.level <= |fs.dirs|
  {
    hide Examine;
    var trail, realPath := Trail(fs, options, item.path, item.level - 1), Real(fs, options, item.path);
    assert |fs.dirs.Keys| == |fs.dirs|;
    TrailIsReal(fs, options, item.path, item.level - 1);
    DistinctIsBounded(trail, fs.dirs.Keys);
    if Enters(fs, options, item) {
      DistinctSnoc(trail, realPath);
      assert realPath in fs.dirs;
      DistinctIsBounded(trail + [realPath], fs.dirs.Keys);
    }
  }

  /** What StatItem leaves behind: a directory is let through exactly when it is entered, and then the
      chain leads to it; what is reported gone has no walk; the chain still starts with the trail. */
  lemma StatDecides(fs: Fs, options: Options, roots: seq<Path>, item: SearchState, before: seq<Path>,
      stats: Sight, after: seq<Path>)
    requires Waiting(fs, options, roots, item, before)
    requires StatLeaves(fs, options, item, before, stats, after)
    ensures options.followSymbolicLinks ==> Trail(fs, options, item.path, item.level - 1) <= after
    ensures stats.Branch? <==> Enters(fs, options, item)
    ensures Enters(fs, options, item) ==> Inside(fs, options, roots, item, after)
    ensures !stats.Gone? ==> stats == Examine(fs, options, item.path)
    ensures stats.Gone? ==> Remaining(fs, options)(item) == []
  {
    hide Examine, WalkAll;
    if Enters(fs, options, item) {
      DistinctSnoc(Trail(fs, options, item.path, item.level - 1), Real(fs, options, item.path));
    }
  }

  class TraversalChain {
    var items: seq<Path>

    constructor ()
      ensures items == []
    {
      items := [];
    }
  }

  class DefaultGlobber {
    const patterns: seq<Pattern>
    const options: Options

    constructor (patterns: seq<Pattern>, options: Options)
      ensures this.patterns == patterns && this.options == options
    {
      this.patterns := patterns;
      this.options := options;
    }

    /** Reports Gone for a directory that is already on the chain of its own ancestors, and
        otherwise puts an accepted directory at the end of that chain. */
    static method StatItem(fs: Fs, item: SearchState, options: Options, traversalChain: TraversalChain)
      returns (stats: Sight)
      requires item.level >= 1
      modifies traversalChain
      ensures StatLeaves(fs, options, item, old(traversalChain.items), stats, traversalChain.items)
    {
      stats := Examine(fs, options, item.path);
      if stats.Branch? && options.followSymbolicLinks {
        var realPath := stats.realPath;
        while |traversalChain.items| >= item.level
          invariant traversalChain.items <= old(traversalChain.items)
          invariant |traversalChain.items| >= item.level - 1 || traversalChain.items == old(traversalChain.items)
          decreases |traversalChain.items|
        {
          traversalChain.items := traversalChain.items[..|traversalChain.items| - 1];
        }
        if realPath in traversalChain.items {
          stats := Gone;
        } else {
          traversalChain.items := traversalChain.items + [realPath];
        }
      }
    }

    /** Every pattern, followed by the pattern for the descendants of what it matches. */
    method ImplicitDescendants() returns (expanded: seq<Pattern>)
      ensures expanded == Expanded(options, patterns)
    {
      expanded := [];
      for i := 0 to |patterns|
        invariant expanded == Expanded(options, patterns[..i])
      {
        assert patterns[..i + 1][..i] == patterns[..i];
        expanded := expanded + [patterns[i]];
        if NeedsDescendants(options, patterns[i]) {
          expanded := expanded + [Descendants(patterns[i])];
        }
      }
      assert patterns[..|patterns|] == patterns;
    }

    /** The first stack of the search, or the search path whose lookup threw. */
    static method PushSearchPaths(fs: Fs, searchPaths: seq<Path>)
      returns (stack: seq<SearchState>, thrown: Option<Path>)
      ensures match ExistingRoots(fs, searchPaths)
              case NoStart(culprit) => thrown == Some(culprit)
              case Starts(roots) => thrown == None && stack == RootStack(roots)
    {
      stack := [];
      ghost var roots := [];
      for i := 0 to |searchPaths|
        invariant ExistingRoots(fs, searchPaths[..i]) == Starts(roots)
        invariant stack == RootStack(roots)
      {
        assert searchPaths[..i + 1][..i] == searchPaths[..i];
        var stats := Lstat(fs, searchPaths[i]);
        if stats.Fault? && stats.errno != ENOENT {
          NoStartStays(fs, searchPaths, i + 1);
          return stack, Some(searchPaths[i]);
        }
        if !stats.Fault? {
          assert (roots + [searchPaths[i]])[..|roots|] == roots;
          roots := roots + [searchPaths[i]];
          stack := [SearchState(searchPaths[i], 1)] + stack;
        }
      }
      assert searchPaths[..|searchPaths|] == searchPaths;
      thrown := None;
    }

    /** The search yields what the walk and filter would, in the same order, and throws where they
        would; it terminates whatever the links form. */
    method GlobGenerator(fs: Fs) returns (result: Outcome)
      ensures result == Search(fs, options, patterns)
    {
      var expanded := ImplicitDescendants();
      var searchPaths := GetSearchPaths(expanded);
      var stack, thrown := PushSearchPaths(fs, searchPaths);
      if thrown.Some? {
        return Outcome([], thrown);
      }
      ghost var roots := ExistingRoots(fs, searchPaths).roots;
      RootStackWaits(fs, options, roots);
      RootStackPending(fs, options, roots);
      result := SearchStack(fs, expanded, roots, stack);
    }

    method SearchStack(fs: Fs, expanded: seq<Pattern>, ghost roots: seq<Path>, start: seq<SearchState>)
      returns (result: Outcome)
      requires StackOk(fs, options, roots, start, [])
      ensures result == Report(Kept(Wanted(expanded, options), Pending(Remaining(fs, options), start)))
    {
      hide Wanted, Remaining, Kept, Pending, Report, Handled, StackOk;
      ghost var keep, walk := Wanted(expanded, options), Remaining(fs, options);
      ghost var goal := Report(Kept(keep, Pending(walk, start)));
      var stack, yielded := start, [];
      var traversalChain := new TraversalChain();
      while |stack| > 0
        invariant fresh(traversalChain)
        invariant StackOk(fs, options, roots, stack, traversalChain.items)
        invariant goal == Extend(yielded, Report(Kept(keep, Pending(walk, stack))))
        decreases |Pending(walk, stack)|, |stack|
      {
        var item := stack[|stack| - 1];
        assert stack == stack[..|stack| - 1] + [item];
        stack := stack[..|stack| - 1];
        var found, pushed, threw;
        ghost var head;
        found, pushed, threw, head := SearchItem(fs, expanded, roots, item, stack, traversalChain);
        HandledReport(keep, walk, stack, item, found, pushed, threw, head);
        if threw {
          return Outcome(yielded, Some(item.path));
        }
        assert pushed == [] ==> stack + pushed == stack;
        yielded, stack := yielded + found, stack + pushed;
      }
      NothingPending(keep, walk);
      result := Outcome(yielded, None);
    }

    /** Handles one item: what it yields itself, the children to search next, or an exception. */
    method SearchItem(fs: Fs, expanded: seq<Pattern>, ghost roots: seq<Path>, item: SearchState,
        ghost stack: seq<SearchState>, traversalChain: TraversalChain)
      returns (found: seq<Path>, pushed: seq<SearchState>, threw: bool, ghost head: seq<Visit>)
      requires StackOk(fs, options, roots, stack + [item], traversalChain.items)
      modifies traversalChain
      ensures !threw ==> StackOk(fs, options, roots, stack + pushed, traversalChain.items)
      ensures Handled(Wanted(expanded, options), Remaining(fs, options), item, found, pushed, threw, head)
      ensures 1 <= item.level <= |item.path| + 1 && item.level <= |fs.dirs| + 1 && Origin(item) in roots
      ensures pushed != [] ==> Interesting(expanded, item.path) && Enters(fs, options, item)
      ensures Interesting(expanded, item.path) && Enters(fs, options, item) ==>
                item.level <= |fs.dirs| && Inside(fs, options, roots, item, traversalChain.items)
    {
      hide StackOk, Handled, Wanted, Remaining, MatchAll, ChildStack, Examine, Trail, Inside, Enters, StatLeaves;
      ghost var before := traversalChain.items;
      TopWaits(fs, options, roots, stack, item, before);
      StackOkAfterPop(fs, options, roots, stack, item, before, before);
      LevelIsBounded(fs, options, roots, item, before);
      found, pushed, threw, head := [], [], false, [];
      assert stack + pushed == stack;

      var kinds := GlobPattern.Match(expanded, item.path);
      var partialMatch := kinds != MATCH_NONE;
      if !partialMatch {
        partialMatch := GlobPattern.PartialMatch(expanded, item.path);
      }
      if kinds == MATCH_NONE && !partialMatch {
        HandledPruned(fs, options, expanded, item);
        return;
      }
      var stats := StatItem(fs, item, options, traversalChain);
      StatDecides(fs, options, roots, item, before, stats, traversalChain.items);
      StackOkAfterPop(fs, options, roots, stack, item, before, traversalChain.items);
      if stats.Failed? {
        HandledFault(fs, options, expanded, item);
        threw := true;
        return;
      }
      if stats.Gone? {
        HandledNothing(Wanted(expanded, options), Remaining(fs, options), item);
        return;
      }
      if stats.Branch? {
        var entries := fs.dirs[stats.realPath];
        HandledBranch(fs, options, expanded, item);
        StackOkAfterPush(fs, options, roots, stack, item, entries, before, traversalChain.items);
        if DirectoryKind in kinds && options.matchDirectories {
          found, head := [item.path], [DirectoryVisit(item.path)];
        } else if !partialMatch {
          return;
        }
        pushed := ChildStack(item.path, item.level + 1, entries);
      } else {
        HandledLeaf(fs, options, expanded, item);
        if FileKind in kinds {
          found, head := [item.path], [FileVisit(item.path)];
        }
      }
    }
  }

  lemma {:induction false} NoStartStays(fs: Fs, roots: seq<Path>, n: nat)
    requires n <= |roots| && ExistingRoots(fs, roots[..n]).NoStart?
    ensures ExistingRoots(fs, roots) == ExistingRoots(fs, roots[..n])
    decreases |roots| - n
  {
    if n == |roots| {
      assert roots[..n] == roots;
    } else {
      assert roots[..n + 1][..n] == roots[..n];
      NoStartStays(fs, roots, n + 1);
    }
  }
}
