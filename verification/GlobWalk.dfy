/**
 What a glob search is for: walk the directories below the search roots, then keep what matches.
 The walk consults no pattern, and enters no directory that lies on its own chain of ancestors.
 */
module GlobWalk {
  import opened Basics
  import opened GlobMatch
  import opened GlobPattern
  import opened SearchPaths
  import opened FileSystem

  datatype Options = Options(
    followSymbolicLinks: bool,
    implicitDescendants: bool,
    matchDirectories: bool,
    omitBrokenSymbolicLinks: bool)

  // ---------- One path of the walk ----------

  /** What the search learns about a path before it looks for cycles: nothing there to report, an
      exception, something that is not a directory, or a directory and its real path. */
  datatype Sight = Gone | Failed | Leaf | Branch(realPath: Path)

  function Examine(fs: Fs, options: Options, path: Path): (s: Sight)
    ensures s.Branch? ==> s.realPath in fs.dirs
  {
    match if options.followSymbolicLinks then Stat(fs, path) else Lstat(fs, path)
    case IsFile => Leaf
    case IsLink(_) => Leaf
    case IsDirectory(realPath) => Branch(realPath)
    case Fault(errno) =>
      if options.followSymbolicLinks && errno == ENOENT && options.omitBrokenSymbolicLinks then Gone else Failed
  }

  /** What the search learns about an entry of a directory listing. */
  lemma SightOfEntry(fs: Fs, options: Options, dir: Path, e: Entry)
    requires Stat(fs, dir).IsDirectory? && e in fs.dirs[Stat(fs, dir).realPath]
    ensures Examine(fs, options, dir + [e.name])
            == match e.dirent
               case RegularFile => Leaf
               case Subdirectory => Branch(Stat(fs, dir).realPath + [e.name])
               case Symlink(target) =>
                 if !options.followSymbolicLinks then Leaf
                 else match target
                      case Dangling => if options.omitBrokenSymbolicLinks then Gone else Failed
                      case Looping => Failed
                      case ToFile => Leaf
                      case ToDirectory(realPath) => Branch(realPath)
  {
    hide Stat, Lstat;
    LookupOfEntry(fs, dir, e);
    StatFollows(fs, dir + [e.name]);
  }

  /** What the search learns where there is no entry. */
  lemma SightOfNothing(fs: Fs, options: Options, dir: Path, name: string)
    requires Stat(fs, dir).IsDirectory? ==> forall e :: e in fs.dirs[Stat(fs, dir).realPath] ==> e.name != name
    ensures var missing := Stat(fs, dir).IsDirectory? || Stat(fs, dir) == Fault(ENOENT);
            Examine(fs, options, dir + [name])
            == if missing && options.followSymbolicLinks && options.omitBrokenSymbolicLinks then Gone else Failed
  {
    hide Stat, Lstat;
    LookupOfNothing(fs, dir, name);
    StatFollows(fs, dir + [name]);
  }

  // ---------- The walk that consults no pattern ----------

  datatype Visit = FileVisit(path: Path) | DirectoryVisit(path: Path) | FaultVisit(path: Path)

  /** Every path at or below `path`, parents first, not entering a directory that is already on the
      chain of directories it was reached through. */
  function Walk(fs: Fs, options: Options, path: Path, chain: seq<Path>): (visits: seq<Visit>)
    decreases fs.dirs.Keys - (set c | c in chain), 0
  {
    match Examine(fs, options, path)
    case Gone => []
    case Failed => [FaultVisit(path)]
    case Leaf => [FileVisit(path)]
    case Branch(realPath) =>
      if realPath in chain then
        []
      else
        assert realPath in fs.dirs.Keys - (set c | c in chain) && realPath in chain + [realPath];
        [DirectoryVisit(path)] + WalkAll(fs, options, path, fs.dirs[realPath], chain + [realPath])
  }

  function WalkAll(fs: Fs, options: Options, path: Path, entries: seq<Entry>, chain: seq<Path>): (visits: seq<Visit>)
    decreases fs.dirs.Keys - (set c | c in chain), 1 + |entries|
  {
    if entries == [] then
      []
    else
      Walk(fs, options, path + [entries[0].name], chain) + WalkAll(fs, options, path, entries[1..], chain)
  }

  function WalkRoots(fs: Fs, options: Options, roots: seq<Path>): (visits: seq<Visit>) {
    if roots == [] then [] else Walk(fs, options, roots[0], []) + WalkRoots(fs, options, roots[1..])
  }

  // ---------- The filter ----------

  /** The visits a caller asked for: kinds that match, and links that cannot be followed only where
      the search has reason to look. */
  ghost function Wanted(patterns: seq<Pattern>, options: Options): Visit -> bool {
    (v: Visit) =>
      match v
      case FileVisit(path) => FileKind in MatchAll(patterns, path)
      case DirectoryVisit(path) => DirectoryKind in MatchAll(patterns, path) && options.matchDirectories
      case FaultVisit(path) => Interesting(patterns, path)
  }

  function Kept(keep: Visit -> bool, visits: seq<Visit>): (kept: seq<Visit>) {
    if visits == [] then
      []
    else
      (if keep(visits[0]) then [visits[0]] else []) + Kept(keep, visits[1..])
  }

  /** The paths a caller receives, and the path an exception was thrown for, if any. */
  datatype Outcome = Outcome(yielded: seq<Path>, thrown: Option<Path>)

  function Report(visits: seq<Visit>): Outcome {
    if visits == [] then Outcome([], None)
    else if visits[0].FaultVisit? then Outcome([], Some(visits[0].path))
    else var rest := Report(visits[1..]); Outcome([visits[0].path] + rest.yielded, rest.thrown)
  }

  // ---------- Patterns and roots of a search ----------

  function Descendants(p: Pattern): Pattern {
    Pattern(p.negate, p.segments + [GlobStar], p.literals + [""], false, true)
  }

  predicate NeedsDescendants(options: Options, p: Pattern) {
    options.implicitDescendants && (p.trailingSeparator || !p.EndsInGlobStar())
  }

  /** The patterns searched with: each followed by one for everything below what it matches. */
  function Expanded(options: Options, patterns: seq<Pattern>): seq<Pattern> {
    if patterns == [] then
      []
    else
      var p := patterns[|patterns| - 1];
      Expanded(options, patterns[..|patterns| - 1]) + [p]
      + if NeedsDescendants(options, p) then [Descendants(p)] else []
  }

  /** Without implicit descendants the search uses the patterns as they are. */
  lemma {:induction false} ExpandedAsWritten(options: Options, patterns: seq<Pattern>)
    requires !options.implicitDescendants
    ensures Expanded(options, patterns) == patterns
  {
    if patterns != [] {
      var n := |patterns| - 1;
      ExpandedAsWritten(options, patterns[..n]);
      assert patterns == patterns[..n] + [patterns[n]];
    }
  }

  /** The roots that exist, or the first one whose lookup is an error other than ENOENT. */
  datatype Starts = Starts(roots: seq<Path>) | NoStart(culprit: Path)

  function ExistingRoots(fs: Fs, roots: seq<Path>): Starts {
    if roots == [] then
      Starts([])
    else
      var root := roots[|roots| - 1];
      match ExistingRoots(fs, roots[..|roots| - 1])
      case NoStart(culprit) => NoStart(culprit)
      case Starts(before) =>
        match Lstat(fs, root)
        case Fault(ENOENT) => Starts(before)
        case Fault(_) => NoStart(root)
        case _ => Starts(before + [root])
  }

  /** The reference search: walk everything below the roots, then filter. */
  ghost function Search(fs: Fs, options: Options, patterns: seq<Pattern>): Outcome {
    var expanded := Expanded(options, patterns);
    match ExistingRoots(fs, SearchRoots(expanded))
    case NoStart(culprit) => Outcome([], Some(culprit))
    case Starts(roots) => Report(Kept(Wanted(expanded, options), WalkRoots(fs, options, roots)))
  }

  // ---------- Pruning and appending ----------

  lemma {:induction false} WalkStaysBelow(fs: Fs, options: Options, path: Path, chain: seq<Path>)
    ensures forall v :: v in Walk(fs, options, path, chain) ==> path <= v.path
    decreases fs.dirs.Keys - (set c | c in chain), 0
  {
    var s := Examine(fs, options, path);
    if s.Branch? && s.realPath !in chain {
      assert s.realPath in fs.dirs.Keys - (set c | c in chain) && s.realPath in chain + [s.realPath];
      WalkAllStaysBelow(fs, options, path, fs.dirs[s.realPath], chain + [s.realPath]);
    }
  }

  lemma {:induction false} WalkAllStaysBelow(fs: Fs, options: Options, path: Path, entries: seq<Entry>,
      chain: seq<Path>)
    ensures forall v :: v in WalkAll(fs, options, path, entries, chain) ==>
              |path| < |v.path| && path <= v.path && exists e :: e in entries && v.path[|path|] == e.name
    decreases fs.dirs.Keys - (set c | c in chain), 1 + |entries|
  {
    if entries != [] {
      WalkStaysBelow(fs, options, path + [entries[0].name], chain);
      WalkAllStaysBelow(fs, options, path, entries[1..], chain);
    }
  }

  lemma {:induction false} KeptAppend(keep: Visit -> bool, a: seq<Visit>, b: seq<Visit>)
    ensures Kept(keep, a + b) == Kept(keep, a) + Kept(keep, b)
  {
    if a == [] {
      assert a + b == b;
    } else {
      var whole := a + b;
      assert whole[0] == a[0] && whole[1..] == a[1..] + b;
      KeptAppend(keep, a[1..], b);
      var head := if keep(a[0]) then [a[0]] else [];
      assert head + (Kept(keep, a[1..]) + Kept(keep, b)) == (head + Kept(keep, a[1..])) + Kept(keep, b);
    }
  }

  lemma {:induction false} KeptMembers(keep: Visit -> bool, visits: seq<Visit>, v: Visit)
    ensures v in Kept(keep, visits) <==> v in visits && keep(v)
  {
    if visits != [] {
      KeptMembers(keep, visits[1..], v);
    }
  }

  /** Nothing the filter keeps is lost by not entering a path that neither matches nor may match. */
  lemma PrunedWalkKeepsNothing(fs: Fs, options: Options, patterns: seq<Pattern>, path: Path, chain: seq<Path>)
    requires !Interesting(patterns, path)
    ensures Kept(Wanted(patterns, options), Walk(fs, options, path, chain)) == []
  {
    var visits := Walk(fs, options, path, chain);
    var kept := Kept(Wanted(patterns, options), visits);
    if kept != [] {
      var v := kept[0];
      KeptMembers(Wanted(patterns, options), visits, v);
      WalkStaysBelow(fs, options, path, chain);
      PruningIsSafe(patterns, v.path, path);
    }
  }
}
