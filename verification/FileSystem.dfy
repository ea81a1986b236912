/**
 The file system as the glob search sees it: directories known by their real paths, listings with
 files, subdirectories and symbolic links, and path lookup with and without following the last link.
 */
module FileSystem {
  import opened Basics
  import opened GlobPattern

  /** Where a chain of symbolic links ends. */
  datatype Target = Dangling | Looping | ToFile | ToDirectory(realPath: Path)
  datatype Dirent = RegularFile | Subdirectory | Symlink(target: Target)
  datatype Entry = Entry(name: string, dirent: Dirent)

  datatype Errno = ENOENT | ENOTDIR | ELOOP
  datatype Stats = Fault(errno: Errno) | IsFile | IsLink(target: Target) | IsDirectory(realPath: Path)

  /** dirs lists every real directory, in the order in which readdir reports its entries. */
  datatype Volume = Volume(dirs: map<Path, seq<Entry>>)
  {
    ghost predicate Valid() {
      && [] in dirs
      && (forall d :: d in dirs ==> DistinctNames(dirs[d]))
      && (forall d, i :: d in dirs && 0 <= i < |dirs[d]| ==> Leads(d, dirs[d][i]))
    }

    /** An entry that denotes a directory denotes one of the volume. */
    ghost predicate Leads(dir: Path, e: Entry) {
      && (e.dirent.Subdirectory? ==> dir + [e.name] in dirs)
      && (e.dirent.Symlink? && e.dirent.target.ToDirectory? ==> e.dirent.target.realPath in dirs)
    }
  }

  predicate DistinctNames(entries: seq<Entry>) {
    forall i, j :: 0 <= i < j < |entries| ==> entries[i].name != entries[j].name
  }

  type Fs = v: Volume | v.Valid() ghost witness Volume(map[[] := []])

  function Find(entries: seq<Entry>, name: string): (r: Option<Dirent>)
    ensures r.None? <==> forall e :: e in entries ==> e.name != name
    ensures r.Some? ==> Entry(name, r.value) in entries
  {
    if entries == [] then None
    else if entries[0].name == name then Some(entries[0].dirent)
    else Find(entries[1..], name)
  }

  /** Information about the last component itself; the links before it are followed. */
  function Lstat(fs: Fs, path: Path): (s: Stats)
    ensures s.IsDirectory? ==> s.realPath in fs.dirs
    ensures s.IsLink? && s.target.ToDirectory? ==> s.target.realPath in fs.dirs
    decreases |path|, 0
  {
    if path == [] then
      IsDirectory([])
    else
      var name := path[|path| - 1];
      match Stat(fs, Dirname(path))
      case Fault(errno) => Fault(errno)
      case IsFile => Fault(ENOTDIR)
      case IsDirectory(realPath) =>
        match Find(fs.dirs[realPath], name)
        case None => Fault(ENOENT)
        case Some(RegularFile) => IsFile
        case Some(Subdirectory) =>
          assert fs.Leads(realPath, Entry(name, Subdirectory));
          IsDirectory(realPath + [name])
        case Some(Symlink(target)) =>
          assert fs.Leads(realPath, Entry(name, Symlink(target)));
          IsLink(target)
  }

  /** Information about what the path leads to. */
  function Stat(fs: Fs, path: Path): (s: Stats)
    ensures s.IsDirectory? ==> s.realPath in fs.dirs
    ensures !s.IsLink?
    decreases |path|, 1
  {
    match Lstat(fs, path)
    case IsLink(Dangling) => Fault(ENOENT)
    case IsLink(Looping) => Fault(ELOOP)
    case IsLink(ToFile) => IsFile
    case IsLink(ToDirectory(realPath)) => IsDirectory(realPath)
    case other => other
  }

  /** Looking up an entry of a directory listing. */
  lemma LookupOfEntry(fs: Fs, dir: Path, e: Entry)
    requires Stat(fs, dir).IsDirectory? && e in fs.dirs[Stat(fs, dir).realPath]
    ensures Lstat(fs, dir + [e.name])
            == match e.dirent
               case RegularFile => IsFile
               case Subdirectory => IsDirectory(Stat(fs, dir).realPath + [e.name])
               case Symlink(target) => IsLink(target)
  {
    hide Stat;
    var path := dir + [e.name];
    assert Dirname(path) == dir && path[|path| - 1] == e.name;
    var entries := fs.dirs[Stat(fs, dir).realPath];
    assert DistinctNames(entries);
    var found := Find(entries, e.name);
    assert e.name == Entry(e.name, found.value).name;
    assert found == Some(e.dirent);
  }

  /** Looking up a name that a directory does not list, or below what is no directory. */
  lemma LookupOfNothing(fs: Fs, dir: Path, name: string)
    requires Stat(fs, dir).IsDirectory? ==> forall e :: e in fs.dirs[Stat(fs, dir).realPath] ==> e.name != name
    ensures Lstat(fs, dir + [name])
            == match Stat(fs, dir)
               case IsDirectory(_) => Fault(ENOENT)
               case Fault(errno) => Fault(errno)
               case _ => Fault(ENOTDIR)
  {
    hide Stat;
    var path := dir + [name];
    assert Dirname(path) == dir && path[|path| - 1] == name;
  }

  /** Following a chain of links to its end. */
  lemma StatFollows(fs: Fs, path: Path)
    ensures Stat(fs, path)
            == match Lstat(fs, path)
               case IsLink(target) =>
                 (match target
                  case Dangling => Fault(ENOENT)
                  case Looping => Fault(ELOOP)
                  case ToFile => IsFile
                  case ToDirectory(realPath) => IsDirectory(realPath))
               case other => other
  {
    hide Lstat;
  }
}
