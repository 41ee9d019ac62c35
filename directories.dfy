/** `ListDir` and `GetNumaNodeDirs`: the directory prober and the node enumerator. */
module Directories {
  import opened Wrappers
  import opened Folds
  import opened GoStrings
  import opened Strconv
  import opened SysFs

  /** `/sys/devices/system/node/`. */
  const NumaNodeRoot: Path := ["sys", "devices", "system", "node"]

  /** `ListDir` keeps a child that is a directory or a symbolic link and whose joined path
      still exists. */
  predicate Kept(fs: FileSystem, dir: Path, e: DirEntry)
  {
    (e.isDir || e.isSymlink) && ExistsDir(fs, dir + [e.name])
  }

  /** The joined path of a kept child. */
  function ChildPath(fs: FileSystem, dir: Path): DirEntry -> Option<Path>
  {
    e => if Kept(fs, dir, e) then Some(dir + [e.name]) else None
  }

  /** The paths `ListDir` returns for the listing `es` of `dir`. */
  function KeptChildren(fs: FileSystem, dir: Path, es: seq<DirEntry>): seq<Path>
  {
    FilterMap(es, ChildPath(fs, dir))
  }

  /** What `ListDir(dir)` returns. */
  function Subdirectories(fs: FileSystem, dir: Path): Outcome<seq<Path>>
  {
    match ReadDir(fs, dir)
    case None => Failure(ReadFailure(dir))
    case Some(es) => Success(KeptChildren(fs, dir, es))
  }

  /** Lists the directories in `dir`: an error and no list when `dir` cannot be read;
      otherwise `dir/name` for every kept child, in listing order, each an existing path
      one level below `dir`. */
  method ListDir(fs: FileSystem, dir: Path) returns (r: Outcome<seq<Path>>)
    ensures r == Subdirectories(fs, dir)
    ensures r.Failure? <==> ReadDir(fs, dir).None?
    ensures r.Success? ==> forall i | 0 <= i < |r.value| ::
              |r.value[i]| == |dir| + 1 && r.value[i][..|dir|] == dir && ExistsDir(fs, r.value[i])
  {
    var listing := ReadDir(fs, dir);
    if listing.None? {
      return Failure(ReadFailure(dir));
    }
    var es := listing.value;
    var dirs: seq<Path> := [];
    for i := 0 to |es|
      invariant dirs == KeptChildren(fs, dir, es[..i])
      invariant forall j | 0 <= j < |dirs| ::
                  |dirs[j]| == |dir| + 1 && dirs[j][..|dir|] == dir && ExistsDir(fs, dirs[j])
    {
      assert es[..i + 1][..i] == es[..i];
      var fileName := es[i].name;
      if es[i].isDir || es[i].isSymlink {
        var updatedDirPath := dir + [fileName];
        if ExistsDir(fs, updatedDirPath) {
          dirs := dirs + [updatedDirPath];
        }
      }
    }
    assert es[..|es|] == es;
    return Success(dirs);
  }

  /** A path is listed exactly when it is `dir/name` for a kept child `name`. */
  lemma KeptChildrenExactly(fs: FileSystem, dir: Path, es: seq<DirEntry>, p: Path)
    ensures p in KeptChildren(fs, dir, es) <==>
            exists i | 0 <= i < |es| :: Kept(fs, dir, es[i]) && p == dir + [es[i].name]
  {
    FilterMapMember(es, ChildPath(fs, dir), p);
  }

  /** The listing order is kept: the children of an earlier part of the listing come first. */
  lemma KeptChildrenInOrder(fs: FileSystem, dir: Path, es: seq<DirEntry>, more: seq<DirEntry>)
    ensures KeptChildren(fs, dir, es + more) == KeptChildren(fs, dir, es) + KeptChildren(fs, dir, more)
  {
    FilterMapAppend(es, more, ChildPath(fs, dir));
  }

  /** A NUMA node directory is one whose base name starts with "node". */
  predicate IsNodeDir(p: Path)
  {
    HasPrefix(Base(p), "node")
  }

  /** The node id a directory's name carries after "node" (`strconv.Atoi(base[4:])`). */
  function NodeIdOf(d: Path): Parsed
    requires IsNodeDir(d)
  {
    Atoi(Base(d)[4..])
  }

  function NodeDirFilter(): Path -> Option<Path>
  {
    p => if IsNodeDir(p) then Some(p) else None
  }

  /** What `GetNumaNodeDirs` returns. */
  function NodeDirectories(fs: FileSystem): Outcome<seq<Path>>
  {
    if !ExistsDir(fs, NumaNodeRoot) then Failure(NotFound(NumaNodeRoot))
    else match Subdirectories(fs, NumaNodeRoot)
      case Failure(e) => Failure(e)
      case Success(dirs) => Success(FilterMap(dirs, NodeDirFilter()))
  }

  /** Lists only the NUMA node directories. */
  method GetNumaNodeDirs(fs: FileSystem) returns (r: Outcome<seq<Path>>)
    ensures r == NodeDirectories(fs)
  {
    if !ExistsDir(fs, NumaNodeRoot) {
      return Failure(NotFound(NumaNodeRoot));
    }
    var dirs := ListDir(fs, NumaNodeRoot);
    if dirs.Failure? {
      return Failure(dirs.error);
    }
    var numaNodeDirs: seq<Path> := [];
    for i := 0 to |dirs.value|
      invariant numaNodeDirs == FilterMap(dirs.value[..i], NodeDirFilter())
    {
      assert dirs.value[..i + 1][..i] == dirs.value[..i];
      var baseName := Base(dirs.value[i]);
      if HasPrefix(baseName, "node") {
        numaNodeDirs := numaNodeDirs + [dirs.value[i]];
      }
    }
    assert dirs.value[..|dirs.value|] == dirs.value;
    return Success(numaNodeDirs);
  }

  /** A missing root is an error; so is a root that cannot be read; nothing else is. */
  lemma NodeDirectoriesFailure(fs: FileSystem)
    ensures !ExistsDir(fs, NumaNodeRoot) ==> NodeDirectories(fs) == Failure(NotFound(NumaNodeRoot))
    ensures NodeDirectories(fs).Failure? <==>
              !ExistsDir(fs, NumaNodeRoot) || ReadDir(fs, NumaNodeRoot).None?
  {
  }

  /** The node directories are exactly the listed children of the root named "node...". */
  lemma NodeDirectoriesExactly(fs: FileSystem, p: Path)
    requires NodeDirectories(fs).Success?
    ensures p in NodeDirectories(fs).value <==>
              p in Subdirectories(fs, NumaNodeRoot).value && IsNodeDir(p)
  {
    FilterMapMember(Subdirectories(fs, NumaNodeRoot).value, NodeDirFilter(), p);
  }

  /** A readable root with no child named "node..." gives an empty list and no error. */
  lemma NoNodeDirectoriesIsEmpty(fs: FileSystem)
    requires ExistsDir(fs, NumaNodeRoot) && ReadDir(fs, NumaNodeRoot).Some?
    requires forall p | p in Subdirectories(fs, NumaNodeRoot).value :: !IsNodeDir(p)
    ensures NodeDirectories(fs) == Success([])
  {
    var ds := Subdirectories(fs, NumaNodeRoot).value;
    if FilterMap(ds, NodeDirFilter()) != [] {
      var p := FilterMap(ds, NodeDirFilter())[0];
      NodeDirectoriesExactly(fs, p);
    }
  }
}
