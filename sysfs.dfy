/** The kernel's virtual filesystem as an immutable value, and the three queries the
    scans make of it: `os.Stat` (through `ExistsDir`), `ioutil.ReadDir` and `ioutil.ReadFile`. */
module SysFs {
  import opened Wrappers

  /** An absolute path as its components below `/`: `path.Join(p, name)` is `p + [name]`. */
  type Path = seq<string>

  /** `path.Base`: the last component. */
  function Base(p: Path): string
  {
    if p == [] then "/" else p[|p| - 1]
  }

  /** One child as `ioutil.ReadDir` reports it: its name and the `lstat` view of it
      (`IsDir()` is false for a symbolic link, whose mode has `ModeSymlink` instead). */
  datatype DirEntry = DirEntry(name: string, isDir: bool, isSymlink: bool)

  /** What `os.Stat` finds at a path, symbolic links followed. */
  datatype Node =
    | Directory(listing: Option<seq<DirEntry>>)   // None: the directory cannot be read
    | RegularFile(content: Option<string>)        // None: the file cannot be read
    | Inaccessible                                // stat fails with an error other than "does not exist"

  /** The tree: a path absent from `nodes` does not exist (this includes the target of a
      dangling symbolic link). A listing is in the order `ioutil.ReadDir` returns it. */
  datatype FileSystem = FileSystem(nodes: map<Path, Node>)

  /** The errors the scans return. `IndexOutOfRange` stands for the run-time panic of
      indexing past the end of a slice. */
  datatype Error =
    | NotFound(path: Path)
    | ReadFailure(path: Path)
    | SyntaxError(text: string)
    | ConversionFailure(text: string)
    | IndexOutOfRange(line: string)

  type Outcome<T> = Result<T, Error>

  /** `ioutil.ReadDir`. */
  function ReadDir(fs: FileSystem, p: Path): Option<seq<DirEntry>>
  {
    if p in fs.nodes && fs.nodes[p].Directory? then fs.nodes[p].listing else None
  }

  /** `ioutil.ReadFile`. */
  function ReadFile(fs: FileSystem, p: Path): Option<string>
  {
    if p in fs.nodes && fs.nodes[p].RegularFile? then fs.nodes[p].content else None
  }

  /** `ExistsDir`: false exactly when `os.Stat` reports that the path does not exist (a
      missing path, or the target of a dangling link). Every directory and file exists,
      readable or not, and so does a path whose stat fails for another reason. */
  function ExistsDir(fs: FileSystem, p: Path): (r: bool)
    ensures p !in fs.nodes ==> !r
    ensures p in fs.nodes && fs.nodes[p].Directory? ==> r
    ensures p in fs.nodes && fs.nodes[p].RegularFile? ==> r
    ensures p in fs.nodes && fs.nodes[p].Inaccessible? ==> r
    ensures ReadDir(fs, p).Some? ==> r
    ensures ReadFile(fs, p).Some? ==> r
    ensures !r ==> p !in fs.nodes
  {
    p in fs.nodes
  }

  /** A path `ExistsDir` rejects can be neither listed nor read, so a scan that checks
      `ExistsDir` first loses no readable entry by it. */
  lemma MissingCannotBeRead(fs: FileSystem, p: Path)
    requires !ExistsDir(fs, p)
    ensures ReadDir(fs, p).None? && ReadFile(fs, p).None?
  {
  }
}
