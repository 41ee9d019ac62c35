/** `GetNodesNicsInfo`: the network interfaces attached to each NUMA node. */
module Nics {
  import opened Wrappers
  import opened Folds
  import opened GoStrings
  import opened Strconv
  import opened SysFs
  import opened Directories

  /** `/sys/class/net/`. */
  const NicRoot: Path := ["sys", "class", "net"]

  function NumaNodePath(d: Path): Path
  {
    d + ["device", "numa_node"]
  }

  /** The node number in a `device/numa_node` file. */
  function NumaNodeOf(content: string): Parsed
  {
    Atoi(TrimSpace(content))
  }

  /** One iteration of the loop over the interface directories: the interface's node and
      name, `None` for a directory it skips. The guard meant to skip unparseable content
      never fires, since a failed parse yields 0: only a missing `device` directory or an
      unreadable `numa_node` file skips the interface, and the content decides the key. */
  function NicSample(fs: FileSystem, d: Path): (r: Option<(int, string)>)
    ensures r.None? <==> !ExistsDir(fs, d + ["device"]) || ReadFile(fs, NumaNodePath(d)).None?
    ensures r.Some? ==> r.value == (NumaNodeOf(ReadFile(fs, NumaNodePath(d)).value).value, Base(d))
  {
    if !ExistsDir(fs, d + ["device"]) then None
    else match ReadFile(fs, NumaNodePath(d))
      case None => None
      case Some(content) =>
        var numaNode := NumaNodeOf(content);
        if !numaNode.ok && numaNode.value < 0 then None
        else Some((numaNode.value, Base(d)))
  }

  function NicSampleStep(fs: FileSystem): Path -> Option<(int, string)>
  {
    d => NicSample(fs, d)
  }

  /** What `GetNodesNicsInfo` returns: `None` is Go's nil map, returned when the interface
      root exists but cannot be listed; an absent root gives the empty map. */
  function NicsOf(fs: FileSystem): (r: Option<map<int, seq<string>>>)
    ensures r.None? <==> ExistsDir(fs, NicRoot) && ReadDir(fs, NicRoot).None?
    ensures !ExistsDir(fs, NicRoot) ==> r == Some(map[])
  {
    if !ExistsDir(fs, NicRoot) then Some(map[])
    else match Subdirectories(fs, NicRoot)
      case Failure(_) => None
      case Success(nicDirs) => Some(Group(FilterMap(nicDirs, NicSampleStep(fs))))
  }

  /** Gets the interfaces of each NUMA node. The error result is always nil: listing
      failures give a nil map, and unreadable interfaces are skipped. */
  method GetNodesNicsInfo(fs: FileSystem) returns (nics: Option<map<int, seq<string>>>, err: Option<Error>)
    ensures err == None
    ensures nics == NicsOf(fs)
  {
    var found: map<int, seq<string>> := map[];
    if ExistsDir(fs, NicRoot) {
      var listed := ListDir(fs, NicRoot);
      if listed.Failure? {
        return None, None;
      }
      var nicDirs := listed.value;
      ghost var step := NicSampleStep(fs);
      ghost var samples: seq<(int, string)> := [];
      for i := 0 to |nicDirs|
        invariant samples == FilterMap(nicDirs[..i], step)
        invariant found == Group(samples)
      {
        var dir := nicDirs[i];
        FilterMapExtend(nicDirs, step, i);
        if !ExistsDir(fs, dir + ["device"]) {
          continue;
        }
        var nicInfoFileName := dir + ["device", "numa_node"];
        var nicInfo := ReadFile(fs, nicInfoFileName);
        if nicInfo.None? {
          continue;
        }
        var baseNicDir := Base(dir);
        var numaNode := Atoi(TrimSpace(nicInfo.value));
        if !numaNode.ok && numaNode.value < 0 {
          continue;
        }
        found := found[numaNode.value := Lookup(found, numaNode.value) + [baseNicDir]];
        GroupAppend(samples, (numaNode.value, baseNicDir));
        samples := samples + [(numaNode.value, baseNicDir)];
      }
      assert nicDirs[..|nicDirs|] == nicDirs;
    }
    return Some(found), None;
  }

  /** The name an interface directory contributes to node `n`'s slice. */
  function NicOfNode(fs: FileSystem, n: int): Path -> Option<string>
  {
    d => if NicSample(fs, d).Some? && NicSample(fs, d).value.0 == n then Some(Base(d)) else None
  }

  /** Node `n`'s slice names exactly the listed interfaces whose `numa_node` reads as `n`,
      in listing order. */
  lemma {:induction false} NicsOfNode(fs: FileSystem, n: int)
    requires ExistsDir(fs, NicRoot) && ReadDir(fs, NicRoot).Some?
    ensures Lookup(NicsOf(fs).value, n) == FilterMap(Subdirectories(fs, NicRoot).value, NicOfNode(fs, n))
  {
    var nicDirs := Subdirectories(fs, NicRoot).value;
    var step := NicSampleStep(fs);
    GroupBucket(FilterMap(nicDirs, step), n);
    FilterMapThen(nicDirs, step, KeyIs(n));
    forall i | 0 <= i < |nicDirs|
      ensures Then(step, KeyIs(n))(nicDirs[i]) == NicOfNode(fs, n)(nicDirs[i])
    {
      NicOfNodeStep(fs, n, nicDirs[i]);
    }
    FilterMapPointwise(nicDirs, Then(step, KeyIs(n)), NicOfNode(fs, n));
  }

  /** `NicOfNode` is the sample kept only for node `n`. */
  lemma NicOfNodeStep(fs: FileSystem, n: int, d: Path)
    ensures Then(NicSampleStep(fs), KeyIs(n))(d) == NicOfNode(fs, n)(d)
  {
    assert NicSampleStep(fs)(d) == NicSample(fs, d);
  }

  /** A node is a key exactly when some listed interface reports it. */
  lemma {:induction false} NicsKeys(fs: FileSystem, n: int)
    requires ExistsDir(fs, NicRoot) && ReadDir(fs, NicRoot).Some?
    ensures n in NicsOf(fs).value <==>
              exists i | 0 <= i < |Subdirectories(fs, NicRoot).value| ::
                NicOfNode(fs, n)(Subdirectories(fs, NicRoot).value[i]).Some?
  {
    var nicDirs := Subdirectories(fs, NicRoot).value;
    var nics := NicsOf(fs).value;
    NicsOfNode(fs, n);
    if n in nics {
      GroupNonEmpty(FilterMap(nicDirs, NicSampleStep(fs)), n);
      FilterMapMember(nicDirs, NicOfNode(fs, n), nics[n][0]);
    }
    if exists i | 0 <= i < |nicDirs| :: NicOfNode(fs, n)(nicDirs[i]).Some? {
      var i :| 0 <= i < |nicDirs| && NicOfNode(fs, n)(nicDirs[i]).Some?;
      FilterMapMember(nicDirs, NicOfNode(fs, n), NicOfNode(fs, n)(nicDirs[i]).value);
    }
  }

  /** An interface whose `numa_node` holds the decimal form of `n`, surrounded by white
      space, is kept under `n`; this includes -1, which the kernel writes for an interface
      with no node affinity. */
  lemma DecimalNodeKept(fs: FileSystem, d: Path, n: int)
    requires ExistsDir(fs, d + ["device"]) && ReadFile(fs, NumaNodePath(d)).Some?
    requires TrimSpace(ReadFile(fs, NumaNodePath(d)).value) == FormatInt(n)
    ensures NicSample(fs, d) == Some((n, Base(d)))
  {
    AtoiFormatInt(n);
  }

  /** Content that does not parse is kept as well, under node 0. */
  lemma UnparseableNodeIsZero(fs: FileSystem, d: Path)
    requires ExistsDir(fs, d + ["device"]) && ReadFile(fs, NumaNodePath(d)).Some?
    requires !NumaNodeOf(ReadFile(fs, NumaNodePath(d)).value).ok
    ensures NicSample(fs, d) == Some((0, Base(d)))
  {
  }
}
