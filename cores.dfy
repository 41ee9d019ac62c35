/** `GetNodesCoresInfo`: for each NUMA node, its hardware threads grouped by physical core. */
module Cores {
  import opened Wrappers
  import opened Folds
  import opened GoStrings
  import opened Strconv
  import opened SysFs
  import opened Directories

  /** One physical core and the hardware threads that share it. */
  datatype CPUInfo = CPUInfo(CPU: int, ThreadSiblings: seq<int>)

  /** A hardware thread directory is one whose base name starts with "cpu". */
  predicate IsThreadDir(p: Path)
  {
    HasPrefix(Base(p), "cpu")
  }

  /** The thread id a directory's name carries after "cpu". */
  function ThreadIdOf(p: Path): Parsed
    requires IsThreadDir(p)
  {
    Atoi(Base(p)[3..])
  }

  /** The core id in a `topology/core_id` file; the parse error is ignored, so unparseable
      content gives core 0. */
  function CoreIdOf(content: string): (id: int)
    ensures Atoi(TrimSpace(content)).ok ==> id == Atoi(TrimSpace(content)).value
    ensures !Atoi(TrimSpace(content)).ok ==> id == 0
  {
    Atoi(TrimSpace(content)).value
  }

  function CoreIdPath(td: Path): Path
  {
    td + ["topology", "core_id"]
  }

  /** One iteration of the loop over a node's thread directories: the pair (core id, thread id),
      `None` for a directory it skips. */
  function ThreadCore(fs: FileSystem, td: Path): (r: Outcome<Option<(int, int)>>)
    ensures r.Success? && r.value.None? <==> !IsThreadDir(td)
    ensures r.Failure? <==>
              IsThreadDir(td) && (!ThreadIdOf(td).ok || ReadFile(fs, CoreIdPath(td)).None?)
    ensures r.Success? && r.value.Some? ==>
              && IsThreadDir(td) && ThreadIdOf(td).ok && ReadFile(fs, CoreIdPath(td)).Some?
              && r.value.value == (CoreIdOf(ReadFile(fs, CoreIdPath(td)).value), ThreadIdOf(td).value)
  {
    if !IsThreadDir(td) then Success(None)
    else if !ThreadIdOf(td).ok then Failure(SyntaxError(Base(td)[3..]))
    else match ReadFile(fs, CoreIdPath(td))
      case None => Failure(ReadFailure(CoreIdPath(td)))
      case Some(content) => Success(Some((CoreIdOf(content), ThreadIdOf(td).value)))
  }

  function ThreadCoreStep(fs: FileSystem): Path -> Outcome<Option<(int, int)>>
  {
    td => ThreadCore(fs, td)
  }

  /** The grouping of one node's thread directories: each core id with its thread ids. */
  function CoreGroups(fs: FileSystem, threadDirs: seq<Path>): Outcome<map<int, seq<int>>>
  {
    match Collect(threadDirs, ThreadCoreStep(fs))
    case Failure(e) => Failure(e)
    case Success(pairs) => Success(Group(pairs))
  }

  /** The inner loop of `GetNodesCoresInfo`: `cores[cpuID] = append(cores[cpuID], threadID)`
      for every thread directory, aborting on the first error. */
  method GroupThreads(fs: FileSystem, threadDirs: seq<Path>) returns (r: Outcome<map<int, seq<int>>>)
    ensures r == CoreGroups(fs, threadDirs)
  {
    var cores: map<int, seq<int>> := map[];
    ghost var step := ThreadCoreStep(fs);
    ghost var pairs: seq<(int, int)> := [];
    for i := 0 to |threadDirs|
      invariant Collect(threadDirs[..i], step) == Success(pairs)
      invariant cores == Group(pairs)
    {
      var threadDir := threadDirs[i];
      var baseThreadDir := Base(threadDir);
      if !HasPrefix(baseThreadDir, "cpu") {
        CollectExtend(threadDirs, step, i, pairs);
        continue;
      }
      var threadId := Atoi(baseThreadDir[3..]);
      if !threadId.ok {
        CollectStopsAt(threadDirs, step, i);
        return Failure(SyntaxError(baseThreadDir[3..]));
      }
      var cpuFileName := threadDir + ["topology", "core_id"];
      var cpuData := ReadFile(fs, cpuFileName);
      if cpuData.None? {
        CollectStopsAt(threadDirs, step, i);
        return Failure(ReadFailure(cpuFileName));
      }
      var cpuId := Atoi(TrimSpace(cpuData.value)).value;
      CollectExtend(threadDirs, step, i, pairs);
      cores := cores[cpuId := Lookup(cores, cpuId) + [threadId.value]];
      GroupAppend(pairs, (cpuId, threadId.value));
      pairs := pairs + [(cpuId, threadId.value)];
    }
    assert threadDirs[..|threadDirs|] == threadDirs;
    return Success(cores);
  }

  /** The thread id a directory contributes to core `c`'s slice: `Some` exactly when the
      directory is a well-named thread directory whose `core_id` file reads as `c`. */
  function ThreadOfCore(fs: FileSystem, c: int): Path -> Option<int>
  {
    td =>
      if IsThreadDir(td) && ThreadIdOf(td).ok && ReadFile(fs, CoreIdPath(td)).Some?
         && CoreIdOf(ReadFile(fs, CoreIdPath(td)).value) == c
      then Some(ThreadIdOf(td).value)
      else None
  }

  /** After success, every core of the grouping has at least one thread, so no
      `ThreadSiblings` slice is empty. */
  lemma CoreGroupsNonEmpty(fs: FileSystem, threadDirs: seq<Path>, c: int)
    requires CoreGroups(fs, threadDirs).Success? && c in CoreGroups(fs, threadDirs).value
    ensures CoreGroups(fs, threadDirs).value[c] != []
  {
    GroupNonEmpty(Collect(threadDirs, ThreadCoreStep(fs)).value, c);
  }

  /** The grouping fails exactly when some thread directory's step fails. */
  lemma CoreGroupsFailsIff(fs: FileSystem, threadDirs: seq<Path>)
    ensures CoreGroups(fs, threadDirs).Failure? <==>
              exists i | 0 <= i < |threadDirs| :: ThreadCore(fs, threadDirs[i]).Failure?
  {
    CollectFailsIff(threadDirs, ThreadCoreStep(fs));
  }

  /** After success, the slice of core `c` holds the ids of exactly the thread directories
      whose `core_id` reads as `c`, in listing order. */
  lemma {:induction false} CoreGroupsThreads(fs: FileSystem, threadDirs: seq<Path>, c: int)
    requires CoreGroups(fs, threadDirs).Success?
    ensures Lookup(CoreGroups(fs, threadDirs).value, c) == FilterMap(threadDirs, ThreadOfCore(fs, c))
  {
    var step := ThreadCoreStep(fs);
    var pairs := Collect(threadDirs, step).value;
    GroupBucket(pairs, c);
    CollectSucceeds(threadDirs, step);
    FilterMapThen(threadDirs, Passed(step), KeyIs(c));
    forall i | 0 <= i < |threadDirs|
      ensures Then(Passed(step), KeyIs(c))(threadDirs[i]) == ThreadOfCore(fs, c)(threadDirs[i])
    {
      ThreadOfCoreStep(fs, c, threadDirs[i]);
    }
    FilterMapPointwise(threadDirs, Then(Passed(step), KeyIs(c)), ThreadOfCore(fs, c));
  }

  /** `ThreadOfCore` is the step's outcome kept only for core `c`. */
  lemma ThreadOfCoreStep(fs: FileSystem, c: int, td: Path)
    ensures Then(Passed(ThreadCoreStep(fs)), KeyIs(c))(td) == ThreadOfCore(fs, c)(td)
  {
    var o := ThreadCore(fs, td);
    assert Passed(ThreadCoreStep(fs))(td) == if o.Success? then o.value else None;
  }

  /** After success, a core id is a key exactly when some thread directory reports it. */
  lemma {:induction false} CoreGroupsKeys(fs: FileSystem, threadDirs: seq<Path>, c: int)
    requires CoreGroups(fs, threadDirs).Success?
    ensures c in CoreGroups(fs, threadDirs).value <==>
              exists i | 0 <= i < |threadDirs| :: ThreadOfCore(fs, c)(threadDirs[i]).Some?
  {
    var g := CoreGroups(fs, threadDirs).value;
    var pairs := Collect(threadDirs, ThreadCoreStep(fs)).value;
    CoreGroupsThreads(fs, threadDirs, c);
    if c in g {
      GroupNonEmpty(pairs, c);
      FilterMapMember(threadDirs, ThreadOfCore(fs, c), g[c][0]);
    }
    if exists i | 0 <= i < |threadDirs| :: ThreadOfCore(fs, c)(threadDirs[i]).Some? {
      var i :| 0 <= i < |threadDirs| && ThreadOfCore(fs, c)(threadDirs[i]).Some?;
      FilterMapMember(threadDirs, ThreadOfCore(fs, c), ThreadOfCore(fs, c)(threadDirs[i]).value);
    }
  }

  /** The cores the entries of `infos` describe, in order. */
  function CoresOf(infos: seq<CPUInfo>): (cs: seq<int>)
    ensures |cs| == |infos| && forall i | 0 <= i < |infos| :: cs[i] == infos[i].CPU
  {
    if infos == [] then [] else CoresOf(infos[..|infos| - 1]) + [infos[|infos| - 1].CPU]
  }

  lemma CoresOfAppend(infos: seq<CPUInfo>, info: CPUInfo)
    ensures CoresOf(infos + [info]) == CoresOf(infos) + [info.CPU]
  {
    assert (infos + [info])[..|infos|] == infos;
  }

  /** Each entry of `infos` carries the threads `cores` has for its core. */
  ghost predicate Siblings(infos: seq<CPUInfo>, cores: map<int, seq<int>>)
  {
    forall i | 0 <= i < |infos| :: infos[i].CPU in cores && infos[i].ThreadSiblings == cores[infos[i].CPU]
  }

  /** `infos` lists the cores of `cores` once each, in any order, each with its threads. */
  ghost predicate Lists(infos: seq<CPUInfo>, cores: map<int, seq<int>>)
  {
    Enumerates(CoresOf(infos), cores.Keys) && Siblings(infos, cores)
  }

  lemma {:induction false} SiblingsAppend(infos: seq<CPUInfo>, cores: map<int, seq<int>>, c: int)
    requires Siblings(infos, cores) && c in cores
    ensures Siblings(infos + [CPUInfo(c, cores[c])], cores)
  {
    var longer := infos + [CPUInfo(c, cores[c])];
    forall i | 0 <= i < |infos|
      ensures longer[i] == infos[i]
    {
    }
    assert longer[|infos|] == CPUInfo(c, cores[c]);
  }

  /** The loop over the `cores` map that builds the `CPUInfo` list; Go visits the keys of a
      map in no fixed order, so each step takes any key not yet visited. */
  method FlattenCores(cores: map<int, seq<int>>) returns (cpusInfo: seq<CPUInfo>)
    ensures Lists(cpusInfo, cores)
  {
    cpusInfo := [];
    var unvisited := cores.Keys;
    ghost var visited: set<int> := {};
    while unvisited != {}
      invariant visited !! unvisited && visited + unvisited == cores.Keys
      invariant Enumerates(CoresOf(cpusInfo), visited)
      invariant Siblings(cpusInfo, cores)
      decreases |unvisited|
    {
      // The witness makes the choice below provably possible; nothing reads it.
      ghost var witnessKey := Member(unvisited);
      var cpuId :| cpuId in unvisited;
      var info := CPUInfo(cpuId, cores[cpuId]);
      Visit(visited, unvisited, cores.Keys, cpuId);
      EnumeratesAppend(CoresOf(cpusInfo), visited, cpuId);
      CoresOfAppend(cpusInfo, info);
      SiblingsAppend(cpusInfo, cores, cpuId);
      cpusInfo := cpusInfo + [info];
      unvisited := unvisited - {cpuId};
      visited := visited + {cpuId};
    }
    assert visited == cores.Keys;
  }

  /** One iteration of the loop over the node directories: the node id and its grouping,
      `None` for a directory it skips. */
  function NodeCores(fs: FileSystem, d: Path): (r: Outcome<Option<(int, map<int, seq<int>>)>>)
    ensures r.Success? && r.value.None? <==> !IsNodeDir(d)
    ensures r.Failure? <==>
              && IsNodeDir(d)
              && (|| !NodeIdOf(d).ok
                  || Subdirectories(fs, d).Failure?
                  || CoreGroups(fs, Subdirectories(fs, d).value).Failure?)
    ensures r.Success? && r.value.Some? ==>
              && IsNodeDir(d) && NodeIdOf(d).ok && Subdirectories(fs, d).Success?
              && CoreGroups(fs, Subdirectories(fs, d).value).Success?
              && r.value.value == (NodeIdOf(d).value, CoreGroups(fs, Subdirectories(fs, d).value).value)
  {
    if !IsNodeDir(d) then Success(None)
    else if !NodeIdOf(d).ok then Failure(SyntaxError(Base(d)[4..]))
    else match Subdirectories(fs, d)
      case Failure(e) => Failure(e)
      case Success(threadDirs) =>
        match CoreGroups(fs, threadDirs)
        case Failure(e) => Failure(e)
        case Success(cores) => Success(Some((NodeIdOf(d).value, cores)))
  }

  function NodeCoresStep(fs: FileSystem): Path -> Outcome<Option<(int, map<int, seq<int>>)>>
  {
    d => NodeCores(fs, d)
  }

  /** The groupings `GetNodesCoresInfo` computes, node by node. */
  function NodesCores(fs: FileSystem): Outcome<map<int, map<int, seq<int>>>>
  {
    match NodeDirectories(fs)
    case Failure(e) => Failure(e)
    case Success(dirs) =>
      match Collect(dirs, NodeCoresStep(fs))
      case Failure(e) => Failure(e)
      case Success(nodes) => Success(ToMap(nodes))
  }

  /** The scan fails exactly when the node directories cannot be listed or some node
      directory's step fails. */
  lemma NodesCoresFailsIff(fs: FileSystem)
    ensures NodesCores(fs).Failure? <==>
              || NodeDirectories(fs).Failure?
              || exists i | 0 <= i < |NodeDirectories(fs).value| :: NodeCores(fs, NodeDirectories(fs).value[i]).Failure?
  {
    if NodeDirectories(fs).Success? {
      CollectFailsIff(NodeDirectories(fs).value, NodeCoresStep(fs));
    }
  }

  /** After success, the nodes in the map are exactly the ids of the node directories. */
  lemma {:induction false} NodesCoresKeys(fs: FileSystem, k: int)
    requires NodesCores(fs).Success?
    ensures var dirs := NodeDirectories(fs).value;
            k in NodesCores(fs).value <==>
              exists i | 0 <= i < |dirs| :: IsNodeDir(dirs[i]) && NodeIdOf(dirs[i]).value == k
  {
    var dirs := NodeDirectories(fs).value;
    var step := NodeCoresStep(fs);
    CollectToMapKeys(dirs, step, k);
    CollectFailsIff(dirs, step);
    forall i | 0 <= i < |dirs|
      ensures StoresKey(step(dirs[i]), k) <==> IsNodeDir(dirs[i]) && NodeIdOf(dirs[i]).value == k
    {
      assert step(dirs[i]).Success?;
    }
  }

  /** After success, a node's grouping comes from the last node directory with its id. */
  lemma {:induction false} NodesCoresLastWins(fs: FileSystem, i: nat)
    requires NodesCores(fs).Success?
    requires i < |NodeDirectories(fs).value| && IsNodeDir(NodeDirectories(fs).value[i])
    requires var dirs := NodeDirectories(fs).value;
             forall j | i < j < |dirs| ::
               IsNodeDir(dirs[j]) ==> NodeIdOf(dirs[j]).value != NodeIdOf(dirs[i]).value
    ensures var d := NodeDirectories(fs).value[i];
            && Subdirectories(fs, d).Success?
            && CoreGroups(fs, Subdirectories(fs, d).value).Success?
            && NodeIdOf(d).value in NodesCores(fs).value
            && NodesCores(fs).value[NodeIdOf(d).value] == CoreGroups(fs, Subdirectories(fs, d).value).value
  {
    var dirs := NodeDirectories(fs).value;
    var step := NodeCoresStep(fs);
    CollectFailsIff(dirs, step);
    assert step(dirs[i]).Success?;
    CollectToMapLastWins(dirs, step, i);
  }

  /** The body of the loop of `GetNodesCoresInfo` for one node directory. */
  method ReadNodeCores(fs: FileSystem, numaNodeDir: Path) returns (r: Outcome<Option<(int, seq<CPUInfo>)>>)
    ensures r.Failure? ==> NodeCores(fs, numaNodeDir) == Failure(r.error)
    ensures r.Success? && r.value.None? ==> NodeCores(fs, numaNodeDir) == Success(None)
    ensures r.Success? && r.value.Some? ==>
              && NodeCores(fs, numaNodeDir).Success? && NodeCores(fs, numaNodeDir).value.Some?
              && r.value.value.0 == NodeCores(fs, numaNodeDir).value.value.0
              && Lists(r.value.value.1, NodeCores(fs, numaNodeDir).value.value.1)
  {
    var baseNumaNodeDir := Base(numaNodeDir);
    if !HasPrefix(baseNumaNodeDir, "node") {
      return Success(None);
    }
    var numaNodeId := Atoi(baseNumaNodeDir[4..]);
    if !numaNodeId.ok {
      return Failure(SyntaxError(baseNumaNodeDir[4..]));
    }
    var threadDirs := ListDir(fs, numaNodeDir);
    if threadDirs.Failure? {
      return Failure(threadDirs.error);
    }
    var cores := GroupThreads(fs, threadDirs.value);
    if cores.Failure? {
      return Failure(cores.error);
    }
    var cpusInfo := FlattenCores(cores.value);
    return Success(Some((numaNodeId.value, cpusInfo)));
  }

  /** `cpus` has a core list for each node of `groups`, listing that node's grouping. */
  ghost predicate ListsAll(cpus: map<int, seq<CPUInfo>>, groups: map<int, map<int, seq<int>>>)
  {
    cpus.Keys == groups.Keys && forall n | n in cpus :: Lists(cpus[n], groups[n])
  }

  /** Storing a node's core list together with its grouping keeps `ListsAll`. */
  lemma ListsAllUpdate(cpus: map<int, seq<CPUInfo>>, groups: map<int, map<int, seq<int>>>, n: int,
                       infos: seq<CPUInfo>, cores: map<int, seq<int>>)
    requires ListsAll(cpus, groups) && Lists(infos, cores)
    ensures ListsAll(cpus[n := infos], groups[n := cores])
  {
  }

  /** Gets the cores of each NUMA node; the first failure aborts the whole call. Each node's
      list holds every core of its grouping once, in map order. */
  method GetNodesCoresInfo(fs: FileSystem) returns (r: Outcome<map<int, seq<CPUInfo>>>)
    ensures r.Failure? <==> NodesCores(fs).Failure?
    ensures r.Failure? ==> r.error == NodesCores(fs).error
    ensures r.Success? ==> ListsAll(r.value, NodesCores(fs).value)
  {
    var cpus: map<int, seq<CPUInfo>> := map[];
    var listed := GetNumaNodeDirs(fs);
    if listed.Failure? {
      return Failure(listed.error);
    }
    var dirs := listed.value;
    ghost var step := NodeCoresStep(fs);
    ghost var nodes: seq<(int, map<int, seq<int>>)> := [];
    for i := 0 to |dirs|
      invariant Collect(dirs[..i], step) == Success(nodes)
      invariant ListsAll(cpus, ToMap(nodes))
    {
      var entry := ReadNodeCores(fs, dirs[i]);
      if entry.Failure? {
        CollectStopsAt(dirs, step, i);
        return Failure(entry.error);
      }
      CollectExtend(dirs, step, i, nodes);
      if entry.value.Some? {
        ghost var node := step(dirs[i]).value.value;
        ListsAllUpdate(cpus, ToMap(nodes), node.0, entry.value.value.1, node.1);
        cpus := cpus[entry.value.value.0 := entry.value.value.1];
        ToMapAppend(nodes, node);
        nodes := nodes + [node];
      }
    }
    assert dirs[..|dirs|] == dirs;
    return Success(cpus);
  }
}
