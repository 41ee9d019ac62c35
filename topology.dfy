/** `GetNumaTopology`: one record per NUMA node joining its memory, interfaces and cores. */
module Topology {
  import opened Wrappers
  import opened Folds
  import opened SysFs
  import opened Directories
  import opened Memory
  import opened Cores
  import opened Nics

  /** The topology of one NUMA node. */
  datatype NUMATopology = NUMATopology(NUMA: int, RAM: string, NICs: seq<string>, CPUs: seq<CPUInfo>)

  /** Why `GetNumaTopology` gives no topology. `Panicked` stands for the run-time panic of
      the memory scan, which ends the program instead of returning an error. */
  datatype TopologyError =
    | MemoryUnavailable
    | CpusUnavailable
    | NicsUnavailable
    | Panicked(cause: Error)

  /** The interfaces of node `n`: a missing key, like the nil map, gives the empty slice. */
  function NicsFor(nics: Option<map<int, seq<string>>>, n: int): seq<string>
  {
    match nics
    case None => []
    case Some(m) => Lookup(m, n)
  }

  /** The core grouping of node `n`, empty for a node without one. */
  function CoresFor(groups: map<int, map<int, seq<int>>>, n: int): map<int, seq<int>>
  {
    if n in groups then groups[n] else map[]
  }

  /** The nodes the records describe, in order. */
  function NodesOf(ts: seq<NUMATopology>): (ns: seq<int>)
    ensures |ns| == |ts| && forall i | 0 <= i < |ts| :: ns[i] == ts[i].NUMA
  {
    if ts == [] then [] else NodesOf(ts[..|ts| - 1]) + [ts[|ts| - 1].NUMA]
  }

  /** The record `GetNumaTopology` builds for `node`: Go's lookups in the interface and core
      maps give the nil slice for a node they lack. */
  ghost predicate Built(t: NUMATopology, ram: map<int, string>, cpus: map<int, seq<CPUInfo>>,
                       nics: Option<map<int, seq<string>>>)
  {
    && t.NUMA in ram
    && t.RAM == ram[t.NUMA]
    && t.NICs == NicsFor(nics, t.NUMA)
    && t.CPUs == (if t.NUMA in cpus then cpus[t.NUMA] else [])
  }

  /** Every record is the one built for its node. */
  ghost predicate AllBuilt(ts: seq<NUMATopology>, ram: map<int, string>, cpus: map<int, seq<CPUInfo>>,
                          nics: Option<map<int, seq<string>>>)
  {
    forall i | 0 <= i < |ts| :: Built(ts[i], ram, cpus, nics)
  }

  /** Appending a built record keeps every record built. */
  lemma {:induction false} AllBuiltAppend(ts: seq<NUMATopology>, ram: map<int, string>, cpus: map<int, seq<CPUInfo>>,
                                          nics: Option<map<int, seq<string>>>, t: NUMATopology)
    requires AllBuilt(ts, ram, cpus, nics) && Built(t, ram, cpus, nics)
    ensures AllBuilt(ts + [t], ram, cpus, nics)
  {
    var longer := ts + [t];
    forall i | 0 <= i < |ts|
      ensures longer[i] == ts[i]
    {
    }
    assert longer[|ts|] == t;
  }

  lemma NodesOfAppend(ts: seq<NUMATopology>, t: NUMATopology)
    ensures NodesOf(ts + [t]) == NodesOf(ts) + [t.NUMA]
  {
    assert (ts + [t])[..|ts|] == ts;
  }

  /** Each record carries its node's memory size, interfaces and cores. */
  ghost predicate Joined(ts: seq<NUMATopology>, ram: map<int, string>, nics: Option<map<int, seq<string>>>,
                         groups: map<int, map<int, seq<int>>>)
  {
    forall i | 0 <= i < |ts| ::
      && ts[i].NUMA in ram
      && ts[i].RAM == ram[ts[i].NUMA]
      && ts[i].NICs == NicsFor(nics, ts[i].NUMA)
      && Lists(ts[i].CPUs, CoresFor(groups, ts[i].NUMA))
  }

  /** The records describe the nodes of `ram` once each, in any order. */
  ghost predicate Describes(ts: seq<NUMATopology>, ram: map<int, string>, nics: Option<map<int, seq<string>>>,
                            groups: map<int, map<int, seq<int>>>)
  {
    Enumerates(NodesOf(ts), ram.Keys) && Joined(ts, ram, nics, groups)
  }

  /** Records built from core lists that list their groupings describe those groupings. */
  lemma {:induction false} BuiltJoined(ts: seq<NUMATopology>, ram: map<int, string>, cpus: map<int, seq<CPUInfo>>,
                                       nics: Option<map<int, seq<string>>>, groups: map<int, map<int, seq<int>>>)
    requires ListsAll(cpus, groups)
    requires AllBuilt(ts, ram, cpus, nics)
    ensures Joined(ts, ram, nics, groups)
  {
    assert CoresOf([]) == [];
  }

  /** The loop of `GetNumaTopology` over the memory map; Go visits its keys in no fixed
      order, so each step takes any node not yet visited. */
  method JoinNodes(ram: map<int, string>, cpus: map<int, seq<CPUInfo>>, nics: Option<map<int, seq<string>>>)
    returns (numaTopology: seq<NUMATopology>)
    ensures Enumerates(NodesOf(numaTopology), ram.Keys)
    ensures AllBuilt(numaTopology, ram, cpus, nics)
  {
    numaTopology := [];
    var unvisited := ram.Keys;
    ghost var visited: set<int> := {};
    while unvisited != {}
      invariant visited !! unvisited && visited + unvisited == ram.Keys
      invariant Enumerates(NodesOf(numaTopology), visited)
      invariant AllBuilt(numaTopology, ram, cpus, nics)
      decreases |unvisited|
    {
      // The witness makes the choice below provably possible; nothing reads it.
      ghost var witnessKey := Member(unvisited);
      var node :| node in unvisited;
      var nodeCpus := if node in cpus then cpus[node] else [];
      var t := NUMATopology(node, ram[node], NicsFor(nics, node), nodeCpus);
      Visit(visited, unvisited, ram.Keys, node);
      EnumeratesAppend(NodesOf(numaTopology), visited, node);
      NodesOfAppend(numaTopology, t);
      AllBuiltAppend(numaTopology, ram, cpus, nics, t);
      numaTopology := numaTopology + [t];
      unvisited := unvisited - {node};
      visited := visited + {node};
    }
    assert visited == ram.Keys;
  }

  /** Joins the memory, core and interface maps. Memory decides which nodes get a record.
      The first subsystem to fail decides the error, and a panic in the memory scan is
      passed on as it is. */
  method GetNumaTopology(fs: FileSystem, toBytes: string -> Option<nat>, byteSize: nat -> string)
    returns (r: Result<seq<NUMATopology>, TopologyError>)
    ensures r.Failure? <==> NodesMemory(fs, toBytes, byteSize).Failure? || NodesCores(fs).Failure?
    ensures NodesMemory(fs, toBytes, byteSize).Failure? ==>
              if NodesMemory(fs, toBytes, byteSize).error.IndexOutOfRange?
              then r == Failure(Panicked(NodesMemory(fs, toBytes, byteSize).error))
              else r == Failure(MemoryUnavailable)
    ensures NodesMemory(fs, toBytes, byteSize).Success? && NodesCores(fs).Failure? ==>
              r == Failure(CpusUnavailable)
    ensures r.Success? ==>
              Describes(r.value, NodesMemory(fs, toBytes, byteSize).value, NicsOf(fs), NodesCores(fs).value)
  {
    var ramList := GetNodesMemoryInfo(fs, toBytes, byteSize);
    if ramList.Failure? {
      if ramList.error.IndexOutOfRange? {
        return Failure(Panicked(ramList.error));
      }
      return Failure(MemoryUnavailable);
    }
    var cpus := GetNodesCoresInfo(fs);
    if cpus.Failure? {
      return Failure(CpusUnavailable);
    }
    var nics, nicErr := GetNodesNicsInfo(fs);
    if nicErr.Some? {
      assert false;
    }
    var numaTopology := JoinNodes(ramList.value, cpus.value, nics);
    BuiltJoined(numaTopology, ramList.value, cpus.value, nics, NodesCores(fs).value);
    return Success(numaTopology);
  }

  /** When memory and cores are both read, they cover the same nodes: both are keyed by
      the ids of the node directories. So every record's core list comes from a grouping. */
  lemma MemoryAndCoresSameNodes(fs: FileSystem, toBytes: string -> Option<nat>, byteSize: nat -> string, k: int)
    requires NodesMemory(fs, toBytes, byteSize).Success? && NodesCores(fs).Success?
    ensures k in NodesMemory(fs, toBytes, byteSize).value <==> k in NodesCores(fs).value
  {
    MemoryKeys(fs, toBytes, byteSize, k);
    NodesCoresKeys(fs, k);
  }
}
