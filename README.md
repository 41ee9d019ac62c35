# numautils in Dafny

A model of `numautils`, a Go package that reads the NUMA topology of a Linux machine out of
sysfs:

- the memory of each node, from `/sys/devices/system/node/node<N>/meminfo`;
- the physical cores of each node, each with its hardware threads, from
  `node<N>/cpu<T>/topology/core_id`;
- the network interfaces of each node, from `/sys/class/net/<iface>/device/numa_node`;
- one topology record per node that joins the three.

The filesystem is an immutable value (`SysFs.FileSystem`). It maps each existing path to a
directory listing, a file's contents, or a node whose `stat` fails for another reason. The
package's three queries are `ReadDir`, `ReadFile` and `ExistsDir`. Every loop of the Go code is
a Dafny method with a `for` or `while` loop.

The loops over slices are proved against specification functions built from the generic
folds in `Folds`. All but one are proved equal to theirs:

- `Collect`: a scan that stops at the first failing step. It specifies the node loops of
  `GetNodesMemoryInfo` and `GetNodesCoresInfo` and the thread loop `Cores.GroupThreads`.
- `FilterMap`: a filter. It specifies `Directories.ListDir`, `Directories.GetNumaNodeDirs` and
  the interface loop of `Nics.GetNodesNicsInfo`.
- `Group`: `m[k] = append(m[k], v)`. It specifies the thread and interface loops.
- `ToMap`: `m[k] = v`, where a later entry overwrites an earlier one. It specifies the node
  loops.

The exception is the node loop of `Cores.GetNodesCoresInfo`. It fails exactly when the
`Collect` of the node steps fails, with the same error. On success it is not equal to the
`Collect`+`ToMap` grouping `Cores.NodesCores`, because each node's core list comes out in map
order. Instead it is proved to list that grouping: `Cores.ListsAll` says every node of the
grouping has a list in which each core appears once, with its threads.

The line loop `Memory.ScanMemInfo` is proved equal to the recursive `Memory.ScanFrom`.

The two loops over maps (`for k, v := range m`) are proved against predicates instead, because
Go fixes no order for them:

- `Cores.FlattenCores` ends with `Cores.Lists`: every core of the grouping appears once, with
  its threads, in whatever order the loop picked.
- `Topology.JoinNodes` ends with `Folds.Enumerates` over the memory map's keys and with
  `Topology.AllBuilt`.

Lemmas then state what the specification functions and predicates mean.

Modules, leaf first:

| module | file | models |
|---|---|---|
| `Wrappers` | wrappers.dfy | `Option`, `Result` |
| `Folds` | folds.dfy | the generic folds and their lemmas; `Enumerates`, which says a sequence lists a set's keys once each, in the order a Go `range` over a map may take |
| `GoStrings` | strings.dfy | `strings.HasPrefix`, `Contains`, `Split`, `Trim`, `TrimSpace` and the single `Replace` |
| `Strconv` | strconv.dfy | `strconv.Atoi`, and `Itoa` as its partner |
| `SysFs` | sysfs.dfy | the filesystem value, `path.Join`/`path.Base`, `ExistsDir` |
| `Directories` | directories.dfy | `ListDir`, `GetNumaNodeDirs` |
| `Memory` | memory.dfy | `GetNodesMemoryInfo` |
| `Cores` | cores.dfy | `CPUInfo`, `GetNodesCoresInfo` |
| `Nics` | nics.dfy | `GetNodesNicsInfo` |
| `Topology` | topology.dfy | `NUMATopology`, `GetNumaTopology` |

Behaviour of the code worth knowing, which the model follows:

- `ListDir` keeps every child that is a directory or a symbolic link and still exists when
  followed. That includes a link to a regular file.
- The memory scan keeps the *last* line that mentions `MemTotal`, not the first, as one might expect. A `MemTotal`
  line without a colon makes `strings.Split(line, ":")[1]` panic. The model returns
  `IndexOutOfRange` for it, and `GetNumaTopology` passes that on as `Panicked`.
- Only the first space of the memory value is removed (`strings.Replace(value, " ", "", 1)`).
- A `cpu…` thread directory whose suffix is not a number aborts the core scan. A `core_id`
  that does not parse counts as core 0, because the error is discarded.
- The cores of a node are listed in map order, which is no fixed order. Node ids and thread
  ids may carry a sign, because `Atoi` accepts one.
- The interface scan never excludes a node value. Its guard `err != nil && numaNode < 0`
  cannot hold for a syntax error, since `Atoi` then yields 0. So an interface reading -1
  ("no affinity") is kept under -1, and unparseable content is kept under node 0
  (`Nics.DecimalNodeKept`, `Nics.UnparseableNodeIsZero`).
- An unreadable `/sys/class/net/` gives a nil map and no error. A missing one gives an empty
  map.
- Two node directories with the same id (`node1`, `node01`) overwrite each other: the last
  one wins.

## Model

| member | source | states |
|---|---|---|
| `SysFs.ExistsDir` | numautils.go:15-20 | false exactly for a path absent from the tree, i.e. one `os.Stat` reports as not existing; true for every directory and file, readable or not, and for a path whose `stat` fails for another reason |
| `SysFs.MissingCannotBeRead` | numautils.go:15-20 | a path `ExistsDir` rejects can be neither listed nor read |
| `Directories.ListDir` | numautils.go:23-40 | fails exactly when the directory cannot be read; otherwise the kept children in listing order, each an existing path one level below `dir` |
| `Directories.KeptChildrenExactly` | numautils.go:30-38 | a path is listed iff it is `dir/name` for a child that is a directory or a link and exists |
| `Directories.KeptChildrenInOrder` | numautils.go:30-38 | the children of an earlier part of the listing come first, in order |
| `Directories.GetNumaNodeDirs` | numautils.go:43-61 | returns `NodeDirectories`: NotFound for a missing root, the listing error, or the listed children named `node…` in order |
| `Directories.NodeDirectoriesFailure` | numautils.go:46-53 | fails iff the root is missing or unreadable, with NotFound for a missing root |
| `Directories.NodeDirectoriesExactly` | numautils.go:54-58 | a path is returned iff `ListDir` lists it and its name starts with `node` |
| `Directories.NoNodeDirectoriesIsEmpty` | numautils.go:54-60 | a readable root without `node…` children gives the empty list, not an error |
| `GoStrings.IndexOf` | numautils.go:88 | the first occurrence of a character, or the length when it does not occur |
| `GoStrings.Split` | numautils.go:84 | joining the pieces gives the input back; no piece holds the separator; there are two or more pieces iff the separator occurs |
| `GoStrings.SplitJoin` | numautils.go:84 | splitting undoes joining pieces that hold no separator |
| `GoStrings.SplitSecondPiece` | numautils.go:88 | piece `[1]` is the text between the first and second separator |
| `GoStrings.TrimLeft` | numautils.go:88 | drops exactly the longest prefix of cut characters |
| `GoStrings.TrimRight` | numautils.go:88 | drops exactly the longest suffix of cut characters |
| `GoStrings.Trim` | numautils.go:88 | an infix of the input, neither end in the cut set, and everything removed is in the cut set |
| `GoStrings.RemoveFirst` | numautils.go:91 | the input with its first space deleted, or unchanged when there is none |
| `Strconv.Atoi` | numautils.go:75 | a failed parse yields 0; a negative result needs a leading `-` |
| `Strconv.AtoiFormatInt` | numautils.go:75 | parsing the decimal form of any integer gives it back without error |
| `Memory.ScanMemInfo` | numautils.go:84-90 | the line loop computes `MemTotalText`, stopping at the first panicking line |
| `Memory.ScanPanicsIff` | numautils.go:86-88 | the scan panics iff some `MemTotal` line has no colon |
| `Memory.ScanNoMatch` | numautils.go:85-90 | with no `MemTotal` line the value stays empty |
| `Memory.ScanLastWins` | numautils.go:86-89 | the last `MemTotal` line decides the value: its text between the first and second colon, spaces trimmed |
| `Memory.NodeMemory` | numautils.go:70-95 | skips exactly the directories not named `node…`; a kept entry is keyed by the directory's id |
| `Memory.ReadNodeMemory` | numautils.go:71-95 | skips exactly the directories not named `node…`; fails exactly on a non-numeric id, an unreadable `meminfo`, a panicking `MemTotal` line or a failed conversion; otherwise yields the id and `ByteSize(ToBytes(...))` of the scanned value with its first space removed |
| `Memory.GetNodesMemoryInfo` | numautils.go:64-98 | returns `NodesMemory`: the first failing node aborts with its error, else the map of all node sizes |
| `Memory.MemoryFailsIff` | numautils.go:66-96 | the call fails iff the node directories cannot be listed or some node directory's iteration fails |
| `Memory.NodeMemoryFailsIff` | numautils.go:75-94 | a node fails iff its id does not parse, `meminfo` is unreadable, the scan panics or the conversion fails |
| `Memory.MemoryKeys` | numautils.go:70-96 | on success the keys are exactly the ids of the `node…` directories |
| `Memory.MemoryLastWins` | numautils.go:95 | on success a node's size is `ByteSize(ToBytes(value with its first space removed))` from the last directory carrying its id |
| `Cores.CoreIdOf` | numautils.go:141 | the parsed `core_id`, or 0 when it does not parse |
| `Cores.ThreadCore` | numautils.go:128-142 | skips exactly the directories not named `cpu…`; fails exactly on a non-numeric thread id or an unreadable `core_id`, so content that does not parse never fails; otherwise yields the core id and the thread id |
| `Cores.GroupThreads` | numautils.go:127-143 | the thread loop computes `CoreGroups`: the first failure aborts, else threads are grouped by core |
| `Cores.CoreGroupsFailsIff` | numautils.go:127-140 | the grouping fails iff some thread directory fails |
| `Cores.CoreGroupsThreads` | numautils.go:141-142 | core `c`'s slice holds exactly the ids of the thread directories whose `core_id` reads `c`, in listing order |
| `Cores.CoreGroupsKeys` | numautils.go:142 | a core id is a key iff some thread directory reports it |
| `Cores.CoreGroupsNonEmpty` | numautils.go:142-147 | every core of a successful grouping has at least one thread, so no `ThreadSiblings` slice is empty |
| `Cores.FlattenCores` | numautils.go:144-150 | the `range` over the core map lists every core once, in any order, each with its threads |
| `Cores.NodeCores` | numautils.go:113-151 | skips exactly the directories not named `node…`; fails exactly on a non-numeric id, an unlistable node directory or a failing thread grouping; otherwise yields the id and that grouping |
| `Cores.ReadNodeCores` | numautils.go:113-151 | one iteration of the node loop: fails as `NodeCores` fails, else the id and a list of the grouping |
| `Cores.GetNodesCoresInfo` | numautils.go:106-154 | fails iff `NodesCores` fails, with its error; on success one core list per node, each listing its grouping |
| `Cores.NodesCoresFailsIff` | numautils.go:108-140 | the call fails iff the node directories cannot be listed or some node directory's iteration fails |
| `Cores.NodesCoresKeys` | numautils.go:115-151 | on success the keys are exactly the ids of the `node…` directories |
| `Cores.NodesCoresLastWins` | numautils.go:151 | on success a node's grouping comes from the last directory carrying its id |
| `Nics.NicSample` | numautils.go:166-181 | skips an interface iff it has no `device` directory or an unreadable `numa_node`; a kept one is keyed by the parsed content, so the guard never skips |
| `Nics.NicsOf` | numautils.go:157-187 | nil iff the root exists but cannot be listed; empty for a missing root |
| `Nics.GetNodesNicsInfo` | numautils.go:157-187 | never returns an error; the map is `NicsOf` |
| `Nics.NicsOfNode` | numautils.go:182 | node `n`'s slice names exactly the listed interfaces whose `numa_node` reads `n`, in listing order |
| `Nics.NicsKeys` | numautils.go:166-182 | a node is a key iff some listed interface reports it |
| `Nics.DecimalNodeKept` | numautils.go:177-182 | an interface whose `numa_node` holds `n`, -1 included, is kept under `n` |
| `Nics.UnparseableNodeIsZero` | numautils.go:177-182 | an interface whose `numa_node` does not parse is kept under 0 |
| `Topology.JoinNodes` | numautils.go:215-223 | one record per memory node, each once, in any order; the record has the node's size, its interfaces or the empty list, and its cores or the empty list |
| `Topology.BuiltJoined` | numautils.go:215-222 | records built from core lists that list their groupings carry lists of those groupings |
| `Topology.GetNumaTopology` | numautils.go:197-225 | fails iff memory or cores fail, memory first; a memory panic is passed on; otherwise the records describe every memory node once with its size, interfaces and cores |
| `Topology.MemoryAndCoresSameNodes` | numautils.go:198-207 | when both succeed, memory and cores have the same nodes |
| `Folds.CollectStopsAt` | numautils.go:75-77 | the first failing step's error is the one returned |
| `Folds.CollectFailsIff` | numautils.go:75-77 | a scan fails iff some step fails |
| `Folds.GroupBucket` | numautils.go:142 | appending by key leaves each key with exactly its values, in order |
| `Folds.ToMapLastWins` | numautils.go:95 | storing by key leaves each key with the value of its last pair |
| `Folds.EnumeratesAppend` | numautils.go:144-150 | visiting one more unvisited key extends an enumeration of the visited keys |

## Left out

- Real I/O is left out. The filesystem is a value that cannot change during a call, and
  symbolic links are resolved in advance: a dangling link is a listed entry whose path is
  absent.
- The sorting done by `ioutil.ReadDir` is left out. A stored listing is taken to be in the
  order `ReadDir` returns.
- `bytefmt.ToBytes` and `bytefmt.ByteSize` are parameters of the model. `code.cloudfoundry.org/bytefmt`
  is not part of this model, so its parsing and rounding are not modelled.
- Integer range is not modelled. `Atoi` works on unbounded integers and has no out-of-range
  error, so:
  - an id beyond 64 bits parses instead of failing;
  - `int64(node)` is the identity;
  - the interface guard could fire in Go only for an out-of-range negative number, and that
    case is not modelled.
- Go strings are byte strings; the model treats text as a sequence of characters. `TrimSpace`
  uses `unicode.IsSpace`'s set of characters.
- Go's error values and messages collapse into `SysFs.Error` and `Topology.TopologyError`.
- The panic exits the program in Go. In the model it is an error value.
- `CPUInfo` and `NUMATopology` records are values rather than pointers. Nothing changes them
  after they are built, so aliasing does not arise.
- Map iteration order is a nondeterministic choice. The contracts hold for every order and
  do not pin one down.
- The `GetNodesNicsInfo` error check in `GetNumaTopology` (numautils.go:210-213) is proved
  dead, because that function never returns an error. `TopologyError.NicsUnavailable` is
  therefore never produced.
- example/main.go only prints the topology and is not part of this model.
