/** `GetNodesMemoryInfo`: the total memory of each NUMA node, read from its `meminfo` file.
    `toBytes` and `byteSize` stand for `bytefmt.ToBytes` and `bytefmt.ByteSize`. */
module Memory {
  import opened Wrappers
  import opened Folds
  import opened GoStrings
  import opened Strconv
  import opened SysFs
  import opened Directories

  /** A line that mentions `MemTotal`, such as `Node 0 MemTotal:       32894980 kB`. */
  predicate IsMemTotal(line: string)
  {
    Contains(line, "MemTotal")
  }

  /** The value of a `MemTotal` line: `strings.Trim(strings.Split(line, ":")[1], " ")`;
      indexing the second piece panics when the line has no colon. */
  function MemTotalField(line: string): Outcome<string>
  {
    if ':' in line then Success(Trim(Split(line, ':')[1], {' '}))
    else Failure(IndexOutOfRange(line))
  }

  /** The scan of the `meminfo` lines: `value` starts empty and every `MemTotal` line
      overwrites it; the scan stops at the first such line that panics. */
  function ScanFrom(value: string, lines: seq<string>): Outcome<string>
    decreases |lines|
  {
    if lines == [] then Success(value)
    else if IsMemTotal(lines[0]) then
      match MemTotalField(lines[0])
      case Failure(e) => Failure(e)
      case Success(v) => ScanFrom(v, lines[1..])
    else ScanFrom(value, lines[1..])
  }

  /** The text of a `meminfo` file that the scan settles on. */
  function MemTotalText(content: string): Outcome<string>
  {
    ScanFrom("", Split(content, '\n'))
  }

  /** The loop of `GetNodesMemoryInfo` over the lines of one `meminfo` file. */
  method ScanMemInfo(content: string) returns (r: Outcome<string>)
    ensures r == MemTotalText(content)
  {
    var lines := Split(content, '\n');
    var value := "";
    for i := 0 to |lines|
      invariant ScanFrom("", lines) == ScanFrom(value, lines[i..])
    {
      assert lines[i..][1..] == lines[i + 1..];
      if Contains(lines[i], "MemTotal") {
        if ':' !in lines[i] {
          return Failure(IndexOutOfRange(lines[i]));
        }
        value := Trim(Split(lines[i], ':')[1], {' '});
      }
    }
    return Success(value);
  }

  /** The scan panics exactly when some `MemTotal` line has no colon. */
  lemma {:induction false} ScanPanicsIff(value: string, lines: seq<string>)
    ensures ScanFrom(value, lines).Failure? <==>
              exists i | 0 <= i < |lines| :: IsMemTotal(lines[i]) && ':' !in lines[i]
    decreases |lines|
  {
    if lines != [] {
      var v := if IsMemTotal(lines[0]) && ':' in lines[0] then MemTotalField(lines[0]).value else value;
      ScanPanicsIff(v, lines[1..]);
      if exists i | 0 <= i < |lines| :: IsMemTotal(lines[i]) && ':' !in lines[i] {
        var i :| 0 <= i < |lines| && IsMemTotal(lines[i]) && ':' !in lines[i];
        if i > 0 {
          assert lines[1..][i - 1] == lines[i];
        }
      }
      if exists i | 0 <= i < |lines[1..]| :: IsMemTotal(lines[1..][i]) && ':' !in lines[1..][i] {
        var i :| 0 <= i < |lines[1..]| && IsMemTotal(lines[1..][i]) && ':' !in lines[1..][i];
        assert lines[i + 1] == lines[1..][i];
      }
    }
  }

  /** Without a `MemTotal` line the value stays as it was (the empty string, from the start). */
  lemma {:induction false} ScanNoMatch(value: string, lines: seq<string>)
    requires forall i | 0 <= i < |lines| :: !IsMemTotal(lines[i])
    ensures ScanFrom(value, lines) == Success(value)
  {
    if lines != [] {
      assert forall i | 0 <= i < |lines[1..]| :: lines[1..][i] == lines[i + 1];
      ScanNoMatch(value, lines[1..]);
    }
  }

  /** The last `MemTotal` line wins: after a successful scan, the value is that line's text
      between its first and second colon, with surrounding spaces trimmed. */
  lemma {:induction false} ScanLastWins(value: string, lines: seq<string>, i: nat)
    requires i < |lines| && IsMemTotal(lines[i])
    requires forall j | i < j < |lines| :: !IsMemTotal(lines[j])
    requires ScanFrom(value, lines).Success?
    ensures ':' in lines[i]
    ensures ScanFrom(value, lines).value == Trim(UpTo(After(lines[i], ':'), ':'), {' '})
    decreases i
  {
    var rest := lines[1..];
    assert forall j | 0 <= j < |rest| :: rest[j] == lines[j + 1];
    if i == 0 {
      assert ':' in lines[0];
      var v := MemTotalField(lines[0]).value;
      ScanNoMatch(v, rest);
      SplitSecondPiece(lines[0], ':');
    } else {
      var v := if IsMemTotal(lines[0]) then MemTotalField(lines[0]).value else value;
      ScanLastWins(v, rest, i - 1);
    }
  }

  /** The text handed to `bytefmt.ToBytes`: the `MemTotal` value with its first space deleted. */
  function ConversionInput(value: string): string
  {
    RemoveFirst(value, ' ')
  }

  /** One iteration of the loop of `GetNodesMemoryInfo` over the node directories:
      the node id and the formatted size, `None` for a directory it skips. */
  function NodeMemory(fs: FileSystem, toBytes: string -> Option<nat>, byteSize: nat -> string, d: Path)
    : (r: Outcome<Option<(int, string)>>)
    ensures r.Success? && r.value.Some? ==> IsNodeDir(d) && NodeIdOf(d).ok && r.value.value.0 == NodeIdOf(d).value
    ensures r.Success? && r.value.None? <==> !IsNodeDir(d)
  {
    if !IsNodeDir(d) then Success(None)
    else if !NodeIdOf(d).ok then Failure(SyntaxError(Base(d)[4..]))
    else match ReadFile(fs, d + ["meminfo"])
      case None => Failure(ReadFailure(d + ["meminfo"]))
      case Some(content) =>
        match MemTotalText(content)
        case Failure(e) => Failure(e)
        case Success(value) =>
          match toBytes(ConversionInput(value))
          case None => Failure(ConversionFailure(ConversionInput(value)))
          case Some(bytes) => Success(Some((NodeIdOf(d).value, byteSize(bytes))))
  }

  function NodeMemoryStep(fs: FileSystem, toBytes: string -> Option<nat>, byteSize: nat -> string)
    : Path -> Outcome<Option<(int, string)>>
  {
    d => NodeMemory(fs, toBytes, byteSize, d)
  }

  /** What `GetNodesMemoryInfo` returns. */
  function NodesMemory(fs: FileSystem, toBytes: string -> Option<nat>, byteSize: nat -> string)
    : Outcome<map<int, string>>
  {
    match NodeDirectories(fs)
    case Failure(e) => Failure(e)
    case Success(dirs) =>
      match Collect(dirs, NodeMemoryStep(fs, toBytes, byteSize))
      case Failure(e) => Failure(e)
      case Success(sizes) => Success(ToMap(sizes))
  }

  /** The body of the loop of `GetNodesMemoryInfo` for one node directory: it skips a
      directory not named `node…`; fails on a non-numeric id, an unreadable `meminfo`, a
      panicking `MemTotal` line or a failed conversion; and otherwise yields the node id and
      the formatted size of the last `MemTotal` value with its first space deleted. */
  method ReadNodeMemory(fs: FileSystem, toBytes: string -> Option<nat>, byteSize: nat -> string, numaNodeDir: Path)
    returns (r: Outcome<Option<(int, string)>>)
    ensures r == NodeMemory(fs, toBytes, byteSize, numaNodeDir)
    ensures r == Success(None) <==> !IsNodeDir(numaNodeDir)
    ensures var memInfo := ReadFile(fs, numaNodeDir + ["meminfo"]);
            r.Failure? <==>
              && IsNodeDir(numaNodeDir)
              && (|| !NodeIdOf(numaNodeDir).ok
                  || memInfo.None?
                  || MemTotalText(memInfo.value).Failure?
                  || toBytes(ConversionInput(MemTotalText(memInfo.value).value)).None?)
    ensures var memInfo := ReadFile(fs, numaNodeDir + ["meminfo"]);
            r.Success? && r.value.Some? ==>
              && memInfo.Some? && MemTotalText(memInfo.value).Success?
              && toBytes(ConversionInput(MemTotalText(memInfo.value).value)).Some?
              && r.value.value ==
                   (NodeIdOf(numaNodeDir).value, byteSize(toBytes(ConversionInput(MemTotalText(memInfo.value).value)).value))
  {
    var baseNumaNodeDir := Base(numaNodeDir);
    if !HasPrefix(baseNumaNodeDir, "node") {
      return Success(None);
    }
    var numaNodeId := Atoi(baseNumaNodeDir[4..]);
    if !numaNodeId.ok {
      return Failure(SyntaxError(baseNumaNodeDir[4..]));
    }
    var memInfoFileName := numaNodeDir + ["meminfo"];
    var memInfo := ReadFile(fs, memInfoFileName);
    if memInfo.None? {
      return Failure(ReadFailure(memInfoFileName));
    }
    var value := ScanMemInfo(memInfo.value);
    if value.Failure? {
      return Failure(value.error);
    }
    var bytesVal := toBytes(RemoveFirst(value.value, ' '));
    if bytesVal.None? {
      return Failure(ConversionFailure(RemoveFirst(value.value, ' ')));
    }
    return Success(Some((numaNodeId.value, byteSize(bytesVal.value))));
  }

  /** Gets the total memory of each NUMA node; the first failure aborts the whole call. */
  method GetNodesMemoryInfo(fs: FileSystem, toBytes: string -> Option<nat>, byteSize: nat -> string)
    returns (r: Outcome<map<int, string>>)
    ensures r == NodesMemory(fs, toBytes, byteSize)
  {
    var ram: map<int, string> := map[];
    var listed := GetNumaNodeDirs(fs);
    if listed.Failure? {
      return Failure(listed.error);
    }
    var dirs := listed.value;
    ghost var step := NodeMemoryStep(fs, toBytes, byteSize);
    ghost var sizes: seq<(int, string)> := [];
    for i := 0 to |dirs|
      invariant Collect(dirs[..i], step) == Success(sizes)
      invariant ram == ToMap(sizes)
    {
      var entry := ReadNodeMemory(fs, toBytes, byteSize, dirs[i]);
      if entry.Failure? {
        CollectStopsAt(dirs, step, i);
        return Failure(entry.error);
      }
      CollectExtend(dirs, step, i, sizes);
      if entry.value.Some? {
        ram := ram[entry.value.value.0 := entry.value.value.1];
        ToMapAppend(sizes, entry.value.value);
        sizes := sizes + [entry.value.value];
      }
    }
    assert dirs[..|dirs|] == dirs;
    return Success(ram);
  }

  /** The call fails, with no map, exactly when the node directories cannot be listed or the
      step of some node directory fails. */
  lemma {:induction false} MemoryFailsIff(fs: FileSystem, toBytes: string -> Option<nat>, byteSize: nat -> string)
    ensures NodesMemory(fs, toBytes, byteSize).Failure? <==>
              || NodeDirectories(fs).Failure?
              || exists i | 0 <= i < |NodeDirectories(fs).value| ::
                   NodeMemory(fs, toBytes, byteSize, NodeDirectories(fs).value[i]).Failure?
  {
    if NodeDirectories(fs).Success? {
      CollectFailsIff(NodeDirectories(fs).value, NodeMemoryStep(fs, toBytes, byteSize));
    }
  }

  /** A node directory's step fails exactly when its name has a non-numeric suffix, its
      `meminfo` cannot be read, a `MemTotal` line panics, or the conversion fails. */
  lemma NodeMemoryFailsIff(fs: FileSystem, toBytes: string -> Option<nat>, byteSize: nat -> string, d: Path)
    requires IsNodeDir(d)
    ensures NodeMemory(fs, toBytes, byteSize, d).Failure? <==>
              || !NodeIdOf(d).ok
              || ReadFile(fs, d + ["meminfo"]).None?
              || MemTotalText(ReadFile(fs, d + ["meminfo"]).value).Failure?
              || toBytes(ConversionInput(MemTotalText(ReadFile(fs, d + ["meminfo"]).value).value)).None?
  {
  }

  /** After success, the nodes in the map are exactly the ids of the node directories. */
  lemma {:induction false} MemoryKeys(fs: FileSystem, toBytes: string -> Option<nat>, byteSize: nat -> string, k: int)
    requires NodesMemory(fs, toBytes, byteSize).Success?
    ensures var dirs := NodeDirectories(fs).value;
            k in NodesMemory(fs, toBytes, byteSize).value <==>
              exists i | 0 <= i < |dirs| :: IsNodeDir(dirs[i]) && NodeIdOf(dirs[i]).value == k
  {
    var dirs := NodeDirectories(fs).value;
    var step := NodeMemoryStep(fs, toBytes, byteSize);
    CollectToMapKeys(dirs, step, k);
    CollectFailsIff(dirs, step);
    if exists i | 0 <= i < |dirs| :: StoresKey(step(dirs[i]), k) {
      var i :| 0 <= i < |dirs| && StoresKey(step(dirs[i]), k);
      assert IsNodeDir(dirs[i]) && NodeIdOf(dirs[i]).value == k;
    }
    if exists i | 0 <= i < |dirs| :: IsNodeDir(dirs[i]) && NodeIdOf(dirs[i]).value == k {
      var i :| 0 <= i < |dirs| && IsNodeDir(dirs[i]) && NodeIdOf(dirs[i]).value == k;
      assert StoresKey(step(dirs[i]), k);
    }
  }

  /** After success, a node's size comes from the last node directory with its id: the
      formatted conversion of that directory's `MemTotal` text with its first space deleted. */
  lemma {:induction false} MemoryLastWins(fs: FileSystem, toBytes: string -> Option<nat>, byteSize: nat -> string, i: nat)
    requires NodesMemory(fs, toBytes, byteSize).Success?
    requires i < |NodeDirectories(fs).value| && IsNodeDir(NodeDirectories(fs).value[i])
    requires var dirs := NodeDirectories(fs).value;
             forall j | i < j < |dirs| ::
               IsNodeDir(dirs[j]) ==> NodeIdOf(dirs[j]).value != NodeIdOf(dirs[i]).value
    ensures var d := NodeDirectories(fs).value[i];
            var ram := NodesMemory(fs, toBytes, byteSize).value;
            && ReadFile(fs, d + ["meminfo"]).Some?
            && MemTotalText(ReadFile(fs, d + ["meminfo"]).value).Success?
            && toBytes(ConversionInput(MemTotalText(ReadFile(fs, d + ["meminfo"]).value).value)).Some?
            && NodeIdOf(d).value in ram
            && ram[NodeIdOf(d).value] ==
                 byteSize(toBytes(ConversionInput(MemTotalText(ReadFile(fs, d + ["meminfo"]).value).value)).value)
  {
    var dirs := NodeDirectories(fs).value;
    var step := NodeMemoryStep(fs, toBytes, byteSize);
    CollectFailsIff(dirs, step);
    assert step(dirs[i]).Success?;
    CollectToMapLastWins(dirs, step, i);
  }
}
