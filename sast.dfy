/**
 * ConfigureSemgrep and RunSemgrep: where the semgrep binary and its flag file
 * are looked for, how the FLAGS= line becomes flags, and the argument vector
 * of a scan, and the output file a scan leaves. Processes are parameters:
 * whether pip installs semgrep, and how a started semgrep ends and what it
 * writes to its output file.
 */
module Sast {
  import opened Wrappers
  import opened GoStrings
  import opened GoPath
  import opened FileSystem

  /** One element of semgrep's "results", with the nested start, end and extra fields flattened. */
  datatype SemgrepResult = SemgrepResult(checkID: string, path: string, startLine: int, endLine: int,
                                         lines: string, message: string, impact: string)

  /** The characters strings.TrimRight(outDir, "/scans") strips: a set, not a suffix. */
  const ScansCutset: set<char> := {'/', 's', 'c', 'a', 'n'}

  const FlagsPrefix: string := "FLAGS="

  /** The flags used when no flag file exists. */
  const AutoConfig: seq<string> := ["--config", "auto"]

  function LocalBinPath(home: string): string {
    JoinAll([home, ".local", "bin"])
  }

  function BinaryPath(home: string, semgrepPath: string): string {
    if semgrepPath == "" then Clean(Join(LocalBinPath(home), "semgrep")) else semgrepPath
  }

  function DefaultConfigPath(outDir: string): string {
    Clean(Join(TrimRight(outDir, ScansCutset), "sastsweep.conf"))
  }

  /** strings.SplitN(s, [c], 2) */
  function SplitOnce(s: string, c: char): (r: seq<string>)
    ensures c !in s ==> r == [s]
    ensures c in s ==> |r| == 2 && r[0] + [c] + r[1] == s && c !in r[0]
  {
    if c !in s then [s]
    else
      var i := FirstIndexOf(s, c);
      assert s[..i] + [c] + s[i + 1..] == s;
      [s[..i], s[i + 1..]]
  }

  /** The flags after scanning `lines`: those of the first FLAGS= line, split on single spaces, else `current`. */
  function FlagsFrom(lines: seq<string>, current: seq<string>): seq<string> {
    if lines == [] then current
    else if HasPrefix(lines[0], FlagsPrefix) then SplitChar(lines[0][6..], ' ')
    else FlagsFrom(lines[1..], current)
  }

  /** The scanner loop of ConfigureSemgrep: the first FLAGS= line's value, split on single spaces. */
  method ScanFlags(lines: seq<string>, current: seq<string>) returns (flags: seq<string>)
    ensures flags == FlagsFrom(lines, current)
  {
    flags := current;
    var i := 0;
    while i < |lines|
      invariant 0 <= i <= |lines|
      invariant FlagsFrom(lines, current) == FlagsFrom(lines[i..], current)
    {
      var line := lines[i];
      if !HasPrefix(line, FlagsPrefix) {
        assert lines[i..][1..] == lines[i + 1..];
        i := i + 1;
        continue;
      }
      var parts := SplitOnce(line, '=');
      FlagsLineValue(line);
      flags := SplitChar(parts[1], ' ');
      break;
    }
  }

  /** Why ConfigureSemgrep returned an error. */
  datatype ConfigError = NoHomeDir | InstallFailed | ConfigStatFailed

  /** How semgrep, once asked to start, ends. */
  datatype Exec = NotStarted | ExitedWithError | Exited

  /**
   * A semgrep process: how it ends, and the bytes it writes to the file named
   * after --output (None where it writes none).
   */
  datatype Ran = Ran(status: Exec, output: Option<seq<byte>>)

  datatype RunError = StartFailed | WaitFailed | UnmarshalFailed

  function OutputFile(outDir: string, id: string): string {
    outDir + "/output-" + id + ".json"
  }

  /** The disk after semgrep wrote `output` to the file `key`, which it can only where os.Create could. */
  function Leaves(fs: Tree, key: string, output: Option<seq<byte>>): (r: Tree)
    ensures forall k :: k != key ==> (k in r <==> k in fs) && (k in r ==> r[k] == fs[k])
  {
    if output.Some? && OpenSucceeds(fs, key) then Created(fs, key, output.value) else fs
  }

  /**
   * What RunSemgrep returns and leaves on the disk once the process `ran`
   * with output file `outFile` (the disk is keyed by cleaned paths): a
   * process that did not start changed nothing; one that exited with an
   * error leaves what it wrote; after a clean exit the file is read, decoded
   * and removed.
   */
  function Collected(fs: Tree, outFile: string, ran: Ran, decode: seq<byte> -> Option<seq<SemgrepResult>>)
    : (Result<seq<SemgrepResult>, RunError>, Tree)
  {
    var key := Clean(outFile);
    match ran.status
    case NotStarted => (Err(StartFailed), fs)
    case ExitedWithError => (Err(WaitFailed), Leaves(fs, key, ran.output))
    case Exited =>
      var t := Leaves(fs, key, ran.output);
      var r := match decode(ReadFile(t, key))
               case Some(results) => Ok(results)
               case None => Err(UnmarshalFailed);
      (r, RemoveEntry(t, key))
  }

  /**
   * Only the output file changes. A run that exits with an error leaves the
   * output it wrote on the disk; a clean run decodes exactly what it wrote
   * and leaves no file behind.
   */
  lemma CollectedEffect(fs: Tree, outFile: string, ran: Ran, decode: seq<byte> -> Option<seq<SemgrepResult>>)
    ensures var (r, t) := Collected(fs, outFile, ran, decode);
      var key := Clean(outFile);
      (forall k :: k != key ==> (k in t <==> k in fs) && (k in t ==> t[k] == fs[k]))
      && (ran.status == NotStarted ==> r == Err(StartFailed) && t == fs)
      && (ran.status == ExitedWithError ==>
            r == Err(WaitFailed)
            && (ran.output.Some? && OpenSucceeds(fs, key) ==> key in t && t[key].File? && t[key].content == ran.output.value))
      && (ran.status == Exited && ran.output.Some? && OpenSucceeds(fs, key) ==>
            key !in t && (r.Ok? <==> decode(ran.output.value).Some?) && (r.Ok? ==> r.value == decode(ran.output.value).value))
      && (ran.status == Exited ==> r != Err(StartFailed) && r != Err(WaitFailed))
  {
    var key := Clean(outFile);
    var l := Leaves(fs, key, ran.output);
    if ran.status == Exited && ran.output.Some? && OpenSucceeds(fs, key) {
      assert l == Created(fs, key, ran.output.value);
      assert ReadFile(l, key) == ran.output.value;
    }
  }

  /** What RunSemgrep does once semgrep has been asked to start. */
  method Collect(disk: Disk, outFile: string, ran: Ran, decode: seq<byte> -> Option<seq<SemgrepResult>>)
    returns (r: Result<seq<SemgrepResult>, RunError>)
    modifies disk
    ensures (r, disk.nodes) == Collected(old(disk.nodes), outFile, ran, decode)
  {
    if ran.status == NotStarted {
      return Err(StartFailed);
    }
    var key := Clean(outFile);
    if ran.output.Some? {
      var ok := disk.Create(key);
      if ok {
        disk.WriteAtStart(key, ran.output.value);
      }
    }
    assert disk.nodes == Leaves(old(disk.nodes), key, ran.output);
    if ran.status == ExitedWithError {
      return Err(WaitFailed);
    }
    var fileBytes := ReadFile(disk.nodes, key);
    var json := decode(fileBytes);
    disk.Remove(key);
    if json.None? {
      return Err(UnmarshalFailed);
    }
    return Ok(json.value);
  }

  function Args(outFile: string, flags: seq<string>, sourcePath: string): seq<string> {
    ["--json", "--config", "p/python", "--output", outFile] + flags + [sourcePath]
  }

  /** The package variables localBinPath, semgrepBinaryPath and semgrepConfig. */
  class Semgrep {
    var localBinPath: string
    var binaryPath: string
    var config: seq<string>

    constructor ()
      ensures localBinPath == "" && binaryPath == "" && config == []
    {
      localBinPath := "";
      binaryPath := "";
      config := [];
    }

    /**
     * ConfigureSemgrep(outDir, configPath, semgrepPath) on the disk `fs`.
     * `home` is os.UserHomeDir, `pip3Ok` and `pipOk` whether the two install
     * attempts succeed, and `scan` the lines bufio.Scanner yields for a file's bytes.
     */
    method Configure(outDir: string, configPath: string, semgrepPath: string, home: Option<string>, fs: Tree,
                     pip3Ok: bool, pipOk: bool, scan: seq<byte> -> seq<string>) returns (r: Option<ConfigError>)
      modifies this
      ensures home.None? ==> r == Some(NoHomeDir) && unchanged(this)
      ensures home.Some? ==> localBinPath == LocalBinPath(home.value) && binaryPath == BinaryPath(home.value, semgrepPath)
      ensures r == Some(InstallFailed) <==> home.Some? && Stat(fs, BinaryPath(home.value, semgrepPath)).NotExist? && !pip3Ok && !pipOk
      ensures home.Some? && r != Some(InstallFailed) ==>
        var path := if configPath == "" then DefaultConfigPath(outDir) else configPath;
        match Stat(fs, path)
        case NotExist => r == None && config == AutoConfig
        case NotADirectory => r == Some(ConfigStatFailed) && config == old(config)
        case Found(node) => r == None && config == if node.File? then FlagsFrom(scan(node.content), old(config)) else old(config)
      ensures r == Some(InstallFailed) ==> config == old(config)
    {
      if home.None? {
        return Some(NoHomeDir);
      }
      var dirname := home.value;
      localBinPath := JoinAll([dirname, ".local", "bin"]);
      if semgrepPath == "" {
        binaryPath := Clean(Join(localBinPath, "semgrep"));
      }
      if semgrepPath != "" {
        binaryPath := semgrepPath;
      }
      var path := configPath;
      if path == "" {
        path := Clean(Join(TrimRight(outDir, ScansCutset), "sastsweep.conf"));
      }
      if Stat(fs, binaryPath).NotExist? {
        var retry := false;
        if !pip3Ok {
          retry := true;
        }
        if retry && !pipOk {
          return Some(InstallFailed);
        }
      }
      var st := Stat(fs, path);
      if st.NotExist? {
        config := AutoConfig;
        return None;
      } else if st.NotADirectory? {
        return Some(ConfigStatFailed);
      }
      if st.node.File? {
        config := ScanFlags(scan(st.node.content), config);
      }
      return None;
    }

    /**
     * RunSemgrep(sourcePath, outDir) with the fresh name `id` for uuid.New,
     * `exec` for starting semgrep and waiting for it, and `decode` for
     * json.Unmarshal.
     */
    method RunSemgrep(disk: Disk, sourcePath: string, outDir: string, id: Uuid,
                      exec: (string, seq<string>) -> Ran, decode: seq<byte> -> Option<seq<SemgrepResult>>)
      returns (r: Result<seq<SemgrepResult>, RunError>)
      modifies disk
      ensures var outFile := OutputFile(outDir, id);
        (r, disk.nodes) == Collected(old(disk.nodes), outFile, exec(binaryPath, Args(outFile, config, sourcePath)), decode)
    {
      var semgrepOutFile := outDir + "/output-" + id + ".json";
      var args := ["--json", "--config", "p/python", "--output", semgrepOutFile];
      args := args + config;
      args := args + [sourcePath];
      var run := exec(binaryPath, args);
      r := Collect(disk, semgrepOutFile, run, decode);
    }
  }

  /** The text after the first '=' of a FLAGS= line is everything after the prefix. */
  lemma FlagsLineValue(line: string)
    requires HasPrefix(line, FlagsPrefix)
    ensures '=' in line && SplitOnce(line, '=')[1] == line[6..]
  {
    assert line[5] == '=';
    assert '=' !in line[..5] by {
      assert line[..5] == "FLAGS";
    }
    FirstIndexOfUnique(line, '=', 5);
  }

  /** The first FLAGS= line decides the flags, and joining them with spaces gives back its value. */
  lemma {:induction false} FlagsFromFirst(lines: seq<string>, current: seq<string>, i: nat)
    requires i < |lines| && HasPrefix(lines[i], FlagsPrefix)
    requires forall j :: 0 <= j < i ==> !HasPrefix(lines[j], FlagsPrefix)
    ensures FlagsFrom(lines, current) == SplitChar(lines[i][6..], ' ')
    ensures JoinChar(FlagsFrom(lines, current), ' ') == lines[i][6..]
    decreases i
  {
    if i > 0 {
      assert !HasPrefix(lines[0], FlagsPrefix);
      FlagsFromFirst(lines[1..], current, i - 1);
    }
    SplitJoin(lines[i][6..], ' ');
  }

  /** With no FLAGS= line the flags stay as they were. */
  lemma {:induction false} FlagsFromNone(lines: seq<string>, current: seq<string>)
    requires forall j :: 0 <= j < |lines| ==> !HasPrefix(lines[j], FlagsPrefix)
    ensures FlagsFrom(lines, current) == current
  {
    if lines != [] {
      assert !HasPrefix(lines[0], FlagsPrefix);
      FlagsFromNone(lines[1..], current);
    }
  }

  /** Two spaces in a row in the value give an empty flag between the words around them. */
  lemma DoubleSpaceGivesEmptyFlag(x: string, y: string)
    ensures SplitChar(x + "  " + y, ' ') == SplitChar(x, ' ') + [""] + SplitChar(y, ' ')
  {
    var tail := [' '] + y;
    assert x + "  " + y == x + [' '] + tail by {}
    assert SplitChar(tail, ' ') == [""] + SplitChar(y, ' ') by {
      assert tail == "" + [' '] + y;
      SplitAppend("", y, ' ');
    }
    SplitAppend(x, tail, ' ');
  }

  /** The fixed options come first, the output file fifth, the flags in order after it, the source path last. */
  lemma ArgsLayout(outFile: string, flags: seq<string>, sourcePath: string)
    ensures var a := Args(outFile, flags, sourcePath);
      |a| == |flags| + 6 && a[..4] == ["--json", "--config", "p/python", "--output"]
      && a[4] == outFile && a[5..|a| - 1] == flags && a[|a| - 1] == sourcePath
  {
  }

  /** TrimRight of the cutset cuts any tail of cutset characters, not just a literal "/scans". */
  lemma {:induction false} TrimRightTail(d: string, tail: string, cutset: set<char>)
    requires forall i :: 0 <= i < |tail| ==> tail[i] in cutset
    ensures TrimRight(d + tail, cutset) == TrimRight(d, cutset)
    decreases |tail|
  {
    if tail != [] {
      var t := tail[..|tail| - 1];
      assert (d + tail)[..|d + tail| - 1] == d + t;
      assert (d + tail)[|d + tail| - 1] == tail[|tail| - 1];
      TrimRightTail(d, t, cutset);
    } else {
      assert d + tail == d;
    }
  }

  /** The flag file of out-dir "base/scans" is looked for in "base" when base ends in none of '/', 's', 'c', 'a', 'n'. */
  lemma DefaultConfigBeside(base: string)
    requires base != [] && base[|base| - 1] !in ScansCutset
    ensures DefaultConfigPath(base + "/scans") == Clean(Join(base, "sastsweep.conf"))
  {
    TrimRightTail(base, "/scans", ScansCutset);
  }

  /** An out-dir made only of cutset characters, such as "scans", leaves the flag file relative to the working directory. */
  lemma DefaultConfigAllCut(outDir: string)
    requires forall i :: 0 <= i < |outDir| ==> outDir[i] in ScansCutset
    ensures DefaultConfigPath(outDir) == "sastsweep.conf"
  {
    TrimRightTail("", outDir, ScansCutset);
    assert "" + outDir == outDir;
    PlainClean("sastsweep.conf");
  }
}
