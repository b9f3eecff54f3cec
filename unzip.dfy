/**
 * The archive extractor (UnzipBytes and isSafePath in common/util.go): the
 * entries of a ZIP archive are written below a destination directory, with
 * limits on the number of entries and on the declared uncompressed size, and
 * a per-entry path check before anything touches the disk.
 */
module Unzip {
  import opened Wrappers
  import opened GoStrings
  import opened GoPath
  import opened FileSystem

  const TwoTo63: int := 0x8000_0000_0000_0000
  const TwoTo64: int := 0x1_0000_0000_0000_0000

  type uint64 = x: int | 0 <= x < 0x1_0000_0000_0000_0000

  /** At most this many entries are accepted. */
  const MaxEntries: int := 500000
  /** The ceiling on the running uncompressed total: 60 GiB. */
  const MaxTotalSize: int := 1024 * 1024 * 1024 * 60
  /** The ceiling on the path depth as isSafePath measures it. */
  const MaxDepth: int := 100

  /** One archive entry: its name, its declared uncompressed size, whether it is a
      directory, and the bytes its reader yields (None when opening it fails). */
  datatype Entry = Entry(name: string, size: uint64, isDir: bool, stream: Option<seq<byte>>)

  /** What zip.NewReader makes of the input bytes. */
  datatype Archive = Malformed | Archive(entries: seq<Entry>)

  /** `a + b` on uint64: the sum wraps around at 2^64. */
  function AddU64(a: uint64, b: uint64): (r: uint64)
    ensures r == (a + b) % TwoTo64
    ensures r < a ==> a + b >= TwoTo64
  {
    if a + b < TwoTo64 then a + b else a + b - TwoTo64
  }

  /** int64(x): the same 64 bits read as a two's-complement number. */
  function ToInt64(x: uint64): (r: int)
    ensures -TwoTo63 <= r < TwoTo63
    ensures r <= x && (x - r) % TwoTo64 == 0
    ensures r < 0 <==> x >= TwoTo63
  {
    if x < TwoTo63 then x else x - TwoTo64
  }

  /** The bytes io.CopyN(out, reader, n) writes: at most `n` of them, none when n <= 0. */
  function Copied(data: seq<byte>, n: int): (r: seq<byte>)
    ensures r <= data
    ensures |r| == if n <= 0 then 0 else if n < |data| then n else |data|
  {
    if n <= 0 then [] else if n < |data| then data[..n] else data
  }

  /** fileExists: false when Stat says the path does not exist, otherwise whether it is
      not a directory. Any other Stat error leaves a nil FileInfo whose IsDir call
      panics: that is None here. */
  function FileExists(fs: Tree, p: string): (r: Option<bool>)
    ensures r.None? <==> Stat(fs, p) == NotADirectory
    ensures r == Some(true) <==> p in fs && fs[p].File?
    ensures r == Some(false) ==> p !in fs || fs[p].Directory?
  {
    match Stat(fs, p)
    case NotExist => Some(false)
    case NotADirectory => None
    case Found(node) => Some(!node.Directory?)
  }

  datatype Safety = Safe | Unsafe | Crash

  /** The depth isSafePath measures: one less than the number of PATH-list elements. */
  function Depth(path: string): int {
    |SplitList(path)| - 1
  }

  /** isSafePath(path, dest), its checks in the order the source makes them. */
  function IsSafePath(fs: Tree, path: string, dest: string): (r: Safety)
    ensures r == Safe ==> Depth(path) <= MaxDepth && !Contains(path, "..") && HasPrefix(path, Clean(dest) + "/")
    ensures r == Safe ==> path !in fs || fs[path].Directory?
  {
    if Depth(path) > MaxDepth then Unsafe
    else if Contains(path, "..") then Unsafe
    else match FileExists(fs, path)
      case None => Crash
      case Some(exists_) => if exists_ then Unsafe
        else if HasPrefix(path, Clean(dest) + "/") then Safe
        else Unsafe
  }

  /** isSafePath accepts exactly the paths that pass all four checks, and panics exactly
      when the first two pass and Stat fails with ENOTDIR. */
  lemma IsSafePathExact(fs: Tree, path: string, dest: string)
    ensures IsSafePath(fs, path, dest) == Safe <==>
      Depth(path) <= MaxDepth && !Contains(path, "..") &&
      (path !in fs || fs[path].Directory?) && Stat(fs, path) != NotADirectory &&
      HasPrefix(path, Clean(dest) + "/")
    ensures IsSafePath(fs, path, dest) == Crash <==>
      Depth(path) <= MaxDepth && !Contains(path, "..") && Stat(fs, path) == NotADirectory
  {
  }

  /** Entries skipped before they count towards the size total: names holding a UNC
      double backslash, and nested archives (extension ".zip" in any case). */
  predicate Skipped(e: Entry) {
    Contains(e.name, "\\\\") || ToLower(Ext(e.name)) == ".zip"
  }

  /** Where an entry is written. */
  function EntryPath(dest: string, e: Entry): string {
    Clean(Join(dest, e.name))
  }

  /** The file content a safe file entry leaves behind. */
  function WrittenContent(e: Entry): (r: seq<byte>)
    requires e.stream.Some?
    ensures r <= e.stream.value && |r| <= e.size
    ensures e.size >= TwoTo63 ==> r == []
  {
    Copied(e.stream.value, ToInt64(e.size))
  }

  /** The effect of one entry that passed isSafePath. Failures of Mkdir, of opening
      the entry and of OpenFile are logged and the entry skipped. */
  function WriteEntry(fs: Tree, path: string, e: Entry): (r: Tree)
    ensures forall k :: k in fs ==> k in r
    ensures forall k :: k in r && k != path ==> k in fs && r[k] == fs[k]
  {
    if e.isDir then
      if MkdirSucceeds(fs, path) then fs[path := Directory(DirPerm)] else fs
    else if e.stream.None? || !OpenSucceeds(fs, path) then fs
    else
      var f := Opened(fs, path, FilePerm);
      f[path := File(f[path].perm, Overwrite(f[path].content, WrittenContent(e)))]
  }

  /** An existing directory is left alone; a new node is a 0700 directory for a
      directory entry, or a 0600 file holding what CopyN wrote for a file entry. */
  lemma WriteEntryEffect(fs: Tree, path: string, e: Entry)
    ensures path in fs && fs[path].Directory? ==> WriteEntry(fs, path, e) == fs
    ensures var r := WriteEntry(fs, path, e);
      path !in fs && path in r ==>
        (e.isDir && r[path] == Directory(DirPerm)) ||
        (!e.isDir && e.stream.Some? && r[path] == File(FilePerm, WrittenContent(e)))
  {
  }

  /** A safe file entry whose path is free is created with exactly what CopyN wrote. */
  lemma NewFileWritten(fs: Tree, path: string, e: Entry)
    requires !e.isDir && e.stream.Some? && OpenSucceeds(fs, path) && path !in fs
    ensures WriteEntry(fs, path, e) == fs[path := File(FilePerm, WrittenContent(e))]
  {
    assert Opened(fs, path, FilePerm) == fs[path := File(FilePerm, [])];
  }

  /** The extractor's state after some entries: still running with the tree and the
      uint64 running total, stopped by the size ceiling, or stopped by a panic. */
  datatype Progress = Running(fs: Tree, total: uint64) | Aborted(fs: Tree) | Crashed(fs: Tree)

  /** What the loop does with an entry that counts, once the new total is within the
      ceiling: skip it as unsafe, panic inside fileExists, or write it. */
  function Place(fs: Tree, total: uint64, e: Entry, dest: string): (r: Progress)
    ensures r.Running? || r.Crashed?
    ensures r.Running? ==> r.total == total
    ensures r.Crashed? ==> r.fs == fs
  {
    var path := EntryPath(dest, e);
    match IsSafePath(fs, path, dest)
    case Unsafe => Running(fs, total)
    case Crash => Crashed(fs)
    case Safe => Running(WriteEntry(fs, path, e), total)
  }

  /** One iteration of the extraction loop. */
  function Step(p: Progress, e: Entry, dest: string): Progress {
    if !p.Running? || Skipped(e) then p
    else
      var total := AddU64(p.total, e.size);
      if total > MaxTotalSize then Aborted(p.fs) else Place(p.fs, total, e, dest)
  }

  /** The loop over the first |entries| entries. */
  function Run(fs: Tree, entries: seq<Entry>, dest: string): Progress
    decreases |entries|
  {
    if entries == [] then Running(fs, 0)
    else Step(Run(fs, entries[..|entries| - 1], dest), entries[|entries| - 1], dest)
  }

  datatype Failure = ReaderError | TooManyFiles(count: nat) | TooLarge

  datatype Outcome = Extracted | Failed(why: Failure) | Panicked

  /** UnzipBytes(zipBytes, dest): the returned error and the resulting disk. */
  function Unzip(fs: Tree, archive: Archive, dest: string): (Outcome, Tree) {
    if archive.Malformed? then (Failed(ReaderError), fs)
    else if |archive.entries| > MaxEntries then (Failed(TooManyFiles(|archive.entries|)), fs)
    else
      match Run(fs, archive.entries, dest)
      case Running(t, _) => (Extracted, t)
      case Aborted(t) => (Failed(TooLarge), t)
      case Crashed(t) => (Panicked, t)
  }

  /** The text of the error UnzipBytes returns. */
  function FailureText(f: Failure, dest: string): (r: string)
    ensures f.TooManyFiles? ==> HasPrefix(r, "ZIP Contains more than 500k files: ")
    ensures f.TooLarge? ==> HasPrefix(r, dest)
  {
    match f
    case ReaderError => "zip: not a valid zip file"
    case TooManyFiles(n) => "ZIP Contains more than 500k files: " + Itoa(n)
    case TooLarge => dest + " ZIP contains more than 60gb of uncompressed data, skipping"
  }

  /** The os calls for an entry that passed isSafePath: Mkdir for a directory entry;
      for a file entry, opening it, OpenFile and CopyN. */
  method WriteSafeEntry(disk: Disk, path: string, e: Entry)
    modifies disk
    ensures disk.nodes == WriteEntry(old(disk.nodes), path, e)
  {
    if e.isDir {
      var _ := disk.Mkdir(path, DirPerm);
    } else if e.stream.Some? {
      var ok := disk.OpenFile(path, FilePerm);
      if ok {
        disk.WriteAtStart(path, WrittenContent(e));
      }
    }
  }

  /**
   * One iteration of UnzipBytes's loop on the running total `total`: `stop` is
   * the outcome when the loop ends here, and `next` the new total otherwise.
   */
  method ExtractEntry(disk: Disk, total: uint64, e: Entry, dest: string) returns (next: uint64, stop: Option<Outcome>)
    modifies disk
    ensures var q := Step(Running(old(disk.nodes), total), e, dest);
      disk.nodes == q.fs && (stop.None? <==> q.Running?) && (q.Running? ==> next == q.total)
      && (q.Aborted? ==> stop == Some(Failed(TooLarge))) && (q.Crashed? ==> stop == Some(Panicked))
  {
    if Skipped(e) {
      return total, None;
    }
    next := AddU64(total, e.size);
    if next > MaxTotalSize {
      return next, Some(Failed(TooLarge));
    }
    var path := EntryPath(dest, e);
    var safety := IsSafePath(disk.nodes, path, dest);
    if safety == Crash {
      return next, Some(Panicked);
    }
    if safety == Safe {
      WriteSafeEntry(disk, path, e);
    }
    stop := None;
  }

  /** UnzipBytes, writing through the disk's os calls. */
  method UnzipBytes(disk: Disk, archive: Archive, dest: string) returns (r: Outcome)
    modifies disk
    ensures (r, disk.nodes) == Unzip(old(disk.nodes), archive, dest)
  {
    if archive.Malformed? {
      return Failed(ReaderError);
    }
    var files := archive.entries;
    if |files| > MaxEntries {
      return Failed(TooManyFiles(|files|));
    }
    var total: uint64 := 0;
    var i := 0;
    while i < |files|
      invariant 0 <= i <= |files|
      invariant Run(old(disk.nodes), files[..i], dest) == Running(disk.nodes, total)
    {
      RunLast(old(disk.nodes), files, i, dest);
      var stop;
      total, stop := ExtractEntry(disk, total, files[i], dest);
      if stop.Some? {
        StopsAfter(old(disk.nodes), files, i + 1, dest);
        return stop.value;
      }
      i := i + 1;
    }
    assert files[..i] == files;
    r := Extracted;
  }

  lemma RunLast(fs: Tree, entries: seq<Entry>, i: nat, dest: string)
    requires i < |entries|
    ensures Run(fs, entries[..i + 1], dest) == Step(Run(fs, entries[..i], dest), entries[i], dest)
  {
    assert entries[..i + 1][..i] == entries[..i];
  }

  /** Once the loop has stopped, the remaining entries change nothing. */
  lemma {:induction false} StopsAfter(fs: Tree, entries: seq<Entry>, n: nat, dest: string)
    requires n <= |entries| && !Run(fs, entries[..n], dest).Running?
    ensures Run(fs, entries, dest) == Run(fs, entries[..n], dest)
    decreases |entries| - n
  {
    if n < |entries| {
      assert entries[..|entries| - 1][..n] == entries[..n];
      StopsAfter(fs, entries[..|entries| - 1], n, dest);
    } else {
      assert entries[..n] == entries;
    }
  }

  /** `t` keeps every node of `fs` unchanged. */
  predicate Extends(fs: Tree, t: Tree) {
    forall k :: k in fs ==> k in t && t[k] == fs[k]
  }

  /** Entry `e` accounts for node `node` at `k`: it was written there after passing
      every check, as a 0700 directory or a 0600 file holding what CopyN wrote. */
  predicate Accounts(dest: string, e: Entry, k: string, node: Node) {
    !Skipped(e) && k == EntryPath(dest, e) &&
    Depth(k) <= MaxDepth && !Contains(k, "..") && HasPrefix(k, Clean(dest) + "/") &&
    match node
    case Directory(perm) => e.isDir && perm == DirPerm
    case File(perm, content) => !e.isDir && perm == FilePerm && e.stream.Some? && content == WrittenContent(e)
  }

  /** Nothing already on disk changes, and every new node is accounted for by an entry. */
  predicate Justified(fs: Tree, t: Tree, entries: seq<Entry>, dest: string) {
    Extends(fs, t) &&
    forall k :: k in t && k !in fs ==> exists i :: 0 <= i < |entries| && Accounts(dest, entries[i], k, t[k])
  }

  /** One step keeps every node it finds and accounts for the node it adds by its entry. */
  lemma StepJustified(p: Progress, e: Entry, dest: string)
    ensures var q := Step(p, e, dest);
      Extends(p.fs, q.fs) && forall k :: k in q.fs && k !in p.fs ==> Accounts(dest, e, k, q.fs[k])
  {
    var q := Step(p, e, dest);
    if p.Running? && !Skipped(e) && AddU64(p.total, e.size) <= MaxTotalSize {
      var path := EntryPath(dest, e);
      if IsSafePath(p.fs, path, dest) == Safe {
        assert q.fs == WriteEntry(p.fs, path, e);
        WriteEntryEffect(p.fs, path, e);
      }
    }
  }

  lemma JustifiedExtend(fs: Tree, t: Tree, u: Tree, entries: seq<Entry>, dest: string)
    requires entries != []
    requires Justified(fs, t, entries[..|entries| - 1], dest)
    requires Extends(t, u)
    requires forall k :: k in u && k !in t ==> Accounts(dest, entries[|entries| - 1], k, u[k])
    ensures Justified(fs, u, entries, dest)
  {
    var pre := entries[..|entries| - 1];
    var e := entries[|entries| - 1];
    forall k | k in u && k !in fs
      ensures exists i :: 0 <= i < |entries| && Accounts(dest, entries[i], k, u[k])
    {
      if k in t {
        var i :| 0 <= i < |pre| && Accounts(dest, pre[i], k, t[k]);
        assert entries[i] == pre[i];
      } else {
        assert entries[|pre|] == e;
      }
    }
  }

  /** Extraction never modifies or removes what was on disk, and everything it adds
      lies strictly below the cleaned destination, passed isSafePath, and is a
      0700 directory or a 0600 file holding at most its declared size. */
  lemma {:induction false} RunJustified(fs: Tree, entries: seq<Entry>, dest: string)
    ensures Justified(fs, Run(fs, entries, dest).fs, entries, dest)
    decreases |entries|
  {
    if entries != [] {
      var pre := entries[..|entries| - 1];
      var e := entries[|entries| - 1];
      var p := Run(fs, pre, dest);
      var q := Run(fs, entries, dest);
      assert q == Step(p, e, dest);
      RunJustified(fs, pre, dest);
      StepJustified(p, e, dest);
      JustifiedExtend(fs, p.fs, q.fs, entries, dest);
    }
  }

  /** The sum of the declared sizes of the entries that are not skipped. */
  function CountedTotal(entries: seq<Entry>): nat
    decreases |entries|
  {
    if entries == [] then 0
    else
      var e := entries[|entries| - 1];
      CountedTotal(entries[..|entries| - 1]) + if Skipped(e) then 0 else e.size
  }

  /** The uint64 sum of the counted sizes, wrapping as the loop's `totalSize` does. */
  function WrappedTotal(entries: seq<Entry>): uint64
    decreases |entries|
  {
    if entries == [] then 0
    else
      var e := entries[|entries| - 1];
      var t := WrappedTotal(entries[..|entries| - 1]);
      if Skipped(e) then t else AddU64(t, e.size)
  }

  /** How many times the running total wrapped past 2^64 over the entries. */
  function Wraps(entries: seq<Entry>): nat
    decreases |entries|
  {
    if entries == [] then 0
    else
      var e := entries[|entries| - 1];
      var pre := entries[..|entries| - 1];
      Wraps(pre) + if !Skipped(e) && WrappedTotal(pre) + e.size >= TwoTo64 then 1 else 0
  }

  /**
   * The wrapped total is the counted total reduced modulo 2^64: the counted
   * total less 2^64 for every wrap.
   */
  lemma {:induction false} WrappedTotalIsSumMod(entries: seq<Entry>)
    ensures CountedTotal(entries) == WrappedTotal(entries) + TwoTo64 * Wraps(entries)
    decreases |entries|
  {
    if entries != [] {
      WrappedTotalIsSumMod(entries[..|entries| - 1]);
    }
  }

  /** One step adds an entry's size to the running total unless the entry is skipped. */
  lemma StepTotal(p: Progress, e: Entry, dest: string)
    ensures var q := Step(p, e, dest);
      q.Running? ==> p.Running? && q.total == if Skipped(e) then p.total else AddU64(p.total, e.size)
  {
  }

  /** While the loop runs, its total is the wrapped sum of the counted sizes so far. */
  lemma {:induction false} RunTotal(fs: Tree, entries: seq<Entry>, dest: string)
    ensures Run(fs, entries, dest).Running? ==> Run(fs, entries, dest).total == WrappedTotal(entries)
    decreases |entries|
  {
    if entries != [] {
      var pre := entries[..|entries| - 1];
      RunTotal(fs, pre, dest);
      StepTotal(Run(fs, pre, dest), entries[|entries| - 1], dest);
    }
  }

  /** A step stops at the ceiling only when the entry counts and its new total is over it. */
  lemma StepAborted(p: Progress, e: Entry, dest: string)
    ensures Step(p, e, dest).Aborted? ==>
      p.Aborted? || (p.Running? && !Skipped(e) && AddU64(p.total, e.size) > MaxTotalSize)
  {
  }

  lemma WrappedTotalExact(entries: seq<Entry>)
    requires CountedTotal(entries) < TwoTo64
    ensures WrappedTotal(entries) == CountedTotal(entries)
  {
    WrappedTotalIsSumMod(entries);
  }

  /** An archive whose counted sizes add up to at most 60 GiB is never stopped by the ceiling. */
  lemma {:induction false} WithinBudgetNotAborted(fs: Tree, entries: seq<Entry>, dest: string)
    requires CountedTotal(entries) <= MaxTotalSize
    ensures !Run(fs, entries, dest).Aborted?
    decreases |entries|
  {
    if entries != [] {
      var pre := entries[..|entries| - 1];
      var e := entries[|entries| - 1];
      var p := Run(fs, pre, dest);
      assert Run(fs, entries, dest) == Step(p, e, dest);
      assert CountedTotal(pre) <= CountedTotal(entries);
      WithinBudgetNotAborted(fs, pre, dest);
      RunTotal(fs, pre, dest);
      WrappedTotalExact(entries);
      assert WrappedTotal(entries) == if Skipped(e) then WrappedTotal(pre) else AddU64(WrappedTotal(pre), e.size);
      StepAborted(p, e, dest);
    }
  }

  /** The ceiling stops extraction only after a prefix whose wrapped total exceeds 60 GiB. */
  lemma {:induction false} AbortedOverBudget(fs: Tree, entries: seq<Entry>, dest: string)
    requires Run(fs, entries, dest).Aborted?
    ensures exists n :: 0 < n <= |entries| && WrappedTotal(entries[..n]) > MaxTotalSize
    decreases |entries|
  {
    assert entries != [];
    var pre := entries[..|entries| - 1];
    var e := entries[|entries| - 1];
    var before := Run(fs, pre, dest);
    assert Step(before, e, dest).Aborted?;
    StepAborted(before, e, dest);
    if before.Aborted? {
      AbortedOverBudget(fs, pre, dest);
      var n :| 0 < n <= |pre| && WrappedTotal(pre[..n]) > MaxTotalSize;
      assert pre[..n] == entries[..n];
    } else {
      assert WrappedTotal(entries) > MaxTotalSize by {
        RunTotal(fs, pre, dest);
      }
      assert entries[..|entries|] == entries;
    }
  }

  /** While the loop runs, its total is within the 60 GiB ceiling. */
  lemma {:induction false} RunningWithinBudget(fs: Tree, entries: seq<Entry>, dest: string)
    ensures Run(fs, entries, dest).Running? ==> Run(fs, entries, dest).total <= MaxTotalSize
    decreases |entries|
  {
    if entries != [] {
      var pre := entries[..|entries| - 1];
      var e := entries[|entries| - 1];
      RunningWithinBudget(fs, pre, dest);
      assert Run(fs, entries, dest) == Step(Run(fs, pre, dest), e, dest);
    }
  }

  /**
   * The converse of WithinBudgetNotAborted: an archive whose counted sizes add
   * up to more than 60 GiB, without reaching 2^64, never runs to the end; it
   * is stopped by the ceiling, or by a panic first.
   */
  lemma OverBudgetStops(fs: Tree, entries: seq<Entry>, dest: string)
    requires MaxTotalSize < CountedTotal(entries) < TwoTo64
    ensures Run(fs, entries, dest).Aborted? || Run(fs, entries, dest).Crashed?
  {
    RunningWithinBudget(fs, entries, dest);
    RunTotal(fs, entries, dest);
    WrappedTotalExact(entries);
  }

  /**
   * UnzipBytes on such an archive, with no more than 500000 entries, returns
   * the "exceeds maximum allowed size" error unless it panicked first.
   */
  lemma UnzipOverBudget(fs: Tree, archive: Archive, dest: string)
    requires archive.Archive? && |archive.entries| <= MaxEntries
    requires MaxTotalSize < CountedTotal(archive.entries) < TwoTo64
    ensures Unzip(fs, archive, dest).0 == Failed(TooLarge) || Unzip(fs, archive, dest).0 == Panicked
  {
    OverBudgetStops(fs, archive.entries, dest);
  }

  /** A disk without regular files never makes Stat fail with ENOTDIR. */
  lemma NoFilesNoCrash(fs: Tree, p: string)
    requires forall k :: k in fs ==> fs[k].Directory?
    ensures Stat(fs, p) != NotADirectory
  {
  }

  lemma ExtOfPlainName(n: string)
    requires '.' !in n
    ensures Ext(n) == ""
  {
    ExtNoDot(n, |n|);
  }

  lemma {:induction false} ExtNoDot(n: string, i: nat)
    requires i <= |n| && '.' !in n && '/' !in n[i..]
    ensures ExtUpTo(n, i) == ""
  {
    if i > 0 {
      assert n[i - 1] in n;
      if n[i - 1] != '/' {
        assert n[i - 1..] == [n[i - 1]] + n[i..];
        ExtNoDot(n, i - 1);
      }
    }
  }

  /** A name is not skipped when it has no backslash and no '.'. */
  lemma PlainNameCounted(e: Entry)
    requires '\\' !in e.name && '.' !in e.name
    ensures !Skipped(e)
  {
    AbsentHeadNotContained(e.name, "\\\\");
    ExtOfPlainName(e.name);
    assert ToLower("") == "";
  }

  /** A file entry without a readable stream changes nothing on a disk that holds no
      regular files. */
  lemma PlaceInert(fs: Tree, total: uint64, e: Entry, dest: string)
    requires forall k :: k in fs ==> fs[k].Directory?
    requires !e.isDir && e.stream.None?
    ensures Place(fs, total, e, dest) == Running(fs, total)
  {
    NoFilesNoCrash(fs, EntryPath(dest, e));
  }

  /** The running total wraps: two entries whose sizes add up to 2^64 leave a total
      of 0, so an archive declaring far more than 60 GiB is extracted. */
  lemma WrapAroundExample()
    ensures var entries := [Entry("a", 1, false, None), Entry("b", TwoTo64 - 1, false, None)];
      CountedTotal(entries) > MaxTotalSize &&
      Unzip(map[], Archive(entries), "/d") == (Extracted, map[])
  {
    var a := Entry("a", 1, false, None);
    var b := Entry("b", TwoTo64 - 1, false, None);
    var entries := [a, b];
    var empty: Tree := map[];
    PlainNameCounted(a);
    PlainNameCounted(b);
    assert entries[..1] == [a];
    assert [a][..0] == [];
    assert CountedTotal([a]) == 1;
    assert CountedTotal(entries) == TwoTo64;
    PlaceInert(empty, 1, a, "/d");
    assert Run(empty, [a], "/d") == Step(Running(empty, 0), a, "/d");
    assert Step(Running(empty, 0), a, "/d") == Running(empty, 1);
    PlaceInert(empty, 0, b, "/d");
    assert AddU64(1, b.size) == 0;
    assert Run(empty, entries, "/d") == Step(Running(empty, 1), b, "/d");
    assert Step(Running(empty, 1), b, "/d") == Running(empty, 0);
  }

  /** What UnzipBytes does to the disk: the outcome's tree keeps every node it started
      with, and every node it adds is accounted for by an entry of the archive. */
  lemma UnzipJustified(fs: Tree, archive: Archive, dest: string)
    ensures archive.Malformed? ==> Unzip(fs, archive, dest) == (Failed(ReaderError), fs)
    ensures archive.Archive? ==> Justified(fs, Unzip(fs, archive, dest).1, archive.entries, dest)
  {
    if archive.Archive? {
      RunJustified(fs, archive.entries, dest);
    }
  }

  /** Whatever the archive, a key keeps its node, and a new key lies strictly below the cleaned destination. */
  lemma UnzipBelow(fs: Tree, archive: Archive, dest: string, k: string)
    ensures var t := Unzip(fs, archive, dest).1;
      (k in fs ==> k in t && t[k] == fs[k]) && (k in t && k !in fs ==> HasPrefix(k, Clean(dest) + "/"))
  {
    var t := Unzip(fs, archive, dest).1;
    if archive.Archive? && |archive.entries| <= MaxEntries {
      RunJustified(fs, archive.entries, dest);
      if k in t && k !in fs {
        var i :| 0 <= i < |archive.entries| && Accounts(dest, archive.entries[i], k, t[k]);
      }
    }
  }

  /** isSafePath's depth is the number of ':' separators in the path (filepath.SplitList
      splits a PATH-style list), so '/'-separated levels never count towards it. */
  lemma DepthCountsColons(path: string)
    ensures Depth(path) == if path == "" then -1 else CountChar(path, ':')
    ensures ':' !in path ==> Depth(path) <= 0
  {
    if path != "" {
      SplitCount(path, ':');
      if ':' !in path {
        CountCharAbsent(path, ':');
      }
    }
  }

  /** An entry named "" resolves to the destination itself, which isSafePath never accepts. */
  lemma EmptyNameNeverWritten(fs: Tree, dest: string, e: Entry)
    requires e.name == ""
    ensures IsSafePath(fs, EntryPath(dest, e), dest) != Safe
  {
    if dest != "" {
      CleanElementsTrailingSlash(dest);
      assert dest + "/" + "" == dest + "/";
      assert Join(dest, "") == Clean(dest);
      CleanIdempotent(dest);
    }
    assert EntryPath(dest, e) == Clean(dest);
  }

  /** With a rooted destination, Clean has already removed every ".." element, so the
      ".." check only rejects entries whose names hold ".." inside a longer element. */
  lemma DotDotCheckAfterClean(dest: string, e: Entry)
    requires dest != "" && dest[0] == '/'
    ensures ".." !in SplitChar(EntryPath(dest, e), '/')
    ensures Contains(EntryPath(dest, e), "..") ==>
      var st := CleanElements(Join(dest, e.name));
      exists i, k :: 0 <= i < |st| && st[i] != ".." && OccursAt(st[i], "..", k)
  {
    var j := Join(dest, e.name);
    var x := dest + "/" + e.name;
    assert x[0] == '/';
    assert j == Clean(x);
    CleanRootedHasNoParentElement(x);
    CleanRootedHasNoParentElement(j);
    if Contains(EntryPath(dest, e), "..") {
      DotDotAfterCleanIsInsideName(j);
    }
  }

  /** The entries that count towards the total, in archive order. */
  function CountedEntries(entries: seq<Entry>): (r: seq<Entry>)
    ensures |r| <= |entries|
    ensures forall i :: 0 <= i < |r| ==> !Skipped(r[i]) && r[i] in entries
    decreases |entries|
  {
    if entries == [] then []
    else
      var pre := CountedEntries(entries[..|entries| - 1]);
      var e := entries[|entries| - 1];
      if Skipped(e) then pre else pre + [e]
  }

  /** Skipped entries (UNC names, nested archives) have no effect whatsoever: the loop
      over the whole archive ends exactly as the loop over the counted entries. */
  lemma {:induction false} SkippedHaveNoEffect(fs: Tree, entries: seq<Entry>, dest: string)
    ensures Run(fs, entries, dest) == Run(fs, CountedEntries(entries), dest)
    decreases |entries|
  {
    if entries != [] {
      var pre := entries[..|entries| - 1];
      var e := entries[|entries| - 1];
      var c := CountedEntries(pre);
      SkippedHaveNoEffect(fs, pre, dest);
      assert Run(fs, entries, dest) == Step(Run(fs, pre, dest), e, dest);
      if !Skipped(e) {
        calc {
          Run(fs, CountedEntries(entries), dest);
          Run(fs, c + [e], dest);
          { assert (c + [e])[..|c|] == c; }
          Step(Run(fs, c, dest), e, dest);
        }
      }
    }
  }

  /** A rooted path without ':' and '.' passes the depth and ".." checks. */
  lemma PlainPathPassesFirstChecks(path: string)
    requires ':' !in path && '.' !in path
    ensures Depth(path) <= MaxDepth && !Contains(path, "..")
  {
    DepthCountsColons(path);
    AbsentHeadNotContained(path, "..");
  }

  /** Characters that none of the checks before fileExists react to. */
  predicate Unremarkable(x: string) {
    '.' !in x && ':' !in x && '\\' !in x
  }

  /** Where an entry named by one plain element below a clean destination goes. */
  lemma EntryPathOfChild(d: string, e: Entry)
    requires Clean(d) == d && d[0] == '/' && d != "/" && PlainName(e.name)
    ensures EntryPath(d, e) == d + "/" + e.name
  {
    CleanJoinName(d, e.name);
    CleanIdempotent(d + "/" + e.name);
  }

  /** Where an entry named by two plain elements below a clean destination goes. */
  lemma EntryPathOfGrandchild(d: string, a: string, b: string, e: Entry)
    requires Clean(d) == d && d[0] == '/' && d != "/" && PlainName(a) && PlainName(b)
    requires e.name == a + "/" + b
    ensures EntryPath(d, e) == d + "/" + a + "/" + b
  {
    CleanJoinName(d, a);
    JoinNested(d, a, b);
    CleanIdempotent(d + "/" + a + "/" + b);
  }

  /** A path that passes the first two checks and does not exist is safe below dest. */
  lemma AbsentPathIsSafe(fs: Tree, path: string, dest: string)
    requires Unremarkable(path) && Stat(fs, path) == NotExist
    requires HasPrefix(path, Clean(dest) + "/")
    ensures IsSafePath(fs, path, dest) == Safe
  {
    PlainPathPassesFirstChecks(path);
  }

  /** A path that passes the first two checks and lies below a regular file panics. */
  lemma PathBelowFileCrashes(fs: Tree, path: string, dest: string, k: string)
    requires Unremarkable(path) && path !in fs && BelowFile(fs, k, path)
    ensures IsSafePath(fs, path, dest) == Crash
  {
    PlainPathPassesFirstChecks(path);
  }

  /** A file entry directly below a clean rooted destination that holds only itself is
      written as an empty file. */
  lemma FirstEntryWritten(d: string, a: string)
    requires Clean(d) == d && d[0] == '/' && d != "/" && Unremarkable(d)
    requires PlainName(a) && Unremarkable(a)
    ensures var fs: Tree := map[d := Directory(DirPerm)];
      Place(fs, 0, Entry(a, 0, false, Some([])), d) == Running(fs[d + "/" + a := File(FilePerm, [])], 0)
  {
    var fs: Tree := map[d := Directory(DirPerm)];
    var e := Entry(a, 0, false, Some([]));
    var p := d + "/" + a;
    EntryPathOfChild(d, e);
    assert Stat(fs, p) == NotExist by {
      assert p != d by { assert |p| > |d|; }
      assert !BelowFile(fs, d, p);
    }
    AbsentPathIsSafe(fs, p, d);
    DirOfChild(d, a);
    CleanJoinName(d, a);
    assert OpenSucceeds(fs, p);
    NewFileWritten(fs, p, e);
    assert WrittenContent(e) == [];
    calc {
      Place(fs, 0, e, d);
      Running(WriteEntry(fs, p, e), 0);
      Running(fs[p := File(FilePerm, [])], 0);
    }
  }

  /** An entry below a regular file the destination holds makes fileExists panic. */
  lemma SecondEntryPanics(d: string, a: string, b: string, fs: Tree)
    requires Clean(d) == d && d[0] == '/' && d != "/" && Unremarkable(d)
    requires PlainName(a) && Unremarkable(a) && PlainName(b) && Unremarkable(b)
    requires d + "/" + a in fs && fs[d + "/" + a].File? && d + "/" + a + "/" + b !in fs
    ensures Place(fs, 0, Entry(a + "/" + b, 0, false, Some([])), d) == Crashed(fs)
  {
    var p := d + "/" + a;
    var q := p + "/" + b;
    EntryPathOfGrandchild(d, a, b, Entry(a + "/" + b, 0, false, Some([])));
    assert BelowFile(fs, p, q);
    PathBelowFileCrashes(fs, q, d, p);
  }

  /** The loop over two entries. */
  lemma RunTwo(fs: Tree, e1: Entry, e2: Entry, dest: string)
    ensures Run(fs, [e1, e2], dest) == Step(Step(Running(fs, 0), e1, dest), e2, dest)
  {
    assert [e1, e2][..1] == [e1];
    assert [e1][..0] == [];
    calc {
      Run(fs, [e1, e2], dest);
      Step(Run(fs, [e1], dest), e2, dest);
      { assert Run(fs, [e1], dest) == Step(Run(fs, [], dest), e1, dest); }
      Step(Step(Running(fs, 0), e1, dest), e2, dest);
    }
  }

  /** A counted entry whose size keeps the total within the ceiling is placed. */
  lemma StepCounted(p: Progress, e: Entry, dest: string)
    requires p.Running? && !Skipped(e) && AddU64(p.total, e.size) <= MaxTotalSize
    ensures Step(p, e, dest) == Place(p.fs, AddU64(p.total, e.size), e, dest)
  {
  }

  /** The loop over a file a and then a/b below a destination that holds only itself. */
  lemma FileThenChildRun(d: string, a: string, b: string, fs: Tree, e1: Entry, e2: Entry)
    requires Clean(d) == d && d[0] == '/' && d != "/" && Unremarkable(d)
    requires PlainName(a) && Unremarkable(a) && PlainName(b) && Unremarkable(b)
    requires fs == map[d := Directory(DirPerm)]
    requires e1 == Entry(a, 0, false, Some([])) && e2 == Entry(a + "/" + b, 0, false, Some([]))
    ensures Run(fs, [e1, e2], d) == Crashed(fs[d + "/" + a := File(FilePerm, [])])
  {
    var fs1 := fs[d + "/" + a := File(FilePerm, [])];
    assert AddU64(0, 0) == 0;
    assert Step(Running(fs, 0), e1, d) == Running(fs1, 0) by {
      PlainNameCounted(e1);
      StepCounted(Running(fs, 0), e1, d);
      FirstEntryWritten(d, a);
    }
    assert Step(Running(fs1, 0), e2, d) == Crashed(fs1) by {
      assert '.' !in e2.name && '\\' !in e2.name;
      PlainNameCounted(e2);
      StepCounted(Running(fs1, 0), e2, d);
      assert |d + "/" + a + "/" + b| > |d + "/" + a| > |d|;
      SecondEntryPanics(d, a, b, fs1);
    }
    RunTwo(fs, e1, e2, d);
  }

  /** fileExists panics: an archive that holds a regular file a and then an entry a/b
      makes os.Stat fail with ENOTDIR for the second entry, and the nil FileInfo it
      returns is dereferenced. The first file is already written when that happens. */
  lemma FileThenChildPanics(d: string, a: string, b: string)
    requires Clean(d) == d && d[0] == '/' && d != "/" && Unremarkable(d)
    requires PlainName(a) && Unremarkable(a) && PlainName(b) && Unremarkable(b)
    ensures var fs: Tree := map[d := Directory(DirPerm)];
      var entries := [Entry(a, 0, false, Some([])), Entry(a + "/" + b, 0, false, Some([]))];
      Unzip(fs, Archive(entries), d) == (Panicked, fs[d + "/" + a := File(FilePerm, [])])
  {
    FileThenChildRun(d, a, b, map[d := Directory(DirPerm)],
      Entry(a, 0, false, Some([])), Entry(a + "/" + b, 0, false, Some([])));
  }

  /** The smallest instance: a destination "/d", a file "a" and then "a/b". */
  lemma CrashExample()
    ensures var fs: Tree := map["/d" := Directory(DirPerm)];
      var entries := [Entry("a", 0, false, Some([])), Entry("a/b", 0, false, Some([]))];
      Unzip(fs, Archive(entries), "/d") == (Panicked, fs["/d/a" := File(FilePerm, [])])
  {
    assert CleanStack(true, ["d"]);
    CleanOfRender(true, ["d"]);
    assert Render(true, ["d"]) == "/d";
    FileThenChildPanics("/d", "a", "b");
    assert "a" + "/" + "b" == "a/b" && "/d" + "/" + "a" == "/d/a";
  }
}
