/**
 * The local filesystem as a map from cleaned path to node, and the os calls
 * the core makes on it. Symbolic links are not part of this model.
 */
module FileSystem {
  import opened Wrappers
  import opened GoStrings
  import opened GoPath

  /** Permission bits requested by the extractor: 0700 for directories, 0600 for files. */
  const DirPerm: int := 448
  const FilePerm: int := 384

  /** Permission bits os.Create, and semgrep writing its output, request for a new file: 0666. */
  const CreatePerm: int := 438

  /**
   * The text of uuid.New().String(), which names the files semgrep and the
   * report write: 32 lower-case hex digits in groups of 8, 4, 4, 4 and 12,
   * joined by '-'.
   */
  predicate IsUuid(s: string) {
    |s| == 36 && forall i :: 0 <= i < 36 ==>
      if i == 8 || i == 13 || i == 18 || i == 23 then s[i] == '-' else s[i] in "0123456789abcdef"
  }

  type Uuid = s: string | IsUuid(s) witness "00000000-0000-0000-0000-000000000000"

  /** A file name made of a uuid between a prefix and a suffix without '/' is a plain name. */
  lemma UuidName(prefix: string, id: Uuid, suffix: string)
    requires prefix != "" && '/' !in prefix && '/' !in suffix
    ensures PlainName(prefix + id + suffix)
  {
    var n := prefix + id + suffix;
    assert '/' !in id by {
      forall i | 0 <= i < |id| ensures id[i] != '/' {
        assert i < 36;
      }
    }
    assert forall i :: 0 <= i < |n| ==> n[i] != '/' by {
      forall i | 0 <= i < |n| ensures n[i] != '/' {
        if i < |prefix| { assert n[i] == prefix[i]; }
        else if i < |prefix| + |id| { assert n[i] == id[i - |prefix|]; }
        else { assert n[i] == suffix[i - |prefix| - |id|]; }
      }
    }
    assert |n| >= 36;
  }

  datatype Node = File(perm: int, content: seq<byte>) | Directory(perm: int)

  type Tree = map<string, Node>

  /** What os.Stat reports: the node, "does not exist", or ENOTDIR. */
  datatype StatResult = Found(node: Node) | NotExist | NotADirectory

  /** `p` lies below the regular file `k`. */
  predicate BelowFile(fs: Tree, k: string, p: string) {
    k in fs && fs[k].File? && HasPrefix(p, k + "/")
  }

  /** os.Stat: a present path is found; a path below a regular file fails with ENOTDIR. */
  function Stat(fs: Tree, p: string): (r: StatResult)
    ensures r.Found? <==> p in fs
    ensures r.Found? ==> r.node == fs[p]
    ensures r == NotADirectory <==> p !in fs && exists k :: BelowFile(fs, k, p)
  {
    if p in fs then Found(fs[p])
    else if exists k | k in fs :: BelowFile(fs, k, p) then NotADirectory
    else NotExist
  }

  predicate IsDirectory(fs: Tree, p: string) {
    p in fs && fs[p].Directory?
  }

  /** os.Mkdir succeeds when nothing is at `p` and its parent is a directory. */
  predicate MkdirSucceeds(fs: Tree, p: string) {
    p !in fs && IsDirectory(fs, Dir(p))
  }

  /** os.OpenFile(p, O_RDWR|O_CREATE|O_NOFOLLOW, perm), and os.Create(p), succeed when
      the parent is a directory and `p` is absent or a regular file. */
  predicate OpenSucceeds(fs: Tree, p: string) {
    IsDirectory(fs, Dir(p)) && (p !in fs || fs[p].File?)
  }

  /** The tree after a successful open: an absent file is created empty. */
  function Opened(fs: Tree, p: string, perm: int): (r: Tree)
    ensures p in r && r[p].File?
  {
    if p in fs && fs[p].File? then fs else fs[p := File(perm, [])]
  }

  /** A file created, or truncated, at `p` and then given `data`: a file that was
      there keeps its permission bits, a new one gets 0666. */
  function Created(fs: Tree, p: string, data: seq<byte>): (r: Tree)
    ensures p in r && r[p].File? && r[p].content == data
    ensures forall k :: k != p ==> (k in r <==> k in fs) && (k in r ==> r[k] == fs[k])
  {
    fs[p := File(if p in fs && fs[p].File? then fs[p].perm else CreatePerm, data)]
  }

  /** Writing `data` at offset 0 of a file opened without O_TRUNC: bytes past
      the end of `data` keep their old values. */
  function Overwrite(prev: seq<byte>, data: seq<byte>): (r: seq<byte>)
    ensures data <= r
    ensures |r| == if |data| >= |prev| then |data| else |prev|
    ensures forall i :: |data| <= i < |r| ==> r[i] == prev[i]
  {
    if |data| >= |prev| then data else data + prev[|data|..]
  }

  /** os.RemoveAll: `p` and everything below it disappear. */
  function RemoveTree(fs: Tree, p: string): (r: Tree)
    ensures p !in r
    ensures forall k :: k in r <==> k in fs && k != p && !HasPrefix(k, p + "/")
    ensures forall k :: k in r ==> r[k] == fs[k]
  {
    map k | k in fs && k != p && !HasPrefix(k, p + "/") :: fs[k]
  }

  /** What os.RemoveAll leaves: an empty path removes nothing, any other removes its tree. */
  function RemovedAll(fs: Tree, p: string): Tree {
    if p == "" then fs else RemoveTree(fs, p)
  }

  /** Some key lies strictly below `p`. */
  predicate HasChildren(fs: Tree, p: string) {
    exists k | k in fs :: HasPrefix(k, p + "/")
  }

  /** os.Remove: a regular file or an empty directory disappears; otherwise nothing changes. */
  function RemoveEntry(fs: Tree, p: string): (r: Tree)
    ensures p in r <==> p in fs && fs[p].Directory? && HasChildren(fs, p)
    ensures forall k :: k != p ==> (k in r <==> k in fs)
    ensures forall k :: k in r ==> r[k] == fs[k]
  {
    if p in fs && (fs[p].File? || !HasChildren(fs, p)) then fs - {p} else fs
  }

  /**
   * ReadFile: the content of a regular file. Every failure (a missing path,
   * a directory, which opens but cannot be read) is only logged and yields no bytes.
   */
  function ReadFile(fs: Tree, p: string): seq<byte> {
    if p in fs && fs[p].File? then fs[p].content else []
  }

  /** The local disk. Its methods are the os calls of the core. */
  class Disk {
    var nodes: Tree

    constructor (init: Tree)
      ensures nodes == init
    {
      nodes := init;
    }

    /** os.Mkdir(p, perm) */
    method Mkdir(p: string, perm: int) returns (ok: bool)
      modifies this
      ensures ok == MkdirSucceeds(old(nodes), p)
      ensures nodes == if ok then old(nodes)[p := Directory(perm)] else old(nodes)
    {
      ok := MkdirSucceeds(nodes, p);
      if ok {
        nodes := nodes[p := Directory(perm)];
      }
    }

    /** os.OpenFile(p, O_RDWR|O_CREATE|O_NOFOLLOW, perm) */
    method OpenFile(p: string, perm: int) returns (ok: bool)
      modifies this
      ensures ok == OpenSucceeds(old(nodes), p)
      ensures nodes == if ok then Opened(old(nodes), p, perm) else old(nodes)
      ensures ok ==> p in nodes && nodes[p].File?
    {
      ok := OpenSucceeds(nodes, p);
      if ok && p !in nodes {
        nodes := nodes[p := File(perm, [])];
      }
    }

    /** os.Create(p): O_RDWR|O_CREATE|O_TRUNC with 0666. */
    method Create(p: string) returns (ok: bool)
      modifies this
      ensures ok == OpenSucceeds(old(nodes), p)
      ensures nodes == if ok then Created(old(nodes), p, []) else old(nodes)
    {
      ok := OpenSucceeds(nodes, p);
      if ok {
        var perm := if p in nodes then nodes[p].perm else CreatePerm;
        nodes := nodes[p := File(perm, [])];
      }
    }

    /** Writes `data` from offset 0 into the open regular file `p`. */
    method WriteAtStart(p: string, data: seq<byte>)
      requires p in nodes && nodes[p].File?
      modifies this
      ensures nodes == old(nodes)[p := File(old(nodes)[p].perm, Overwrite(old(nodes)[p].content, data))]
    {
      var f := nodes[p];
      nodes := nodes[p := File(f.perm, Overwrite(f.content, data))];
    }

    /** os.Remove(p), its error ignored */
    method Remove(p: string)
      modifies this
      ensures nodes == RemoveEntry(old(nodes), p)
    {
      nodes := RemoveEntry(nodes, p);
    }

    /** os.RemoveAll(p), its error ignored */
    method RemoveAll(p: string)
      modifies this
      ensures nodes == RemovedAll(old(nodes), p)
    {
      if p != "" {
        nodes := RemoveTree(nodes, p);
      }
    }
  }
}
