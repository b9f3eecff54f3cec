/**
 * The request and status-code logic of HTTPGet, and CountFiles over the tree
 * filepath.Walk visits. The network round trip and the directory reads are
 * inputs: a function from the request headers to the reply, and the tree.
 */
module Http {
  import opened Wrappers
  import opened GoStrings

  const UserAgent: string := "Mozilla/5.0 (Windows NT 10.0; Win64; x64) AppleWebKit/537.36 (KHTML, like Gecko) Chrome/130.0.0.0 Safari/537.36"

  /** The errors HTTPGet returns. NotFound and Unprocessable are the sentinels Err404 and Err422. */
  datatype HttpError = BadRequest | SendFailed | NotFound | Unprocessable | NonOK | ReadFailed

  /** What client.Do delivered: the status code and the body, None when reading it failed. */
  datatype Reply = Reply(status: int, body: Option<seq<byte>>)

  /** The bytes net/textproto accepts in a header key. */
  predicate TokenChar(c: char) {
    ('a' <= c <= 'z') || ('A' <= c <= 'Z') || ('0' <= c <= '9') || c in "!#$%&'*+-.^_`|~"
  }

  function UpperAscii(c: char): char {
    if 'a' <= c <= 'z' then (c as int - 32) as char else c
  }

  function LowerAscii(c: char): char {
    if 'A' <= c <= 'Z' then (c as int + 32) as char else c
  }

  /** Each character of a canonical key: upper case at the start and after '-', lower case elsewhere. */
  function Capitalized(k: string, upper: bool): (r: string)
    ensures |r| == |k|
    decreases |k|
  {
    if k == [] then []
    else [if upper then UpperAscii(k[0]) else LowerAscii(k[0])] + Capitalized(k[1..], k[0] == '-')
  }

  /** textproto.CanonicalMIMEHeaderKey: a key holding a byte that is not a token byte is left as it is. */
  function CanonicalKey(k: string): (r: string)
    ensures |r| == |k|
  {
    if forall i :: 0 <= i < |k| ==> TokenChar(k[i]) then Capitalized(k, true) else k
  }

  lemma {:induction false} CapitalizedKeepsTokens(k: string, upper: bool)
    requires forall i :: 0 <= i < |k| ==> TokenChar(k[i])
    ensures var r := Capitalized(k, upper);
      forall i :: 0 <= i < |r| ==> TokenChar(r[i]) && (r[i] == '-' <==> k[i] == '-')
    decreases |k|
  {
    if k != [] {
      CapitalizedKeepsTokens(k[1..], k[0] == '-');
    }
  }

  lemma {:induction false} CapitalizedTwice(k: string, upper: bool)
    ensures Capitalized(Capitalized(k, upper), upper) == Capitalized(k, upper)
    decreases |k|
  {
    if k != [] {
      var r := Capitalized(k, upper);
      assert r[0] == '-' <==> k[0] == '-';
      assert r[1..] == Capitalized(k[1..], k[0] == '-');
      CapitalizedTwice(k[1..], k[0] == '-');
    }
  }

  /** Canonicalising a key twice changes nothing more. */
  lemma CanonicalKeyIdempotent(k: string)
    ensures CanonicalKey(CanonicalKey(k)) == CanonicalKey(k)
  {
    if forall i :: 0 <= i < |k| ==> TokenChar(k[i]) {
      CapitalizedKeepsTokens(k, true);
      CapitalizedTwice(k, true);
    }
  }

  /**
   * The request headers: User-Agent is set first, then every caller header in
   * the order the map iteration produced them, each Set replacing the value a
   * key canonicalising the same way had before.
   */
  function RequestHeaders(headers: seq<(string, string)>): (r: map<string, string>)
    decreases |headers|
  {
    if headers == [] then map["User-Agent" := UserAgent]
    else
      var h := headers[|headers| - 1];
      RequestHeaders(headers[..|headers| - 1])[CanonicalKey(h.0) := h.1]
  }

  /** The keys sent: User-Agent and the canonical form of every caller key. */
  lemma {:induction false} RequestHeadersKeys(headers: seq<(string, string)>)
    ensures forall key :: key in RequestHeaders(headers) <==>
      key == "User-Agent" || exists i :: 0 <= i < |headers| && CanonicalKey(headers[i].0) == key
    decreases |headers|
  {
    if headers != [] {
      var pre := headers[..|headers| - 1];
      RequestHeadersKeys(pre);
      forall key | key in RequestHeaders(headers)
        ensures key == "User-Agent" || exists i :: 0 <= i < |headers| && CanonicalKey(headers[i].0) == key
      {
        if key != CanonicalKey(headers[|headers| - 1].0) && key != "User-Agent" {
          assert key in RequestHeaders(pre);
          var i :| 0 <= i < |pre| && CanonicalKey(pre[i].0) == key;
          assert headers[i] == pre[i];
        }
      }
      forall i | 0 <= i < |headers| ensures CanonicalKey(headers[i].0) in RequestHeaders(headers) {
        if i < |pre| {
          assert headers[i] == pre[i];
        }
      }
    }
  }

  /** The value sent for a caller key is that of the last caller header with the
      same canonical key: later headers replace earlier ones and the built-in User-Agent. */
  lemma {:induction false} RequestHeadersLastWins(headers: seq<(string, string)>, i: nat)
    requires i < |headers|
    requires forall j :: i < j < |headers| ==> CanonicalKey(headers[j].0) != CanonicalKey(headers[i].0)
    ensures var r := RequestHeaders(headers);
      CanonicalKey(headers[i].0) in r && r[CanonicalKey(headers[i].0)] == headers[i].1
    decreases |headers|
  {
    var pre := headers[..|headers| - 1];
    if i < |pre| {
      assert pre[i] == headers[i];
      forall j | i < j < |pre| ensures CanonicalKey(pre[j].0) != CanonicalKey(pre[i].0) {
        assert pre[j] == headers[j];
      }
      RequestHeadersLastWins(pre, i);
    }
  }

  /** Without a caller key that canonicalises to User-Agent, the built-in one is sent. */
  lemma {:induction false} RequestHeadersDefaultAgent(headers: seq<(string, string)>)
    requires forall i :: 0 <= i < |headers| ==> CanonicalKey(headers[i].0) != "User-Agent"
    ensures "User-Agent" in RequestHeaders(headers) && RequestHeaders(headers)["User-Agent"] == UserAgent
    decreases |headers|
  {
    if headers != [] {
      var pre := headers[..|headers| - 1];
      forall i | 0 <= i < |pre| ensures CanonicalKey(pre[i].0) != "User-Agent" {
        assert pre[i] == headers[i];
      }
      RequestHeadersDefaultAgent(pre);
    }
  }

  /**
   * HTTPGet: a request that cannot be built or sent fails with that error; a
   * 404 or 422 status gives the sentinel errors, any other status but 200 a
   * generic error, and a 200 reply its body unless reading it failed.
   */
  function Get(requestBuilt: bool, reply: Option<Reply>): (r: Result<seq<byte>, HttpError>)
    ensures r.Ok? <==> requestBuilt && reply.Some? && reply.value.status == 200 && reply.value.body.Some?
    ensures r.Ok? ==> r.value == reply.value.body.value
    ensures r == Err(NotFound) <==> requestBuilt && reply.Some? && reply.value.status == 404
    ensures r == Err(Unprocessable) <==> requestBuilt && reply.Some? && reply.value.status == 422
    ensures r == Err(NonOK) <==> requestBuilt && reply.Some? && reply.value.status !in {200, 404, 422}
    ensures r == Err(ReadFailed) <==> requestBuilt && reply.Some? && reply.value.status == 200 && reply.value.body.None?
  {
    if !requestBuilt then Err(BadRequest)
    else if reply.None? then Err(SendFailed)
    else if reply.value.status == 404 then Err(NotFound)
    else if reply.value.status == 422 then Err(Unprocessable)
    else if reply.value.status != 200 then Err(NonOK)
    else if reply.value.body.None? then Err(ReadFailed)
    else Ok(reply.value.body.value)
  }

  /** HTTPGet with the round trip given as a function of the headers sent. */
  function HTTPGet(requestBuilt: bool, headers: seq<(string, string)>, send: map<string, string> -> Option<Reply>): (r: Result<seq<byte>, HttpError>)
    ensures r == Get(requestBuilt, if requestBuilt then send(RequestHeaders(headers)) else None)
  {
    if !requestBuilt then Err(BadRequest) else Get(true, send(RequestHeaders(headers)))
  }

  /**
   * What filepath.Walk finds at a path: a non-directory (a regular file, or a
   * symbolic link, which Lstat does not follow), a directory with its entries in
   * lexical order, a directory whose entries cannot be read, or a path whose
   * Lstat fails.
   */
  datatype Item = NonDirectory | Folder(children: seq<Item>) | UnreadableFolder | Vanished

  /** The number of non-directories Walk visits below and including `t`. */
  function Files(t: Item): nat
    decreases t, 1
  {
    match t
    case NonDirectory => 1
    case Folder(children) => FilesIn(children)
    case UnreadableFolder => 0
    case Vanished => 0
  }

  function FilesIn(ts: seq<Item>): nat
    decreases ts, 0
  {
    if ts == [] then 0 else FilesIn(ts[..|ts| - 1]) + Files(ts[|ts| - 1])
  }

  /** Walk reports an error somewhere in `t`. */
  predicate Broken(t: Item)
    decreases t, 1
  {
    match t
    case NonDirectory => false
    case Folder(children) => BrokenIn(children)
    case UnreadableFolder => true
    case Vanished => true
  }

  predicate BrokenIn(ts: seq<Item>)
    decreases ts, 0
  {
    ts != [] && (BrokenIn(ts[..|ts| - 1]) || Broken(ts[|ts| - 1]))
  }

  lemma {:induction false} BrokenInAppend(ts: seq<Item>, t: Item)
    ensures BrokenIn(ts + [t]) <==> BrokenIn(ts) || Broken(t)
    ensures FilesIn(ts + [t]) == FilesIn(ts) + Files(t)
  {
    assert (ts + [t])[..|ts|] == ts;
  }

  /**
   * The walk callback of CountFiles: every visit of a non-directory increments
   * the counter, and the first error ends the walk.
   */
  method Walk(t: Item, count: nat) returns (n: nat, ok: bool)
    ensures ok <==> !Broken(t)
    ensures ok ==> n == count + Files(t)
    decreases t
  {
    match t {
      case NonDirectory =>
        return count + 1, true;
      case UnreadableFolder =>
        return count, false;
      case Vanished =>
        return count, false;
      case Folder(children) =>
        n := count;
        var i := 0;
        while i < |children|
          invariant 0 <= i <= |children|
          invariant !BrokenIn(children[..i]) && n == count + FilesIn(children[..i])
        {
          BrokenInAppend(children[..i], children[i]);
          assert children[..i + 1] == children[..i] + [children[i]];
          var m, fine := Walk(children[i], n);
          if !fine {
            BrokenPrefix(children, i + 1);
            return m, false;
          }
          n, i := m, i + 1;
        }
        assert children[..i] == children;
        return n, true;
    }
  }

  /** An error in a prefix of the entries is an error of the directory. */
  lemma {:induction false} BrokenPrefix(ts: seq<Item>, k: nat)
    requires k <= |ts| && BrokenIn(ts[..k])
    ensures BrokenIn(ts)
    decreases |ts|
  {
    if k < |ts| {
      var pre := ts[..|ts| - 1];
      assert pre[..k] == ts[..k];
      BrokenPrefix(pre, k);
    } else {
      assert ts[..k] == ts;
    }
  }

  /** CountFiles: the number of non-directories in the tree, or -1 and an error. */
  method CountFiles(root: Item) returns (count: int, failed: bool)
    ensures failed <==> Broken(root)
    ensures count == if failed then -1 else Files(root)
  {
    var n, ok := Walk(root, 0);
    if !ok {
      return -1, true;
    }
    return n, false;
  }

  /** A directory's count is the sum of its entries' counts and never exceeds the items it holds. */
  lemma {:induction false} FilesBound(t: Item)
    ensures Files(t) <= Size(t)
    decreases t, 1
  {
    if t.Folder? {
      FilesInBound(t.children);
    }
  }

  lemma {:induction false} FilesInBound(ts: seq<Item>)
    ensures FilesIn(ts) <= SizeIn(ts)
    decreases ts, 0
  {
    if ts != [] {
      FilesInBound(ts[..|ts| - 1]);
      FilesBound(ts[|ts| - 1]);
    }
  }

  /** The number of paths Walk visits. */
  function Size(t: Item): nat
    decreases t, 1
  {
    match t
    case Folder(children) => 1 + SizeIn(children)
    case _ => 1
  }

  function SizeIn(ts: seq<Item>): nat
    decreases ts, 0
  {
    if ts == [] then 0 else SizeIn(ts[..|ts| - 1]) + Size(ts[|ts| - 1])
  }
}
