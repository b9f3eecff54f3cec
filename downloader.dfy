/**
 * DownloadSource: the output directory of a target, its containment check,
 * and the filesystem steps that fetch and unpack the branch archive there.
 */
module Downloader {
  import opened Wrappers
  import opened GoStrings
  import opened GoPath
  import opened FileSystem
  import opened Http
  import Feed
  import Unzip

  datatype DownloadError = OutsideOutputDir | MkdirFailed | FetchFailed(why: HttpError)

  /**
   * How DownloadSource ends: the path it unpacked into, an error, the process
   * exit after removing an existing output path, or a panic (a target with
   * fewer than three '/'-separated parts, or a panic inside UnzipBytes).
   */
  datatype DownloadResult = Downloaded(outPath: string) | DownloadFailed(err: DownloadError) | Exited | Crashed

  /** The target without its first "http://" and then its first "https://". */
  function StripSchemes(targetURL: string): string {
    ReplaceFirst(ReplaceFirst(targetURL, "http://", ""), "https://", "")
  }

  /** The "owner-repo" output path, or None where indexing the split target panics. */
  function OutPath(targetURL: string, outDir: string): Option<string> {
    var parts := SplitChar(StripSchemes(targetURL), '/');
    if |parts| < 3 then None else Some(Clean(Join(outDir, parts[1] + "-" + parts[2])))
  }

  function ArchiveURL(targetURL: string, branch: string): string {
    targetURL + "/archive/refs/heads/" + branch + ".zip"
  }

  /** The check that the output path lies strictly below the cleaned output directory. */
  predicate Inside(p: string, outDir: string) {
    HasPrefix(p, Clean(outDir) + "/")
  }

  /**
   * DownloadSource on a disk `fs`; `fetch` is HTTPGet for a URL and `parse`
   * is zip.NewReader. The unzip outcome is only logged unless it panicked.
   */
  function Download(fs: Tree, targetURL: string, branch: string, outDir: string,
                    fetch: string -> Result<seq<byte>, HttpError>, parse: seq<byte> -> Unzip.Archive): (DownloadResult, Tree)
  {
    match OutPath(targetURL, outDir)
    case None => (Crashed, fs)
    case Some(p) =>
      if !Inside(p, outDir) then (DownloadFailed(OutsideOutputDir), fs)
      else if Stat(fs, p).Found? then (Exited, RemoveTree(fs, p))
      else if !MkdirSucceeds(fs, p) then (DownloadFailed(MkdirFailed), fs)
      else
        var made := fs[p := Directory(DirPerm)];
        match fetch(ArchiveURL(targetURL, branch))
        case Err(e) => (DownloadFailed(FetchFailed(e)), made)
        case Ok(zipBytes) =>
          var (outcome, t) := Unzip.Unzip(made, parse(zipBytes), p);
          if outcome == Unzip.Panicked then (Crashed, t) else (Downloaded(p), t)
  }

  /** DownloadSource(client, targetURL, branch, outDir) */
  method DownloadSource(disk: Disk, targetURL: string, branch: string, outDir: string,
                        fetch: string -> Result<seq<byte>, HttpError>, parse: seq<byte> -> Unzip.Archive)
    returns (r: DownloadResult)
    modifies disk
    ensures (r, disk.nodes) == Download(old(disk.nodes), targetURL, branch, outDir, fetch, parse)
  {
    var target := ReplaceFirst(ReplaceFirst(targetURL, "http://", ""), "https://", "");
    var parts := SplitChar(target, '/');
    if |parts| < 3 {
      return Crashed;
    }
    var outPath := Clean(Join(outDir, parts[1] + "-" + parts[2]));
    if !HasPrefix(outPath, Clean(outDir) + "/") {
      return DownloadFailed(OutsideOutputDir);
    }
    if Stat(disk.nodes, outPath).Found? {
      disk.RemoveAll(outPath);
      return Exited;
    }
    var ok := disk.Mkdir(outPath, DirPerm);
    if !ok {
      return DownloadFailed(MkdirFailed);
    }
    var zipBytes := fetch(ArchiveURL(targetURL, branch));
    if zipBytes.Err? {
      return DownloadFailed(FetchFailed(zipBytes.error));
    }
    var outcome := Unzip.UnzipBytes(disk, parse(zipBytes.value), outPath);
    if outcome == Unzip.Panicked {
      return Crashed;
    }
    return Downloaded(outPath);
  }

  /**
   * A failed fetch happens only after the containment check passed, and it
   * leaves the freshly made output directory behind, so the next
   * DownloadSource of the same target into the same directory, on any branch,
   * removes it and exits the process.
   */
  lemma FetchFailureLeavesDirectory(fs: Tree, targetURL: string, branch: string, outDir: string,
                                    fetch: string -> Result<seq<byte>, HttpError>, parse: seq<byte> -> Unzip.Archive,
                                    branch2: string, fetch2: string -> Result<seq<byte>, HttpError>, parse2: seq<byte> -> Unzip.Archive)
    ensures var (r, t) := Download(fs, targetURL, branch, outDir, fetch, parse);
      r.DownloadFailed? && r.err.FetchFailed? ==>
        OutPath(targetURL, outDir).Some? && Inside(OutPath(targetURL, outDir).value, outDir)
        && OutPath(targetURL, outDir).value in t
        && Download(t, targetURL, branch2, outDir, fetch2, parse2).0 == Exited
  {
    var (r, t) := Download(fs, targetURL, branch, outDir, fetch, parse);
    if r.DownloadFailed? && r.err.FetchFailed? {
      var p := OutPath(targetURL, outDir).value;
      assert t == fs[p := Directory(DirPerm)];
      assert Stat(t, p).Found?;
    }
  }

  /** A successful download unpacked into the checked output path. */
  lemma DownloadedInside(fs: Tree, targetURL: string, branch: string, outDir: string,
                         fetch: string -> Result<seq<byte>, HttpError>, parse: seq<byte> -> Unzip.Archive)
    ensures var r := Download(fs, targetURL, branch, outDir, fetch, parse).0;
      r.Downloaded? ==> OutPath(targetURL, outDir) == Some(r.outPath) && Inside(r.outPath, outDir)
  {
  }

  /** Joining a plain name to a directory is joining it to the cleaned directory. */
  lemma JoinOfClean(d: string, n: string)
    requires d != "" && PlainName(n)
    ensures Join(d, n) == Join(Clean(d), n)
  {
    var c := Clean(d);
    CleanIdempotent(d);
    CleanElementsChild(d, n);
    RenderChild(d[0] == '/', CleanElements(d), n);
    CleanJoinName(c, n);
  }

  /** The containment check accepts a plain name exactly when the cleaned output directory is neither "/" nor ".". */
  lemma InsideIff(outDir: string, n: string)
    requires PlainName(n)
    ensures Clean(Join(outDir, n)) == Join(Clean(outDir), n)
    ensures Inside(Clean(Join(outDir, n)), outDir) <==> Clean(outDir) != "/" && Clean(outDir) != "."
  {
    var c := Clean(outDir);
    CleanIdempotent(outDir);
    CleanJoinName(c, n);
    var j := Join(c, n);
    assert c != "";
    CleanIdempotent(c + "/" + n);
    assert Clean(j) == j;
    if outDir == "" {
      assert Join(outDir, n) == Clean(n);
      CleanJoinName(".", n);
    } else {
      JoinOfClean(outDir, n);
    }
    if c == "/" {
      assert !HasPrefix("/" + n, "//") by { assert n[0] != '/'; }
    } else if c == "." {
      assert !HasPrefix(n, "./") by {
        if |n| >= 2 { assert n[1] != '/'; }
      }
    }
  }

  /** The owner-repo name: never empty, ".", ".." or slashed. */
  lemma NameIsPlain(parts: seq<string>)
    requires |parts| >= 3 && forall i :: 0 <= i < |parts| ==> '/' !in parts[i]
    ensures PlainName(parts[1] + "-" + parts[2])
  {
    var n := parts[1] + "-" + parts[2];
    assert n[|parts[1]|] == '-';
  }

  /** For every target with three parts, the check passes iff the output directory is not "/" or ".". */
  lemma CheckPassesIff(targetURL: string, outDir: string)
    requires OutPath(targetURL, outDir).Some?
    ensures Inside(OutPath(targetURL, outDir).value, outDir) <==> Clean(outDir) != "/" && Clean(outDir) != "."
  {
    var parts := SplitChar(StripSchemes(targetURL), '/');
    NameIsPlain(parts);
    InsideIff(outDir, parts[1] + "-" + parts[2]);
  }

  /** A three-part path has no "//" when its first two parts are non-empty. */
  lemma ThreePartsSingleSlashes(host: string, owner: string, repo: string)
    requires host != "" && owner != "" && '/' !in host && '/' !in owner && '/' !in repo
    ensures Feed.SingleSlashes(host + "/" + owner + "/" + repo)
  {
    var rest := host + "/" + owner + "/" + repo;
    var h := |host|;
    var o := |owner|;
    forall j | 0 <= j < |rest| && j != h && j != h + 1 + o ensures rest[j] != '/' {
      if j < h {
        assert rest[j] == host[j];
      } else if j < h + 1 + o {
        assert rest[j] == owner[j - h - 1];
      } else {
        assert rest[j] == repo[j - h - 2 - o];
      }
    }
    assert rest[h + 1] == owner[0];
  }

  /** Stripping the schemes of an https URL whose rest has no "//" leaves the rest. */
  lemma StripHttps(rest: string)
    requires Feed.SingleSlashes(rest) && |rest| > 0 && rest[0] != '/'
    ensures StripSchemes("https://" + rest) == rest
  {
    var url := "https://" + rest;
    Feed.NoHttpAfterHttps(rest);
    assert ReplaceFirst(url, "http://", "") == url;
    assert OccursAt(url, "https://", 0);
    IndexAt(url, "https://", 0);
    assert url[8..] == rest && url[..0] == "";
  }

  lemma JoinThree(host: string, owner: string, repo: string)
    ensures JoinChar([host, owner, repo], '/') == host + "/" + owner + "/" + repo
  {
    var parts := [host, owner, repo];
    assert parts[1..] == [owner, repo] && [owner, repo][1..] == [repo];
    calc {
      JoinChar(parts, '/');
      host + ['/'] + JoinChar([owner, repo], '/');
      host + ['/'] + (owner + ['/'] + repo);
      { SlashAssoc(host, owner, repo); }
      host + "/" + owner + "/" + repo;
    }
  }

  /** An https target "https://host/owner/repo" splits into its three parts, so it is unpacked into "owner-repo". */
  lemma DownloadName(host: string, owner: string, repo: string, outDir: string)
    requires host != "" && owner != "" && '/' !in host && '/' !in owner && '/' !in repo
    ensures SplitChar(StripSchemes("https://" + (host + "/" + owner + "/" + repo)), '/') == [host, owner, repo]
    ensures OutPath("https://" + (host + "/" + owner + "/" + repo), outDir) == Some(Clean(Join(outDir, owner + "-" + repo)))
  {
    var rest := host + "/" + owner + "/" + repo;
    ThreePartsSingleSlashes(host, owner, repo);
    assert rest[0] == host[0];
    StripHttps(rest);
    JoinThree(host, owner, repo);
    GoStrings.JoinSplit([host, owner, repo], '/');
  }

  /** Nothing outside Clean(outDir) + "/" is created, changed or removed, whatever the outcome. */
  lemma DownloadConfined(fs: Tree, targetURL: string, branch: string, outDir: string,
                         fetch: string -> Result<seq<byte>, HttpError>, parse: seq<byte> -> Unzip.Archive, k: string)
    ensures var t := Download(fs, targetURL, branch, outDir, fetch, parse).1;
      !Inside(k, outDir) ==> (k in t <==> k in fs) && (k in fs ==> t[k] == fs[k])
  {
    var o := OutPath(targetURL, outDir);
    if o.Some? && Inside(o.value, outDir) {
      var p := o.value;
      assert Clean(p) == p by {
        var parts := SplitChar(StripSchemes(targetURL), '/');
        CleanIdempotent(Join(outDir, parts[1] + "-" + parts[2]));
      }
      assert HasPrefix(k, p + "/") || k == p ==> Inside(k, outDir) by {
        if HasPrefix(k, p + "/") || k == p {
          assert (Clean(outDir) + "/") <= p;
        }
      }
      if !Stat(fs, p).Found? && MkdirSucceeds(fs, p) {
        var made := fs[p := Directory(DirPerm)];
        var f := fetch(ArchiveURL(targetURL, branch));
        if f.Ok? {
          var archive := parse(f.value);
          Unzip.UnzipBelow(made, archive, p, k);
        }
      }
    }
  }
}
