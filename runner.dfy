/**
 * scanTarget and RepoScanner: one target is fetched, extracted, downloaded,
 * counted, scanned by semgrep and reported on; the worker loop rewrites each
 * target for fireprox, scans it, logs the errors worth logging and displays
 * the repositories that scanned cleanly.
 */
module Runner {
  import opened Wrappers
  import opened GoStrings
  import opened Types
  import opened FileSystem
  import Http
  import Report
  import Sast
  import Downloader
  import Display
  import Filters
  import Unzip
  import Sequences
  import Feed
  import GoPath

  // ---------------------------------------------------------------------------
  // Errors
  // ---------------------------------------------------------------------------

  /**
   * The errors scanTarget returns. HTTPGet's errors reach the runner
   * unwrapped, whether the repository page or the branch archive was being
   * fetched, so both are `Fetch`.
   */
  datatype ScanError =
    | Fetch(why: Http.HttpError)
    | OutsideOutputDir
    | MkdirFailed
    | ExtractFailed
    | TargetFiltered
    | InvalidFilter
    | CountFailed
    | SemgrepFailed(run: Sast.RunError)
    | ReportFailed

  /** The error DownloadSource returns, as scanTarget passes it on. */
  function DownloadErrorOf(e: Downloader.DownloadError): ScanError {
    match e
    case OutsideOutputDir => OutsideOutputDir
    case MkdirFailed => MkdirFailed
    case FetchFailed(why) => Fetch(why)
  }

  /** RepoScanner logs a failed scan unless its error is Err404, Err422 or ErrTargetFiltered. */
  predicate Logged(e: ScanError) {
    !(e == Fetch(Http.NotFound) || e == Fetch(Http.Unprocessable) || e == TargetFiltered)
  }

  // ---------------------------------------------------------------------------
  // The world a scan talks to
  // ---------------------------------------------------------------------------

  /**
   * What the scan receives from code outside this model, for the options of
   * the run:
   * `page` is GetRepoDocument's fetch of the repository page;
   * `extract` is ExtractRepoInfo on that page (None where it panics);
   * `embedded` is the embedded JSON text GetDefaultBranch selects from the page;
   * `fetch` and `parse` are HTTPGet and zip.NewReader inside DownloadSource;
   * `tree` is the directory tree filepath.Walk finds at a path;
   * `binary` and `flags` are the semgrep binary path and flags ConfigureSemgrep set;
   * `exec` is the semgrep process for a binary and arguments, and `decode` json.Unmarshal;
   * `runId` and `reportId` are the uuid.New values RunSemgrep and GenerateHTML draw for a target;
   * `render` is the report template on the report data;
   * `abs` is filepath.Abs (None for its error) and `link` is termlink.Link.
   */
  datatype World = World(
    page: string -> Result<string, Http.HttpError>,
    extract: string -> Option<Result<RepoInfo, ScanError>>,
    embedded: string -> string,
    fetch: string -> Result<seq<byte>, Http.HttpError>,
    parse: seq<byte> -> Unzip.Archive,
    tree: string -> Http.Item,
    binary: string,
    flags: seq<string>,
    exec: (string, seq<string>) -> Sast.Ran,
    decode: seq<byte> -> Option<seq<Sast.SemgrepResult>>,
    runId: string -> Uuid,
    reportId: string -> Uuid,
    render: Report.ReportData -> Report.Rendering,
    abs: string -> Option<string>,
    link: (string, string) -> string)

  // ---------------------------------------------------------------------------
  // Targets, links and findings
  // ---------------------------------------------------------------------------

  /** The target after the fireprox rewrite of RepoScanner: its first "github.com/" becomes the fireprox host. */
  function Fireproxied(o: Options, target: string): string {
    if o.fireprox != "" then ReplaceFirst(target, "github.com/", o.fireprox) else target
  }

  /**
   * The link of one semgrep result: the result's path without its first
   * |Split(outDir, "/")| + 2 components, under target/blob/branch, with the
   * line range. None is the slice-bounds panic of a path with fewer
   * components. With github1s the first "github.com/" becomes "github1s.com/".
   */
  function FindingLink(target: string, branch: string, outDir: string, github1s: bool, r: Sast.SemgrepResult): Option<string> {
    var parts := SplitChar(r.path, '/');
    var drop := |SplitChar(outDir, '/')| + 2;
    if drop > |parts| then None
    else
      var url := target + "/blob/" + branch + "/" + JoinChar(parts[drop..], '/')
                 + "#L" + Itoa(r.startLine) + "-L" + Itoa(r.endLine);
      Some(if github1s then ReplaceFirst(url, "github.com/", "github1s.com/") else url)
  }

  /** The report finding of one semgrep result, or None where its link panics. */
  function FindingOf(target: string, branch: string, o: Options, r: Sast.SemgrepResult): Option<Report.Finding> {
    match FindingLink(target, branch, o.outDir, o.github1s, r)
    case None => None
    case Some(url) => Some(Report.Finding(r.checkID, r.impact, r.message, r.lines, r.startLine, r.endLine, url))
  }

  /** FindingOf as a function of the result alone. */
  function FindingFor(target: string, branch: string, o: Options): Sast.SemgrepResult -> Option<Report.Finding> {
    r => FindingOf(target, branch, o, r)
  }

  /** The findings of all results in order, or None when one of them panics. */
  function Findings(target: string, branch: string, o: Options, results: seq<Sast.SemgrepResult>): Option<seq<Report.Finding>> {
    Sequences.AllSome(results, FindingFor(target, branch, o))
  }

  /** The report data built from the sorted findings. */
  function ReportOf(target: string, sorted: seq<Report.Finding>): Report.ReportData {
    Report.ReportData(target, Report.Tally(Report.Titles(sorted)), Sequences.Distinct(Report.Titles(sorted)),
                      Report.Tally(Report.Severities(sorted)), sorted)
  }

  // ---------------------------------------------------------------------------
  // scanTarget, as functions
  // ---------------------------------------------------------------------------

  /**
   * How scanTarget ends: it returns, the process exits inside
   * DownloadSource, or it panics. Only `result` errors reach RepoScanner.
   */
  datatype Outcome = Returned(result: Result<RepoInfo, ScanError>) | Exit | Panic

  /** The page and extraction steps end the scan, or hand on the repository information. */
  datatype Prepared = Ready(info: RepoInfo) | Ended(outcome: Outcome)

  /** The source is needed by semgrep, the file count or the file filter. */
  predicate Downloads(o: Options) {
    !o.noSemgrep || o.files || o.filterFiles != ""
  }

  /** The page, ExtractRepoInfo, the target field and the default branch. */
  function Prepare(target: string, o: Options, w: World): Prepared {
    match w.page(target)
    case Err(e) => Ended(Returned(Err(Fetch(e))))
    case Ok(doc) =>
      match w.extract(doc)
      case None => Ended(Panic)
      case Some(Err(e)) => Ended(Returned(Err(e)))
      case Some(Ok(extracted)) =>
        var info := extracted.(target := target);
        if (!o.noSemgrep || o.branch) && info.branch == "" then
          match Filters.DefaultBranch(w.embedded(doc))
          case None => Ended(Panic)
          case Some(b) => Ready(info.(branch := b))
        else Ready(info)
  }

  /** scanTarget on the disk `fs`: the outcome and the disk it leaves. */
  function Scan(fs: Tree, target: string, o: Options, w: World): (Outcome, Tree) {
    match Prepare(target, o, w)
    case Ended(outcome) => (outcome, fs)
    case Ready(info) => DownloadStage(fs, info, o, w)
  }

  /** The deferred removal of the source path, which runs on return and on a panic alike. */
  function Cleaned(scanned: (Outcome, Tree), sourcePath: string, o: Options): (Outcome, Tree) {
    (scanned.0, if o.saveRepo then scanned.1 else RemovedAll(scanned.1, sourcePath))
  }

  /**
   * The download step: os.Exit ends everything without running the deferred
   * removal, Err422 is tolerated with an empty source path, every other error
   * ends the scan.
   */
  function DownloadStage(fs: Tree, info: RepoInfo, o: Options, w: World): (Outcome, Tree) {
    if !Downloads(o) then CountStage(fs, info, "", o, w)
    else
      var downloaded := Downloader.Download(fs, info.target, info.branch, o.outDir, w.fetch, w.parse);
      AfterDownload(downloaded.0, downloaded.1, info, o, w)
  }

  /** The rest of the scan after DownloadSource ended with `r`, leaving the disk `t`. */
  function AfterDownload(r: Downloader.DownloadResult, t: Tree, info: RepoInfo, o: Options, w: World): (Outcome, Tree) {
    match r
    case Exited => (Exit, t)
    case Crashed => (Panic, t)
    case DownloadFailed(e) =>
      if e == Downloader.FetchFailed(Http.Unprocessable) then Cleaned(CountStage(t, info, "", o, w), "", o)
      else (Returned(Err(DownloadErrorOf(e))), t)
    case Downloaded(p) => Cleaned(CountStage(t, info, p, o, w), p, o)
  }

  /** The file count and the file filter. */
  function CountStage(fs: Tree, info: RepoInfo, sourcePath: string, o: Options, w: World): (Outcome, Tree) {
    if o.files || o.filterFiles != "" then
      var root := w.tree(sourcePath);
      if Http.Broken(root) then (Returned(Err(CountFailed)), fs)
      else
        var counted := info.(files := WrapInt(Http.Files(root)));
        var verdict := if o.filterFiles == "" then Filters.Pass else Filters.NumericFilter(counted.files, o.filterFiles);
        match verdict
        case Filtered => (Returned(Err(TargetFiltered)), fs)
        case Invalid => (Returned(Err(InvalidFilter)), fs)
        case Pass => SemgrepStage(fs, counted, sourcePath, o, w)
    else SemgrepStage(fs, info, sourcePath, o, w)
  }

  /** The output file of the target's semgrep run. */
  function SemgrepOutFile(info: RepoInfo, o: Options, w: World): string {
    Sast.OutputFile(o.outDir, w.runId(info.target))
  }

  /** RunSemgrep on the source path: its result and the disk it leaves. */
  function Semgrepped(fs: Tree, info: RepoInfo, sourcePath: string, o: Options, w: World)
    : (Result<seq<Sast.SemgrepResult>, Sast.RunError>, Tree)
  {
    var outFile := SemgrepOutFile(info, o, w);
    Sast.Collected(fs, outFile, w.exec(w.binary, Sast.Args(outFile, w.flags, sourcePath)), w.decode)
  }

  /** Semgrep, the findings, their order and metrics, and the report. */
  function SemgrepStage(fs: Tree, info: RepoInfo, sourcePath: string, o: Options, w: World): (Outcome, Tree) {
    if o.noSemgrep then (Returned(Ok(info)), fs)
    else
      var (run, t) := Semgrepped(fs, info, sourcePath, o, w);
      match run
      case Err(e) => (Returned(Err(SemgrepFailed(e))), t)
      case Ok(results) =>
        var hit := info.(semgrepHits := WrapInt(|results|));
        match Findings(info.target, info.branch, o, results)
        case None => (Panic, t)
        case Some(found) =>
          var data := ReportOf(info.target, Report.SortSpec(found));
          var (path, u) := Report.Generated(t, o.outDir, w.reportId(info.target), w.render(data));
          match path
          case None => (Returned(Err(ReportFailed)), u)
          case Some(p) => (Returned(Ok(hit.(reportPath := p))), u)
  }

  // ---------------------------------------------------------------------------
  // scanTarget, as the steps it takes
  // ---------------------------------------------------------------------------

  /** The link of one result inside the loop; None where slicing the path panics. */
  method ResultLink(target: string, branch: string, o: Options, result: Sast.SemgrepResult) returns (link: Option<string>)
    ensures link == FindingLink(target, branch, o.outDir, o.github1s, result)
  {
    var parts := SplitChar(result.path, '/');
    var drop := |SplitChar(o.outDir, '/')| + 2;
    if drop > |parts| {
      return None;
    }
    var url := target + "/blob/" + branch + "/" + JoinChar(parts[drop..], '/')
               + "#L" + Itoa(result.startLine) + "-L" + Itoa(result.endLine);
    if o.github1s {
      url := ReplaceFirst(url, "github.com/", "github1s.com/");
    }
    return Some(url);
  }

  /** The loop over semgrep's results that builds the findings. */
  method BuildFindings(target: string, branch: string, o: Options, results: seq<Sast.SemgrepResult>)
    returns (findings: Option<seq<Report.Finding>>)
    ensures findings == Findings(target, branch, o, results)
  {
    var semgrepFindings: seq<Report.Finding> := [];
    var i := 0;
    while i < |results|
      invariant 0 <= i <= |results|
      invariant Findings(target, branch, o, results[..i]) == Some(semgrepFindings)
    {
      var result := results[i];
      Sequences.AllSomeAt(results, FindingFor(target, branch, o), i);
      var link := ResultLink(target, branch, o, result);
      if link.None? {
        Sequences.AllSomePersists(results, FindingFor(target, branch, o), i + 1);
        return None;
      }
      semgrepFindings := semgrepFindings + [Report.Finding(result.checkID, result.impact, result.message,
                                                           result.lines, result.startLine, result.endLine, link.value)];
      i := i + 1;
    }
    assert results[..i] == results;
    return Some(semgrepFindings);
  }

  /** The semgrep part of scanTarget: the hit count, the findings, SortFindings, the metrics and the report. */
  method RunSemgrepStage(disk: Disk, info: RepoInfo, sourcePath: string, o: Options, w: World) returns (outcome: Outcome)
    modifies disk
    ensures (outcome, disk.nodes) == SemgrepStage(old(disk.nodes), info, sourcePath, o, w)
  {
    if o.noSemgrep {
      return Returned(Ok(info));
    }
    var outFile := Sast.OutputFile(o.outDir, w.runId(info.target));
    var semgrepJson := Sast.Collect(disk, outFile, w.exec(w.binary, Sast.Args(outFile, w.flags, sourcePath)), w.decode);
    if semgrepJson.Err? {
      return Returned(Err(SemgrepFailed(semgrepJson.error)));
    }
    var repoInfo := info.(semgrepHits := WrapInt(|semgrepJson.value|));
    var semgrepFindings := BuildFindings(info.target, info.branch, o, semgrepJson.value);
    if semgrepFindings.None? {
      return Panic;
    }
    var a := new Report.Finding[|semgrepFindings.value|](i requires 0 <= i < |semgrepFindings.value| => semgrepFindings.value[i]);
    assert a[..] == semgrepFindings.value;
    Report.SortFindings(a);
    var vulnerabilityStats, vulnerabilityStatsOrdering, severityStats := Report.CalculateSemgrepMetrics(a[..]);
    var reportData := Report.ReportData(info.target, vulnerabilityStats, vulnerabilityStatsOrdering, severityStats, a[..]);
    var reportPath := Report.GenerateHTML(disk, reportData, o.outDir, w.reportId(info.target), w.render);
    if reportPath.None? {
      return Returned(Err(ReportFailed));
    }
    return Returned(Ok(repoInfo.(reportPath := reportPath.value)));
  }

  /** The file count and the file filter, then semgrep. */
  method RunCountStage(disk: Disk, info: RepoInfo, sourcePath: string, o: Options, w: World) returns (outcome: Outcome)
    modifies disk
    ensures (outcome, disk.nodes) == CountStage(old(disk.nodes), info, sourcePath, o, w)
  {
    var repoInfo := info;
    if o.files || o.filterFiles != "" {
      var numFiles, failed := Http.CountFiles(w.tree(sourcePath));
      if failed {
        return Returned(Err(CountFailed));
      }
      repoInfo := repoInfo.(files := WrapInt(numFiles));
      if o.filterFiles != "" {
        var verdict := Filters.NumericFilter(repoInfo.files, o.filterFiles);
        if verdict == Filters.Filtered {
          return Returned(Err(TargetFiltered));
        } else if verdict == Filters.Invalid {
          return Returned(Err(InvalidFilter));
        }
      }
    }
    outcome := RunSemgrepStage(disk, repoInfo, sourcePath, o, w);
  }

  /** The download step of scanTarget on the disk, with the deferred removal of the source path. */
  method RunDownloadStage(disk: Disk, info: RepoInfo, o: Options, w: World) returns (outcome: Outcome)
    modifies disk
    ensures (outcome, disk.nodes) == DownloadStage(old(disk.nodes), info, o, w)
  {
    if !Downloads(o) {
      outcome := RunCountStage(disk, info, "", o, w);
      return;
    }
    var r := Downloader.DownloadSource(disk, info.target, info.branch, o.outDir, w.fetch, w.parse);
    outcome := ScanDownloaded(disk, r, info, o, w);
  }

  /** What scanTarget does once DownloadSource has ended with `r`. */
  method ScanDownloaded(disk: Disk, r: Downloader.DownloadResult, info: RepoInfo, o: Options, w: World) returns (outcome: Outcome)
    modifies disk
    ensures (outcome, disk.nodes) == AfterDownload(r, old(disk.nodes), info, o, w)
  {
    var sourcePath: string := "";
    match r {
      case Exited =>
        return Exit;
      case Crashed =>
        return Panic;
      case DownloadFailed(e) =>
        if e != Downloader.FetchFailed(Http.Unprocessable) {
          return Returned(Err(DownloadErrorOf(e)));
        }
      case Downloaded(p) =>
        sourcePath := p;
    }
    outcome := RunCountStage(disk, info, sourcePath, o, w);
    if !o.saveRepo {
      disk.RemoveAll(sourcePath);
    }
  }

  /**
   * scanTarget(target, options, httpClient) on the disk and the terminal:
   * a page that answers 404 prints the target and "[404]" and nothing else
   * is printed.
   */
  method ScanTarget(disk: Disk, painter: Display.Painter, target: string, o: Options, w: World)
    returns (outcome: Outcome)
    modifies disk, painter
    ensures (outcome, disk.nodes) == Scan(old(disk.nodes), target, o, w)
    ensures painter.out == old(painter.out) + (if w.page(target) == Err(Http.NotFound) then Display.NotFoundLine(o, target) else [])
    ensures painter.doPurple == old(painter.doPurple)
  {
    var repoDoc := w.page(target);
    if repoDoc == Err(Http.NotFound) {
      painter.Print404(o, target);
      return Returned(Err(Fetch(Http.NotFound)));
    } else if repoDoc.Err? {
      return Returned(Err(Fetch(repoDoc.error)));
    }
    var extracted := w.extract(repoDoc.value);
    if extracted.None? {
      return Panic;
    }
    if extracted.value.Err? {
      return Returned(Err(extracted.value.error));
    }
    var repoInfo := extracted.value.value.(target := target);
    if (!o.noSemgrep || o.branch) && repoInfo.branch == "" {
      var defaultBranch := Filters.DefaultBranch(w.embedded(repoDoc.value));
      if defaultBranch.None? {
        return Panic;
      }
      repoInfo := repoInfo.(branch := defaultBranch.value);
    }
    outcome := RunDownloadStage(disk, repoInfo, o, w);
  }

  // ---------------------------------------------------------------------------
  // RepoScanner
  // ---------------------------------------------------------------------------

  /** Where the worker is: taking targets, or ended because the channel closed, a stop, os.Exit or a panic. */
  datatype Ending = Open | Drained | Stopped | ProcessExited | Crashed

  /** The disk, the terminal output, the targets logged as failed scans, and the ending. */
  datatype Worker = Worker(fs: Tree, out: seq<Display.Segment>, failures: seq<string>, ending: Ending)

  /** One target received: the fireprox rewrite, the scan, the error log and the display. */
  function Visit(s: Worker, target: string, o: Options, w: World): Worker {
    var t := Fireproxied(o, target);
    var scanned := Scan(s.fs, t, o, w);
    var out := s.out + (if w.page(t) == Err(Http.NotFound) then Display.NotFoundLine(o, t) else []);
    match scanned.0
    case Exit => Worker(scanned.1, out, s.failures, ProcessExited)
    case Panic => Worker(scanned.1, out, s.failures, Crashed)
    case Returned(Err(e)) => Worker(scanned.1, out, s.failures + (if Logged(e) then [t] else []), Open)
    case Returned(Ok(info)) => Worker(scanned.1, out + Display.Line(o, info, w.abs(info.reportPath), w.link), s.failures, Open)
  }

  /** The targets visited in order from `start`, until one ends the process. */
  function Sweep(start: Worker, targets: seq<string>, o: Options, w: World): Worker {
    if targets == [] then start
    else
      var s := Sweep(start, targets[..|targets| - 1], o, w);
      if s.ending != Open then s else Visit(s, targets[|targets| - 1], o, w)
  }

  /**
   * RepoScanner over the targets the channel delivers, with the stop signal
   * first seen after receiving target `stopAt`.
   */
  function Worked(start: Worker, targets: seq<string>, stopAt: nat, o: Options, w: World): Worker {
    var s := Sweep(start, targets[..Feed.Min(stopAt, |targets|)], o, w);
    if s.ending != Open then s
    else s.(ending := if stopAt < |targets| then Stopped else Drained)
  }

  lemma SweepSnoc(start: Worker, targets: seq<string>, i: nat, o: Options, w: World)
    requires i < |targets|
    ensures Sweep(start, targets[..i + 1], o, w) ==
      var s := Sweep(start, targets[..i], o, w);
      if s.ending != Open then s else Visit(s, targets[i], o, w)
  {
    assert targets[..i + 1][..i] == targets[..i];
  }

  /** Once a visit has ended the process, later targets change nothing. */
  lemma {:induction false} SweepHalts(start: Worker, targets: seq<string>, k: nat, m: nat, o: Options, w: World)
    requires k <= m <= |targets| && Sweep(start, targets[..k], o, w).ending != Open
    ensures Sweep(start, targets[..m], o, w) == Sweep(start, targets[..k], o, w)
    decreases m
  {
    if k < m {
      SweepHalts(start, targets, k, m - 1, o, w);
      SweepSnoc(start, targets, m - 1, o, w);
    }
  }

  /** One iteration of RepoScanner's loop, for the target received. */
  method VisitTarget(disk: Disk, painter: Display.Painter, target: string, failures: seq<string>, o: Options, w: World)
    returns (failed: seq<string>, ending: Ending)
    modifies disk, painter
    ensures Worker(disk.nodes, painter.out, failed, ending) ==
      Visit(Worker(old(disk.nodes), old(painter.out), failures, Open), target, o, w)
  {
    var t := target;
    if o.fireprox != "" {
      t := ReplaceFirst(t, "github.com/", o.fireprox);
    }
    var outcome := ScanTarget(disk, painter, t, o, w);
    failed := failures;
    if outcome == Exit {
      return failed, ProcessExited;
    } else if outcome == Panic {
      return failed, Crashed;
    }
    if outcome.result.Err? && Logged(outcome.result.error) {
      failed := failed + [t];
    }
    if outcome.result.Ok? {
      var repoInfo := outcome.result.value;
      painter.DisplayRepoInfo(o, repoInfo, w.abs(repoInfo.reportPath), w.link);
    }
    return failed, Open;
  }

  /** RepoScanner(targets, options, wg, stop) on the disk and the terminal. */
  method RepoScanner(disk: Disk, painter: Display.Painter, targets: seq<string>, stopAt: nat, o: Options, w: World)
    returns (failures: seq<string>, ending: Ending)
    modifies disk, painter
    ensures Worker(disk.nodes, painter.out, failures, ending) ==
      Worked(Worker(old(disk.nodes), old(painter.out), [], Open), targets, stopAt, o, w)
  {
    ghost var start := Worker(disk.nodes, painter.out, [], Open);
    failures := [];
    var i := 0;
    while i < |targets|
      invariant 0 <= i <= |targets| && i <= stopAt
      invariant Sweep(start, targets[..i], o, w) == Worker(disk.nodes, painter.out, failures, Open)
    {
      if i == stopAt {
        return failures, Stopped;
      }
      failures, ending := VisitTarget(disk, painter, targets[i], failures, o, w);
      SweepSnoc(start, targets, i, o, w);
      if ending != Open {
        SweepHalts(start, targets, i + 1, Feed.Min(stopAt, |targets|), o, w);
        return;
      }
      i := i + 1;
    }
    assert targets[..i] == targets;
    return failures, Drained;
  }

  // ---------------------------------------------------------------------------
  // Properties of the findings and links
  // ---------------------------------------------------------------------------

  /** The loop yields findings iff no result's link panics, and then one finding per result, in order. */
  lemma FindingsIff(target: string, branch: string, o: Options, results: seq<Sast.SemgrepResult>)
    ensures Findings(target, branch, o, results).Some? <==>
      forall i :: 0 <= i < |results| ==> FindingOf(target, branch, o, results[i]).Some?
    ensures Findings(target, branch, o, results).Some? ==>
      var found := Findings(target, branch, o, results).value;
      |found| == |results| && forall i :: 0 <= i < |results| ==> found[i] == FindingOf(target, branch, o, results[i]).value
  {
    Sequences.AllSomeIff(results, FindingFor(target, branch, o));
  }

  lemma SlashAssoc3(x: string, a: string, b: string, rel: string)
    ensures x + "/" + a + "/" + b + "/" + rel == x + "/" + (a + "/" + (b + "/" + rel))
  {
  }

  lemma PairAssoc(x: seq<string>, a: string, b: string, y: seq<string>)
    ensures x + ([a] + ([b] + y)) == x + [a, b] + y
  {
  }

  lemma RightParts(outDir: string, a: string, b: string, rel: string)
    requires '/' !in a && '/' !in b
    ensures SplitChar(outDir + "/" + (a + "/" + (b + "/" + rel)), '/') == SplitChar(outDir, '/') + ([a] + ([b] + SplitChar(rel, '/')))
  {
    var low := b + "/" + rel;
    SplitAppend(b, rel, '/');
    assert SplitChar(b, '/') == [b];
    SplitAppend(a, low, '/');
    assert SplitChar(a, '/') == [a];
    SplitAppend(outDir, a + "/" + low, '/');
  }

  /** The components of a path below outDir, a checkout directory and the archive root. */
  lemma PathParts(outDir: string, a: string, b: string, rel: string)
    requires '/' !in a && '/' !in b
    ensures SplitChar(outDir + "/" + a + "/" + b + "/" + rel, '/') == SplitChar(outDir, '/') + [a, b] + SplitChar(rel, '/')
  {
    RightParts(outDir, a, b, rel);
    SlashAssoc3(outDir, a, b, rel);
    PairAssoc(SplitChar(outDir, '/'), a, b, SplitChar(rel, '/'));
  }

  /**
   * Semgrep reports a file as outDir/owner-repo/root/rel, where owner-repo
   * is the checkout and root the top folder of the branch archive: the link
   * drops exactly those and points at rel on the branch.
   */
  lemma LinkStripsCheckout(target: string, branch: string, outDir: string, r: Sast.SemgrepResult, a: string, b: string, rel: string)
    requires '/' !in a && '/' !in b
    requires r.path == outDir + "/" + a + "/" + b + "/" + rel
    ensures FindingLink(target, branch, outDir, false, r) ==
      Some(target + "/blob/" + branch + "/" + rel + "#L" + Itoa(r.startLine) + "-L" + Itoa(r.endLine))
  {
    PathParts(outDir, a, b, rel);
    var parts := SplitChar(r.path, '/');
    assert parts[|SplitChar(outDir, '/')| + 2..] == SplitChar(rel, '/');
    SplitJoin(rel, '/');
  }

  /** The parts of such a path when outDir is a single name written with a trailing slash. */
  lemma TrailingSlashParts(dir: string)
    requires '/' !in dir
    ensures SplitChar(dir + "/", '/') == [dir, ""]
  {
    SplitAppend(dir, "", '/');
    assert (dir + "/") == dir + ['/'] + "";
    assert SplitChar(dir, '/') == [dir];
  }

  lemma TrailingParts(dir: string, a: string, b: string, first: string, rest: string)
    requires '/' !in dir && '/' !in a && '/' !in b && '/' !in first
    ensures |SplitChar(dir + "/", '/')| == 2
    ensures |SplitChar(dir + "/" + a + "/" + b + "/" + (first + "/" + rest), '/')| >= 4
    ensures SplitChar(dir + "/" + a + "/" + b + "/" + (first + "/" + rest), '/')[4..] == SplitChar(rest, '/')
  {
    TrailingSlashParts(dir);
    var low := first + "/" + rest;
    PathParts(dir, a, b, low);
    SplitAppend(first, rest, '/');
    assert SplitChar(first, '/') == [first];
    assert SplitChar(dir, '/') == [dir];
    var parts := [dir] + [a, b] + ([first] + SplitChar(rest, '/'));
    assert parts[4..] == SplitChar(rest, '/');
  }

  /**
   * An output directory written with a trailing slash has one more
   * '/'-separated part than the directory it names, so the link also drops
   * the first component below the archive root.
   */
  lemma LinkAfterTrailingSlash(target: string, branch: string, dir: string, r: Sast.SemgrepResult,
                               a: string, b: string, first: string, rest: string)
    requires '/' !in dir && '/' !in a && '/' !in b && '/' !in first
    requires r.path == dir + "/" + a + "/" + b + "/" + (first + "/" + rest)
    ensures FindingLink(target, branch, dir + "/", false, r) ==
      Some(target + "/blob/" + branch + "/" + rest + "#L" + Itoa(r.startLine) + "-L" + Itoa(r.endLine))
  {
    TrailingParts(dir, a, b, first, rest);
    SplitJoin(rest, '/');
  }

  /** Replacing the first "github.com/" of an https://github.com/ URL swaps its host. */
  lemma HostSwap(post: string)
    ensures ReplaceFirst("https://" + "github.com/" + post, "github.com/", "github1s.com/") == "https://" + "github1s.com/" + post
  {
    var u := "https://" + "github.com/" + post;
    assert u[8..19] == "github.com/";
    forall i | 0 <= i < 8 ensures !OccursAt(u, "github.com/", i) {
      assert u[i] == "https://"[i];
    }
    IndexAt(u, "github.com/", 8);
    ReplaceAtFirst(u, "github.com/", "github1s.com/", "https://", post);
  }

  /** For a target on https://github.com/ the github1s link differs only in its host. */
  lemma Github1sLink(target: string, branch: string, outDir: string, r: Sast.SemgrepResult, rest: string)
    requires target == "https://" + "github.com/" + rest
    ensures FindingLink(target, branch, outDir, true, r) ==
      match FindingLink(target, branch, outDir, false, r)
      case None => None
      case Some(u) => Some("https://" + "github1s.com/" + u[19..])
  {
    var plain := FindingLink(target, branch, outDir, false, r);
    if plain.Some? {
      var u := plain.value;
      assert target <= u;
      assert u == "https://" + "github.com/" + u[19..] by {
        assert u[..19] == target[..19];
      }
      assert FindingLink(target, branch, outDir, true, r) == Some(ReplaceFirst(u, "github.com/", "github1s.com/"));
      HostSwap(u[19..]);
    }
  }

  /** The fireprox host, put where the first "github.com/" was, is the first occurrence of itself. */
  predicate Restorable(o: Options, t: string) {
    o.fireprox != "" ==>
      Contains(t, "github.com/") && Index(t[..Index(t, "github.com/")] + o.fireprox, o.fireprox) == Index(t, "github.com/")
  }

  /**
   * With fireprox set, the 404 line shows the target as it was received: the
   * display turns the fireprox host back into "github.com/", provided the
   * host does not occur earlier in the rewritten target.
   */
  lemma FireproxRoundTrip(o: Options, t: string)
    requires Restorable(o, t)
    ensures Display.ShownTarget(o, Fireproxied(o, t)) == t
  {
    if o.fireprox != "" {
      ReplaceFirstBack(t, "github.com/", o.fireprox);
    }
  }

  /**
   * When the target has a "github.com/" to rewrite, the display restores it
   * exactly when Restorable holds: if the fireprox host occurs earlier in the
   * rewritten target, the display puts "github.com/" there instead, where the
   * target had none.
   */
  lemma FireproxRoundTripExact(o: Options, t: string)
    requires o.fireprox != "" && Contains(t, "github.com/")
    ensures Display.ShownTarget(o, Fireproxied(o, t)) == t <==> Restorable(o, t)
  {
    if Restorable(o, t) {
      FireproxRoundTrip(o, t);
    } else {
      ReplaceFirstNotBack(t, "github.com/", o.fireprox);
    }
  }

  /** Where "github.com/" and the host "x" first occur in the example below. */
  lemma ShownElsewhereIndexes()
    ensures var t := "https://xgithub.com/a/b";
      Index(t, "github.com/") == 9 && Index(t[..9] + "x", "x") == 8
  {
    var t := "https://xgithub.com/a/b";
    var p := t[..9] + "x";
    assert Index(p, "x") == 8 by {
      assert p[8..9] == "x";
      forall i | 0 <= i < 8 ensures !OccursAt(p, "x", i) {
        assert p[i..i + 1][0] == p[i];
      }
      IndexAt(p, "x", 8);
    }
    assert Index(t, "github.com/") == 9 by {
      forall i | 0 <= i < 9 ensures !OccursAt(t, "github.com/", i) {
        assert t[i..i + 11][0] == t[i];
      }
      assert t[9..20] == "github.com/";
      IndexAt(t, "github.com/", 9);
    }
  }

  /**
   * The round trip fails for host "x" and target "https://xgithub.com/a/b":
   * the target is sent as "https://xxa/b", and the display turns the earlier
   * "x" back, so it shows "https://github.com/xa/b".
   */
  lemma FireproxShownElsewhere(o: Options)
    requires o.fireprox == "x"
    ensures !Restorable(o, "https://xgithub.com/a/b")
    ensures Display.ShownTarget(o, Fireproxied(o, "https://xgithub.com/a/b")) != "https://xgithub.com/a/b"
  {
    ShownElsewhereIndexes();
    FireproxRoundTripExact(o, "https://xgithub.com/a/b");
  }

  /** The report is built from findings that are sorted, a permutation of the loop's, with counts summing to their number. */
  lemma ReportConsistent(target: string, found: seq<Report.Finding>)
    ensures var d := ReportOf(target, Report.SortSpec(found));
      Report.Sorted(d.findings) && multiset(d.findings) == multiset(found)
      && Report.SumOver(d.vulnerabilityStatsOrdering, d.vulnerabilityStats) == |found|
      && Report.SumOver(Sequences.Distinct(Report.Severities(d.findings)), d.severityStats) == |found|
      && (forall x :: x in d.vulnerabilityStatsOrdering <==> x in d.vulnerabilityStats)
  {
    var sorted := Report.SortSpec(found);
    Report.SortSorted(found);
    Report.SortPermutes(found);
    Report.MetricsTotals(sorted);
    Report.TallyKeys(Report.Titles(sorted));
    Sequences.DistinctElements(Report.Titles(sorted));
  }

  // ---------------------------------------------------------------------------
  // What a scan promises
  // ---------------------------------------------------------------------------

  /**
   * A semgrep stage that returns keeps the repository information but for the
   * hit count, the number of results in a Go int, and the report path, which
   * is the report file GenerateHTML wrote for the sorted findings and which
   * holds the rendered report.
   */
  lemma HitsCounted(fs: Tree, info: RepoInfo, sourcePath: string, o: Options, w: World, done: RepoInfo)
    requires SemgrepStage(fs, info, sourcePath, o, w).0 == Returned(Ok(done))
    ensures done.(semgrepHits := info.semgrepHits, reportPath := info.reportPath) == info
    ensures o.noSemgrep ==> done == info && SemgrepStage(fs, info, sourcePath, o, w).1 == fs
    ensures !o.noSemgrep ==>
      var (run, t) := Semgrepped(fs, info, sourcePath, o, w);
      run.Ok? && done.semgrepHits == WrapInt(|run.value|)
      && Findings(info.target, info.branch, o, run.value).Some?
      && var data := ReportOf(info.target, Report.SortSpec(Findings(info.target, info.branch, o, run.value).value));
         var u := SemgrepStage(fs, info, sourcePath, o, w).1;
         done.reportPath == Report.ReportFile(o.outDir, w.reportId(info.target))
         && Report.Generated(t, o.outDir, w.reportId(info.target), w.render(data)) == (Some(done.reportPath), u)
         && GoPath.Clean(done.reportPath) in u && u[GoPath.Clean(done.reportPath)].content == w.render(data).written
  {
    if !o.noSemgrep {
      var (run, t) := Semgrepped(fs, info, sourcePath, o, w);
      var data := ReportOf(info.target, Report.SortSpec(Findings(info.target, info.branch, o, run.value).value));
      Report.GeneratedEffect(t, o.outDir, w.reportId(info.target), w.render(data));
    }
  }

  /** A count stage that returns keeps target and branch, counted the files when asked, and passed the file filter. */
  lemma CountedAndPassed(fs: Tree, info: RepoInfo, sourcePath: string, o: Options, w: World, done: RepoInfo)
    requires CountStage(fs, info, sourcePath, o, w).0 == Returned(Ok(done))
    ensures done.target == info.target && done.branch == info.branch
    ensures (o.files || o.filterFiles != "") ==>
      !Http.Broken(w.tree(sourcePath)) && done.files == WrapInt(Http.Files(w.tree(sourcePath)))
    ensures o.filterFiles != "" ==> Filters.NumericFilter(done.files, o.filterFiles) == Filters.Pass
  {
    if o.files || o.filterFiles != "" {
      var counted := info.(files := WrapInt(Http.Files(w.tree(sourcePath))));
      HitsCounted(fs, counted, sourcePath, o, w, done);
    } else {
      HitsCounted(fs, info, sourcePath, o, w, done);
    }
  }

  /** After the download step, a scan that returns information returns the target's, through the file filter. */
  lemma DownloadStageSucceeded(fs: Tree, info: RepoInfo, o: Options, w: World, done: RepoInfo)
    requires DownloadStage(fs, info, o, w).0 == Returned(Ok(done))
    ensures done.target == info.target
    ensures o.filterFiles != "" ==> Filters.NumericFilter(done.files, o.filterFiles) == Filters.Pass
  {
    if !Downloads(o) {
      CountedAndPassed(fs, info, "", o, w, done);
    } else {
      var d := Downloader.Download(fs, info.target, info.branch, o.outDir, w.fetch, w.parse);
      match d.0 {
        case Downloaded(p) =>
          assert CountStage(d.1, info, p, o, w).0 == Returned(Ok(done));
          CountedAndPassed(d.1, info, p, o, w, done);
        case DownloadFailed(e) =>
          assert CountStage(d.1, info, "", o, w).0 == Returned(Ok(done));
          CountedAndPassed(d.1, info, "", o, w, done);
        case Exited =>
        case Crashed =>
      }
    }
  }

  /** The information a scan returns is about the target it was given, fetched, and through the file filter. */
  lemma ScanSucceeded(fs: Tree, target: string, o: Options, w: World, done: RepoInfo)
    requires Scan(fs, target, o, w).0 == Returned(Ok(done))
    ensures w.page(target).Ok? && done.target == target
    ensures o.filterFiles != "" ==> Filters.NumericFilter(done.files, o.filterFiles) == Filters.Pass
  {
    match Prepare(target, o, w) {
      case Ready(info) =>
        assert info.target == target;
        DownloadStageSucceeded(fs, info, o, w, done);
      case Ended(outcome) =>
    }
  }

  /**
   * A download error other than Err422 ends the scan with that error and the
   * disk DownloadSource left, before any count, semgrep run or report;
   * RepoScanner logs it unless it is the archive's Err404.
   */
  lemma DownloadErrorAbandons(fs: Tree, info: RepoInfo, o: Options, w: World)
    requires Downloads(o)
    ensures var d := Downloader.Download(fs, info.target, info.branch, o.outDir, w.fetch, w.parse);
      d.0.DownloadFailed? && d.0.err != Downloader.FetchFailed(Http.Unprocessable) ==>
        DownloadStage(fs, info, o, w) == (Returned(Err(DownloadErrorOf(d.0.err))), d.1)
        && (Logged(DownloadErrorOf(d.0.err)) <==> d.0.err != Downloader.FetchFailed(Http.NotFound))
  {
  }

  /**
   * An archive answered with Err422 is scanned as if nothing was downloaded,
   * and the output directory DownloadSource created stays on the disk: the
   * deferred removal is of the empty path.
   */
  lemma UnprocessableTolerated(fs: Tree, info: RepoInfo, o: Options, w: World)
    requires Downloads(o)
    requires Downloader.Download(fs, info.target, info.branch, o.outDir, w.fetch, w.parse).0
             == Downloader.DownloadFailed(Downloader.FetchFailed(Http.Unprocessable))
    ensures var t := Downloader.Download(fs, info.target, info.branch, o.outDir, w.fetch, w.parse).1;
      DownloadStage(fs, info, o, w) == CountStage(t, info, "", o, w)
      && Downloader.OutPath(info.target, o.outDir).Some? && Downloader.OutPath(info.target, o.outDir).value in t
  {
    Downloader.FetchFailureLeavesDirectory(fs, info.target, info.branch, o.outDir, w.fetch, w.parse, info.branch, w.fetch, w.parse);
  }

  /** Removing a path inside the output directory leaves every key outside it as it was. */
  lemma CleanupConfined(t: Tree, p: string, outDir: string, k: string)
    requires Downloader.Inside(p, outDir) && !Downloader.Inside(k, outDir)
    ensures (k in RemovedAll(t, p) <==> k in t) && (k in t ==> RemovedAll(t, p)[k] == t[k])
  {
  }

  /**
   * After DownloadSource, the disk changes by what the count and semgrep
   * stages leave and then by the deferred removal of the unpacked path.
   */
  lemma AfterDownloadDisk(r: Downloader.DownloadResult, t: Tree, info: RepoInfo, o: Options, w: World)
    ensures AfterDownload(r, t, info, o, w).1 ==
      match r
      case Downloaded(p) =>
        var u := CountStage(t, info, p, o, w).1;
        if o.saveRepo then u else RemovedAll(u, p)
      case DownloadFailed(e) =>
        if e == Downloader.FetchFailed(Http.Unprocessable) then CountStage(t, info, "", o, w).1 else t
      case _ => t
  {
  }

  /** The semgrep stage changes the disk only at its output file and its report file. */
  lemma SemgrepStageFiles(fs: Tree, info: RepoInfo, sourcePath: string, o: Options, w: World, k: string)
    requires k != GoPath.Clean(SemgrepOutFile(info, o, w)) && k != GoPath.Clean(Report.ReportFile(o.outDir, w.reportId(info.target)))
    ensures var t := SemgrepStage(fs, info, sourcePath, o, w).1;
      (k in t <==> k in fs) && (k in t ==> t[k] == fs[k])
  {
    if !o.noSemgrep {
      var outFile := SemgrepOutFile(info, o, w);
      var (run, t) := Semgrepped(fs, info, sourcePath, o, w);
      Sast.CollectedEffect(fs, outFile, w.exec(w.binary, Sast.Args(outFile, w.flags, sourcePath)), w.decode);
      if run.Ok? {
        var found := Findings(info.target, info.branch, o, run.value);
        if found.Some? {
          var data := ReportOf(info.target, Report.SortSpec(found.value));
          Report.GeneratedEffect(t, o.outDir, w.reportId(info.target), w.render(data));
        }
      }
    }
  }

  /** The count stage leaves the disk alone or runs the semgrep stage, with the file count or without it. */
  lemma CountStageRuns(fs: Tree, info: RepoInfo, sourcePath: string, o: Options, w: World)
    ensures var t := CountStage(fs, info, sourcePath, o, w).1;
      t == fs || t == SemgrepStage(fs, info, sourcePath, o, w).1
      || t == SemgrepStage(fs, info.(files := WrapInt(Http.Files(w.tree(sourcePath)))), sourcePath, o, w).1
  {
  }

  /** So does the count stage, which then runs it. */
  lemma CountStageFiles(fs: Tree, info: RepoInfo, sourcePath: string, o: Options, w: World, k: string)
    requires k != GoPath.Clean(SemgrepOutFile(info, o, w)) && k != GoPath.Clean(Report.ReportFile(o.outDir, w.reportId(info.target)))
    ensures var t := CountStage(fs, info, sourcePath, o, w).1;
      (k in t <==> k in fs) && (k in t ==> t[k] == fs[k])
  {
    var counted := info.(files := WrapInt(Http.Files(w.tree(sourcePath))));
    CountStageRuns(fs, info, sourcePath, o, w);
    SemgrepStageFiles(fs, info, sourcePath, o, w, k);
    assert SemgrepOutFile(counted, o, w) == SemgrepOutFile(info, o, w);
    SemgrepStageFiles(fs, counted, sourcePath, o, w, k);
  }

  /**
   * A name of the form prefix + uuid + suffix put under the output directory
   * lies inside it once the output directory cleans to neither "/" nor ".".
   */
  lemma UuidFileInside(outDir: string, prefix: string, id: Uuid, suffix: string)
    requires prefix != "" && '/' !in prefix && '/' !in suffix
    requires GoPath.Clean(outDir) != "/" && GoPath.Clean(outDir) != "."
    ensures Downloader.Inside(GoPath.Clean(outDir + "/" + (prefix + id + suffix)), outDir)
  {
    var n := prefix + id + suffix;
    UuidName(prefix, id, suffix);
    assert outDir != "";
    Downloader.InsideIff(outDir, n);
    GoPath.CleanIdempotent(outDir + "/" + n);
  }

  lemma NameUnder(d: string, prefix: string, id: string, suffix: string)
    ensures d + ("/" + prefix) + id + suffix == d + "/" + (prefix + id + suffix)
  {
  }

  lemma OutputFileInside(outDir: string, id: Uuid)
    requires GoPath.Clean(outDir) != "/" && GoPath.Clean(outDir) != "."
    ensures Downloader.Inside(GoPath.Clean(Sast.OutputFile(outDir, id)), outDir)
  {
    assert Sast.OutputFile(outDir, id) == outDir + "/" + ("output-" + id + ".json") by {
      assert "/output-" == "/" + "output-";
      NameUnder(outDir, "output-", id, ".json");
    }
    UuidFileInside(outDir, "output-", id, ".json");
  }

  lemma ReportFileInside(outDir: string, id: Uuid)
    requires GoPath.Clean(outDir) != "/" && GoPath.Clean(outDir) != "."
    ensures Downloader.Inside(GoPath.Clean(Report.ReportFile(outDir, id)), outDir)
  {
    assert Report.ReportFile(outDir, id) == outDir + "/" + ("report-" + id + ".html") by {
      assert "/report-" == "/" + "report-";
      NameUnder(outDir, "report-", id, ".html");
    }
    UuidFileInside(outDir, "report-", id, ".html");
  }

  /** With such an output directory, the semgrep output file and the report file lie inside it. */
  lemma ScanFilesInside(info: RepoInfo, o: Options, w: World)
    requires GoPath.Clean(o.outDir) != "/" && GoPath.Clean(o.outDir) != "."
    ensures Downloader.Inside(GoPath.Clean(SemgrepOutFile(info, o, w)), o.outDir)
    ensures Downloader.Inside(GoPath.Clean(Report.ReportFile(o.outDir, w.reportId(info.target))), o.outDir)
  {
    OutputFileInside(o.outDir, w.runId(info.target));
    ReportFileInside(o.outDir, w.reportId(info.target));
  }

  /**
   * The download step changes nothing on the disk outside the cleaned output
   * directory: not the unpacking, not semgrep's output file or the report
   * file, which are written only after the containment check passed, and not
   * the clean-up.
   */
  lemma DownloadStageConfined(fs: Tree, info: RepoInfo, o: Options, w: World, k: string)
    requires !Downloader.Inside(k, o.outDir)
    ensures var t := DownloadStage(fs, info, o, w).1;
      (k in t <==> k in fs) && (k in fs ==> t[k] == fs[k])
  {
    if !Downloads(o) {
      assert CountStage(fs, info, "", o, w).1 == fs by {
        if o.files || o.filterFiles != "" {
          var counted := info.(files := WrapInt(Http.Files(w.tree(""))));
        }
      }
    } else {
      var d := Downloader.Download(fs, info.target, info.branch, o.outDir, w.fetch, w.parse);
      Downloader.DownloadConfined(fs, info.target, info.branch, o.outDir, w.fetch, w.parse, k);
      AfterDownloadDisk(d.0, d.1, info, o, w);
      var sourcePath := if d.0.Downloaded? then d.0.outPath else "";
      if d.0.Downloaded? || d.0 == Downloader.DownloadFailed(Downloader.FetchFailed(Http.Unprocessable)) {
        if d.0.Downloaded? {
          Downloader.DownloadedInside(fs, info.target, info.branch, o.outDir, w.fetch, w.parse);
        } else {
          Downloader.FetchFailureLeavesDirectory(fs, info.target, info.branch, o.outDir, w.fetch, w.parse,
                                                 info.branch, w.fetch, w.parse);
        }
        Downloader.CheckPassesIff(info.target, o.outDir);
        ScanFilesInside(info, o, w);
        CountStageFiles(d.1, info, sourcePath, o, w, k);
        if d.0.Downloaded? {
          CleanupConfined(CountStage(d.1, info, sourcePath, o, w).1, d.0.outPath, o.outDir, k);
        }
      }
    }
  }

  /**
   * A scan changes nothing on the disk outside the cleaned output directory:
   * the unpacked source, semgrep's output file and the report all stay inside it.
   */
  lemma ScanConfined(fs: Tree, target: string, o: Options, w: World, k: string)
    requires !Downloader.Inside(k, o.outDir)
    ensures var t := Scan(fs, target, o, w).1;
      (k in t <==> k in fs) && (k in fs ==> t[k] == fs[k])
  {
    var prepared := Prepare(target, o, w);
    if prepared.Ready? {
      DownloadStageConfined(fs, prepared.info, o, w, k);
    }
  }

  /**
   * A page answered with Err404 prints the 404 line and nothing else, logs
   * nothing and leaves the disk alone; with the fireprox host first found
   * where "github.com/" was, the line shows the target as received.
   */
  lemma PageNotFound(s: Worker, target: string, o: Options, w: World)
    requires w.page(Fireproxied(o, target)) == Err(Http.NotFound)
    ensures Visit(s, target, o, w) == Worker(s.fs, s.out + Display.NotFoundLine(o, Fireproxied(o, target)), s.failures, Open)
    ensures Restorable(o, target) ==> Display.NotFoundLine(o, Fireproxied(o, target)) == [Display.Segment(Display.White, target + " "), Display.Segment(Display.Red, "[404]\n")]
  {
    if Restorable(o, target) {
      FireproxRoundTrip(o, target);
    }
  }

  /**
   * A branch archive answered with Err404 ends the visit without a 404 line,
   * a log entry or a display line: only the directory DownloadSource made is left.
   */
  lemma ArchiveNotFoundSilent(s: Worker, target: string, o: Options, w: World)
    requires Downloads(o) && Prepare(Fireproxied(o, target), o, w).Ready?
    requires var info := Prepare(Fireproxied(o, target), o, w).info;
      Downloader.Download(s.fs, info.target, info.branch, o.outDir, w.fetch, w.parse).0
      == Downloader.DownloadFailed(Downloader.FetchFailed(Http.NotFound))
    ensures var info := Prepare(Fireproxied(o, target), o, w).info;
      Visit(s, target, o, w)
      == Worker(Downloader.Download(s.fs, info.target, info.branch, o.outDir, w.fetch, w.parse).1, s.out, s.failures, Open)
  {
  }

  /** A sweep from an open worker is still open or ended the process. */
  lemma {:induction false} SweepEnding(start: Worker, targets: seq<string>, o: Options, w: World)
    requires start.ending == Open
    ensures Sweep(start, targets, o, w).ending in {Open, ProcessExited, Crashed}
    decreases |targets|
  {
    if targets != [] {
      SweepEnding(start, targets[..|targets| - 1], o, w);
    }
  }

  /** Targets after the one that saw the stop signal are never visited, and the worker does not end as drained. */
  lemma StopIgnoresLaterTargets(start: Worker, xs: seq<string>, ys: seq<string>, k: nat, o: Options, w: World)
    requires start.ending == Open
    requires k < |xs| && k < |ys| && xs[..k] == ys[..k]
    ensures Worked(start, xs, k, o, w) == Worked(start, ys, k, o, w)
    ensures Worked(start, xs, k, o, w).ending in {Stopped, ProcessExited, Crashed}
  {
    assert Feed.Min(k, |xs|) == k && Feed.Min(k, |ys|) == k;
    SweepEnding(start, xs[..k], o, w);
  }

  /** With no stop signal the worker visits every target and ends drained, unless a visit ended the process. */
  lemma DrainedVisitsAll(start: Worker, targets: seq<string>, stopAt: nat, o: Options, w: World)
    requires start.ending == Open && stopAt >= |targets|
    ensures var s := Sweep(start, targets, o, w);
      Worked(start, targets, stopAt, o, w) == if s.ending == Open then s.(ending := Drained) else s
    ensures Worked(start, targets, stopAt, o, w).ending in {Drained, ProcessExited, Crashed}
  {
    assert targets[..Feed.Min(stopAt, |targets|)] == targets;
    SweepEnding(start, targets, o, w);
  }

  /** A visit logs at most the target it received, rewritten for fireprox. */
  lemma VisitLogs(s: Worker, target: string, o: Options, w: World)
    ensures Visit(s, target, o, w).failures in {s.failures, s.failures + [Fireproxied(o, target)]}
  {
    assert s.failures + [] == s.failures;
  }

  /** Every logged failure is a target the worker received, rewritten for fireprox, and earlier entries stay. */
  lemma {:induction false} FailuresAreTargets(start: Worker, targets: seq<string>, o: Options, w: World)
    ensures start.failures <= Sweep(start, targets, o, w).failures
    ensures forall f :: f in Sweep(start, targets, o, w).failures ==>
      f in start.failures || exists i :: 0 <= i < |targets| && f == Fireproxied(o, targets[i])
    decreases |targets|
  {
    if targets != [] {
      var n := |targets| - 1;
      var front := targets[..n];
      FailuresAreTargets(start, front, o, w);
      var s := Sweep(start, front, o, w);
      var after := Sweep(start, targets, o, w);
      VisitLogs(s, targets[n], o, w);
      assert after.failures in {s.failures, s.failures + [Fireproxied(o, targets[n])]};
      assert s.failures <= after.failures;
      forall f | f in after.failures
        ensures f in start.failures || exists i :: 0 <= i < |targets| && f == Fireproxied(o, targets[i])
      {
        if f in s.failures {
          if f !in start.failures {
            var i :| 0 <= i < |front| && f == Fireproxied(o, front[i]);
            assert front[i] == targets[i];
          }
        } else {
          assert f == Fireproxied(o, targets[n]);
        }
      }
    }
  }
}
