# sastsweep, modelled in Dafny

sastsweep reads GitHub repository URLs from a file or standard input and
hands them to a pool of workers. Each worker does the following for a
repository:

- it scrapes the repository page;
- it filters the repository on numeric and date criteria;
- it downloads the branch archive and unpacks it into an output directory;
- it counts the files;
- it runs semgrep over the source and writes an HTML report;
- it prints a one-line coloured summary.

This project models the parts of that pipeline that decide behaviour. Each
one is written as Dafny datatypes, functions, classes and methods, and the
properties the program relies on are proved about them.

- **Safe archive extraction.** This is `UnzipBytes`, `isSafePath` and
  `fileExists` in `common/util.go`, modelled in module `Unzip`.
  - The disk is a map from cleaned path to node (module `FileSystem`). The
    `os` calls are methods of the class `FileSystem.Disk`.
  - The extraction loop is the method `Unzip.UnzipBytes`. It is proved equal
    to the function `Unzip.Unzip`, which folds `Step` over the entries.
  - Proved about the whole archive:
    - nothing already on disk changes;
    - every new node lies below the cleaned destination and was written by
      an entry that passed every check;
    - an archive whose declared sizes stay within 60 GiB is never refused
      as too large;
    - skipped entries have no effect.
  - Two faithful quirks are stated as properties:
    - the running total wraps modulo 2^64;
    - `fileExists` panics on a path below a regular file.
- **HTTP fetches and the file count.** `HTTPGet` and `CountFiles` are in
  module `Http`.
  - Request headers are canonicalised as `Header.Set` does.
  - Status codes map to `Err404`, `Err422` and the other errors.
  - `filepath.Walk` runs over a directory-tree datatype.
- **Filters.** `NumericFilter`, `dateFilter` and `GetDefaultBranch` from
  `common/sastsweep/extractor.go` are in module `Filters`. Every filter form
  (`a-b`, `a-`, `-b`, `a`) is characterised, and so is every invalid form.
- **The target feed.** `fromScanner` in `common/feed/repos.go` is in module
  `Feed`, with the feed's regular expression written out as a predicate.
  The stream is proved to be the de-duplicated, normalised sequence of the
  matching lines, cut at the stop signal.
- **Downloading a repository.** This is `DownloadSource` in module
  `Downloader`.
  - Proved: the output path is checked against the output directory.
  - Proved: nothing outside that directory changes.
  - Modelled: the `os.Exit` on an existing output path.
  - Modelled: the panic on a target with fewer than three path parts.
- **Semgrep.** `ConfigureSemgrep` and `RunSemgrep` are the class
  `Sast.Semgrep`. Its fields are the package variables the source
  reassigns.
  - The semgrep process is a parameter. It reports how the process ended
    and what it wrote to its `--output` file.
  - `Sast.Collect` then acts on the disk. A run that exits with an error
    leaves its output file behind. A clean run reads and decodes the file,
    then removes it.
- **The report.** `SortFindings`, `CalculateSemgrepMetrics` and
  `GenerateHTML` are in module `Report`.
  - The stable sort is an in-place insertion sort on an array.
  - The sort is proved to give a permutation that is sorted and keeps tied
    findings in their original order.
  - The metrics are proved to count every finding exactly once.
  - `GenerateHTML` creates `report-<uuid>.html` in the output directory
    with `os.Create`. The file keeps what was written even when the
    template fails to execute.
- **The terminal line.** `DisplayRepoInfo` and `convertToK` are the class
  `Display.Painter`. Its `doPurple` field alternates between purple and
  cyan.
- **The worker.** `scanTarget` and `RepoScanner` are in module `Runner`.
  - Code this model cannot see is passed in as the fields of a `World`
    record:
    - the page fetch and the HTML extraction;
    - the archive download and the zip reader;
    - the directory walk;
    - the semgrep process;
    - the template rendering;
    - the fresh names that `uuid.New` draws.
  - The methods are proved equal to the functions `Scan` and `Worked`.
  - About those functions the model proves:
    - which errors are logged;
    - the 404 handling;
    - that the disk outside the output directory never changes, counting
      the semgrep output file and the report file;
    - that a stop signal makes later targets irrelevant.

Some comments and log messages in the source promise more than the code
does. The model follows the code:

- The depth check carries the comment "Zillion inodes/infinite directories"
  (common/util.go:29). It counts `filepath.SplitList` elements, which are
  separated by `':'`, not directory levels. `Unzip.DepthCountsColons`
  states it as the number of colons.
- The `..` check logs "presence of .." (common/util.go:37-38). It runs on the
  already cleaned path.
  - With an absolute destination, Clean has removed every `..` element. The
    check then rejects only names that hold `..` inside an element, such as
    `a..b`, as `Unzip.DotDotCheckAfterClean` states. Escapes through `../`
    are caught by the prefix check instead.
  - With a relative destination such as `scans`, an entry `../../../x`
    cleans to `../../x`. That path still starts with a `..` element, so the
    `..` check rejects it. `Unzip.DotDotCheckAfterClean` makes no claim
    about this case.
- The check logged as "attempting to overwrite a file" (common/util.go:43-44)
  rejects only an existing regular file.
  - An existing directory passes the check.
  - An entry that lands on an existing directory then fails in `os.Mkdir`
    or `os.OpenFile`.
  - Nothing already on disk changes all the same: `Unzip.UnzipJustified`
    proves it.
- The size ceiling is compared against a `uint64` total that can wrap.
  `Unzip.WrapAroundExample` exhibits an archive whose declared sizes add up
  to more than 60 GiB and which is still extracted.
- The date layout `dateStr` is `2006-01-03` (common/sastsweep/display.go:16).
  In a Go layout, `03` is the 12-hour clock hour, so the line shows year,
  month and hour, not the day (`Display.DisplayDateIgnoresDay`).
- The printed target turns the fireprox host back into `github.com/` with a
  single `strings.Replace` (runner/runner.go:41,
  common/sastsweep/display.go:48). That replacement hits the first
  occurrence of the host, which need not be the one the rewrite of
  runner/runner.go:162 put in. `Runner.FireproxRoundTripExact` states when
  the original target comes back, and `Runner.FireproxShownElsewhere` gives
  a target for which it does not.

Functions that only compute have no contract of their own. The rows of the
lemmas about them state their properties:

- `Filters.NumericFilter`: the `Filters.Numeric…` rows.
- `Filters.DateFilter`: the `Filters.Date…` rows.
- `Filters.DefaultBranch`: `Filters.DefaultBranchOf`,
  `Filters.ValueAfterUnquoted` and `Filters.DefaultBranchWithoutKey`.
- `Display.ConvertToK`: `Display.ConvertToKForm`.
- `Runner.FindingLink`: `Runner.FindingsIff`, `Runner.LinkStripsCheckout`,
  `Runner.LinkAfterTrailingSlash` and `Runner.Github1sLink`.
- `Runner.Scan`: `Runner.ScanTarget`, `Runner.ScanSucceeded` and
  `Runner.ScanConfined`.
- `Runner.Worked`: `Runner.RepoScanner`, `Runner.StopIgnoresLaterTargets`,
  `Runner.DrainedVisitsAll` and `Runner.FailuresAreTargets`.
- `Downloader.Download`: `Downloader.DownloadSource`,
  `Downloader.DownloadedInside`, `Downloader.FetchFailureLeavesDirectory`
  and `Downloader.DownloadConfined`.
- `Unzip.Step` and `Unzip.Unzip`: `Unzip.ExtractEntry`, `Unzip.UnzipBytes`
  and the `Unzip` lemma rows.
- `Feed.FeedSpec`: `Feed.FeedContents`, `Feed.FeedStreams` and
  `Feed.FromScanner`.

## Model

| member | source | states |
|---|---|---|
| FileSystem.Stat | common/util.go:215-216 | A path is found exactly when it is on disk. The result is ENOTDIR exactly when the path is absent and lies below a regular file. |
| FileSystem.Overwrite | common/util.go:113-121 | Writing at offset 0 of a file opened without O_TRUNC: the new data is a prefix of the result, bytes past it keep their old values, and the length is the larger of the two. |
| FileSystem.RemoveTree | common/sastsweep/downloader.go:23-24 | os.RemoveAll removes the path and every path below it, and leaves every other node as it was. |
| FileSystem.RemoveEntry | common/sastsweep/sast.go:143 | os.Remove removes a file or an empty directory. A non-empty directory stays. Nothing else changes. |
| FileSystem.Disk.Mkdir | common/util.go:98-101 | os.Mkdir succeeds exactly when the path is free and its parent is a directory. On success it adds a directory with the given mode. |
| FileSystem.Disk.OpenFile | common/util.go:113-117 | The open succeeds exactly when the parent is a directory and the path is absent or a regular file. An absent file is created empty. |
| FileSystem.Created | common/report/html.go:28-36 | After os.Create and a write, the path holds a file with exactly the written bytes. Every other path is as it was. |
| FileSystem.Disk.Create | common/report/html.go:28 | os.Create succeeds exactly when the parent is a directory and the path is absent or a regular file. The file is then empty, and it keeps its mode if it existed. |
| FileSystem.Disk.WriteAtStart | common/util.go:121 | The file's new content is Overwrite of its old content by the data. Every other node is unchanged. |
| FileSystem.Disk.Remove | common/sastsweep/sast.go:143 | The disk becomes RemoveEntry of the old disk. |
| FileSystem.Disk.RemoveAll | runner/runner.go:72-74 | The disk becomes the old disk with the path's tree removed. An empty path removes nothing. |
| GoPath.CleanIdempotent | common/util.go:90 | filepath.Clean of a cleaned path returns it unchanged. |
| GoPath.CleanRootedHasNoParentElement | common/util.go:90 | A cleaned absolute path starts with '/' and has no ".." element. |
| GoPath.JoinNested | common/util.go:90 | Joining "a/b" to a clean directory equals joining a and then b, and the intermediate path is already clean. |
| GoPath.Ext | common/util.go:78 | filepath.Ext is the suffix from the last '.' of the last path element: it starts with '.', holds no other '.' and no '/', and is empty exactly when the last element has no '.'. |
| GoPath.SplitList | common/util.go:30 | filepath.SplitList gives no elements exactly for the empty path. |
| GoStrings.AtoiItoa | common/sastsweep/extractor.go:287-299 | strconv.Atoi reads back every int64 that strconv.Itoa printed. |
| GoStrings.DigitRun | common/sastsweep/extractor.go:287 | The leading run of decimal digits: all digits, followed by a non-digit or by the end of the string. |
| GoStrings.AtoiOverflowFirst | common/sastsweep/extractor.go:287 | Leading digits past the uint64 range give Atoi's range error, with MaxInt64 (MinInt64 after '-'), whatever text follows. |
| GoStrings.SplitJoin | runner/runner.go:105 | Joining the split of a string gives the string back. |
| GoStrings.JoinSplit | runner/runner.go:105 | Splitting the join of parts that do not contain the separator gives the parts back. |
| Unzip.AddU64 | common/util.go:70-83 | The total is a uint64: the sum modulo 2^64. A result below the old total means the true sum reached 2^64. |
| Unzip.ToInt64 | common/util.go:121 | int64(fileSize) stays within the int64 range, is congruent to the size modulo 2^64, and is negative exactly for sizes of 2^63 and above. |
| Unzip.Copied | common/util.go:121 | io.CopyN writes a prefix of the stream of length min(n, stream length). A non-positive n writes nothing. |
| Unzip.FileExists | common/util.go:214-220 | The nil-info panic happens exactly when os.Stat fails with ENOTDIR. The answer is true exactly for an existing regular file. |
| Unzip.IsSafePath | common/util.go:27-55 | A Safe verdict implies depth at most 100, no "..", the path strictly below Clean(dest), and no regular file at the path. |
| Unzip.IsSafePathExact | common/util.go:27-55 | Gives both directions: Safe exactly when every check passes and Stat does not fail with ENOTDIR, and Crash exactly when the first two checks pass and Stat fails with ENOTDIR. |
| Unzip.DepthCountsColons | common/util.go:30-34 | The depth that is checked is the number of ':' in the path, not its number of directory levels. |
| Unzip.DotDotCheckAfterClean | common/util.go:37-40 | The checked path never has a ".." element. When it contains "..", the dots sit inside an ordinary element of the cleaned entry path. |
| Unzip.EmptyNameNeverWritten | common/util.go:49-52 | An entry with an empty name lands on the destination itself, which never passes isSafePath. |
| Unzip.WrittenContent | common/util.go:113-125 | A file entry leaves at most its declared size and a prefix of its stream. A size of 2^63 or more leaves nothing. |
| Unzip.WriteEntryEffect | common/util.go:97-125 | An existing directory is left as it is. A new node is a 0700 directory for a directory entry, or a 0600 file holding what CopyN wrote. |
| Unzip.NewFileWritten | common/util.go:105-125 | A file entry that can be opened at a free path leaves exactly a 0600 file with the copied prefix there. |
| Unzip.Place | common/util.go:89-125 | Placing one counted entry never aborts and keeps the total. A panic leaves the disk as it was. |
| Unzip.WriteSafeEntry | common/util.go:97-125 | The disk after one entry that passed isSafePath is WriteEntry of the old disk. |
| Unzip.ExtractEntry | common/util.go:71-126 | One iteration of the loop leaves the disk of Step. It stops with the size error or the panic exactly when Step does, and otherwise returns Step's new total. |
| Unzip.UnzipBytes | common/util.go:57-129 | The returned error and the disk left behind equal those of Unzip: the reader error, the 500000-entry ceiling, the 60 GiB ceiling, a panic, or success. |
| Unzip.FailureText | common/util.go:66-87 | The entry-count error starts with "ZIP Contains more than 500k files: ". The size error starts with the destination. |
| Unzip.StopsAfter | common/util.go:85-87 | Once the loop has returned or panicked, later entries change nothing. |
| Unzip.RunJustified | common/util.go:71-126 | After any prefix of the entries, every old node is unchanged. Each new node was written by one of those entries after it passed every check. |
| Unzip.UnzipJustified | common/util.go:57-129 | A malformed archive leaves the disk unchanged. Otherwise nothing existing changes and every new node is accounted for by an entry. |
| Unzip.UnzipBelow | common/util.go:49-52 | Extraction changes no existing node and creates nodes only strictly below the cleaned destination. |
| Unzip.WrappedTotalIsSumMod | common/util.go:82-83 | The sum of the counted declared sizes equals the running total plus 2^64 for every time the total wrapped. |
| Unzip.RunTotal | common/util.go:71-87 | While the loop runs, its total is the wrapped sum of the counted sizes so far. |
| Unzip.WithinBudgetNotAborted | common/util.go:84-87 | If the counted declared sizes add up to at most 60 GiB, the archive is never refused as too large. |
| Unzip.AbortedOverBudget | common/util.go:84-87 | A too-large refusal means some prefix's wrapped total exceeded 60 GiB. |
| Unzip.RunningWithinBudget | common/util.go:84-87 | While the loop runs, its total is at most 60 GiB. |
| Unzip.OverBudgetStops | common/util.go:82-87 | If the counted declared sizes add up to more than 60 GiB without reaching 2^64, the loop never completes. It is refused as too large, or a panic comes first. |
| Unzip.UnzipOverBudget | common/util.go:57-129 | UnzipBytes on such an archive, with at most 500000 entries, returns the size error or panics. |
| Unzip.SkippedHaveNoEffect | common/util.go:72-80 | UNC names and nested .zip entries neither count towards the total nor change the disk. The run equals the run over the counted entries alone. |
| Unzip.WrapAroundExample | common/util.go:82-87 | Two entries of sizes 1 and 2^64-1 wrap the total to 0. Their archive is extracted although it declares more than 60 GiB. |
| Unzip.CrashExample | common/util.go:214-220 | A file "a" followed by an entry "a/b" makes fileExists panic, after "a" was written. |
| Unzip.FileThenChildPanics | common/util.go:43-46 | The same panic holds for any clean destination and any plain names a and b. |
| Http.CanonicalKeyIdempotent | common/util.go:138-141 | Canonicalising a header key twice is the same as canonicalising it once. |
| Http.RequestHeadersKeys | common/util.go:138-141 | The request carries User-Agent and the canonical form of every caller key, and no other key. |
| Http.RequestHeadersLastWins | common/util.go:139-141 | A caller header whose canonical key is not repeated later keeps its value. |
| Http.RequestHeadersDefaultAgent | common/util.go:138 | Without a caller User-Agent, the request carries the fixed Chrome user agent. |
| Http.Get | common/util.go:143-165 | The body is returned exactly for status 200 with a readable body. Err404 is returned exactly for 404, Err422 exactly for 422, and the non-200 error for every other status. |
| Http.HTTPGet | common/util.go:131-166 | The result is Get applied to the reply the transport gives for the canonicalised headers. |
| Http.Walk | common/util.go:170-181 | The walk fails exactly when the tree has an unreadable or vanished node. Otherwise it adds the tree's non-directory count. |
| Http.CountFiles | common/util.go:168-188 | The result is -1 with an error exactly when the walk fails. Otherwise it is the number of non-directories. |
| Http.FilesBound | common/util.go:176-178 | The count never exceeds the number of nodes in the tree. |
| Filters.NumericInvalidIff | common/sastsweep/extractor.go:285-323 | The filter is invalid exactly for two or more '-', a lone "-", or a two-part form with an unparsable non-empty side. |
| Filters.NumericBetween | common/sastsweep/extractor.go:292-303 | "a-b" passes exactly the values from a to b. |
| Filters.NumericAtLeast | common/sastsweep/extractor.go:304-311 | "a-" passes exactly the values of at least a. |
| Filters.NumericAtMost | common/sastsweep/extractor.go:312-319 | "-b" passes exactly the values from 0 to b. |
| Filters.NumericExact | common/sastsweep/extractor.go:286-291 | "n" passes exactly the value n. |
| Filters.NumericUnparsable | common/sastsweep/extractor.go:286-291 | A single unparsable value is only logged, and the filter compares against the value Atoi returned with its error. That value is MaxInt64 when the leading digits overflow uint64, or when the value is all digits and exceeds int64. Otherwise it is 0. |
| Filters.NotAfterAntisymmetric | common/sastsweep/extractor.go:498-510 | "not after" in both directions means the same instant. |
| Filters.ParseDate | common/sastsweep/extractor.go:463 | A parsed "20060102" date is midnight of a real calendar day. |
| Filters.ParseFormat | common/sastsweep/extractor.go:463 | Parsing a formatted calendar date gives that date back. |
| Filters.DateFilterIgnoresSlashes | common/sastsweep/extractor.go:461 | Every '/' of a date filter is dropped before it is split. |
| Filters.DateInvalidIff | common/sastsweep/extractor.go:461-496 | A date filter is invalid exactly when, without its slashes, it has two or more '-' or is a lone "-". |
| Filters.DateBetween | common/sastsweep/extractor.go:469-478 | "a-b" with two dates passes exactly the instants from a to b. |
| Filters.DateFrom | common/sastsweep/extractor.go:479-485 | "a-" passes exactly the instants from a on. |
| Filters.DateUntil | common/sastsweep/extractor.go:486-492 | "-b" passes exactly the instants up to b. |
| Filters.DateUnparsableIsUnbounded | common/sastsweep/extractor.go:475-478 | An unparsable upper date leaves the zero time, which makes "a-b" behave as "a-". |
| Filters.DateExact | common/sastsweep/extractor.go:462-468 | A single date passes exactly that instant. |
| Filters.ValueAfterUnquoted | common/sastsweep/extractor.go:365-368 | The extracted branch never contains '"'. |
| Filters.DefaultBranchOf | common/sastsweep/extractor.go:362-371 | For JSON holding "defaultBranch":"b", the branch read is b. |
| Filters.DefaultBranchWithoutKey | common/sastsweep/extractor.go:365-368 | Without the key, Index gives -1. The value is then read from offset 16, or the slice panics. |
| Report.GetLanguage | common/report/util.go:8-10 | The language is the title's prefix up to its first '.', or the whole title when it has none. |
| Report.Rank | common/report/util.go:18-20 | A rank lies between 0 and 3. It is 0 exactly for a severity other than HIGH, MEDIUM and LOW (the missing-key value of the map), so such findings sort first. |
| Report.TiedIffIncomparable | common/report/util.go:17-23 | Two findings are tied exactly when neither sorts before the other. |
| Report.LessTransitive | common/report/util.go:17-23 | The order on severity and then title is transitive. |
| Report.SortPermutes | common/report/util.go:16-24 | Sorting keeps exactly the same findings. |
| Report.SortSorted | common/report/util.go:16-24 | The sorted findings are in order of severity and then title. |
| Report.SortStable | common/report/util.go:16-24 | Findings tied with any given finding keep their original relative order. |
| Report.InsertAt | common/report/util.go:17 | One insertion step places a[i] into the sorted prefix and leaves the rest of the array as it was. |
| Report.SortFindings | common/report/util.go:16-24 | The array becomes the stable sort of its old contents. |
| Report.TallyKeys | common/report/util.go:31-43 | The stats have a key exactly for each title or severity that occurs. |
| Report.TallyCounts | common/report/util.go:31-43 | Each key's count is its number of occurrences. |
| Report.CalculateSemgrepMetrics | common/report/util.go:26-46 | The vulnerability stats tally the titles, the ordering lists each title once in order of first appearance, and the severity stats tally the severities. |
| Report.MetricsTotals | common/report/util.go:26-46 | The title counts and the severity counts each add up to the number of findings. |
| Report.GeneratedEffect | common/report/html.go:12-43 | Only the report file changes. A path is returned exactly when the template parses and executes and os.Create succeeds. The path is outDir + "/report-" + id + ".html", holding exactly the rendered bytes. A failed execution still leaves the file. |
| Report.GenerateHTML | common/report/html.go:12-43 | The returned path and the disk are those of Generated for the rendering of the report data. |
| Feed.Normalize | common/feed/repos.go:32-36 | A normalised target always contains "https://". |
| Feed.TargetNormalizes | common/feed/repos.go:28-36 | A line that matches the regular expression becomes "https://" followed by its part after the optional scheme. |
| Feed.SameRepositoryOnce | common/feed/repos.go:28-39 | Matching lines that differ only in their scheme normalise to the same target, so it is sent once. |
| Feed.FeedContents | common/feed/repos.go:21-45 | A target is sent exactly when it is the normalisation of a matching line. Every sent target contains "https://", and none is sent twice. |
| Feed.FeedStreams | common/feed/repos.go:21-45 | The targets sent for a prefix of the input are a prefix of those sent for the whole input. |
| Feed.FeedStep | common/feed/repos.go:27-42 | A non-matching line sends nothing. A matching one sends its normalisation unless it was already sent. |
| Feed.FromScanner | common/feed/repos.go:15-52 | The targets sent are those of the lines before the stop signal, and the feeder reports a stop exactly when the signal came before the input ended. |
| Downloader.DownloadSource | common/sastsweep/downloader.go:14-45 | The result and the disk equal those of Download. |
| Downloader.CheckPassesIff | common/sastsweep/downloader.go:16-21 | The output path passes the containment check exactly when the cleaned output directory is neither "/" nor ".". |
| Downloader.DownloadName | common/sastsweep/downloader.go:15-16 | For https://host/owner/repo the output path is Clean(Join(outDir, "owner-repo")). |
| Downloader.DownloadedInside | common/sastsweep/downloader.go:16-44 | A returned path is the target's output path, strictly below the cleaned output directory. |
| Downloader.FetchFailureLeavesDirectory | common/sastsweep/downloader.go:23-37 | A failed archive fetch leaves the created directory behind. A second download of the same target then exits the process. |
| Downloader.DownloadConfined | common/sastsweep/downloader.go:14-45 | No path outside the output directory is created, removed or changed. |
| Sast.SplitOnce | common/sastsweep/sast.go:88 | strings.SplitN(s, "=", 2) splits at the first separator, and the two parts rebuild the string. |
| Sast.Semgrep.Configure | common/sastsweep/sast.go:23-94 | Covers the home-directory error, the binary path, install failure exactly when the binary is missing and both pip attempts fail, auto flags when the config file is missing, the stat error under a regular file, and otherwise the first FLAGS= line. |
| Sast.ScanFlags | common/sastsweep/sast.go:81-91 | The scanner loop gives the flags of FlagsFrom: the first FLAGS= line's value split on single spaces, or the old flags. |
| Sast.CollectedEffect | common/sastsweep/sast.go:132-156 | Only the output file changes. A failed start changes nothing. A wait error is returned with the output file left on disk. After a clean exit the file is removed, and the result is the decoded output or the unmarshal error. |
| Sast.Collect | common/sastsweep/sast.go:132-156 | The result and the disk after the process ended are those of Collected. |
| Sast.Semgrep.RunSemgrep | common/sastsweep/sast.go:96-157 | The output file is outDir + "/output-" + id + ".json", and the arguments are those of Args. The result and the disk are those of Collected for what the semgrep process did. |
| Sast.FlagsFromFirst | common/sastsweep/sast.go:82-91 | The flags are the first FLAGS= line's value split on single spaces, and joining them gives the value back. |
| Sast.FlagsFromNone | common/sastsweep/sast.go:82-91 | Without a FLAGS= line the flags are left as they were. |
| Sast.DoubleSpaceGivesEmptyFlag | common/sastsweep/sast.go:89 | Two spaces in a row produce an empty argument. |
| Sast.ArgsLayout | common/sastsweep/sast.go:101-103 | The fixed arguments come first, then the output file, then the configured flags, and last the source path. |
| Sast.DefaultConfigBeside | common/sastsweep/sast.go:39-41 | For an output directory base + "/scans", the default config is sastsweep.conf in base. |
| Sast.DefaultConfigAllCut | common/sastsweep/sast.go:40 | TrimRight removes characters, not a suffix: an output directory made only of '/', 's', 'c', 'a', 'n' puts the config in the working directory. |
| Display.ConvertToKForm | common/sastsweep/display.go:36-42 | Below 1000 the count prints as itself. From 1000 on it prints as the whole thousands followed by 'k', which reads back within a thousand of the count. |
| Display.Float64Of | common/sastsweep/display.go:38 | float64 of the quotient is exact up to 2^53. Above that an even quotient stays exact, and an odd one is a tie that rounds half to even: it goes to the neighbour that is a multiple of 4. |
| Display.LanguagePrinted | common/sastsweep/display.go:76-78 | Doubling '%' before Printf makes the language print exactly, trimmed of commas. |
| Display.TopicsPrinted | common/sastsweep/display.go:88-90 | The topics are not escaped. The field is well-formed for Printf and prints as the bracketed, comma-trimmed topics exactly when the topics hold no '%'. |
| Display.PaintAlternates | common/sastsweep/display.go:26-34 | The k-th coloured field is purple exactly when k is even. |
| Display.NextPurpleParity | common/sastsweep/display.go:26-34 | After the line, doPurple is set exactly when an even number of fields were coloured. |
| Display.DisplayDateIgnoresDay | common/sastsweep/display.go:16 | The "2006-01-03" layout shows no day: dates that differ only in their day display alike. |
| Display.DisplayDateThirdField | common/sastsweep/display.go:16 | The third field of a displayed date reads back as the 12-hour clock hour. |
| Display.Painter.Colored | common/sastsweep/display.go:26-34 | Prints in purple when doPurple is set and in cyan otherwise, then flips doPurple. |
| Display.Painter.Print404 | runner/runner.go:39-47 | Prints the target, with fireprox mapped back to github.com, then a red "[404]" line. |
| Display.Painter.DisplayRepoInfo | common/sastsweep/display.go:44-166 | Prints the header, the enabled fields in alternating colours starting with purple, and the report link when there are hits. |
| Runner.FindingsIff | runner/runner.go:103-119 | Findings are built exactly when no result's link panics. Each finding is built from its result, in order. |
| Runner.LinkStripsCheckout | runner/runner.go:105 | For a result under outDir/a/b/, the link is the path below the checkout directory, with the line range. |
| Runner.LinkAfterTrailingSlash | runner/runner.go:105 | An output directory with a trailing '/' drops one extra path component from the link. |
| Runner.Github1sLink | runner/runner.go:106-108 | With github1s the link differs only in its host, github1s.com. |
| Runner.FireproxRoundTrip | runner/runner.go:161-163 | Rewriting to the fireprox host and mapping back for display gives the original target, provided the target contains "github.com/" and the fireprox host does not occur earlier in the rewritten target. |
| Runner.FireproxRoundTripExact | runner/runner.go:161-163 | For a target containing "github.com/", the display gives back the original target exactly when the fireprox host does not occur earlier in the rewritten target. |
| Runner.FireproxShownElsewhere | runner/runner.go:161-163 | With fireprox host "x", the target "https://xgithub.com/a/b" is not shown as itself: the display's single replacement hits the earlier "x". |
| Runner.ReportConsistent | runner/runner.go:120-135 | The report's findings are sorted and are a permutation of the findings. Both stats add up to their number, and the ordering lists exactly the keys of the stats. |
| Runner.HitsCounted | runner/runner.go:94-146 | A successful semgrep stage changes only the hit count and the report path. The hit count is the number of results. The report path is outDir + "/report-" + id + ".html", and that file holds the rendered report. |
| Runner.CountedAndPassed | runner/runner.go:77-92 | A successful count stage counted a readable tree, and the target passed the file filter. |
| Runner.ScanSucceeded | runner/runner.go:20-147 | A scan that succeeds fetched the page, keeps its target, and passed the file filter. |
| Runner.DownloadErrorAbandons | runner/runner.go:66-71 | Every download error except Err422 ends the scan. RepoScanner logs it unless it is Err404. |
| Runner.UnprocessableTolerated | runner/runner.go:66-75 | After Err422 the scan goes on with an empty source path, and the created directory stays. |
| Runner.ScanConfined | runner/runner.go:20-147 | A scan changes nothing outside the output directory, counting the semgrep output file and the report file. |
| Runner.SemgrepStageFiles | runner/runner.go:94-144 | The semgrep stage changes no path other than the semgrep output file and the report file. |
| Runner.CountStageFiles | runner/runner.go:77-144 | Neither does the count stage that runs it. |
| Runner.ScanFilesInside | runner/runner.go:95-137 | The semgrep output file and the report file lie strictly below the cleaned output directory, when that directory is neither "/" nor ".". |
| Runner.DownloadStageConfined | runner/runner.go:64-146 | From the download on, nothing outside the output directory is created, changed or removed. |
| Runner.RunSemgrepStage | runner/runner.go:94-146 | The loop over the results, the sort, the metrics and the report give the SemgrepStage outcome. |
| Runner.RunCountStage | runner/runner.go:77-92 | The file count and the file filter give the CountStage outcome. |
| Runner.ScanTarget | runner/runner.go:20-147 | The outcome and the disk equal those of Scan. That disk includes the semgrep output file the run leaves or removes, the report file, the downloaded tree and its deferred removal. Output is printed only for a 404 page. |
| Runner.PageNotFound | runner/runner.go:38-47 | A 404 page prints the target and "[404]", logs nothing, changes no disk, and the worker goes on. |
| Runner.ArchiveNotFoundSilent | runner/runner.go:66-71 | A 404 on the archive ends the scan silently and leaves the created directory. |
| Runner.VisitTarget | runner/runner.go:160-174 | One target's rewrite, scan, log and display equal Visit. |
| Runner.RepoScanner | runner/runner.go:149-177 | The disk, the output, the logged failures and the ending equal Worked over the targets received before the stop. |
| Runner.StopIgnoresLaterTargets | runner/runner.go:154-158 | After a stop, targets not yet received do not matter, and the worker ends stopped, exited or crashed. |
| Runner.DrainedVisitsAll | runner/runner.go:154-176 | Without a stop every target is visited, and the worker ends drained unless the process exited or panicked. |
| Runner.FailuresAreTargets | runner/runner.go:166-170 | Every logged failure is a rewritten target that was received. |

## Left out

- Zip parsing is the reader's job. The parsed archive (entry names, declared sizes, whether each entry's stream opens) is an input, and a malformed archive is one case of it.
- Symbolic links and the O_NOFOLLOW race are out of scope. The disk model has no links, so the symlink defence at common/util.go:113 has nothing to act on.
- The deferred Close calls and file-descriptor use are not modelled. They have no effect on the disk contents.
- The HTTP transport, TLS and the reading of response bodies are not modelled. Each reply is a parameter: a status and an optional body.
- HTML scraping is not part of this model. GetRepoDocument, ExtractRepoInfo and its numeric and date fields, and convertK (which parses floating-point "1.2k" texts) appear only as the `World` functions they return.
- The HTML templates are not modelled. Their rendering is the `render` parameter: whether the template parses, the bytes Execute writes, and whether Execute succeeds. What GenerateHTML does with the file is modelled.
- SeverityStatsOrdering is not modelled. It is built by iterating a Go map in random order, and the program's output does not depend on it.
- Spawning processes is not modelled. pip, semgrep, the PATH environment and the second-SIGINT kill are parameters: whether each pip attempt succeeds, how semgrep exits, and what it wrote to its output file. Semgrep's writes anywhere else are not modelled.
- Signals, goroutines, channels and the WaitGroup are not modelled. A worker's view of the stop signal is the index of the first target after which it sees the signal. How several workers interleave is not modelled.
- uuid.New is not modelled. RunSemgrep and GenerateHTML take the fresh name as a parameter `id`. In the worker, the `World` gives one name per target for each file, so a target received twice draws the same names where uuid.New would draw new ones.
- Paths are resolved on the disk by the lexical filepath.Clean. The disk has no links and no working directory, so a relative path is one more key.
- The logger's output is not modelled. The model records only which failed targets RepoScanner logs.
- The feeder's closing of the target channel is not modelled, and neither is scanner.Err.
- The command-line options, the banner and main's input selection are not modelled. The `Options` record holds the options the core reads.
- github-search.py is not part of this model.
- Strings are sequences of characters, not bytes. The offset 16 in GetDefaultBranch counts characters.
- Time zones are not modelled. Instants carry a date and a time of day, with no time zone.
- Unzip.FileExists: only ENOTDIR is modelled among the os.Stat errors. Permission errors, which would also reach the nil-info panic, need a permission model this disk lacks.
- The order in which filepath.Walk visits the tree is not modelled. The count depends only on whether a broken node exists and how many files there are.
- The ANSI escape codes are not modelled. The terminal records the colour of each Printf call. termlink.Link and filepath.Abs are parameters.
- Display.ConvertToKForm: the count is tied back to n only where the quotient is at most 2^53. Above that, float64 rounding changes the printed digits, which Display.Float64Of states.
