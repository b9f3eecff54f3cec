/**
 * The records the runner passes around: the command-line options it reads
 * and the repository information a scan fills in.
 */
module Types {
  import opened GoStrings
  import Filters

  /** Go's int on a 64-bit platform. */
  type GoInt = x: int | MinInt64 <= x <= MaxInt64

  /** A count kept in a Go int: two's-complement wrap-around past MaxInt64. */
  function WrapInt(n: nat): (r: GoInt)
    ensures n <= MaxInt64 ==> r == n
    ensures r == n || (r - n) % 0x1_0000_0000_0000_0000 == 0
  {
    var m := n % 0x1_0000_0000_0000_0000;
    if m <= MaxInt64 then m else m - 0x1_0000_0000_0000_0000
  }

  /** The options the scan and the display consult. */
  datatype Options = Options(
    fireprox: string, outDir: string, saveRepo: bool, noEmoji: bool,
    description: bool, fullDescription: bool, stars: bool, language: bool, topics: bool,
    files: bool, repoLink: bool, forks: bool, lastRelease: bool, lastCommit: bool,
    firstCommit: bool, commits: bool, securityIssues: bool, watchers: bool,
    contributors: bool, branch: bool, issues: bool, pullRequests: bool,
    filterFiles: string, noSemgrep: bool, github1s: bool, rawLinks: bool)

  datatype RepoInfo = RepoInfo(
    target: string, description: string, fullDescription: string, stars: GoInt,
    language: string, topics: string, files: GoInt, repoLink: string, forks: GoInt,
    lastRelease: Filters.Instant, lastCommit: Filters.Instant, firstCommit: Filters.Instant,
    commits: GoInt, securityIssues: GoInt, watchers: GoInt, contributors: GoInt,
    branch: string, issues: GoInt, pullRequests: GoInt, semgrepHits: GoInt, reportPath: string)

  /** sastsweep.RepoInfo{}: every field at its zero value. */
  const EmptyInfo: RepoInfo :=
    RepoInfo("", "", "", 0, "", "", 0, "", 0, Filters.Zero, Filters.Zero, Filters.Zero,
             0, 0, 0, 0, "", 0, 0, 0, "")
}
