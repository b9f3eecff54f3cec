/**
 * The target feed: input lines that look like GitHub repository URLs are
 * normalised to https:// and sent once each, until a stop is signalled.
 */
module Feed {
  import opened GoStrings
  import opened Sequences

  /** The characters of a name in the target pattern: letters, digits and '-'. */
  predicate NameChar(c: char) {
    'A' <= c <= 'Z' || 'a' <= c <= 'z' || '0' <= c <= '9' || c == '-'
  }

  predicate Alphanumeric(c: char) {
    'A' <= c <= 'Z' || 'a' <= c <= 'z' || '0' <= c <= '9'
  }

  /** An owner or repository name: name characters and single dots, with no dot first or last. */
  predicate Segment(s: string) {
    |s| > 0 && s[0] != '.' && s[|s| - 1] != '.'
    && (forall i :: 0 <= i < |s| ==> NameChar(s[i]) || s[i] == '.')
    && (forall i :: 0 <= i < |s| - 1 ==> !(s[i] == '.' && s[i + 1] == '.'))
  }

  /** The text after an optional "https://" or "http://" at the start. */
  function AfterScheme(line: string): string {
    if HasPrefix(line, "https://") then line[8..]
    else if HasPrefix(line, "http://") then line[7..]
    else line
  }

  /** After the scheme: "github", any character but a newline, "com/", owner "/" repository. */
  predicate TargetPath(rest: string) {
    |rest| >= 11 && rest[..6] == "github" && rest[6] != '\n' && rest[7..11] == "com/"
    && var path := rest[11..];
    '/' in path
    && var k := FirstIndexOf(path, '/');
    Segment(path[..k]) && Segment(path[k + 1..])
  }

  /**
   * githubUrlRegex, anchored at both ends: an optional http or https scheme,
   * then TargetPath, where the pattern's unescaped dot after "github" matches
   * any one character but a newline. The closing word boundary demands that
   * the line end in a letter or digit.
   */
  predicate IsTarget(line: string) {
    TargetPath(AfterScheme(line)) && |line| > 0 && Alphanumeric(line[|line| - 1])
  }

  /** The target after the first "http://" became "https://" and a missing scheme was added. */
  function Normalize(target: string): (r: string)
    ensures Contains(r, "https://")
  {
    var t := ReplaceFirst(target, "http://", "https://");
    if Contains(t, "https://") then t
    else
      assert OccursAt("https://" + t, "https://", 0);
      "https://" + t
  }

  /** No two consecutive slashes. */
  predicate SingleSlashes(s: string) {
    forall j :: 0 <= j < |s| - 1 ==> !(s[j] == '/' && s[j + 1] == '/')
  }

  lemma SegmentHasNoSlash(s: string, m: int)
    requires Segment(s) && 0 <= m < |s|
    ensures s[m] != '/'
  {
  }

  /** A target path has no "//": names hold no slash. */
  lemma PathSingleSlashes(rest: string)
    requires TargetPath(rest)
    ensures SingleSlashes(rest) && rest[0] == 'g'
  {
    var path := rest[11..];
    var k := FirstIndexOf(path, '/');
    var owner := path[..k];
    var repo := path[k + 1..];
    assert rest[..6][0] == rest[0];
    forall j | 0 <= j < 11 && j != 6 && j != 10 ensures rest[j] != '/' {
      if j < 6 {
        assert rest[..6][j] == rest[j];
      } else {
        assert rest[7..11][j - 7] == rest[j];
      }
    }
    assert rest[7..11][0] == rest[7];
    forall j | 11 <= j < |rest| && j != 11 + k ensures rest[j] != '/' {
      if j - 11 < k {
        assert owner[j - 11] == rest[j];
        SegmentHasNoSlash(owner, j - 11);
      } else {
        assert repo[j - 12 - k] == rest[j];
        SegmentHasNoSlash(repo, j - 12 - k);
      }
    }
    assert owner[0] == rest[11];
    SegmentHasNoSlash(owner, 0);
    assert repo[0] == rest[12 + k];
    SegmentHasNoSlash(repo, 0);
  }

  lemma HttpHasSlashes(x: string, i: int)
    ensures OccursAt(x, "http://", i) ==>
      x[i] == 'h' && x[i + 1] == 't' && x[i + 5] == '/' && x[i + 6] == '/'
  {
    if OccursAt(x, "http://", i) {
      assert x[i..i + 7][5] == x[i + 5] && x[i..i + 7][6] == x[i + 6];
      assert x[i..i + 7][0] == x[i] && x[i..i + 7][1] == x[i + 1];
    }
  }

  lemma HttpsHasSlashes(x: string, i: int)
    ensures OccursAt(x, "https://", i) ==> x[i + 6] == '/' && x[i + 7] == '/'
  {
    if OccursAt(x, "https://", i) {
      assert x[i..i + 8][6] == x[i + 6] && x[i..i + 8][7] == x[i + 7];
    }
  }

  /** Without "//" a text contains neither scheme. */
  lemma NoSchemeInside(s: string)
    requires SingleSlashes(s)
    ensures !Contains(s, "http://") && !Contains(s, "https://")
  {
    forall i | 0 <= i ensures !OccursAt(s, "http://", i) && !OccursAt(s, "https://", i) {
      HttpHasSlashes(s, i);
      HttpsHasSlashes(s, i);
    }
  }

  /** "https://" before a text without "//" that does not start with '/' holds no "http://". */
  lemma NoHttpAfterHttps(rest: string)
    requires SingleSlashes(rest) && |rest| > 0 && rest[0] != '/'
    ensures !Contains("https://" + rest, "http://")
  {
    var line := "https://" + rest;
    forall i | 0 <= i ensures !OccursAt(line, "http://", i) {
      HttpHasSlashes(line, i);
      if i >= 2 && i + 6 < |line| {
        assert line[i + 6] == rest[i - 2];
      }
      if i >= 3 && i + 6 < |line| {
        assert line[i + 5] == rest[i - 3];
      }
    }
  }

  lemma NormalizeBare(rest: string)
    requires SingleSlashes(rest)
    ensures Normalize(rest) == "https://" + rest
  {
    NoSchemeInside(rest);
  }

  lemma NormalizeHttp(rest: string)
    requires SingleSlashes(rest)
    ensures Normalize("http://" + rest) == "https://" + rest
  {
    var line := "http://" + rest;
    assert OccursAt(line, "http://", 0);
    IndexAt(line, "http://", 0);
    assert line[7..] == rest && line[..0] == "";
    assert ReplaceFirst(line, "http://", "https://") == "https://" + rest;
    assert OccursAt("https://" + rest, "https://", 0);
  }

  lemma NormalizeHttps(rest: string)
    requires SingleSlashes(rest) && |rest| > 0 && rest[0] != '/'
    ensures Normalize("https://" + rest) == "https://" + rest
  {
    NoHttpAfterHttps(rest);
    assert OccursAt("https://" + rest, "https://", 0);
  }

  /**
   * Every accepted line becomes "https://" followed by the text after its
   * scheme: github.com/o/r, http://github.com/o/r and https://github.com/o/r
   * are one target.
   */
  lemma TargetNormalizes(line: string)
    requires IsTarget(line)
    ensures Normalize(line) == "https://" + AfterScheme(line)
  {
    var rest := AfterScheme(line);
    PathSingleSlashes(rest);
    if HasPrefix(line, "https://") {
      assert line == "https://" + rest;
      NormalizeHttps(rest);
    } else if HasPrefix(line, "http://") {
      assert line == "http://" + rest;
      NormalizeHttp(rest);
    } else {
      NormalizeBare(rest);
    }
  }

  /** Lines naming the same repository with different schemes yield one target. */
  lemma SameRepositoryOnce(a: string, b: string)
    requires IsTarget(a) && IsTarget(b) && AfterScheme(a) == AfterScheme(b)
    ensures Normalize(a) == Normalize(b)
  {
    TargetNormalizes(a);
    TargetNormalizes(b);
  }

  /** The normalised accepted lines, in input order, repeats included. */
  function Candidates(lines: seq<string>): seq<string> {
    FilterMap(lines, IsTarget, Normalize)
  }

  /** What fromScanner sends for the lines it reads: each target once, in first-occurrence order. */
  function FeedSpec(lines: seq<string>): seq<string> {
    Distinct(Candidates(lines))
  }

  /** A target is sent iff some accepted line normalises to it; each at most once, and all use https. */
  lemma FeedContents(lines: seq<string>, x: string)
    ensures x in FeedSpec(lines) <==> exists i :: 0 <= i < |lines| && IsTarget(lines[i]) && Normalize(lines[i]) == x
    ensures x in FeedSpec(lines) ==> Contains(x, "https://")
    ensures forall i, j :: 0 <= i < j < |FeedSpec(lines)| ==> FeedSpec(lines)[i] != FeedSpec(lines)[j]
  {
    DistinctElements(Candidates(lines));
    FilterMapFrom(lines, IsTarget, Normalize, x);
  }

  /** What has been sent after k lines is never retracted or reordered by later lines. */
  lemma FeedStreams(lines: seq<string>, k: nat)
    requires k <= |lines|
    ensures FeedSpec(lines[..k]) <= FeedSpec(lines)
  {
    FilterMapPrefix(lines, IsTarget, Normalize, k);
    var c := Candidates(lines);
    var m := |Candidates(lines[..k])|;
    assert Candidates(lines[..k]) == c[..m];
    DistinctPrefix(c, m);
  }

  function Min(a: int, b: int): int {
    if a < b then a else b
  }

  /**
   * fromScanner over the scanned `lines`, with the stop signal first seen
   * after reading line `stopAt`; returns what was sent on `targets`.
   */
  method FromScanner(lines: seq<string>, stopAt: nat) returns (sent: seq<string>, stopped: bool)
    ensures sent == FeedSpec(lines[..Min(stopAt, |lines|)])
    ensures stopped <==> stopAt < |lines|
  {
    var alreadyScanned: seq<string> := [];
    sent := [];
    stopped := false;
    var i := 0;
    while i < |lines|
      invariant 0 <= i <= |lines| && i <= stopAt
      invariant alreadyScanned == sent == FeedSpec(lines[..i])
      invariant !stopped
    {
      if i == stopAt {
        stopped := true;
        return;
      }
      var target := lines[i];
      FeedStep(lines, i);
      if !IsTarget(target) {
        i := i + 1;
        continue;
      }
      target := ReplaceFirst(target, "http://", "https://");
      if !Contains(target, "https://") {
        target := "https://" + target;
      }
      assert target == Normalize(lines[i]);
      if target in alreadyScanned {
        i := i + 1;
        continue;
      }
      alreadyScanned := alreadyScanned + [target];
      sent := sent + [target];
      i := i + 1;
    }
    assert lines[..i] == lines;
  }

  /** One iteration of the loop, on the specification. */
  lemma FeedStep(lines: seq<string>, i: nat)
    requires i < |lines|
    ensures FeedSpec(lines[..i + 1]) ==
      if !IsTarget(lines[i]) then FeedSpec(lines[..i])
      else DistinctAppend(FeedSpec(lines[..i]), Normalize(lines[i]))
  {
    FilterMapStep(lines, IsTarget, Normalize, i);
    if IsTarget(lines[i]) {
      DistinctAppendStep(Candidates(lines[..i]), Normalize(lines[i]));
    } else {
      assert Candidates(lines[..i + 1]) == Candidates(lines[..i]);
    }
  }
}
