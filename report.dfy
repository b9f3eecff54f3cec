/**
 * Aggregation of Semgrep findings for the report: the language of a rule,
 * the stable severity/title sort, the per-title and per-severity counts, and
 * the HTML file the report is written to.
 */
module Report {
  import opened Wrappers
  import opened GoStrings
  import opened Sequences
  import opened GoPath
  import opened FileSystem

  datatype Finding = Finding(
    vulnerabilityTitle: string,
    severity: string,
    description: string,
    code: string,
    startLine: int,
    stopLine: int,
    githubLink: string)

  /**
   * The data the HTML report is rendered from. SeverityStatsOrdering is not
   * part of this model: Go fills it in map iteration order.
   */
  datatype ReportData = ReportData(
    target: string,
    vulnerabilityStats: map<string, int>,
    vulnerabilityStatsOrdering: seq<string>,
    severityStats: map<string, int>,
    findings: seq<Finding>)

  /** getLanguage: the part of the rule title before its first '.'. */
  function GetLanguage(title: string): (r: string)
    ensures r <= title && '.' !in r
    ensures r == title || title[|r|] == '.'
  {
    var parts := SplitChar(title, '.');
    if '.' in title then
      var i := FirstIndexOf(title, '.');
      assert parts[0] == title[..i];
      parts[0]
    else parts[0]
  }

  /** The severity order of SortFindings; a severity missing from the map reads as 0. */
  function Rank(severity: string): (r: int)
    ensures 0 <= r <= 3
    ensures r == 0 <==> severity !in {"HIGH", "MEDIUM", "LOW"}
  {
    if severity == "HIGH" then 1
    else if severity == "MEDIUM" then 2
    else if severity == "LOW" then 3
    else 0
  }

  /** Go's `<` on strings: lexicographic by character code. */
  predicate StrLess(a: string, b: string) {
    if |a| == 0 then |b| > 0
    else if |b| == 0 then false
    else if a[0] != b[0] then a[0] < b[0]
    else StrLess(a[1..], b[1..])
  }

  lemma StrLessIrreflexive(a: string)
    ensures !StrLess(a, a)
  {
  }

  lemma {:induction false} StrLessTransitive(a: string, b: string, c: string)
    requires StrLess(a, b) && StrLess(b, c)
    ensures StrLess(a, c)
    decreases |a|
  {
    if |a| > 0 && |b| > 0 && |c| > 0 && a[0] == b[0] && b[0] == c[0] {
      StrLessTransitive(a[1..], b[1..], c[1..]);
    }
  }

  lemma {:induction false} StrLessAsymmetric(a: string, b: string)
    ensures StrLess(a, b) ==> !StrLess(b, a)
    decreases |a|
  {
    if |a| > 0 && |b| > 0 && a[0] == b[0] {
      StrLessAsymmetric(a[1..], b[1..]);
    }
  }

  /** Distinct strings are ordered one way or the other. */
  lemma {:induction false} StrLessTotal(a: string, b: string)
    requires a != b
    ensures StrLess(a, b) || StrLess(b, a)
    decreases |a|
  {
    if |a| > 0 && |b| > 0 && a[0] == b[0] {
      assert a == [a[0]] + a[1..] && b == [b[0]] + b[1..];
      StrLessTotal(a[1..], b[1..]);
    }
  }

  /** "Not less" is transitive: ties and order together form a total preorder. */
  lemma StrNotLessTransitive(a: string, b: string, c: string)
    requires !StrLess(a, b) && !StrLess(b, c)
    ensures !StrLess(a, c)
  {
    if a != b && b != c {
      StrLessTotal(a, b);
      StrLessTotal(b, c);
      StrLessTransitive(c, b, a);
      StrLessAsymmetric(c, a);
    }
  }

  /** The comparison passed to sort.SliceStable. */
  predicate Less(x: Finding, y: Finding) {
    if Rank(x.severity) != Rank(y.severity) then Rank(x.severity) < Rank(y.severity)
    else StrLess(x.vulnerabilityTitle, y.vulnerabilityTitle)
  }

  /** Two findings are tied when neither is less: same rank and same title. */
  predicate Tied(x: Finding, y: Finding) {
    Rank(x.severity) == Rank(y.severity) && x.vulnerabilityTitle == y.vulnerabilityTitle
  }

  lemma TiedIffIncomparable(x: Finding, y: Finding)
    ensures Tied(x, y) <==> !Less(x, y) && !Less(y, x)
  {
    if x.vulnerabilityTitle != y.vulnerabilityTitle {
      StrLessTotal(x.vulnerabilityTitle, y.vulnerabilityTitle);
    } else {
      StrLessIrreflexive(x.vulnerabilityTitle);
    }
  }

  lemma LessAsymmetric(x: Finding, y: Finding)
    ensures Less(x, y) ==> !Less(y, x)
  {
    StrLessAsymmetric(x.vulnerabilityTitle, y.vulnerabilityTitle);
  }

  lemma NotLessTransitive(x: Finding, y: Finding, z: Finding)
    requires !Less(x, y) && !Less(y, z)
    ensures !Less(x, z)
  {
    if Rank(x.severity) == Rank(y.severity) == Rank(z.severity) {
      StrNotLessTransitive(x.vulnerabilityTitle, y.vulnerabilityTitle, z.vulnerabilityTitle);
    }
  }

  lemma LessTransitive(x: Finding, y: Finding, z: Finding)
    requires Less(x, y) && Less(y, z)
    ensures Less(x, z)
  {
    if Rank(x.severity) == Rank(y.severity) == Rank(z.severity) {
      StrLessTransitive(x.vulnerabilityTitle, y.vulnerabilityTitle, z.vulnerabilityTitle);
    }
  }

  /** No later finding is less than an earlier one. */
  predicate Sorted(s: seq<Finding>) {
    forall i, j :: 0 <= i < j < |s| ==> !Less(s[j], s[i])
  }

  /** Stable insertion of `x` after every element it is not less than. */
  function Insert(t: seq<Finding>, x: Finding): (r: seq<Finding>)
    ensures |r| == |t| + 1
  {
    if t == [] || !Less(x, t[|t| - 1]) then t + [x]
    else Insert(t[..|t| - 1], x) + [t[|t| - 1]]
  }

  /** The result of sort.SliceStable with Less. */
  function SortSpec(s: seq<Finding>): (r: seq<Finding>)
    ensures |r| == |s|
  {
    if s == [] then [] else Insert(SortSpec(s[..|s| - 1]), s[|s| - 1])
  }

  lemma {:induction false} InsertPermutes(t: seq<Finding>, x: Finding)
    ensures multiset(Insert(t, x)) == multiset(t) + multiset{x}
  {
    if t != [] && Less(x, t[|t| - 1]) {
      InsertPermutes(t[..|t| - 1], x);
      assert t == t[..|t| - 1] + [t[|t| - 1]];
    }
  }

  lemma {:induction false} SortPermutes(s: seq<Finding>)
    ensures multiset(SortSpec(s)) == multiset(s)
  {
    if s != [] {
      SortPermutes(s[..|s| - 1]);
      InsertPermutes(SortSpec(s[..|s| - 1]), s[|s| - 1]);
      assert s == s[..|s| - 1] + [s[|s| - 1]];
    }
  }

  /** Inserting into a sorted sequence keeps it sorted. */
  lemma {:induction false} InsertSorted(t: seq<Finding>, x: Finding)
    requires Sorted(t)
    ensures Sorted(Insert(t, x))
  {
    if t != [] && Less(x, t[|t| - 1]) {
      var u := t[..|t| - 1];
      var l := t[|t| - 1];
      assert Sorted(u);
      InsertSorted(u, x);
      InsertPermutes(u, x);
      var r := Insert(u, x);
      forall i | 0 <= i < |r| ensures !Less(l, r[i]) {
        assert r[i] in multiset(u) + multiset{x};
        if r[i] in multiset(u) {
          var k :| 0 <= k < |u| && u[k] == r[i];
          assert t[k] == u[k];
        } else {
          LessAsymmetric(x, l);
        }
      }
    } else if t != [] {
      var l := t[|t| - 1];
      forall i | 0 <= i < |t| ensures !Less(x, t[i]) {
        if i < |t| - 1 {
          NotLessTransitive(x, l, t[i]);
        }
      }
    }
  }

  /** The output of SortFindings is ordered by (rank, title). */
  lemma {:induction false} SortSorted(s: seq<Finding>)
    ensures Sorted(SortSpec(s))
  {
    if s != [] {
      SortSorted(s[..|s| - 1]);
      InsertSorted(SortSpec(s[..|s| - 1]), s[|s| - 1]);
    }
  }

  /** The findings tied with `k`, in order. */
  function TiedWith(s: seq<Finding>, k: Finding): (r: seq<Finding>)
    ensures |r| <= |s|
  {
    if s == [] then []
    else TiedWith(s[..|s| - 1], k) + (if Tied(s[|s| - 1], k) then [s[|s| - 1]] else [])
  }

  lemma TiedWithAppend(s: seq<Finding>, x: Finding, k: Finding)
    ensures TiedWith(s + [x], k) == TiedWith(s, k) + (if Tied(x, k) then [x] else [])
  {
    assert (s + [x])[..|s|] == s;
  }

  lemma {:induction false} InsertStable(t: seq<Finding>, x: Finding, k: Finding)
    ensures TiedWith(Insert(t, x), k) == TiedWith(t, k) + (if Tied(x, k) then [x] else [])
  {
    if t == [] || !Less(x, t[|t| - 1]) {
      TiedWithAppend(t, x, k);
    } else {
      var u := t[..|t| - 1];
      var l := t[|t| - 1];
      InsertStable(u, x, k);
      TiedWithAppend(Insert(u, x), l, k);
      assert TiedWith(t, k) == TiedWith(u, k) + (if Tied(l, k) then [l] else []) by {
        assert t == u + [l];
        TiedWithAppend(u, l, k);
      }
      assert !(Tied(x, k) && Tied(l, k)) by {
        StrLessIrreflexive(x.vulnerabilityTitle);
      }
    }
  }

  /** Findings that compare equal keep their input order. */
  lemma {:induction false} SortStable(s: seq<Finding>, k: Finding)
    ensures TiedWith(SortSpec(s), k) == TiedWith(s, k)
  {
    if s != [] {
      SortStable(s[..|s| - 1], k);
      InsertStable(SortSpec(s[..|s| - 1]), s[|s| - 1], k);
    }
  }

  /** One shift of the insertion loop, on the specification. */
  lemma InsertShift(t: seq<Finding>, x: Finding, j: nat)
    requires 0 < j <= |t| && Less(x, t[j - 1])
    ensures Insert(t[..j], x) + t[j..] == Insert(t[..j - 1], x) + t[j - 1..]
  {
    assert t[..j][..j - 1] == t[..j - 1];
    assert t[j - 1..] == [t[j - 1]] + t[j..];
  }

  /** Where the insertion loop stops, `x` goes. */
  lemma InsertDone(t: seq<Finding>, x: Finding, j: nat)
    requires j <= |t| && (j == 0 || !Less(x, t[j - 1]))
    ensures Insert(t[..j], x) == t[..j] + [x]
  {
  }

  /** The shape of the array during one pass: the hole at `j` holds `h`, the elements from `j` on are shifted right by one. */
  ghost function Shifted(t: seq<Finding>, j: nat, h: Finding, rest: seq<Finding>): seq<Finding>
    requires j <= |t|
  {
    t[..j] + [h] + t[j..] + rest
  }

  /** Copying a[j - 1] into the hole moves the hole one place left. */
  lemma ShiftStep(t: seq<Finding>, j: nat, h: Finding, rest: seq<Finding>)
    requires 0 < j <= |t|
    ensures Shifted(t, j, h, rest)[j - 1] == t[j - 1]
    ensures Shifted(t, j, h, rest)[j := t[j - 1]] == Shifted(t, j - 1, t[j - 1], rest)
  {
    assert t[j - 1..] == [t[j - 1]] + t[j..];
    assert t[..j] == t[..j - 1] + [t[j - 1]];
  }

  /** Filling the hole with `x` gives the inserted prefix, then the untouched rest. */
  lemma ShiftDone(t: seq<Finding>, j: nat, h: Finding, x: Finding, rest: seq<Finding>)
    requires j <= |t|
    ensures var b := Shifted(t, j, h, rest)[j := x];
      b[..|t| + 1] == t[..j] + [x] + t[j..] && b[|t| + 1..] == rest
  {
    assert Shifted(t, j, h, rest)[j := x] == (t[..j] + [x] + t[j..]) + rest;
  }

  /** One pass of the insertion sort: a[i] moves left past the elements it is less than. */
  method InsertAt(a: array<Finding>, i: nat)
    requires i < a.Length
    modifies a
    ensures a[..i + 1] == Insert(old(a[..i]), old(a[i]))
    ensures a[i + 1..] == old(a[i + 1..])
  {
    ghost var t := a[..i];
    ghost var rest := a[i + 1..];
    var x := a[i];
    var j := i;
    ghost var h := x;
    assert t[..j] == t && t[j..] == [];
    assert a[..] == Shifted(t, j, h, rest) by {
      assert a[..] == a[..i] + [a[i]] + a[i + 1..];
    }
    while j > 0 && Less(x, a[j - 1])
      invariant 0 <= j <= i
      invariant a[..] == Shifted(t, j, h, rest)
      invariant Insert(t, x) == Insert(t[..j], x) + t[j..]
    {
      InsertShift(t, x, j);
      ShiftStep(t, j, h, rest);
      a[j] := a[j - 1];
      j, h := j - 1, t[j - 1];
    }
    ShiftDone(t, j, h, x, rest);
    a[j] := x;
    InsertDone(t, x, j);
  }

  /** SortFindings: an insertion sort in place, the stable order SliceStable produces. */
  method SortFindings(a: array<Finding>)
    modifies a
    ensures a[..] == SortSpec(old(a[..]))
  {
    ghost var input := a[..];
    var i := 0;
    while i < a.Length
      invariant 0 <= i <= a.Length
      invariant a[..i] == SortSpec(input[..i])
      invariant a[i..] == input[i..]
    {
      InsertAt(a, i);
      assert input[..i + 1][..i] == input[..i];
      i := i + 1;
    }
    assert input[..a.Length] == input;
  }

  /** The titles of the findings, in order. */
  function Titles(s: seq<Finding>): (r: seq<string>)
    ensures |r| == |s| && forall i :: 0 <= i < |s| ==> r[i] == s[i].vulnerabilityTitle
  {
    if s == [] then [] else Titles(s[..|s| - 1]) + [s[|s| - 1].vulnerabilityTitle]
  }

  /** The severities of the findings, in order. */
  function Severities(s: seq<Finding>): (r: seq<string>)
    ensures |r| == |s| && forall i :: 0 <= i < |s| ==> r[i] == s[i].severity
  {
    if s == [] then [] else Severities(s[..|s| - 1]) + [s[|s| - 1].severity]
  }

  /** One loop step on a counting map: add the key at 0 if missing, then increment it. */
  function Bump(m: map<string, int>, x: string): map<string, int> {
    var base := if x in m then m else m[x := 0];
    base[x := base[x] + 1]
  }

  /** The counting map the loop builds: a key is added at 0, then incremented. */
  function Tally(s: seq<string>): map<string, int> {
    if s == [] then map[] else Bump(Tally(s[..|s| - 1]), s[|s| - 1])
  }

  /** The map has a key for every value that occurs and no other. */
  lemma {:induction false} TallyKeys(s: seq<string>)
    ensures forall x :: x in Tally(s) <==> x in s
  {
    if s != [] {
      TallyKeys(s[..|s| - 1]);
      assert s == s[..|s| - 1] + [s[|s| - 1]];
    }
  }

  /** Each count is the number of occurrences. */
  lemma {:induction false} TallyCounts(s: seq<string>, x: string)
    requires x in s
    ensures x in Tally(s) && Tally(s)[x] == multiset(s)[x]
  {
    TallyKeys(s);
    var p := s[..|s| - 1];
    assert s == p + [s[|s| - 1]];
    if x in p {
      TallyCounts(p, x);
    } else {
      TallyKeys(p);
    }
  }

  lemma TallyStep(s: seq<string>, x: string)
    ensures Tally(s + [x]) == Bump(Tally(s), x)
  {
    assert (s + [x])[..|s|] == s;
  }

  lemma DistinctStep(s: seq<string>, x: string)
    ensures Distinct(s + [x]) == if x in Tally(s) then Distinct(s) else Distinct(s) + [x]
  {
    assert (s + [x])[..|s|] == s;
    TallyKeys(s);
    DistinctElements(s);
  }

  lemma FieldsStep(s: seq<Finding>, i: nat)
    requires i < |s|
    ensures Titles(s[..i + 1]) == Titles(s[..i]) + [s[i].vulnerabilityTitle]
    ensures Severities(s[..i + 1]) == Severities(s[..i]) + [s[i].severity]
  {
    assert s[..i + 1][..i] == s[..i];
  }

  /** What one iteration of CalculateSemgrepMetrics adds to the titles and severities seen so far. */
  lemma MetricsStep(s: seq<Finding>, i: nat)
    requires i < |s|
    ensures var t, sev, titles, severities := s[i].vulnerabilityTitle, s[i].severity, Titles(s[..i]), Severities(s[..i]);
      Tally(Titles(s[..i + 1])) == Bump(Tally(titles), t)
      && Distinct(Titles(s[..i + 1])) == (if t in Tally(titles) then Distinct(titles) else Distinct(titles) + [t])
      && Tally(Severities(s[..i + 1])) == Bump(Tally(severities), sev)
  {
    FieldsStep(s, i);
    TallyStep(Titles(s[..i]), s[i].vulnerabilityTitle);
    DistinctStep(Titles(s[..i]), s[i].vulnerabilityTitle);
    TallyStep(Severities(s[..i]), s[i].severity);
  }

  /** The loop body's update of one counting map: `if !ok { m[x] = 0 }; m[x] += 1`. */
  method CountInto(m: map<string, int>, x: string) returns (r: map<string, int>)
    ensures r == Bump(m, x)
  {
    r := m;
    if x !in r {
      r := r[x := 0];
    }
    r := r[x := r[x] + 1];
  }

  /** CalculateSemgrepMetrics: both counting maps and the first-occurrence title order. */
  method CalculateSemgrepMetrics(findings: seq<Finding>)
    returns (vulnerabilityStats: map<string, int>, ordering: seq<string>, severityStats: map<string, int>)
    ensures vulnerabilityStats == Tally(Titles(findings))
    ensures ordering == Distinct(Titles(findings))
    ensures severityStats == Tally(Severities(findings))
  {
    vulnerabilityStats := map[];
    ordering := [];
    severityStats := map[];
    var i := 0;
    while i < |findings|
      invariant 0 <= i <= |findings|
      invariant vulnerabilityStats == Tally(Titles(findings[..i]))
      invariant ordering == Distinct(Titles(findings[..i]))
      invariant severityStats == Tally(Severities(findings[..i]))
    {
      var finding := findings[i];
      var t := finding.vulnerabilityTitle;
      var sev := finding.severity;
      MetricsStep(findings, i);
      if t !in vulnerabilityStats {
        ordering := ordering + [t];
      }
      vulnerabilityStats := CountInto(vulnerabilityStats, t);
      severityStats := CountInto(severityStats, sev);
      i := i + 1;
    }
    assert findings[..i] == findings;
  }

  /** The total of the counts of the keys listed in `d`. */
  function SumOver(d: seq<string>, m: map<string, int>): int {
    if d == [] then 0
    else SumOver(d[..|d| - 1], m) + (if d[|d| - 1] in m then m[d[|d| - 1]] else 0)
  }

  lemma {:induction false} SumOverUnchanged(d: seq<string>, m: map<string, int>, x: string, v: int)
    requires x !in d
    ensures SumOver(d, m[x := v]) == SumOver(d, m)
  {
    if d != [] {
      SumOverUnchanged(d[..|d| - 1], m, x, v);
    }
  }

  lemma {:induction false} SumOverIncrement(d: seq<string>, m: map<string, int>, x: string)
    requires x in m
    requires forall i, j :: 0 <= i < j < |d| ==> d[i] != d[j]
    ensures SumOver(d, m[x := m[x] + 1]) == SumOver(d, m) + (if x in d then 1 else 0)
  {
    if d != [] {
      var p := d[..|d| - 1];
      if d[|d| - 1] == x {
        assert x !in p;
        SumOverUnchanged(p, m, x, m[x] + 1);
      } else {
        SumOverIncrement(p, m, x);
      }
    }
  }

  /** The counts add up to the number of findings. */
  lemma {:induction false} TallyTotal(s: seq<string>)
    ensures SumOver(Distinct(s), Tally(s)) == |s|
  {
    if s != [] {
      var p := s[..|s| - 1];
      var e := s[|s| - 1];
      var d := Distinct(p);
      var m := Tally(p);
      assert s == p + [e];
      TallyStep(p, e);
      DistinctStep(p, e);
      TallyTotal(p);
      if e in m {
        assert SumOver(d, Bump(m, e)) == SumOver(d, m) + 1 by {
          DistinctElements(p);
          TallyKeys(p);
          SumOverIncrement(d, m, e);
        }
      } else {
        assert SumOver(d + [e], Bump(m, e)) == SumOver(d, m) + 1 by {
          TallyKeys(p);
          assert Bump(m, e) == m[e := 1];
          SumOverUnchanged(d, m, e, 1);
          assert (d + [e])[..|d|] == d;
        }
      }
    }
  }

  /** Both maps of CalculateSemgrepMetrics sum to the number of findings. */
  lemma MetricsTotals(findings: seq<Finding>)
    ensures SumOver(Distinct(Titles(findings)), Tally(Titles(findings))) == |findings|
    ensures SumOver(Distinct(Severities(findings)), Tally(Severities(findings))) == |findings|
  {
    TallyTotal(Titles(findings));
    TallyTotal(Severities(findings));
  }

  // ---------------------------------------------------------------------------
  // The report file
  // ---------------------------------------------------------------------------

  /**
   * html/template on the report data: whether the template parses, the bytes
   * Execute writes to the file, and whether Execute returns no error.
   */
  datatype Rendering = Rendering(parsed: bool, written: seq<byte>, executed: bool)

  function ReportFile(outDir: string, id: string): string {
    outDir + "/report-" + id + ".html"
  }

  /**
   * GenerateHTML on the disk `fs`: the path it returns (None for its error)
   * and the disk it leaves (keyed by cleaned paths). A failed Execute happens
   * after os.Create, so the file stays with what was written into it.
   */
  function Generated(fs: Tree, outDir: string, id: string, rendering: Rendering): (Option<string>, Tree) {
    if !rendering.parsed then (None, fs)
    else
      var key := Clean(ReportFile(outDir, id));
      if !OpenSucceeds(fs, key) then (None, fs)
      else (if rendering.executed then Some(ReportFile(outDir, id)) else None, Created(fs, key, rendering.written))
  }

  /**
   * Only the report file changes. A returned path is the report file, which
   * then holds exactly the rendered bytes; no path is returned exactly when
   * the template fails to parse or execute or the file cannot be created.
   */
  lemma GeneratedEffect(fs: Tree, outDir: string, id: string, rendering: Rendering)
    ensures var (r, t) := Generated(fs, outDir, id, rendering);
      var key := Clean(ReportFile(outDir, id));
      (forall k :: k != key ==> (k in t <==> k in fs) && (k in t ==> t[k] == fs[k]))
      && (r.Some? <==> rendering.parsed && rendering.executed && OpenSucceeds(fs, key))
      && (r.Some? ==> r.value == ReportFile(outDir, id) && key in t && t[key].File? && t[key].content == rendering.written)
      && (rendering.parsed && OpenSucceeds(fs, key) ==> key in t && t[key].content == rendering.written)
  {
  }

  /** GenerateHTML(reportData, outDir) with the fresh name `id` for uuid.New and `render` for the template. */
  method GenerateHTML(disk: Disk, reportData: ReportData, outDir: string, id: Uuid, render: ReportData -> Rendering)
    returns (r: Option<string>)
    modifies disk
    ensures (r, disk.nodes) == Generated(old(disk.nodes), outDir, id, render(reportData))
  {
    var tmpl := render(reportData);
    if !tmpl.parsed {
      return None;
    }
    var outPath := outDir + "/report-" + id + ".html";
    var ok := disk.Create(Clean(outPath));
    if !ok {
      return None;
    }
    disk.WriteAtStart(Clean(outPath), tmpl.written);
    assert disk.nodes == Created(old(disk.nodes), Clean(outPath), tmpl.written);
    if !tmpl.executed {
      return None;
    }
    return Some(outPath);
  }
}
