/**
 * The range filters of the repository extractor (NumericFilter, dateFilter)
 * and the default-branch extraction of GetDefaultBranch, over the text of the
 * embedded JSON it finds in the page.
 */
module Filters {
  import opened Wrappers
  import opened GoStrings

  /** What a filter returns: nil, ErrTargetFiltered or errInvalidFilter. */
  datatype Verdict = Pass | Filtered | Invalid

  /** The closing comparison of NumericFilter; `to == -1` stands for "no upper bound". */
  predicate InRange(value: int, from: int, to: int) {
    (value >= from && value <= to) || (value >= from && to == -1)
  }

  /**
   * NumericFilter: "n", "a-b", "a-" and "-b" against `value`. A single value
   * that Atoi rejects is only logged, and Atoi's result (0 for a syntax error,
   * the nearest bound for an out-of-range number) is used; an unparsable bound
   * in a two-part filter, and every other form, is an invalid filter.
   */
  function NumericFilter(value: int, filter: string): (r: Verdict) {
    var parts := SplitChar(filter, '-');
    if |parts| == 1 then
      var from := Atoi(parts[0]).value;
      if InRange(value, from, from) then Pass else Filtered
    else if |parts| == 2 && parts[0] != "" && parts[1] != "" then
      var a, b := Atoi(parts[0]), Atoi(parts[1]);
      if !a.ok || !b.ok then Invalid
      else if InRange(value, a.value, b.value) then Pass else Filtered
    else if |parts| == 2 && parts[0] != "" && parts[1] == "" then
      var a := Atoi(parts[0]);
      if !a.ok then Invalid
      else if InRange(value, a.value, -1) then Pass else Filtered
    else if |parts| == 2 && parts[0] == "" && parts[1] != "" then
      var b := Atoi(parts[1]);
      if !b.ok then Invalid
      else if InRange(value, 0, b.value) then Pass else Filtered
    else Invalid
  }

  /** When a filter is invalid: more than one '-', a lone "-", or a two-part filter
      with a non-empty side that Atoi rejects. */
  lemma NumericInvalidIff(value: int, filter: string)
    ensures var parts := SplitChar(filter, '-');
      NumericFilter(value, filter) == Invalid <==>
        CountChar(filter, '-') >= 2 || filter == "-" ||
        (|parts| == 2 && exists k :: 0 <= k < 2 && parts[k] != "" && !Atoi(parts[k]).ok)
  {
    SplitCount(filter, '-');
    var parts := SplitChar(filter, '-');
    if |parts| == 2 && parts[0] == "" && parts[1] == "" {
      SplitJoin(filter, '-');
      assert JoinChar(parts, '-') == parts[0] + "-" + JoinChar(parts[1..], '-');
    }
    if filter == "-" {
      assert CountChar(filter, '-') == 1;
    }
  }

  /** A decimal for a natural number contains no '-', so Split keeps it whole. */
  lemma SplitNat(n: nat)
    ensures '-' !in NatDigits(n)
    ensures SplitChar(NatDigits(n), '-') == [NatDigits(n)]
  {
    var d := NatDigits(n);
    assert forall i :: 0 <= i < |d| ==> d[i] != '-' by {
      forall i | 0 <= i < |d| ensures d[i] != '-' { assert IsDigit(d[i]); }
    }
    JoinSplit([d], '-');
  }

  /** "a-b" passes exactly the values from a to b, both included. */
  lemma NumericBetween(value: int, a: nat, b: nat)
    requires a <= MaxInt64 && b <= MaxInt64
    ensures NumericFilter(value, NatDigits(a) + "-" + NatDigits(b)) == if a <= value <= b then Pass else Filtered
  {
    var x, y := NatDigits(a), NatDigits(b);
    assert SplitChar(x + "-" + y, '-') == [x, y] by {
      SplitNat(a);
      SplitNat(b);
      SplitAppend(x, y, '-');
    }
    assert Atoi(x) == Parsed(a, true) by { AtoiItoa(a); }
    assert Atoi(y) == Parsed(b, true) by { AtoiItoa(b); }
  }

  /** "a-" passes every value from a on. */
  lemma NumericAtLeast(value: int, a: nat)
    requires a <= MaxInt64
    ensures NumericFilter(value, NatDigits(a) + "-") == if a <= value then Pass else Filtered
  {
    var x := NatDigits(a);
    assert SplitChar(x + "-", '-') == [x, ""] by {
      SplitNat(a);
      assert x + "-" == x + ['-'] + "";
      SplitAppend(x, "", '-');
    }
    assert Atoi(x) == Parsed(a, true) by { AtoiItoa(a); }
  }

  /** "-b" passes the values from 0 to b: negative values are filtered out. */
  lemma NumericAtMost(value: int, b: nat)
    requires b <= MaxInt64
    ensures NumericFilter(value, "-" + NatDigits(b)) == if 0 <= value <= b then Pass else Filtered
  {
    var y := NatDigits(b);
    assert SplitChar("-" + y, '-') == ["", y] by {
      SplitNat(b);
      assert "-" + y == "" + ['-'] + y;
      SplitAppend("", y, '-');
    }
    assert Atoi(y) == Parsed(b, true) by { AtoiItoa(b); }
  }

  /** A single number passes only itself. */
  lemma NumericExact(value: int, n: nat)
    requires n <= MaxInt64
    ensures NumericFilter(value, NatDigits(n)) == if value == n then Pass else Filtered
  {
    SplitNat(n);
    assert Atoi(NatDigits(n)) == Parsed(n, true) by { AtoiItoa(n); }
  }

  /**
   * A single value Atoi rejects is not an error: it filters as the value Atoi
   * returned. Without a '-', that value is MaxInt64 when the leading digits
   * overflow uint64 (or, with nothing after them, int64), and 0 otherwise.
   */
  lemma NumericUnparsable(value: int, s: string)
    requires '-' !in s && !Atoi(s).ok
    ensures NumericFilter(value, s) == if value == Atoi(s).value then Pass else Filtered
    ensures var body := if s != [] && s[0] == '+' then s[1..] else s;
      var k := DigitRun(body);
      Atoi(s).value == (if body != [] && (DecimalValue(body[..k]) > MaxUint64 || (k == |body| && DecimalValue(body) > MaxInt64))
                        then MaxInt64 else 0)
  {
    JoinSplit([s], '-');
    var body := if s != [] && s[0] == '+' then s[1..] else s;
    var k := DigitRun(body);
    if body != [] && k == |body| {
      assert body[..k] == body;
    }
  }

  // ---------------------------------------------------------------------------
  // Dates
  // ---------------------------------------------------------------------------

  /** A time.Time in UTC: the calendar date and the nanoseconds since midnight. */
  datatype Instant = Instant(year: int, month: int, day: int, clock: nat)

  /** time.Time{}: January 1 of year 1, 00:00:00 UTC. */
  const Zero: Instant := Instant(1, 1, 1, 0)

  /** t.Before(u) || t.Equal(u), in calendar order. */
  predicate NotAfter(t: Instant, u: Instant) {
    t.year < u.year ||
    (t.year == u.year && (t.month < u.month ||
      (t.month == u.month && (t.day < u.day || (t.day == u.day && t.clock <= u.clock)))))
  }

  lemma NotAfterAntisymmetric(t: Instant, u: Instant)
    ensures NotAfter(t, u) && NotAfter(u, t) <==> t == u
  {
  }

  predicate IsLeap(year: int) {
    year % 4 == 0 && (year % 100 != 0 || year % 400 == 0)
  }

  function DaysIn(month: int, year: int): int
    requires 1 <= month <= 12
  {
    if month == 2 then (if IsLeap(year) then 29 else 28)
    else if month in {4, 6, 9, 11} then 30
    else 31
  }

  /**
   * time.Parse("20060102", s): exactly eight decimal digits, a month from 1 to 12
   * and a day that exists in that month of that year; midnight UTC.
   */
  function ParseDate(s: string): (r: Option<Instant>)
    ensures r.Some? ==> r.value.clock == 0 && 1 <= r.value.month <= 12 && 1 <= r.value.day <= DaysIn(r.value.month, r.value.year)
  {
    if |s| != 8 || !AllDigits(s) then None
    else
      var year, month, day := DecimalValue(s[..4]), DecimalValue(s[4..6]), DecimalValue(s[6..]);
      if 1 <= month <= 12 && 1 <= day <= DaysIn(month, year) then Some(Instant(year, month, day, 0))
      else None
  }

  /** The time a failed parse leaves behind: the zero time. */
  function ParseOrZero(s: string): Instant {
    match ParseDate(s)
    case Some(t) => t
    case None => Zero
  }

  /** `n` as exactly `w` decimal digits, most significant first. */
  function Digits(n: nat, w: nat): (r: string)
    ensures |r| == w && AllDigits(r)
  {
    if w == 0 then [] else Digits(n / 10, w - 1) + [DigitChar(n % 10)]
  }

  function Pow10(w: nat): nat {
    if w == 0 then 1 else 10 * Pow10(w - 1)
  }

  lemma {:induction false} DigitsValue(n: nat, w: nat)
    requires n < Pow10(w)
    ensures DecimalValue(Digits(n, w)) == n
  {
    if w > 0 {
      DigitsValue(n / 10, w - 1);
      var r := Digits(n, w);
      assert r[..|r| - 1] == Digits(n / 10, w - 1);
    }
  }

  /** The date in the filter's own YYYYMMDD form. */
  function FormatDate(t: Instant): string
    requires 0 <= t.year < 10000 && 1 <= t.month <= 12 && 1 <= t.day <= 31
  {
    Digits(t.year, 4) + Digits(t.month, 2) + Digits(t.day, 2)
  }

  /** The layout reads back exactly the dates it can write. */
  lemma ParseFormat(t: Instant)
    requires 0 <= t.year < 10000 && 1 <= t.month <= 12 && 1 <= t.day <= DaysIn(t.month, t.year) && t.clock == 0
    ensures ParseDate(FormatDate(t)) == Some(t)
  {
    var y, m, d := Digits(t.year, 4), Digits(t.month, 2), Digits(t.day, 2);
    var s := FormatDate(t);
    assert s[..4] == y && s[4..6] == m && s[6..] == d;
    assert Pow10(2) == 100 && Pow10(4) == 10000;
    DigitsValue(t.year, 4);
    DigitsValue(t.month, 2);
    DigitsValue(t.day, 2);
  }

  /** The final comparison of dateFilter: a zero bound is no bound. */
  function DateVerdict(target: Instant, from: Instant, to: Instant): Verdict {
    if from == Zero then (if NotAfter(target, to) then Pass else Filtered)
    else if to == Zero then (if NotAfter(from, target) then Pass else Filtered)
    else if NotAfter(target, to) && NotAfter(from, target) then Pass else Filtered
  }

  /** The filter text with every '/' removed. */
  function Unslashed(filter: string): (r: string)
    ensures '/' !in r
    ensures '/' !in filter ==> r == filter
  {
    ReplaceAllChar(filter, '/', "")
  }

  /**
   * dateFilter: the filter with its '/' removed is "d", "a-b", "a-" or "-b"; a
   * date that does not parse is only logged and becomes the zero time.
   */
  function DateFilter(target: Instant, filter: string): (r: Verdict) {
    var parts := SplitChar(Unslashed(filter), '-');
    if |parts| == 1 then
      var d := ParseOrZero(parts[0]);
      DateVerdict(target, d, d)
    else if |parts| == 2 && parts[0] != "" && parts[1] != "" then
      DateVerdict(target, ParseOrZero(parts[0]), ParseOrZero(parts[1]))
    else if |parts| == 2 && parts[0] != "" && parts[1] == "" then
      DateVerdict(target, ParseOrZero(parts[0]), Zero)
    else if |parts| == 2 && parts[0] == "" && parts[1] != "" then
      DateVerdict(target, Zero, ParseOrZero(parts[1]))
    else Invalid
  }

  /** Slashes are cosmetic: "2024/01/31-" filters exactly as "20240131-". */
  lemma DateFilterIgnoresSlashes(target: Instant, filter: string)
    ensures DateFilter(target, filter) == DateFilter(target, Unslashed(filter))
  {
  }

  /** Three or more parts, or a lone "-", is an invalid filter; nothing else is. */
  lemma DateInvalidIff(target: Instant, filter: string)
    ensures DateFilter(target, filter) == Invalid <==> CountChar(Unslashed(filter), '-') >= 2 || Unslashed(filter) == "-"
  {
    var f := Unslashed(filter);
    SplitCount(f, '-');
    var parts := SplitChar(f, '-');
    if |parts| == 2 && parts[0] == "" && parts[1] == "" {
      SplitJoin(f, '-');
      assert JoinChar(parts, '-') == parts[0] + "-" + JoinChar(parts[1..], '-');
    }
    if f == "-" {
      assert CountChar(f, '-') == 1;
    }
  }

  /** The two parts of `a + "-" + b` when neither side holds '-'. */
  lemma SplitTwo(a: string, b: string)
    requires '-' !in a && '-' !in b
    ensures SplitChar(a + "-" + b, '-') == [a, b]
  {
    JoinSplit([a], '-');
    JoinSplit([b], '-');
    SplitAppend(a, b, '-');
  }

  /** Both bounds are inclusive. */
  lemma DateBetween(target: Instant, a: string, b: string, x: Instant, y: Instant)
    requires '-' !in a && '-' !in b && '/' !in a && '/' !in b && a != "" && b != ""
    requires ParseDate(a) == Some(x) && ParseDate(b) == Some(y) && x != Zero && y != Zero
    ensures DateFilter(target, a + "-" + b) == if NotAfter(x, target) && NotAfter(target, y) then Pass else Filtered
  {
    SplitTwo(a, b);
  }

  /** "a-" keeps every target from a on. */
  lemma DateFrom(target: Instant, a: string, x: Instant)
    requires '-' !in a && '/' !in a && a != ""
    requires ParseDate(a) == Some(x) && x != Zero
    ensures DateFilter(target, a + "-") == if NotAfter(x, target) then Pass else Filtered
  {
    SplitTwo(a, "");
    assert a + "-" + "" == a + "-";
  }

  /** "-b" keeps every target up to b. */
  lemma DateUntil(target: Instant, b: string, y: Instant)
    requires '-' !in b && '/' !in b && b != ""
    requires ParseDate(b) == Some(y)
    ensures DateFilter(target, "-" + b) == if NotAfter(target, y) then Pass else Filtered
  {
    SplitTwo("", b);
    assert "" + "-" + b == "-" + b;
  }

  /** A side that does not parse (or that parses to year 1, January 1) is no bound at all. */
  lemma DateUnparsableIsUnbounded(target: Instant, a: string, b: string)
    requires '-' !in a && '-' !in b && '/' !in a && '/' !in b && a != "" && b != ""
    requires ParseOrZero(b) == Zero
    ensures DateFilter(target, a + "-" + b) == DateFilter(target, a + "-")
  {
    SplitTwo(a, b);
    SplitTwo(a, "");
    assert a + "-" + "" == a + "-";
  }

  /** A single date keeps only targets at exactly midnight that day: it is both bounds. */
  lemma DateExact(target: Instant, a: string, x: Instant)
    requires '-' !in a && '/' !in a
    requires ParseDate(a) == Some(x) && x != Zero
    ensures DateFilter(target, a) == if target == x then Pass else Filtered
  {
    JoinSplit([a], '-');
    NotAfterAntisymmetric(target, x);
  }

  // ---------------------------------------------------------------------------
  // Default branch
  // ---------------------------------------------------------------------------

  /** The text GetDefaultBranch searches for; it then skips one character more, the opening quote. */
  const BranchKey: string := "\"defaultBranch\":"

  /**
   * The slicing of GetDefaultBranch for a search text `key`: from |key| + 1
   * characters after the first occurrence of `key` up to the next '"'. None is the
   * slice-bounds panic, when that start lies past the end or no '"' follows it.
   */
  function ValueAfter(json: string, key: string): Option<string> {
    var start := Index(json, key) + |key| + 1;
    if start < 0 || start > |json| then None
    else
      var rel := Index(json[start..], "\"");
      if rel < 0 then None else Some(json[start..][..rel])
  }

  /** The extracted name never holds a quote: it ends at the first one. */
  lemma ValueAfterUnquoted(json: string, key: string)
    ensures var r := ValueAfter(json, key); r.Some? ==> '"' !in r.value
  {
    var start := Index(json, key) + |key| + 1;
    if 0 <= start <= |json| {
      IndexOfChar(json[start..], '"');
    }
  }

  /** GetDefaultBranch on the JSON text it takes from the page. */
  function DefaultBranch(json: string): Option<string> {
    ValueAfter(json, BranchKey)
  }

  /** ValueAfter in terms of where the key was found and where the quote closes. */
  lemma ValueAfterAt(json: string, key: string, rest: string, rel: nat)
    requires 0 <= Index(json, key) && Index(json, key) + |key| + 1 <= |json|
    requires json[Index(json, key) + |key| + 1..] == rest
    requires Index(rest, "\"") == rel
    ensures ValueAfter(json, key) == Some(rest[..rel])
  {
  }

  lemma ValueAfterOf(pre: string, key: string, branch: string, post: string)
    requires forall i :: 0 <= i < |pre| ==> !OccursAt(pre + key, key, i)
    requires '"' !in branch
    ensures ValueAfter(pre + key + "\"" + branch + "\"" + post, key) == Some(branch)
  {
    var json := pre + key + "\"" + branch + "\"" + post;
    var k := pre + key;
    assert json == k + ("\"" + branch + "\"" + post);
    forall i | 0 <= i < |pre| ensures !OccursAt(json, key, i) {
      assert !OccursAt(k, key, i);
      assert json[i..i + |key|] == k[i..i + |key|];
    }
    assert json[|pre|..|pre| + |key|] == key;
    IndexAt(json, key, |pre|);
    var start := |pre| + |key| + 1;
    var rest := branch + "\"" + post;
    assert json[start..] == rest;
    forall i | 0 <= i < |branch| ensures !OccursAt(rest, "\"", i) {
      assert rest[i..i + 1] == [branch[i]];
    }
    assert rest[|branch|..|branch| + 1] == "\"";
    IndexAt(rest, "\"", |branch|);
    var rel := |branch|;
    assert rest[..rel] == branch;
    ValueAfterAt(json, key, rest, rel);
  }

  /** The first occurrence of the key followed by a quoted name yields that name. */
  lemma DefaultBranchOf(pre: string, branch: string, post: string)
    requires forall i :: 0 <= i < |pre| ==> !OccursAt(pre + BranchKey, BranchKey, i)
    requires '"' !in branch
    ensures DefaultBranch(pre + BranchKey + "\"" + branch + "\"" + post) == Some(branch)
  {
    ValueAfterOf(pre, BranchKey, branch, post);
  }

  /** Without the key the search result -1 makes the name start at offset 16. */
  lemma DefaultBranchWithoutKey(json: string)
    requires !Contains(json, BranchKey)
    ensures DefaultBranch(json) ==
      if |json| < 16 || !Contains(json[16..], "\"") then None
      else Some(json[16..][..Index(json[16..], "\"")])
  {
  }
}
