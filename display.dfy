/**
 * The one-line terminal summary of a scanned repository: the k-form of large
 * counts, the purple/cyan alternation of the coloured fields, and the texts
 * DisplayRepoInfo hands to the colour printers.
 */
module Display {
  import opened Wrappers
  import opened GoStrings
  import opened Types
  import opened Sequences
  import Filters

  // ---------------------------------------------------------------------------
  // convertToK
  // ---------------------------------------------------------------------------

  const TwoTo53: int := 0x20_0000_0000_0000

  /**
   * float64(q) for 0 <= q < 2^54: exact up to 2^53; above it the doubles are
   * two apart, so an odd q is a tie and goes to the neighbour whose
   * significand is even, which is the neighbour divisible by 4.
   */
  function Float64Of(q: nat): (f: nat)
    requires q < 2 * TwoTo53
    ensures q <= TwoTo53 ==> f == q
    ensures q - 1 <= f <= q + 1
    ensures q > TwoTo53 ==> f % 2 == 0
    ensures q > TwoTo53 && q % 2 == 0 ==> f == q
    ensures q > TwoTo53 && q % 2 == 1 ==> f % 4 == 0
  {
    if q <= TwoTo53 || q % 2 == 0 then q
    else if q % 4 == 1 then
      MultipleOfFourBelow(q);
      q - 1
    else
      OddModFour(q);
      MultipleOfFourAbove(q);
      q + 1
  }

  /** An odd number is 1 or 3 modulo 4. */
  lemma OddModFour(q: int)
    requires q % 2 == 1
    ensures q % 4 == 1 || q % 4 == 3
  {
  }

  /** The neighbour below a number that is 1 modulo 4 is a multiple of 4. */
  lemma MultipleOfFourBelow(q: int)
    requires q % 4 == 1
    ensures (q - 1) % 4 == 0 && (q - 1) % 2 == 0
  {
    var b := q / 4;
    assert q - 1 == 4 * b;
    assert (q - 1) / 4 == b;
    assert (q - 1) / 2 == 2 * b;
  }

  /** The neighbour above a number that is 3 modulo 4 is a multiple of 4. */
  lemma MultipleOfFourAbove(q: int)
    requires q % 4 == 3
    ensures (q + 1) % 4 == 0 && (q + 1) % 2 == 0
  {
    var b := q / 4;
    assert q + 1 == 4 * b + 4;
    assert (q + 1) / 4 == b + 1;
    assert (q + 1) / 2 == 2 * b + 2;
  }

  /**
   * convertToK: counts from 1000 up print the (integer) quotient by 1000 with
   * "%.1fk", and the first ".0k" becomes "k"; smaller counts print as they are.
   * Its error result is always nil and is not modelled.
   */
  function ConvertToK(n: GoInt): string {
    if n >= 1000 then
      var q: nat := n / 1000;
      ReplaceFirst(NatDigits(Float64Of(q)) + ".0k", ".0k", "k")
    else Itoa(n)
  }

  /** Replacing the first ".0k" after a run of digits removes exactly the ".0". */
  lemma DropPointZero(d: string)
    requires forall i :: 0 <= i < |d| ==> IsDigit(d[i])
    ensures ReplaceFirst(d + ".0k", ".0k", "k") == d + "k"
  {
    var s := d + ".0k";
    forall i | 0 <= i < |d| ensures !OccursAt(s, ".0k", i) {
      assert s[i] == d[i];
      assert s[i..i + 3][0] == s[i];
    }
    assert s[|d|..|d| + 3] == ".0k";
    IndexAt(s, ".0k", |d|);
    assert s[..|d|] == d && s[|d| + 3..] == "";
  }

  /**
   * The k-form: small counts read back with Atoi as themselves; from 1000 on
   * the form is the whole thousands followed by 'k', read back within one
   * thousand of the count wherever float64 is exact.
   */
  lemma ConvertToKForm(n: GoInt)
    ensures n < 1000 ==> ConvertToK(n) == Itoa(n) && Atoi(ConvertToK(n)) == Parsed(n, true)
    ensures n >= 1000 ==> ConvertToK(n) == NatDigits(Float64Of(n / 1000)) + "k"
    ensures 1000 <= n && n / 1000 <= TwoTo53 ==>
      var r := ConvertToK(n);
      r[|r| - 1] == 'k' && Atoi(r[..|r| - 1]) == Parsed(n / 1000, true)
      && 1000 * (n / 1000) <= n < 1000 * (n / 1000) + 1000
  {
    if n >= 1000 {
      var q: nat := n / 1000;
      DropPointZero(NatDigits(Float64Of(q)));
      if q <= TwoTo53 {
        var r := ConvertToK(n);
        assert r[..|r| - 1] == NatDigits(q) == Itoa(q);
        AtoiItoa(q);
      }
    } else {
      AtoiItoa(n);
    }
  }

  // ---------------------------------------------------------------------------
  // Format strings taken as they are
  // ---------------------------------------------------------------------------

  /** strings.Replace(s, "%", "%%", -1) */
  function Escape(s: string): string {
    ReplaceAllChar(s, '%', "%%")
  }

  /** Every '%' of the format belongs to a "%%" pair, so Printf needs no operand. */
  predicate Paired(s: string)
    decreases |s|
  {
    s == [] || (s[0] != '%' && Paired(s[1..])) || (|s| >= 2 && s[0] == '%' && s[1] == '%' && Paired(s[2..]))
  }

  /** What Printf prints for such a format with no operands: each "%%" as '%'. */
  function Printed(s: string): string
    requires Paired(s)
    decreases |s|
  {
    if s == [] then []
    else if s[0] == '%' then "%" + Printed(s[2..])
    else [s[0]] + Printed(s[1..])
  }

  lemma {:induction false} EscapePrinted(x: string)
    ensures Paired(Escape(x)) && Printed(Escape(x)) == x
    decreases |x|
  {
    if x != [] {
      var e := Escape(x);
      EscapePrinted(x[1..]);
      if x[0] == '%' {
        assert e == "%%" + Escape(x[1..]);
        assert e[2..] == Escape(x[1..]);
      } else {
        assert e == [x[0]] + Escape(x[1..]);
        assert e[1..] == Escape(x[1..]);
      }
    }
  }

  lemma {:induction false} PairedAppend(a: string, b: string)
    requires Paired(a) && Paired(b)
    ensures Paired(a + b) && Printed(a + b) == Printed(a) + Printed(b)
    decreases |a|, 1
  {
    if a == [] {
      assert a + b == b;
    } else if a[0] == '%' {
      PairedAppendPercent(a, b);
    } else {
      PairedAppendOther(a, b);
    }
  }

  lemma {:induction false} PairedAppendPercent(a: string, b: string)
    requires Paired(a) && Paired(b) && a != [] && a[0] == '%'
    ensures Paired(a + b) && Printed(a + b) == Printed(a) + Printed(b)
    decreases |a|, 0
  {
    PercentPaired(a);
    PairedAppend(a[2..], b);
    PercentStep(a, b);
  }

  lemma PercentStep(a: string, b: string)
    requires |a| >= 2 && a[0] == '%' && a[1] == '%' && Paired(a[2..]) && Paired(b)
    requires Paired(a[2..] + b) && Printed(a[2..] + b) == Printed(a[2..]) + Printed(b)
    ensures Paired(a + b) && Printed(a + b) == Printed(a) + Printed(b)
  {
    DropAppend(a, b, 2);
    PercentHead(a + b);
    PercentHead(a);
    AppendAssoc("%", Printed(a[2..]), Printed(b));
  }

  lemma {:induction false} PairedAppendOther(a: string, b: string)
    requires Paired(a) && Paired(b) && a != [] && a[0] != '%'
    ensures Paired(a + b) && Printed(a + b) == Printed(a) + Printed(b)
    decreases |a|, 0
  {
    PairedAppend(a[1..], b);
    OtherStep(a, b);
  }

  lemma OtherStep(a: string, b: string)
    requires |a| >= 1 && a[0] != '%' && Paired(a[1..]) && Paired(b)
    requires Paired(a[1..] + b) && Printed(a[1..] + b) == Printed(a[1..]) + Printed(b)
    ensures Paired(a + b) && Printed(a + b) == Printed(a) + Printed(b)
  {
    DropAppend(a, b, 1);
    OtherHead(a + b);
    OtherHead(a);
    AppendAssoc([a[0]], Printed(a[1..]), Printed(b));
  }

  /** A well-paired format that starts with '%' starts with "%%". */
  lemma PercentPaired(s: string)
    requires Paired(s) && s != [] && s[0] == '%'
    ensures |s| >= 2 && s[1] == '%' && Paired(s[2..])
  {
  }

  /** A format that starts with "%%" prints '%' and then what the rest prints. */
  lemma PercentHead(s: string)
    requires |s| >= 2 && s[0] == '%' && s[1] == '%' && Paired(s[2..])
    ensures Paired(s) && Printed(s) == "%" + Printed(s[2..])
  {
  }

  /** A format that starts with another character prints it and then what the rest prints. */
  lemma OtherHead(s: string)
    requires |s| >= 1 && s[0] != '%' && Paired(s[1..])
    ensures Paired(s) && Printed(s) == [s[0]] + Printed(s[1..])
  {
  }

  lemma {:induction false} NoPercentPrinted(s: string)
    requires '%' !in s
    ensures Paired(s) && Printed(s) == s
    decreases |s|
  {
    if s != [] {
      assert '%' !in s[1..];
      NoPercentPrinted(s[1..]);
    }
  }

  lemma {:induction false} EscapeAppend(a: string, b: string)
    ensures Escape(a + b) == Escape(a) + Escape(b)
    decreases |a|
  {
    if a == [] {
      assert a + b == b;
    } else {
      assert (a + b)[1..] == a[1..] + b;
      EscapeAppend(a[1..], b);
    }
  }

  const Commas: set<char> := {','}

  lemma {:induction false} TrimLeftEscape(x: string)
    ensures TrimLeft(Escape(x), Commas) == Escape(TrimLeft(x, Commas))
    decreases |x|
  {
    if x != [] {
      if x[0] == ',' {
        assert Escape(x) == [','] + Escape(x[1..]);
        TrimLeftEscape(x[1..]);
      } else if x[0] == '%' {
        assert Escape(x)[0] == '%';
      } else {
        assert Escape(x)[0] == x[0];
      }
    }
  }

  lemma {:induction false} TrimRightEscape(x: string)
    ensures TrimRight(Escape(x), Commas) == Escape(TrimRight(x, Commas))
    decreases |x|
  {
    if x != [] {
      var init, last := x[..|x| - 1], x[|x| - 1];
      assert x == init + [last];
      EscapeAppend(init, [last]);
      var e := Escape(x);
      if last == ',' {
        assert Escape([last]) == [','];
        assert e[..|e| - 1] == Escape(init);
        TrimRightEscape(init);
      } else if last == '%' {
        assert Escape([last]) == "%%";
        assert e[|e| - 1] == '%';
      } else {
        assert Escape([last]) == [last];
        assert e[|e| - 1] == last;
      }
    }
  }

  /** Trimming commas and doubling '%' do not interfere. */
  lemma TrimEscape(x: string)
    ensures Trim(Escape(x), Commas) == Escape(Trim(x, Commas))
  {
    TrimLeftEscape(x);
    TrimRightEscape(TrimLeft(x, Commas));
  }

  /** A bracketed field as the coloured printer receives it. */
  function Bracketed(s: string): string {
    "[" + s + "] "
  }

  lemma BracketPrinted(s: string, body: string)
    requires Paired(s) && Printed(s) == body
    ensures Paired(Bracketed(s)) && Printed(Bracketed(s)) == Bracketed(body)
  {
    NoPercentPrinted("[");
    NoPercentPrinted("] ");
    PairedAppend("[", s);
    PairedAppend("[" + s, "] ");
  }

  /**
   * The language field doubles every '%' before trimming commas, so the
   * coloured printer shows the language exactly, trimmed of commas.
   */
  lemma LanguagePrinted(language: string)
    ensures var f := LanguageField(language);
      Paired(f) && Printed(f) == Bracketed(Trim(language, Commas))
  {
    TrimEscape(language);
    EscapePrinted(Trim(language, Commas));
    BracketPrinted(Escape(Trim(language, Commas)), Trim(language, Commas));
  }

  /** A format in the printed form holds twice as many '%' as what it prints. */
  lemma {:induction false} PairedCount(s: string)
    requires Paired(s)
    ensures CountChar(s, '%') == 2 * CountChar(Printed(s), '%')
    decreases |s|
  {
    if s != [] {
      if s[0] == '%' {
        PairedCount(s[2..]);
        assert s[1..][1..] == s[2..];
        assert Printed(s) == "%" + Printed(s[2..]);
        CountCharAppend("%", Printed(s[2..]), '%');
      } else {
        PairedCount(s[1..]);
        assert Printed(s) == [s[0]] + Printed(s[1..]);
        CountCharAppend([s[0]], Printed(s[1..]), '%');
      }
    }
  }

  /**
   * The topics field doubles nothing: it shows the comma-trimmed topics
   * exactly when the topics hold no '%'. A '%' in them is either read as a
   * verb or, doubled, printed once.
   */
  lemma TopicsPrinted(topics: string)
    ensures var f := TopicsField(topics);
      Paired(f) && Printed(f) == Bracketed(Trim(topics, Commas)) <==> '%' !in topics
  {
    var t := Trim(topics, Commas);
    var l := TrimLeft(topics, Commas);
    assert forall i :: 0 <= i < |l| ==> l[i] == topics[|topics| - |l| + i];
    if '%' !in topics {
      assert '%' !in t;
      NoPercentPrinted(t);
      BracketPrinted(t, t);
    } else {
      var f := TopicsField(topics);
      var i :| 0 <= i < |topics| && topics[i] == '%';
      assert topics[i] !in Commas;
      assert t[i - (|topics| - |l|)] == '%';
      CountCharPresent(t, '%');
      CountCharAppend("[", t, '%');
      CountCharAppend("[" + t, "] ", '%');
      if Paired(f) && Printed(f) == Bracketed(t) {
        PairedCount(f);
        assert false;
      }
    }
  }

  function LanguageField(language: string): string {
    Bracketed(Trim(Escape(language), Commas))
  }

  function TopicsField(topics: string): string {
    Bracketed(Trim(topics, Commas))
  }

  // ---------------------------------------------------------------------------
  // Dates
  // ---------------------------------------------------------------------------

  const NanosPerHour: nat := 3_600_000_000_000

  /** The layout's "03": the hour on a 12-hour clock. */
  function Hour12(clock: nat): (h: nat)
    ensures 1 <= h <= 12
  {
    var h := (clock / NanosPerHour) % 24;
    if h % 12 == 0 then 12 else h % 12
  }

  function ZeroPad(s: string, w: nat): (r: string)
    ensures |r| >= w && |r| >= |s|
    decreases w - |s|
  {
    if |s| >= w then s else ZeroPad("0" + s, w)
  }

  /** A number printed at least `w` digits wide, a minus sign before the padding. */
  function PadInt(n: int, w: nat): string {
    if n < 0 then "-" + ZeroPad(NatDigits(-n), w) else ZeroPad(NatDigits(n), w)
  }

  /**
   * t.Format("2006-01-03"): year, month and then the 12-hour hour, since "03"
   * in a Go layout stands for the hour; the day of the month is not shown.
   */
  function DisplayDate(t: Filters.Instant): string {
    PadInt(t.year, 4) + "-" + PadInt(t.month, 2) + "-" + PadInt(Hour12(t.clock), 2)
  }

  /** Dates that differ only in their day display alike. */
  lemma DisplayDateIgnoresDay(t: Filters.Instant, day: int)
    ensures DisplayDate(t.(day := day)) == DisplayDate(t)
  {
  }

  /** Three runs of digits joined by '-' split back into the three runs. */
  lemma ThreeFields(y: string, m: string, h: string)
    requires AllDigits(y) && AllDigits(m) && AllDigits(h)
    ensures SplitChar(y + "-" + m + "-" + h, '-') == [y, m, h]
  {
    AppendAssoc(y + "-", m, "-");
    AppendAssoc(y + "-", m + "-", h);
    SplitAppend(y, m + ['-'] + h, '-');
    SplitAppend(m, h, '-');
    NoSeparator(y);
    NoSeparator(m);
    NoSeparator(h);
  }

  lemma PaddedValue(n: nat, w: nat)
    requires n <= MaxInt64
    ensures AllDigits(ZeroPad(NatDigits(n), w)) && Atoi(ZeroPad(NatDigits(n), w)).value == n
  {
    PadValue(NatDigits(n), w);
    NatDigitsValue(n);
  }

  /** The third field of a displayed date reads back as the 12-hour hour. */
  lemma DisplayDateThirdField(t: Filters.Instant)
    requires t.year >= 0 && t.month >= 0
    ensures var parts := SplitChar(DisplayDate(t), '-');
      |parts| == 3 && Atoi(parts[2]).value == Hour12(t.clock)
  {
    PadDigits(NatDigits(t.year), 4);
    PadDigits(NatDigits(t.month), 2);
    PaddedValue(Hour12(t.clock), 2);
    ThreeFields(PadInt(t.year, 4), PadInt(t.month, 2), PadInt(Hour12(t.clock), 2));
  }

  lemma NoSeparator(s: string)
    requires forall i :: 0 <= i < |s| ==> IsDigit(s[i])
    ensures SplitChar(s, '-') == [s]
  {
    assert '-' !in s by {
      forall i | 0 <= i < |s| ensures s[i] != '-' {
        assert IsDigit(s[i]);
      }
    }
  }

  lemma {:induction false} PadDigits(s: string, w: nat)
    requires forall i :: 0 <= i < |s| ==> IsDigit(s[i])
    ensures forall i :: 0 <= i < |ZeroPad(s, w)| ==> IsDigit(ZeroPad(s, w)[i])
    decreases w - |s|
  {
    if |s| < w {
      var z := "0" + s;
      assert forall i :: 0 <= i < |z| ==> IsDigit(z[i]) by {
        forall i | 0 <= i < |z| ensures IsDigit(z[i]) {
          if i > 0 { assert z[i] == s[i - 1]; }
        }
      }
      PadDigits(z, w);
    }
  }

  lemma {:induction false} PadValue(s: string, w: nat)
    requires |s| > 0 && forall i :: 0 <= i < |s| ==> IsDigit(s[i])
    ensures (forall i :: 0 <= i < |ZeroPad(s, w)| ==> IsDigit(ZeroPad(s, w)[i]))
      && DecimalValue(ZeroPad(s, w)) == DecimalValue(s)
    decreases w - |s|
  {
    PadDigits(s, w);
    if |s| < w {
      var z := "0" + s;
      assert forall i :: 0 <= i < |z| ==> IsDigit(z[i]) by {
        forall i | 0 <= i < |z| ensures IsDigit(z[i]) {
          if i > 0 { assert z[i] == s[i - 1]; }
        }
      }
      LeadingZero(s);
      PadValue(z, w);
    }
  }

  lemma {:induction false} LeadingZero(s: string)
    requires forall i :: 0 <= i < |s| ==> IsDigit(s[i])
    ensures DecimalValue("0" + s) == DecimalValue(s)
    decreases |s|
  {
    if s != [] {
      var z := "0" + s;
      assert z[..|z| - 1] == "0" + s[..|s| - 1];
      LeadingZero(s[..|s| - 1]);
    }
  }

  // ---------------------------------------------------------------------------
  // DisplayRepoInfo
  // ---------------------------------------------------------------------------

  datatype Color = White | Green | WhiteLite | Purple | Cyan | Red | Plain

  /**
   * One Printf call: its colour and its text. For the calls that pass the
   * field as an operand the text is what is printed; for `colored` and for
   * the report link it is the format string itself.
   */
  datatype Segment = Segment(color: Color, text: string)

  function Tone(purple: bool): Color {
    if purple then Purple else Cyan
  }

  /** The segments of successive `colored` calls, the first in purple when `purple`. */
  function Paint(texts: seq<string>, purple: bool): seq<Segment>
    decreases |texts|
  {
    if texts == [] then [] else [Segment(Tone(purple), texts[0])] + Paint(texts[1..], !purple)
  }

  /** Coloured segments alternate: the k-th is in the starting colour exactly when k is even. */
  lemma {:induction false} PaintAlternates(texts: seq<string>, purple: bool)
    ensures |Paint(texts, purple)| == |texts|
    ensures forall k :: 0 <= k < |texts| ==> Paint(texts, purple)[k] == Segment(Tone(purple == (k % 2 == 0)), texts[k])
    decreases |texts|
  {
    if texts != [] {
      PaintAlternates(texts[1..], !purple);
      var p := Paint(texts, purple);
      forall k | 0 <= k < |texts| ensures p[k] == Segment(Tone(purple == (k % 2 == 0)), texts[k]) {
        if k > 0 {
          assert p[k] == Paint(texts[1..], !purple)[k - 1];
          assert texts[k] == texts[1..][k - 1];
        }
      }
    }
  }

  /** Whether the next `colored` call after `texts` prints in purple. */
  function NextPurple(texts: seq<string>, purple: bool): bool
    decreases |texts|
  {
    if texts == [] then purple else NextPurple(texts[1..], !purple)
  }

  lemma {:induction false} NextPurpleParity(texts: seq<string>, purple: bool)
    ensures NextPurple(texts, purple) == (purple == (|texts| % 2 == 0))
    decreases |texts|
  {
    if texts != [] {
      NextPurpleParity(texts[1..], !purple);
    }
  }

  lemma {:induction false} PaintSnoc(texts: seq<string>, x: string, purple: bool)
    ensures Paint(texts + [x], purple) == Paint(texts, purple) + [Segment(Tone(NextPurple(texts, purple)), x)]
    ensures NextPurple(texts + [x], purple) == !NextPurple(texts, purple)
    decreases |texts|
  {
    if texts == [] {
      assert texts + [x] == [x];
    } else {
      assert (texts + [x])[1..] == texts[1..] + [x];
      PaintSnoc(texts[1..], x, !purple);
    }
  }

  /** One more `colored` call after the segments already printed. */
  lemma ColorStep(base: seq<Segment>, texts: seq<string>, x: string, purple: bool)
    ensures base + Paint(texts + [x], purple) == base + Paint(texts, purple) + [Segment(Tone(NextPurple(texts, purple)), x)]
    ensures NextPurple(texts + [x], purple) == !NextPurple(texts, purple)
  {
    PaintSnoc(texts, x, purple);
    assert base + (Paint(texts, purple) + [Segment(Tone(NextPurple(texts, purple)), x)])
        == base + Paint(texts, purple) + [Segment(Tone(NextPurple(texts, purple)), x)];
  }

  /** Colouring two runs of texts one after the other is colouring their concatenation. */
  lemma {:induction false} PaintAppend(a: seq<string>, b: seq<string>, purple: bool)
    ensures Paint(a + b, purple) == Paint(a, purple) + Paint(b, NextPurple(a, purple))
    ensures NextPurple(a + b, purple) == NextPurple(b, NextPurple(a, purple))
    decreases |a|
  {
    if a == [] {
      assert a + b == b;
    } else {
      assert (a + b)[1..] == a[1..] + b;
      PaintAppend(a[1..], b, !purple);
    }
  }

  function Opt(cond: bool, s: string): seq<string> {
    if cond then [s] else []
  }

  const Star: string := "\U{2B50}"
  const Page: string := "\U{1F4C4}"
  const Target: string := "\U{1F3AF}"

  function StarsText(o: Options, info: RepoInfo): string {
    if o.noEmoji then Bracketed(ConvertToK(info.stars) + " stars") else Bracketed(ConvertToK(info.stars) + Star)
  }

  function FilesText(o: Options, info: RepoInfo): string {
    if o.noEmoji then Bracketed(Itoa(info.files) + " files") else Bracketed(Itoa(info.files) + Page)
  }

  function HitsText(o: Options, info: RepoInfo): string {
    if o.noEmoji then "[" + Itoa(info.semgrepHits) + " sg hits]" else "[" + Itoa(info.semgrepHits) + Target + "]"
  }

  /** `pre` followed by the coloured texts for stars, language, files and topics. */
  function WithPopularity(pre: seq<string>, o: Options, info: RepoInfo): seq<string> {
    pre
    + Opt(o.stars, StarsText(o, info))
    + Opt(o.language && info.language != "", LanguageField(info.language))
    + Opt(o.files, FilesText(o, info))
    + Opt(o.topics && info.topics != "", TopicsField(info.topics))
  }

  /** `pre` followed by the coloured texts for the repository link, forks and the three dates. */
  function WithActivity(pre: seq<string>, o: Options, info: RepoInfo): seq<string> {
    pre
    + Opt(o.repoLink && info.repoLink != "", Bracketed(info.repoLink))
    + Opt(o.forks, Bracketed(ConvertToK(info.forks) + " forks"))
    + Opt(o.lastRelease && info.lastRelease != Filters.Zero, Bracketed("last release=" + DisplayDate(info.lastRelease)))
    + Opt(o.lastCommit, Bracketed("last commit=" + DisplayDate(info.lastCommit)))
    + Opt(o.firstCommit && info.firstCommit != Filters.Zero, Bracketed("first commit=" + DisplayDate(info.firstCommit)))
  }

  /** `pre` followed by the coloured texts for commits, security issues, watchers and contributors. */
  function WithCounts(pre: seq<string>, o: Options, info: RepoInfo): seq<string> {
    pre
    + Opt(o.commits, Bracketed(Itoa(info.commits) + " commits"))
    + Opt(o.securityIssues, Bracketed(Itoa(info.securityIssues) + " security issues"))
    + Opt(o.watchers, Bracketed(Itoa(info.watchers) + " watchers"))
    + Opt(o.contributors, Bracketed(Itoa(info.contributors) + " contributors"))
  }

  /** `pre` followed by the coloured texts for the default branch, issues and pull requests. */
  function WithTracker(pre: seq<string>, o: Options, info: RepoInfo): seq<string> {
    pre
    + Opt(o.branch && info.branch != "", Bracketed("default branch=" + info.branch))
    + Opt(o.issues, Bracketed(Itoa(info.issues) + " issues"))
    + Opt(o.pullRequests, Bracketed(Itoa(info.pullRequests) + " pull requests"))
  }

  /** The texts DisplayRepoInfo passes to `colored`, in order. */
  function ColoredTexts(o: Options, info: RepoInfo): seq<string> {
    var shown := WithTracker(WithCounts(WithActivity(WithPopularity([], o, info), o, info), o, info), o, info);
    shown + Opt(!o.noSemgrep, HitsText(o, info))
  }

  /** The target as shown: with a fireprox host, its first occurrence turned back into "github.com/". */
  function ShownTarget(o: Options, target: string): string {
    if o.fireprox != "" then ReplaceFirst(target, o.fireprox, "github.com/") else target
  }

  /** The uncoloured segments before the coloured ones. */
  function Head(o: Options, info: RepoInfo): seq<Segment> {
    [Segment(White, ShownTarget(o, info.target) + " "), Segment(Green, "[200] ")]
    + (if o.description && info.description != "" then [Segment(WhiteLite, Bracketed(info.description))] else [])
    + (if o.fullDescription && info.fullDescription != "" then [Segment(WhiteLite, Bracketed(info.fullDescription))] else [])
  }

  /**
   * The segments after the coloured ones: the report link when semgrep ran,
   * the report path could be made absolute (`abs`) and there are hits; then
   * the newline. `link` is termlink.Link.
   */
  function Tail(o: Options, info: RepoInfo, abs: Option<string>, link: (string, string) -> string): seq<Segment> {
    (if !o.noSemgrep && abs.Some? && info.semgrepHits != 0 then
       [Segment(White, if o.rawLinks then " [file://" + abs.value + "]" else " [" + link("Semgrep report", "file://" + abs.value) + "]")]
     else [])
    + [Segment(Plain, "\n")]
  }

  /** Everything one DisplayRepoInfo call prints. */
  function Line(o: Options, info: RepoInfo, abs: Option<string>, link: (string, string) -> string): seq<Segment> {
    Head(o, info) + Paint(ColoredTexts(o, info), true) + Tail(o, info, abs, link)
  }

  /** What scanTarget prints for a repository page that answers 404: the target and a red "[404]" line. */
  function NotFoundLine(o: Options, target: string): seq<Segment> {
    [Segment(White, ShownTarget(o, target) + " "), Segment(Red, "[404]\n")]
  }

  /** The terminal, as the sequence of Printf calls made on it, and the package variable doPurple. */
  class Painter {
    var doPurple: bool
    var out: seq<Segment>
    /** The segments before the current run of `colored` calls, the run's texts and its first colour. */
    ghost var base: seq<Segment>
    ghost var shown: seq<string>
    ghost var start: bool

    /** The run so far has printed its texts in alternating colours, and doPurple names the next one. */
    ghost predicate Valid()
      reads this
    {
      out == base + Paint(shown, start) && doPurple == NextPurple(shown, start)
    }

    constructor ()
      ensures doPurple && out == [] && Valid()
    {
      doPurple := true;
      out := [];
      base, shown, start := [], [], true;
    }

    /** colored(s) */
    method Colored(s: string)
      requires Valid()
      modifies this
      ensures out == old(out) + [Segment(Tone(old(doPurple)), s)]
      ensures doPurple == !old(doPurple)
      ensures Valid() && base == old(base) && start == old(start) && shown == old(shown) + [s]
    {
      ColorStep(base, shown, s, start);
      shown := shown + [s];
      if doPurple {
        out := out + [Segment(Purple, s)];
        doPurple := false;
      } else {
        out := out + [Segment(Cyan, s)];
        doPurple := true;
      }
    }

    /** `if cond { colored(s) }`: one optional field of the line. */
    method ColoredIf(cond: bool, s: string)
      requires Valid()
      modifies this
      ensures Valid() && base == old(base) && start == old(start) && shown == old(shown) + Opt(cond, s)
    {
      if cond {
        Colored(s);
      }
    }

    method ColorPopularity(o: Options, info: RepoInfo)
      requires Valid()
      modifies this
      ensures Valid() && base == old(base) && start == old(start) && shown == WithPopularity(old(shown), o, info)
    {
      ColoredIf(o.stars, StarsText(o, info));
      ColoredIf(o.language && info.language != "", Bracketed(Trim(ReplaceAllChar(info.language, '%', "%%"), Commas)));
      ColoredIf(o.files, FilesText(o, info));
      ColoredIf(o.topics && info.topics != "", Bracketed(Trim(info.topics, Commas)));
    }

    method ColorActivity(o: Options, info: RepoInfo)
      requires Valid()
      modifies this
      ensures Valid() && base == old(base) && start == old(start) && shown == WithActivity(old(shown), o, info)
    {
      ColoredIf(o.repoLink && info.repoLink != "", Bracketed(info.repoLink));
      ColoredIf(o.forks, Bracketed(ConvertToK(info.forks) + " forks"));
      ColoredIf(o.lastRelease && info.lastRelease != Filters.Zero, Bracketed("last release=" + DisplayDate(info.lastRelease)));
      ColoredIf(o.lastCommit, Bracketed("last commit=" + DisplayDate(info.lastCommit)));
      ColoredIf(o.firstCommit && info.firstCommit != Filters.Zero, Bracketed("first commit=" + DisplayDate(info.firstCommit)));
    }

    method ColorCounts(o: Options, info: RepoInfo)
      requires Valid()
      modifies this
      ensures Valid() && base == old(base) && start == old(start) && shown == WithCounts(old(shown), o, info)
    {
      ColoredIf(o.commits, Bracketed(Itoa(info.commits) + " commits"));
      ColoredIf(o.securityIssues, Bracketed(Itoa(info.securityIssues) + " security issues"));
      ColoredIf(o.watchers, Bracketed(Itoa(info.watchers) + " watchers"));
      ColoredIf(o.contributors, Bracketed(Itoa(info.contributors) + " contributors"));
    }

    method ColorTracker(o: Options, info: RepoInfo)
      requires Valid()
      modifies this
      ensures Valid() && base == old(base) && start == old(start) && shown == WithTracker(old(shown), o, info)
    {
      ColoredIf(o.branch && info.branch != "", Bracketed("default branch=" + info.branch));
      ColoredIf(o.issues, Bracketed(Itoa(info.issues) + " issues"));
      ColoredIf(o.pullRequests, Bracketed(Itoa(info.pullRequests) + " pull requests"));
    }

    /** The 404 report of scanTarget; color.Red appends the newline. */
    method Print404(o: Options, target: string)
      modifies this
      ensures out == old(out) + NotFoundLine(o, target) && doPurple == old(doPurple)
    {
      if o.fireprox != "" {
        out := out + [Segment(White, ReplaceFirst(target, o.fireprox, "github.com/") + " ")];
      } else {
        out := out + [Segment(White, target + " ")];
      }
      out := out + [Segment(Red, "[404]\n")];
    }

    /** The uncoloured start of the line: target, status and descriptions. */
    method PrintHead(o: Options, info: RepoInfo)
      modifies this
      ensures out == old(out) + Head(o, info) && doPurple == old(doPurple)
    {
      if o.fireprox != "" {
        out := out + [Segment(White, ReplaceFirst(info.target, o.fireprox, "github.com/") + " ")];
      } else {
        out := out + [Segment(White, info.target + " ")];
      }
      out := out + [Segment(Green, "[200] ")];
      if o.description && info.description != "" {
        out := out + [Segment(WhiteLite, "[" + info.description + "] ")];
      }
      if o.fullDescription && info.fullDescription != "" {
        out := out + [Segment(WhiteLite, "[" + info.fullDescription + "] ")];
      }
    }

    /** Every optional field in order, the semgrep hit count last. */
    method ColorFields(o: Options, info: RepoInfo)
      requires Valid() && shown == []
      modifies this
      ensures Valid() && base == old(base) && start == old(start) && shown == ColoredTexts(o, info)
    {
      ColorPopularity(o, info);
      ColorActivity(o, info);
      ColorCounts(o, info);
      ColorTracker(o, info);
      ColoredIf(!o.noSemgrep, HitsText(o, info));
    }

    /** The report link, when semgrep ran, the path is absolute and there are hits; then the newline. */
    method PrintTail(o: Options, info: RepoInfo, abs: Option<string>, link: (string, string) -> string)
      modifies this
      ensures out == old(out) + Tail(o, info, abs, link) && doPurple == old(doPurple)
    {
      if !o.noSemgrep {
        if abs.Some? && info.semgrepHits != 0 {
          if o.rawLinks {
            out := out + [Segment(White, " [file://" + abs.value + "]")];
          } else {
            out := out + [Segment(White, " [" + link("Semgrep report", "file://" + abs.value) + "]")];
          }
        }
      }
      out := out + [Segment(Plain, "\n")];
    }

    /**
     * DisplayRepoInfo(options, repoInfo); `abs` is filepath.Abs of the report
     * path (None for its error, which is only logged).
     */
    method DisplayRepoInfo(o: Options, info: RepoInfo, abs: Option<string>, link: (string, string) -> string)
      modifies this
      ensures out == old(out) + Line(o, info, abs, link)
      ensures doPurple == (|ColoredTexts(o, info)| % 2 == 0)
    {
      ghost var before := out;
      doPurple := true;
      PrintHead(o, info);
      base, shown, start := out, [], true;
      ColorFields(o, info);
      NextPurpleParity(shown, true);
      PrintTail(o, info, abs, link);
      AppendAssoc(before, Head(o, info), Paint(ColoredTexts(o, info), true));
      AppendAssoc(before, Head(o, info) + Paint(ColoredTexts(o, info), true), Tail(o, info, abs, link));
    }
  }
}
