/**
 * The parts of Go's `strings` and `strconv` packages that the core relies on,
 * over strings as sequences of characters.
 */
module GoStrings {
  import opened Wrappers

  /** `sub` occurs in `s` starting at index `i`. */
  predicate OccursAt(s: string, sub: string, i: int) {
    0 <= i && i + |sub| <= |s| && s[i..i + |sub|] == sub
  }

  /** strings.Contains */
  predicate Contains(s: string, sub: string) {
    exists i | 0 <= i <= |s| - |sub| :: OccursAt(s, sub, i)
  }

  /** strings.HasPrefix */
  predicate HasPrefix(s: string, prefix: string) {
    prefix <= s
  }

  function IndexFrom(s: string, sub: string, k: nat): (r: int)
    decreases |s| - k
    ensures r == -1 || (k <= r && OccursAt(s, sub, r))
    ensures r == -1 ==> forall i :: k <= i ==> !OccursAt(s, sub, i)
    ensures r >= 0 ==> forall i :: k <= i < r ==> !OccursAt(s, sub, i)
  {
    if k + |sub| > |s| then -1
    else if s[k..k + |sub|] == sub then k
    else IndexFrom(s, sub, k + 1)
  }

  /** strings.Index: the first index at which `sub` occurs, or -1. */
  function Index(s: string, sub: string): (r: int)
    ensures r >= 0 <==> Contains(s, sub)
    ensures r >= 0 ==> OccursAt(s, sub, r) && forall i :: 0 <= i < r ==> !OccursAt(s, sub, i)
    ensures r < 0 ==> r == -1
  {
    var r := IndexFrom(s, sub, 0);
    assert r >= 0 ==> r <= |s| - |sub|;
    r
  }

  /** The first occurrence found by Index is the first one there is. */
  lemma IndexAt(s: string, sub: string, k: nat)
    requires OccursAt(s, sub, k) && forall i :: 0 <= i < k ==> !OccursAt(s, sub, i)
    ensures Index(s, sub) == k
  {
  }

  /** strings.Index for a one-character pattern. */
  lemma IndexOfChar(s: string, c: char)
    ensures var r := Index(s, [c]);
      (r >= 0 <==> c in s) && (r >= 0 ==> r < |s| && s[r] == c && c !in s[..r])
  {
    forall i | 0 <= i < |s| ensures OccursAt(s, [c], i) <==> s[i] == c {
      assert s[i..i + 1] == [s[i]];
    }
    var r := Index(s, [c]);
    if r >= 0 {
      forall i | 0 <= i < r ensures s[..r][i] != c {
        assert !OccursAt(s, [c], i);
      }
    }
  }

  /** strings.Replace(s, pat, rep, 1): the first occurrence of `pat` is replaced. */
  function ReplaceFirst(s: string, pat: string, rep: string): (r: string)
    ensures !Contains(s, pat) ==> r == s
    ensures Contains(s, pat) ==>
      var i := Index(s, pat); r == s[..i] + rep + s[i + |pat|..]
  {
    var i := Index(s, pat);
    if i < 0 then s else s[..i] + rep + s[i + |pat|..]
  }

  /** strings.ReplaceAll(s, [c], rep) for a one-character pattern. */
  function ReplaceAllChar(s: string, c: char, rep: string): (r: string)
    ensures c !in rep ==> c !in r
    ensures c !in s ==> r == s
  {
    if s == [] then []
    else (if s[0] == c then rep else [s[0]]) + ReplaceAllChar(s[1..], c, rep)
  }

  /** strings.Split(s, [c]) for a one-character separator. */
  function SplitChar(s: string, c: char): (r: seq<string>)
    ensures |r| >= 1
    ensures forall i :: 0 <= i < |r| ==> c !in r[i]
  {
    if c !in s then [s]
    else
      var i := FirstIndexOf(s, c);
      [s[..i]] + SplitChar(s[i + 1..], c)
  }

  function FirstIndexOf(s: string, c: char): (i: nat)
    requires c in s
    ensures i < |s| && s[i] == c && c !in s[..i]
  {
    if s[0] == c then 0 else 1 + FirstIndexOf(s[1..], c)
  }

  /** strings.Join(parts, [c]) */
  function JoinChar(parts: seq<string>, c: char): (r: string)
    ensures |parts| == 1 ==> r == parts[0]
  {
    if |parts| == 0 then ""
    else if |parts| == 1 then parts[0]
    else parts[0] + [c] + JoinChar(parts[1..], c)
  }

  lemma {:induction false} SplitJoin(s: string, c: char)
    ensures JoinChar(SplitChar(s, c), c) == s
    decreases |s|
  {
    if c in s {
      var i := FirstIndexOf(s, c);
      var rest := s[i + 1..];
      var tail := SplitChar(rest, c);
      var parts := SplitChar(s, c);
      assert parts == [s[..i]] + tail;
      assert |parts| >= 2 && parts[0] == s[..i] && parts[1..] == tail;
      calc {
        JoinChar(parts, c);
        parts[0] + [c] + JoinChar(parts[1..], c);
        s[..i] + [c] + JoinChar(tail, c);
        { SplitJoin(rest, c); }
        s[..i] + [c] + rest;
        { assert s == s[..i] + [c] + rest; }
        s;
      }
    }
  }

  lemma {:induction false} JoinSplit(parts: seq<string>, c: char)
    requires |parts| >= 1
    requires forall i :: 0 <= i < |parts| ==> c !in parts[i]
    ensures SplitChar(JoinChar(parts, c), c) == parts
  {
    if |parts| > 1 {
      var tail := parts[1..];
      var rest := JoinChar(tail, c);
      calc {
        SplitChar(JoinChar(parts, c), c);
        SplitChar(parts[0] + [c] + rest, c);
        { FirstIndexAfter(parts[0], rest, c);
          assert (parts[0] + [c] + rest)[..|parts[0]|] == parts[0];
          assert (parts[0] + [c] + rest)[|parts[0]| + 1..] == rest; }
        [parts[0]] + SplitChar(rest, c);
        { forall i | 0 <= i < |tail| ensures c !in tail[i] {
            assert tail[i] == parts[i + 1];
          }
          JoinSplit(tail, c); }
        [parts[0]] + tail;
        parts;
      }
    }
  }

  lemma FirstIndexAfter(p: string, q: string, c: char)
    requires c !in p
    ensures c in p + [c] + q && FirstIndexOf(p + [c] + q, c) == |p|
  {
    var s := p + [c] + q;
    assert s[|p|] == c;
    assert s[..|p|] == p;
  }

  /** Splitting a string at one more separator splits it into the two halves' pieces. */
  lemma {:induction false} SplitAppend(x: string, y: string, c: char)
    ensures SplitChar(x + [c] + y, c) == SplitChar(x, c) + SplitChar(y, c)
    decreases |x|
  {
    var s := x + [c] + y;
    if c !in x {
      FirstIndexAfter(x, y, c);
      assert s[..|x|] == x && s[|x| + 1..] == y;
    } else {
      var i := FirstIndexOf(x, c);
      assert s[..i] == x[..i];
      assert s[i] == c;
      FirstIndexOfUnique(s, c, i);
      assert s[i + 1..] == x[i + 1..] + [c] + y;
      calc {
        SplitChar(s, c);
        [x[..i]] + SplitChar(x[i + 1..] + [c] + y, c);
        { SplitAppend(x[i + 1..], y, c); }
        [x[..i]] + (SplitChar(x[i + 1..], c) + SplitChar(y, c));
        ([x[..i]] + SplitChar(x[i + 1..], c)) + SplitChar(y, c);
        SplitChar(x, c) + SplitChar(y, c);
      }
    }
  }

  lemma FirstIndexOfUnique(s: string, c: char, i: nat)
    requires i < |s| && s[i] == c && c !in s[..i]
    ensures c in s && FirstIndexOf(s, c) == i
  {
  }

  /** strings.TrimRight(s, cutset): drops trailing characters that belong to `cutset`. */
  function TrimRight(s: string, cutset: set<char>): (r: string)
    ensures r <= s
    ensures r == [] || r[|r| - 1] !in cutset
    ensures forall i :: |r| <= i < |s| ==> s[i] in cutset
  {
    if s == [] || s[|s| - 1] !in cutset then s
    else TrimRight(s[..|s| - 1], cutset)
  }

  /** strings.TrimLeft(s, cutset) */
  function TrimLeft(s: string, cutset: set<char>): (r: string)
    ensures |r| <= |s| && r == s[|s| - |r|..]
    ensures r == [] || r[0] !in cutset
    ensures forall i :: 0 <= i < |s| - |r| ==> s[i] in cutset
  {
    if s == [] || s[0] !in cutset then s
    else TrimLeft(s[1..], cutset)
  }

  /** strings.Trim(s, cutset) */
  function Trim(s: string, cutset: set<char>): (r: string)
  {
    TrimRight(TrimLeft(s, cutset), cutset)
  }

  /**
   * unicode.ToLower, restricted to the runes whose lower case is an ASCII
   * letter: the ASCII capitals, U+0130 (capital I with dot above, lowered to
   * 'i') and U+212A (Kelvin sign, lowered to 'k'). Unicode lowers many more
   * runes, but none of the others to an ASCII letter, so the comparison with
   * ".zip" that uses this comes out the same; this function leaves them as
   * they are.
   */
  function LowerRune(c: char): char {
    if 'A' <= c <= 'Z' then (c as int + 32) as char
    else if c == 'İ' then 'i'
    else if c == 'K' then 'k'
    else c
  }

  /** strings.ToLower, rune by rune */
  function ToLower(s: string): (r: string)
    ensures |r| == |s| && forall i :: 0 <= i < |s| ==> r[i] == LowerRune(s[i])
  {
    if s == [] then [] else [LowerRune(s[0])] + ToLower(s[1..])
  }

  predicate IsDigit(c: char) { '0' <= c <= '9' }

  function DigitChar(d: nat): (c: char)
    requires d < 10
    ensures IsDigit(c)
  {
    ('0' as int + d) as char
  }

  function DigitValue(c: char): (d: nat)
    requires IsDigit(c)
    ensures d < 10 && DigitChar(d) == c
  {
    c as int - '0' as int
  }

  /** The decimal digits of a natural number, most significant first, without leading zeros. */
  function NatDigits(n: nat): (r: string)
    ensures |r| >= 1 && forall i :: 0 <= i < |r| ==> IsDigit(r[i])
    ensures n > 0 || r == "0"
  {
    if n < 10 then [DigitChar(n)] else NatDigits(n / 10) + [DigitChar(n % 10)]
  }

  /** The value of a string of decimal digits. */
  function DecimalValue(s: string): nat
    requires forall i :: 0 <= i < |s| ==> IsDigit(s[i])
  {
    if s == [] then 0 else 10 * DecimalValue(s[..|s| - 1]) + DigitValue(s[|s| - 1])
  }

  lemma {:induction false} NatDigitsValue(n: nat)
    ensures DecimalValue(NatDigits(n)) == n
  {
    if n >= 10 {
      NatDigitsValue(n / 10);
      var r := NatDigits(n);
      assert r[..|r| - 1] == NatDigits(n / 10);
    }
  }

  /** strconv.Itoa */
  function Itoa(n: int): (r: string)
    ensures |r| >= 1
    ensures forall i :: 0 <= i < |r| ==> IsDigit(r[i]) || (i == 0 && r[i] == '-')
  {
    if n < 0 then "-" + NatDigits(-n) else NatDigits(n)
  }

  const MinInt64: int := -0x8000_0000_0000_0000
  const MaxInt64: int := 0x7FFF_FFFF_FFFF_FFFF

  /** The outcome of strconv.Atoi: the value it returns and whether its error is nil. */
  datatype Parsed = Parsed(value: int, ok: bool)

  predicate AllDigits(s: string) { forall i :: 0 <= i < |s| ==> IsDigit(s[i]) }

  const MaxUint64: int := 0xFFFF_FFFF_FFFF_FFFF

  /** The length of the run of decimal digits that starts `s`. */
  function DigitRun(s: string): (k: nat)
    ensures k <= |s| && AllDigits(s[..k]) && (k < |s| ==> !IsDigit(s[k]))
    ensures AllDigits(s) ==> k == |s| && s[..k] == s
  {
    if s == [] || !IsDigit(s[0]) then 0
    else
      var k := 1 + DigitRun(s[1..]);
      assert s[..k] == [s[0]] + s[1..][..k - 1];
      k
  }

  /**
   * strconv.Atoi on a 64-bit platform: an optional sign, then at least one
   * decimal digit. The digits are read left to right into a uint64: a digit
   * that takes the value past the uint64 range stops the reading with a range
   * error, and a non-digit met first stops it with a syntax error. A syntax
   * error yields 0; a range error, or a magnitude past the int64 range, yields
   * the int64 bound of the sign; all of these with a non-nil error. Since each
   * digit only grows the value read so far, the reading overflows before the
   * first non-digit exactly when the whole leading run of digits exceeds the
   * uint64 range.
   */
  function Atoi(s: string): (p: Parsed)
    ensures p.ok ==> MinInt64 <= p.value <= MaxInt64
    ensures AllDigits(s) && |s| > 0 && DecimalValue(s) <= MaxInt64 ==> p == Parsed(DecimalValue(s), true)
  {
    var neg := |s| > 0 && s[0] == '-';
    var body := if |s| > 0 && (s[0] == '-' || s[0] == '+') then s[1..] else s;
    var k := DigitRun(body);
    if body == [] then Parsed(0, false)
    else if DecimalValue(body[..k]) > MaxUint64 then Parsed(if neg then MinInt64 else MaxInt64, false)
    else if k < |body| then Parsed(0, false)
    else
      assert body[..k] == body;
      var mag: int := DecimalValue(body);
      var v := if neg then 0 - mag else mag;
      if v > MaxInt64 then Parsed(MaxInt64, false)
      else if v < MinInt64 then Parsed(MinInt64, false)
      else Parsed(v, true)
  }

  /** The value of digits followed by more text is at least the value of the digits alone. */
  lemma {:induction false} DecimalPrefix(s: string, j: nat)
    requires j <= |s| && AllDigits(s)
    ensures DecimalValue(s[..j]) <= DecimalValue(s)
    decreases |s|
  {
    if j < |s| {
      DecimalPrefix(s[..|s| - 1], j);
      assert s[..|s| - 1][..j] == s[..j];
      assert DecimalValue(s) == 10 * DecimalValue(s[..|s| - 1]) + DigitValue(s[|s| - 1]);
    } else {
      assert s[..j] == s;
    }
  }

  /** Atoi's range error, read off its sign and unsigned part. */
  lemma AtoiRangeError(s: string, body: string, neg: bool)
    requires body == (if |s| > 0 && (s[0] == '-' || s[0] == '+') then s[1..] else s)
    requires neg == (|s| > 0 && s[0] == '-')
    requires body != [] && DecimalValue(body[..DigitRun(body)]) > MaxUint64
    ensures Atoi(s) == Parsed(if neg then MinInt64 else MaxInt64, false)
  {
  }

  /**
   * Once the leading digits run past the uint64 range, Atoi returns the int64
   * bound of the sign, whatever text follows them.
   */
  lemma AtoiOverflowFirst(sign: string, digits: string, rest: string)
    requires sign == "" || sign == "-" || sign == "+"
    requires AllDigits(digits) && DecimalValue(digits) > MaxUint64
    ensures Atoi(sign + digits + rest) == Parsed(if sign == "-" then MinInt64 else MaxInt64, false)
  {
    SignThenDigits(sign, digits, rest);
    OverflowingRun(digits, rest);
    AtoiRangeError(sign + digits + rest, digits + rest, sign == "-");
  }

  /** Atoi's sign test and unsigned part of a sign followed by digits. */
  lemma SignThenDigits(sign: string, digits: string, rest: string)
    requires sign == "" || sign == "-" || sign == "+"
    requires digits != [] && IsDigit(digits[0])
    ensures var s := sign + digits + rest;
      (if |s| > 0 && (s[0] == '-' || s[0] == '+') then s[1..] else s) == digits + rest
      && (|s| > 0 && s[0] == '-') == (sign == "-")
  {
    var s := sign + digits + rest;
    if sign == "" {
      assert s == digits + rest && s[0] == digits[0];
    } else {
      assert s[0] == sign[0] && s[1..] == digits + rest;
    }
  }

  /** The leading digit run of digits + rest is worth at least the digits alone. */
  lemma OverflowingRun(digits: string, rest: string)
    requires AllDigits(digits) && DecimalValue(digits) > MaxUint64
    ensures var body := digits + rest;
      body != [] && DecimalValue(body[..DigitRun(body)]) > MaxUint64
  {
    var body := digits + rest;
    var k := DigitRun(body);
    assert body[..|digits|] == digits;
    assert k >= |digits|;
    assert body[..k][..|digits|] == digits;
    DecimalPrefix(body[..k], |digits|);
  }

  lemma {:induction false} AtoiItoa(n: int)
    requires MinInt64 <= n <= MaxInt64
    ensures Atoi(Itoa(n)) == Parsed(n, true)
  {
    var s := Itoa(n);
    if n < 0 {
      var d := NatDigits(-n);
      NatDigitsValue(-n);
      assert s == "-" + d;
      assert s[0] == '-' && s[1..] == d;
      assert AllDigits(d);
      assert DigitRun(d) == |d| && d[..|d|] == d;
    } else {
      NatDigitsValue(n);
      assert s[0] != '-' && s[0] != '+' by { assert IsDigit(s[0]); }
      assert AllDigits(s);
    }
  }

  /** A string that lacks the first character of `sub` does not contain `sub`. */
  lemma AbsentHeadNotContained(s: string, sub: string)
    requires sub != [] && sub[0] !in s
    ensures !Contains(s, sub)
  {
    forall i | 0 <= i <= |s| - |sub| ensures !OccursAt(s, sub, i) {
      assert s[i..i + |sub|][0] == s[i];
    }
  }

  /** The number of occurrences of `c` in `s`. */
  function CountChar(s: string, c: char): nat {
    if s == [] then 0 else (if s[0] == c then 1 else 0) + CountChar(s[1..], c)
  }

  lemma {:induction false} CountCharAppend(x: string, y: string, c: char)
    ensures CountChar(x + y, c) == CountChar(x, c) + CountChar(y, c)
    decreases |x|
  {
    if x == [] {
      assert x + y == y;
    } else {
      assert (x + y)[1..] == x[1..] + y;
      CountCharAppend(x[1..], y, c);
    }
  }

  lemma {:induction false} CountCharAbsent(s: string, c: char)
    requires c !in s
    ensures CountChar(s, c) == 0
    decreases |s|
  {
    if s != [] {
      CountCharAbsent(s[1..], c);
    }
  }

  lemma {:induction false} CountCharPresent(s: string, c: char)
    requires c in s
    ensures CountChar(s, c) > 0
    decreases |s|
  {
    if s[0] != c {
      CountCharPresent(s[1..], c);
    }
  }

  /** strings.Split yields one piece more than there are separators. */
  lemma {:induction false} SplitCount(s: string, c: char)
    ensures |SplitChar(s, c)| == CountChar(s, c) + 1
    decreases |s|
  {
    if c !in s {
      CountCharAbsent(s, c);
    } else {
      var i := FirstIndexOf(s, c);
      assert s == s[..i] + ([c] + s[i + 1..]);
      CountCharAppend(s[..i], [c] + s[i + 1..], c);
      CountCharAbsent(s[..i], c);
      assert ([c] + s[i + 1..])[1..] == s[i + 1..];
      SplitCount(s[i + 1..], c);
    }
  }

  /** A first occurrence stays first when text is appended. */
  lemma IndexExtend(pre: string, rest: string, sub: string)
    requires Contains(pre, sub)
    ensures Index(pre + rest, sub) == Index(pre, sub)
  {
    var i := Index(pre, sub);
    var s := pre + rest;
    assert s[i..i + |sub|] == pre[i..i + |sub|];
    forall j | 0 <= j < i ensures !OccursAt(s, sub, j) {
      assert !OccursAt(pre, sub, j);
      assert s[j..j + |sub|] == pre[j..j + |sub|];
    }
    IndexAt(s, sub, i);
  }

  /** Replacing at the first occurrence of a pattern: the text before it, the replacement, the text after it. */
  lemma ReplaceAtFirst(s: string, pat: string, rep: string, pre: string, post: string)
    requires OccursAt(s, pat, |pre|) && Index(s, pat) == |pre| && s == pre + pat + post
    ensures ReplaceFirst(s, pat, rep) == pre + rep + post
  {
    assert s[..|pre|] == pre;
    assert s[|pre| + |pat|..] == post;
  }

  /**
   * Replacing the first a by b and then the first b by a restores the text
   * when that b is the first one of the result.
   */
  lemma ReplaceFirstBack(t: string, a: string, b: string)
    requires Contains(t, a) && Index(t[..Index(t, a)] + b, b) == Index(t, a)
    ensures ReplaceFirst(ReplaceFirst(t, a, b), b, a) == t
  {
    var i := Index(t, a);
    var head := t[..i];
    var rest := t[i + |a|..];
    assert t == head + a + rest by { assert t[i..i + |a|] == a; }
    ReplaceAtFirst(t, a, b, head, rest);
    IndexExtend(head + b, rest, b);
    ReplaceAtFirst(head + b + rest, b, a, head, rest);
  }

  /** A b that occurs before the end of head + b is also the first b of head + b + rest. */
  lemma IndexBefore(head: string, b: string, rest: string)
    requires Index(head + b, b) != |head|
    ensures 0 <= Index(head + b, b) < |head|
    ensures Index(head + b + rest, b) == Index(head + b, b)
  {
    assert OccursAt(head + b, b, |head|) by { assert (head + b)[|head|..] == b; }
    IndexExtend(head + b, rest, b);
  }

  /** Replacing the first b, found at k, puts a at k. */
  lemma ReplacedAt(s: string, b: string, a: string)
    requires Index(s, b) >= 0
    ensures var k := Index(s, b); OccursAt(ReplaceFirst(s, b, a), a, k)
  {
    var k := Index(s, b);
    assert (s[..k] + a + s[k + |b|..])[k..k + |a|] == a;
  }

  /**
   * When that b is not the first one, the text is not restored: the second
   * replacement puts a where the text had none.
   */
  lemma ReplaceFirstNotBack(t: string, a: string, b: string)
    requires Contains(t, a) && Index(t[..Index(t, a)] + b, b) != Index(t, a)
    ensures ReplaceFirst(ReplaceFirst(t, a, b), b, a) != t
  {
    var i := Index(t, a);
    var head, rest := t[..i], t[i + |a|..];
    IndexBefore(head, b, rest);
    assert ReplaceFirst(t, a, b) == head + b + rest;
    ReplacedAt(head + b + rest, b, a);
    assert !OccursAt(t, a, Index(head + b + rest, b));
  }




}
