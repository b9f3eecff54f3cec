/**
 * Go's path/filepath on a Unix host, as lexical operations on '/'-separated
 * strings. Clean is stated by its element rules: empty and "." elements are
 * dropped, ".." removes the element before it (or is dropped at the root, or
 * kept at the front of a relative path), and the result has no trailing '/'.
 */
module GoPath {
  import opened GoStrings

  predicate NoSlash(elems: seq<string>) {
    forall i :: 0 <= i < |elems| ==> '/' !in elems[i]
  }

  /** One element of Clean's scan; `stack` holds the elements kept so far. */
  function ResolveElement(rooted: bool, stack: seq<string>, e: string): seq<string> {
    if e == "" || e == "." then stack
    else if e == ".." then
      if |stack| > 0 && stack[|stack| - 1] != ".." then stack[..|stack| - 1]
      else if rooted then stack
      else stack + [".."]
    else stack + [e]
  }

  function Resolve(rooted: bool, elems: seq<string>): seq<string> {
    if elems == [] then []
    else ResolveElement(rooted, Resolve(rooted, elems[..|elems| - 1]), elems[|elems| - 1])
  }

  /** Elements as Clean leaves them: none empty, none ".", none holding '/',
      and ".." only in a leading run of a relative path. */
  predicate CleanStack(rooted: bool, st: seq<string>) {
    forall i :: 0 <= i < |st| ==>
      st[i] != "" && st[i] != "." && '/' !in st[i] &&
      (st[i] == ".." ==> !rooted && forall j :: 0 <= j < i ==> st[j] == "..")
  }

  function Render(rooted: bool, st: seq<string>): string {
    var body := JoinChar(st, '/');
    if rooted then "/" + body else if body == "" then "." else body
  }

  /** The elements Clean keeps for `p`. */
  function CleanElements(p: string): (st: seq<string>)
    requires p != ""
    ensures CleanStack(p[0] == '/', st)
  {
    ResolveIsClean(p[0] == '/', SplitChar(p, '/'));
    Resolve(p[0] == '/', SplitChar(p, '/'))
  }

  /** filepath.Clean */
  function Clean(p: string): (r: string)
    ensures r != ""
  {
    if p == "" then "." else Render(p[0] == '/', CleanElements(p))
  }

  lemma {:induction false} ResolveIsClean(rooted: bool, elems: seq<string>)
    requires NoSlash(elems)
    ensures CleanStack(rooted, Resolve(rooted, elems))
  {
    if elems != [] {
      ResolveIsClean(rooted, elems[..|elems| - 1]);
      var st := Resolve(rooted, elems[..|elems| - 1]);
      var e := elems[|elems| - 1];
      if e == ".." && !(|st| > 0 && st[|st| - 1] != "..") && !rooted && |st| > 0 {
        forall i | 0 <= i < |st| ensures st[i] == ".." {
          if i < |st| - 1 { assert st[|st| - 1] == ".."; }
        }
      }
    }
  }

  /** A stack that is already clean is kept element for element. */
  lemma {:induction false} ResolveClean(rooted: bool, st: seq<string>)
    requires CleanStack(rooted, st)
    ensures Resolve(rooted, st) == st
  {
    if st != [] {
      var init := st[..|st| - 1];
      assert CleanStack(rooted, init);
      ResolveClean(rooted, init);
    }
  }

  lemma {:induction false} ResolvePrefixEmpty(rooted: bool, st: seq<string>)
    requires CleanStack(rooted, st)
    ensures Resolve(rooted, [""] + st) == st
  {
    if st == [] {
      assert ([""] + st)[..0] == [];
      assert Resolve(rooted, [""]) == ResolveElement(rooted, Resolve(rooted, []), "");
    } else {
      var init := st[..|st| - 1];
      var e := st[|st| - 1];
      calc {
        Resolve(rooted, [""] + st);
        { assert [""] + st == ([""] + init) + [e]; }
        Resolve(rooted, ([""] + init) + [e]);
        { ResolveAppend(rooted, [""] + init, e); }
        ResolveElement(rooted, Resolve(rooted, [""] + init), e);
        { assert CleanStack(rooted, init);
          ResolvePrefixEmpty(rooted, init); }
        ResolveElement(rooted, init, e);
        { assert e != "" && e != ".";
          if e == ".." && |init| > 0 {
            assert init[|init| - 1] == "..";
          } }
        init + [e];
        st;
      }
    }
  }

  lemma {:induction false} ResolveAppend(rooted: bool, elems: seq<string>, e: string)
    ensures Resolve(rooted, elems + [e]) == ResolveElement(rooted, Resolve(rooted, elems), e)
  {
    assert (elems + [e])[..|elems|] == elems;
  }

  lemma {:induction false} JoinAppend(st: seq<string>, e: string, c: char)
    requires |st| >= 1
    ensures JoinChar(st + [e], c) == JoinChar(st, c) + [c] + e
  {
    if |st| > 1 {
      JoinAppend(st[1..], e, c);
      assert (st + [e])[1..] == st[1..] + [e];
    }
  }

  /** The elements of a rendered clean path, as strings.Split sees them. */
  lemma {:induction false} SplitRender(rooted: bool, st: seq<string>)
    requires CleanStack(rooted, st)
    ensures rooted && st == [] ==> SplitChar(Render(rooted, st), '/') == ["", ""]
    ensures rooted && st != [] ==> SplitChar(Render(rooted, st), '/') == [""] + st
    ensures !rooted && st == [] ==> Render(rooted, st) == "."
    ensures !rooted && st != [] ==> SplitChar(Render(rooted, st), '/') == st
  {
    var body := JoinChar(st, '/');
    if st != [] {
      JoinSplit(st, '/');
      if !rooted { JoinNonEmpty(st); }
    }
    if rooted {
      assert "/" + body == "" + ['/'] + body;
      SplitAppend("", body, '/');
    }
  }

  lemma {:induction false} JoinNonEmpty(st: seq<string>)
    requires |st| >= 1 && st[0] != ""
    ensures JoinChar(st, '/') != ""
  {
    if |st| > 1 {
      assert JoinChar(st, '/') == st[0] + "/" + JoinChar(st[1..], '/');
    }
  }

  /** A clean path is its own elements rendered back. */
  lemma {:induction false} CleanOfRender(rooted: bool, st: seq<string>)
    requires CleanStack(rooted, st)
    ensures Clean(Render(rooted, st)) == Render(rooted, st)
  {
    var r := Render(rooted, st);
    SplitRender(rooted, st);
    if rooted {
      assert r[0] == '/';
      if st == [] {
        assert Resolve(true, ["", ""]) == [] by {
          assert ["", ""][..1] == [""];
          assert [""][..0] == [];
        }
      } else {
        ResolvePrefixEmpty(rooted, st);
      }
    } else if st == [] {
      assert SplitChar(".", '/') == ["."];
      assert Resolve(false, ["."]) == [] by { assert ["."][..0] == []; }
    } else {
      assert r == JoinChar(st, '/');
      assert r[0] != '/' by { JoinHeadNotSlash(st); }
      ResolveClean(false, st);
    }
  }

  lemma {:induction false} JoinHeadNotSlash(st: seq<string>)
    requires |st| >= 1 && st[0] != "" && '/' !in st[0]
    ensures JoinChar(st, '/') != "" && JoinChar(st, '/')[0] == st[0][0]
  {
    if |st| > 1 {
      assert JoinChar(st, '/') == st[0] + "/" + JoinChar(st[1..], '/');
    }
  }

  /** A clean path never gets that way by accident: Clean is idempotent. */
  lemma CleanIdempotent(p: string)
    ensures Clean(Clean(p)) == Clean(p)
  {
    if p == "" {
      assert SplitChar(".", '/') == ["."];
      assert Resolve(false, ["."]) == [] by { assert ["."][..0] == []; }
    } else {
      CleanOfRender(p[0] == '/', CleanElements(p));
    }
  }

  /** A rooted path cleans to a rooted path none of whose elements is "..". */
  lemma CleanRootedHasNoParentElement(p: string)
    requires p != "" && p[0] == '/'
    ensures var r := Clean(p); r[0] == '/' && ".." !in SplitChar(r, '/')
  {
    SplitRender(true, CleanElements(p));
  }

  /** filepath.Join for two elements: empty elements are ignored, the rest is cleaned. */
  function Join(a: string, b: string): (r: string)
    ensures a != "" || b != "" ==> r != ""
  {
    if a != "" then Clean(a + "/" + b)
    else if b != "" then Clean(b)
    else ""
  }

  /** filepath.Join for any number of elements. */
  function JoinAll(elems: seq<string>): string {
    if elems == [] then ""
    else if elems[0] == "" then JoinAll(elems[1..])
    else Clean(JoinChar(elems, '/'))
  }

  /**
   * filepath.Ext: the suffix from the final '.' of the last element, or ""
   * when that element has no '.', that is when every '.' has a '/' after it.
   */
  function Ext(p: string): (r: string)
    ensures r == "" || (r[0] == '.' && '/' !in r && |r| <= |p| && r == p[|p| - |r|..])
    ensures r != "" ==> '.' !in r[1..]
    ensures r == "" <==> forall j :: 0 <= j < |p| && '/' !in p[j..] ==> p[j] != '.'
  {
    assert p[|p|..] == [];
    ExtUpTo(p, |p|)
  }

  /** Ext scanning back from index i, past a tail without '/' or '.'. */
  function ExtUpTo(p: string, i: nat): (r: string)
    requires i <= |p| && '/' !in p[i..] && '.' !in p[i..]
    ensures r == "" || (r[0] == '.' && '/' !in r && |r| <= |p| && r == p[|p| - |r|..])
    ensures r != "" ==> '.' !in r[1..]
    ensures r == "" <==> forall j :: 0 <= j < i && '/' !in p[j..] ==> p[j] != '.'
  {
    if i == 0 then ""
    else if p[i - 1] == '/' then
      assert forall j :: 0 <= j < i ==> p[j..][i - 1 - j] == '/';
      ""
    else if p[i - 1] == '.' then
      assert p[i - 1..] == [p[i - 1]] + p[i..];
      p[i - 1..]
    else
      assert p[i - 1..] == [p[i - 1]] + p[i..];
      var r := ExtUpTo(p, i - 1);
      assert forall j :: 0 <= j < i - 1 ==> p[j..] == p[j..i - 1] + p[i - 1..];
      r
  }

  /** filepath.SplitList: the ':'-separated list elements of a PATH-style string. */
  function SplitList(p: string): (r: seq<string>)
    ensures p == "" <==> r == []
  {
    if p == "" then [] else SplitChar(p, ':')
  }

  function LastSlash(p: string): (r: int)
    ensures -1 <= r < |p|
    ensures r >= 0 ==> p[r] == '/' && '/' !in p[r + 1..]
    ensures r < 0 ==> '/' !in p
  {
    if p == [] then -1
    else if p[|p| - 1] == '/' then |p| - 1
    else
      var r := LastSlash(p[..|p| - 1]);
      assert r >= 0 ==> p[r + 1..] == p[..|p| - 1][r + 1..] + [p[|p| - 1]];
      r
  }

  /** filepath.Dir: everything before the last '/', cleaned. */
  function Dir(p: string): string {
    Clean(p[..LastSlash(p) + 1])
  }

  /** A single plain element: not empty, not "." or "..", and without '/'. */
  predicate PlainName(n: string) {
    n != "" && n != "." && n != ".." && '/' !in n
  }

  /** A plain name is already clean. */
  lemma PlainClean(n: string)
    requires PlainName(n)
    ensures Clean(n) == n
  {
    assert SplitChar(n, '/') == [n];
    assert Resolve(n[0] == '/', [n]) == [n] by {
      assert [n][..0] == [];
    }
    assert n[0] != '/';
    assert JoinChar([n], '/') == n;
  }

  /** The elements of `p + "/" + n` are those of `p` followed by a plain element `n`. */
  lemma CleanElementsChild(p: string, n: string)
    requires p != "" && PlainName(n)
    ensures (p + "/" + n)[0] == p[0]
    ensures CleanElements(p + "/" + n) == CleanElements(p) + [n]
  {
    assert p + "/" + n == p + ['/'] + n;
    SplitAppend(p, n, '/');
    assert SplitChar(n, '/') == [n];
    ResolveAppend(p[0] == '/', SplitChar(p, '/'), n);
  }

  lemma CleanElementsTrailingSlash(p: string)
    requires p != ""
    ensures (p + "/")[0] == p[0]
    ensures CleanElements(p + "/") == CleanElements(p)
  {
    assert p + "/" == p + ['/'] + "";
    SplitAppend(p, "", '/');
    assert SplitChar("", '/') == [""];
    ResolveAppend(p[0] == '/', SplitChar(p, '/'), "");
  }

  lemma RenderNotDot(st: seq<string>)
    requires CleanStack(false, st) && st != []
    ensures Render(false, st) != "."
  {
    SplitRender(false, st);
    assert SplitChar(".", '/') == ["."];
  }

  /** Rendering one more plain element appends it after a '/'. */
  lemma RenderChild(rooted: bool, st: seq<string>, n: string)
    requires CleanStack(rooted, st) && PlainName(n)
    ensures var d := Render(rooted, st);
      Render(rooted, st + [n]) == if d == "/" then "/" + n else if d == "." then n else d + "/" + n
  {
    if st == [] {
      assert st + [n] == [n];
    } else {
      JoinAppend(st, n, '/');
      JoinNonEmpty(st);
      if !rooted {
        RenderNotDot(st);
      }
    }
  }

  /** Joining a clean directory with a plain name appends the name, with nothing else changed. */
  lemma CleanJoinName(d: string, n: string)
    requires Clean(d) == d && PlainName(n)
    ensures Join(d, n) == Render(d[0] == '/', CleanElements(d) + [n])
    ensures Join(d, n) == if d == "/" then "/" + n else if d == "." then n else d + "/" + n
  {
    var rooted := d[0] == '/';
    var st := CleanElements(d);
    assert d == Render(rooted, st);
    CleanElementsChild(d, n);
    var x := d + "/" + n;
    assert Join(d, n) == Clean(x);
    assert Clean(x) == Render(rooted, st + [n]);
    RenderChild(rooted, st, n);
  }

  lemma SlashAssoc(p: string, q: string, r: string)
    ensures p + "/" + (q + "/" + r) == p + "/" + q + "/" + r
  {
    var s := "/";
    assert q + s + r == q + (s + r);
    assert p + s + (q + (s + r)) == (p + s + q) + (s + r);
  }

  /** Joining a two-element name is joining its elements one after the other. */
  lemma JoinNested(d: string, a: string, b: string)
    requires Clean(d) == d && PlainName(a) && PlainName(b)
    ensures Clean(Join(d, a)) == Join(d, a)
    ensures Join(d, a + "/" + b) == Join(Join(d, a), b) == Join(d, a) + "/" + b
  {
    var rooted := d[0] == '/';
    var st := CleanElements(d);
    var x := d + "/" + a;
    var j := Join(d, a);
    CleanJoinName(d, a);
    CleanIdempotent(x);
    assert j != "/" && j != "." by {
      if d == "/" {
        assert |j| == |a| + 1;
      } else if d != "." {
        assert |j| == |d| + 1 + |a|;
      }
    }
    CleanJoinName(j, b);
    CleanElementsChild(d, a);
    CleanElementsChild(x, b);
    calc {
      Join(d, a + "/" + b);
      { SlashAssoc(d, a, b); }
      Clean(x + "/" + b);
      Render(rooted, CleanElements(x) + [b]);
      Render(rooted, (st + [a]) + [b]);
      { RenderChild(rooted, st + [a], b); }
      j + "/" + b;
    }
  }

  lemma LastSlashOf(p: string, q: string)
    requires '/' !in q
    ensures LastSlash(p + "/" + q) == |p|
  {
    var x := p + "/" + q;
    assert x[|p|] == '/';
    assert x[|p| + 1..] == q;
  }

  /** A clean path followed by '/' cleans back to itself. */
  lemma CleanTrailingSlash(d: string)
    requires Clean(d) == d
    ensures Clean(d + "/") == d
  {
    CleanElementsTrailingSlash(d);
  }

  /** The parent of a clean directory joined with a plain name is that directory. */
  lemma DirOfChild(d: string, n: string)
    requires Clean(d) == d && PlainName(n)
    ensures Dir(Join(d, n)) == d
  {
    CleanJoinName(d, n);
    if d == "/" {
      LastSlashOf("", n);
      assert ("/" + n)[..1] == "/";
    } else if d == "." {
      assert n[..0] == "";
    } else {
      LastSlashOf(d, n);
      assert (d + "/" + n)[..|d| + 1] == d + "/";
      CleanTrailingSlash(d);
    }
  }

  /** A ".." inside a '/'-joined list of elements lies inside one of the elements. */
  lemma {:induction false} DotDotInJoin(st: seq<string>, j: int)
    requires OccursAt(JoinChar(st, '/'), "..", j)
    ensures exists i, k :: 0 <= i < |st| && OccursAt(st[i], "..", k)
  {
    var s := JoinChar(st, '/');
    if |st| == 1 {
      assert OccursAt(st[0], "..", j);
    } else {
      var rest := JoinChar(st[1..], '/');
      assert s == st[0] + "/" + rest;
      var h := |st[0]|;
      assert s[j] == '.' && s[j + 1] == '.' by { assert s[j..j + 2] == ".."; }
      if j + 2 <= h {
        assert st[0][j..j + 2] == s[j..j + 2];
        assert OccursAt(st[0], "..", j);
      } else {
        assert j > h;
        assert rest[j - h - 1..j - h + 1] == s[j..j + 2];
        DotDotInJoin(st[1..], j - h - 1);
        var i, k :| 0 <= i < |st[1..]| && OccursAt(st[1..][i], "..", k);
        assert OccursAt(st[i + 1], "..", k);
      }
    }
  }

  /** For a rooted path, a ".." that survives Clean is part of a longer element such as "a..b". */
  lemma DotDotAfterCleanIsInsideName(p: string)
    requires p != "" && p[0] == '/' && Contains(Clean(p), "..")
    ensures exists i, k :: 0 <= i < |CleanElements(p)| && CleanElements(p)[i] != ".." &&
                           OccursAt(CleanElements(p)[i], "..", k)
  {
    var st := CleanElements(p);
    var r := Clean(p);
    var body := JoinChar(st, '/');
    assert r == "/" + body;
    var j :| 0 <= j <= |r| - 2 && OccursAt(r, "..", j);
    assert r[j..j + 2] == "..";
    assert j >= 1 by { assert r[0] == '/'; }
    assert body[j - 1..j + 1] == r[j..j + 2];
    assert st != [];
    DotDotInJoin(st, j - 1);
  }
}
