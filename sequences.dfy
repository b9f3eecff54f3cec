/**
 * Order-preserving de-duplication of string sequences, a map that fails on
 * the first element without an image, and two facts about concatenation.
 */
module Sequences {
  import opened Wrappers

  /** Dropping a prefix of the left operand of a concatenation. */
  lemma DropAppend<T>(a: seq<T>, b: seq<T>, k: nat)
    requires k <= |a|
    ensures (a + b)[k..] == a[k..] + b
  {
  }

  /** Concatenation is associative. */
  lemma AppendAssoc<T>(x: seq<T>, y: seq<T>, z: seq<T>)
    ensures x + (y + z) == x + y + z
  {
  }

  /** Adds `x` at the end unless it is already present. */
  function DistinctAppend(d: seq<string>, x: string): (r: seq<string>)
    ensures d <= r && x in r
  {
    if x in d then d else d + [x]
  }

  /** The distinct values in order of first occurrence. */
  function Distinct(s: seq<string>): (r: seq<string>)
    ensures forall x :: x in r ==> x in s
  {
    if s == [] then [] else DistinctAppend(Distinct(s[..|s| - 1]), s[|s| - 1])
  }

  lemma DistinctAppendStep(s: seq<string>, x: string)
    ensures Distinct(s + [x]) == DistinctAppend(Distinct(s), x)
  {
    assert (s + [x])[..|s|] == s;
  }

  /** The distinct values of a prefix are a prefix of the distinct values. */
  lemma {:induction false} DistinctPrefix(s: seq<string>, m: nat)
    requires m <= |s|
    ensures Distinct(s[..m]) <= Distinct(s)
    decreases |s|
  {
    if m < |s| {
      var p := s[..|s| - 1];
      assert s[..m] == p[..m];
      DistinctPrefix(p, m);
    } else {
      assert s[..m] == s;
    }
  }

  /** Distinct holds exactly the values that occur, each once. */
  lemma {:induction false} DistinctElements(s: seq<string>)
    ensures forall x :: x in Distinct(s) <==> x in s
    ensures forall i, j :: 0 <= i < j < |Distinct(s)| ==> Distinct(s)[i] != Distinct(s)[j]
  {
    if s != [] {
      DistinctElements(s[..|s| - 1]);
      assert s == s[..|s| - 1] + [s[|s| - 1]];
    }
  }

  /** The index of the first occurrence of `x`. */
  function FirstAt(s: seq<string>, x: string): (i: nat)
    requires x in s
    ensures i < |s| && s[i] == x && x !in s[..i]
  {
    if s[0] == x then 0 else 1 + FirstAt(s[1..], x)
  }

  lemma {:induction false} FirstAtAppend(s: seq<string>, e: string, x: string)
    requires x in s
    ensures x in s + [e] && FirstAt(s + [e], x) == FirstAt(s, x)
  {
    if s[0] != x {
      assert (s + [e])[1..] == s[1..] + [e];
      FirstAtAppend(s[1..], e, x);
    }
  }

  /** Distinct lists the values by their first occurrence. */
  lemma {:induction false} DistinctFirstOccurrence(s: seq<string>, i: nat, j: nat)
    requires i < j < |Distinct(s)|
    ensures FirstAt(s, Distinct(s)[i]) < FirstAt(s, Distinct(s)[j])
  {
    var p := s[..|s| - 1];
    var e := s[|s| - 1];
    var d := Distinct(p);
    assert s == p + [e];
    DistinctElements(p);
    if e in d {
      DistinctFirstOccurrence(p, i, j);
      FirstAtAppend(p, e, d[i]);
      FirstAtAppend(p, e, d[j]);
    } else if j < |d| {
      DistinctFirstOccurrence(p, i, j);
      FirstAtAppend(p, e, d[i]);
      FirstAtAppend(p, e, d[j]);
    } else {
      FirstAtAppend(p, e, d[i]);
      assert Distinct(s)[j] == e;
      assert e !in s[..|p|];
    }
  }

  /** The images under `f` of the elements that satisfy `keep`, in order. */
  function FilterMap(s: seq<string>, keep: string -> bool, f: string -> string): (r: seq<string>)
    ensures |r| <= |s|
  {
    if s == [] then []
    else
      var last := s[|s| - 1];
      FilterMap(s[..|s| - 1], keep, f) + (if keep(last) then [f(last)] else [])
  }

  lemma FilterMapStep(s: seq<string>, keep: string -> bool, f: string -> string, i: nat)
    requires i < |s|
    ensures FilterMap(s[..i + 1], keep, f) == FilterMap(s[..i], keep, f) + (if keep(s[i]) then [f(s[i])] else [])
  {
    assert s[..i + 1][..i] == s[..i];
  }

  lemma {:induction false} FilterMapFrom(s: seq<string>, keep: string -> bool, f: string -> string, x: string)
    ensures x in FilterMap(s, keep, f) <==> exists i :: 0 <= i < |s| && keep(s[i]) && f(s[i]) == x
  {
    if s != [] {
      var p := s[..|s| - 1];
      var n := |s| - 1;
      FilterMapFrom(p, keep, f, x);
      if x in FilterMap(s, keep, f) {
        if x in FilterMap(p, keep, f) {
          var i :| 0 <= i < |p| && keep(p[i]) && f(p[i]) == x;
          assert s[i] == p[i];
        } else {
          assert keep(s[n]) && f(s[n]) == x;
        }
      }
      if exists i :: 0 <= i < |s| && keep(s[i]) && f(s[i]) == x {
        var i :| 0 <= i < |s| && keep(s[i]) && f(s[i]) == x;
        if i < n {
          assert p[i] == s[i];
        }
      }
    }
  }

  lemma {:induction false} FilterMapPrefix(s: seq<string>, keep: string -> bool, f: string -> string, k: nat)
    requires k <= |s|
    ensures FilterMap(s[..k], keep, f) <= FilterMap(s, keep, f)
    decreases |s|
  {
    if k < |s| {
      var p := s[..|s| - 1];
      assert s[..k] == p[..k];
      FilterMapPrefix(p, keep, f, k);
    } else {
      assert s[..k] == s;
    }
  }

  /** The images of all elements in order, or None from the first element whose image is None on. */
  function AllSome<A, B>(s: seq<A>, f: A -> Option<B>): Option<seq<B>> {
    if s == [] then Some([])
    else
      match AllSome(s[..|s| - 1], f)
      case None => None
      case Some(done) =>
        match f(s[|s| - 1])
        case None => None
        case Some(x) => Some(done + [x])
  }

  /** AllSome of the first i + 1 elements. */
  lemma AllSomeAt<A, B>(s: seq<A>, f: A -> Option<B>, i: nat)
    requires i < |s|
    ensures AllSome(s[..i + 1], f) ==
      if AllSome(s[..i], f).None? || f(s[i]).None? then None else Some(AllSome(s[..i], f).value + [f(s[i]).value])
  {
    assert s[..i + 1][..i] == s[..i];
  }

  /** Once an element without an image is reached, later elements change nothing. */
  lemma {:induction false} AllSomePersists<A, B>(s: seq<A>, f: A -> Option<B>, k: nat)
    requires k <= |s| && AllSome(s[..k], f).None?
    ensures AllSome(s, f).None?
    decreases |s|
  {
    if k < |s| {
      var front := s[..|s| - 1];
      assert front[..k] == s[..k];
      AllSomePersists(front, f, k);
    } else {
      assert s[..k] == s;
    }
  }

  /** AllSome succeeds iff every element has an image, and then it lists those images in order. */
  lemma {:induction false} AllSomeIff<A, B>(s: seq<A>, f: A -> Option<B>)
    ensures AllSome(s, f).Some? <==> forall i :: 0 <= i < |s| ==> f(s[i]).Some?
    ensures AllSome(s, f).Some? ==>
      |AllSome(s, f).value| == |s| && forall i :: 0 <= i < |s| ==> AllSome(s, f).value[i] == f(s[i]).value
    decreases |s|
  {
    if s != [] {
      var n := |s| - 1;
      var front := s[..n];
      AllSomeIff(front, f);
      if AllSome(front, f).Some? && f(s[n]).Some? {
        forall i | 0 <= i < n ensures s[i] == front[i] {}
      } else if AllSome(front, f).None? {
        var i :| 0 <= i < |front| && f(front[i]).None?;
        assert s[i] == front[i];
      }
    }
  }
}
