/** Sequence operations the handlers use through Ruby's Array and String:
    `select`-style filtering, `uniq`, and `include?` on strings. */
module Seqs {

  /** The elements of `s` satisfying `p`, in their original order. */
  function Filter<T>(s: seq<T>, p: T -> bool): (r: seq<T>)
    ensures |r| <= |s|
    ensures forall i :: 0 <= i < |r| ==> r[i] in s && p(r[i])
    ensures forall i :: 0 <= i < |s| && p(s[i]) ==> s[i] in r
  {
    if s == [] then []
    else (if p(s[0]) then [s[0]] else []) + Filter(s[1..], p)
  }

  /** Appending one element extends the filtered sequence by that element
      exactly when it passes the test: the shape of a `push` loop. */
  lemma {:induction false} FilterSnoc<T>(s: seq<T>, x: T, p: T -> bool)
    ensures Filter(s + [x], p) == Filter(s, p) + (if p(x) then [x] else [])
  {
    if s == [] {
      assert s + [x] == [x];
    } else {
      assert (s + [x])[1..] == s[1..] + [x];
      FilterSnoc(s[1..], x, p);
    }
  }

  lemma {:induction false} FilterKeepsNone<T>(s: seq<T>, p: T -> bool)
    requires forall i :: 0 <= i < |s| ==> !p(s[i])
    ensures Filter(s, p) == []
  {
    if s != [] {
      FilterKeepsNone(s[1..], p);
    }
  }

  /** `r` can be obtained from `s` by deleting elements, order kept. */
  predicate IsSubsequence<T(==)>(r: seq<T>, s: seq<T>)
    decreases |s|
  {
    if s == [] then r == []
    else (r != [] && r[0] == s[0] && IsSubsequence(r[1..], s[1..]))
         || IsSubsequence(r, s[1..])
  }

  lemma {:induction false} FilterIsSubsequence<T>(s: seq<T>, p: T -> bool)
    ensures IsSubsequence(Filter(s, p), s)
  {
    if s != [] {
      FilterIsSubsequence(s[1..], p);
      var r := Filter(s, p);
      if p(s[0]) {
        assert r == [s[0]] + Filter(s[1..], p);
        assert r[1..] == Filter(s[1..], p);
      } else {
        assert r == Filter(s[1..], p);
      }
    }
  }

  predicate NoDuplicates<T(==)>(s: seq<T>) {
    forall i, j :: 0 <= i < j < |s| ==> s[i] != s[j]
  }

  /** Ruby's `Array#uniq`, built by keeping an element only when it has not
      been seen before. Its contract states the element set and the absence
      of duplicates, not the order of the result. */
  function Uniq<T(==)>(s: seq<T>): (r: seq<T>)
    ensures forall i :: 0 <= i < |r| ==> r[i] in s
    ensures forall i :: 0 <= i < |s| ==> s[i] in r
    ensures NoDuplicates(r)
  {
    if s == [] then []
    else
      var u := Uniq(s[..|s| - 1]);
      var x := s[|s| - 1];
      if x in u then u else u + [x]
  }

  /** Ruby's `String#include?`: does `t` occur in `s` as a contiguous run? */
  function Includes<T(==)>(s: seq<T>, t: seq<T>): (b: bool)
    ensures b <==> OccursAt(s, t)
    decreases |s|
  {
    if |t| > |s| then false
    else if s[..|t|] == t then (assert WindowAt(s, t, 0); true)
    else
      var b := Includes(s[1..], t);
      OccursShift(s, t);
      b
  }

  /** The window of `s` starting at `i` spells `t`. */
  ghost predicate WindowAt<T>(s: seq<T>, t: seq<T>, i: int) {
    0 <= i && i + |t| <= |s| && s[i..i + |t|] == t
  }

  /** The declarative reading of `Includes`: some window of `s` equals `t`. */
  ghost predicate OccursAt<T>(s: seq<T>, t: seq<T>) {
    exists i :: WindowAt(s, t, i)
  }

  lemma OccursShift<T>(s: seq<T>, t: seq<T>)
    requires |t| <= |s| && s[..|t|] != t
    ensures OccursAt(s, t) <==> OccursAt(s[1..], t)
  {
    if OccursAt(s, t) {
      var i :| WindowAt(s, t, i);
      assert i != 0;
      assert s[1..][i - 1..i - 1 + |t|] == s[i..i + |t|];
      assert WindowAt(s[1..], t, i - 1);
    }
    if OccursAt(s[1..], t) {
      var i :| WindowAt(s[1..], t, i);
      assert s[i + 1..i + 1 + |t|] == s[1..][i..i + |t|];
      assert WindowAt(s, t, i + 1);
    }
  }

  /** A pattern cannot occur in a sequence that lacks one of its elements. */
  lemma AbsentWithout<T>(s: seq<T>, t: seq<T>, k: nat)
    requires k < |t| && t[k] !in s
    ensures !OccursAt(s, t)
  {
  }
}
