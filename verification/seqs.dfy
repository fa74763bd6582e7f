/** Small facts about sequences used by the registry and the resolver:
    duplicate-freedom, first-occurrence deduplication and concatenation. */
module Seqs {

  /** No element occurs twice in `s`. */
  predicate NoDup<T(==)>(s: seq<T>) {
    forall i, j :: 0 <= i < j < |s| ==> s[i] != s[j]
  }

  /** The set of elements of `s`. */
  function Elems<T>(s: seq<T>): set<T> {
    set x | x in s
  }

  /** `pre` is a prefix of `s`. */
  predicate IsPrefix<T(==)>(pre: seq<T>, s: seq<T>) {
    |pre| <= |s| && s[..|pre|] == pre
  }

  /** `suf` is a suffix of `s`. */
  predicate IsSuffix<T(==)>(suf: seq<T>, s: seq<T>) {
    |suf| <= |s| && s[|s| - |suf|..] == suf
  }

  /** `part` occurs as a contiguous block of `s` that ends no later than `|tail|` elements
      before the end of `s`. */
  predicate BlockBefore<T(==)>(part: seq<T>, s: seq<T>, tail: seq<T>) {
    exists i :: 0 <= i <= |s| - |part| - |tail| && part <= s[i..]
  }

  /** Keeps the first occurrence of every element of `s`, in order, after the
      elements of `seen`, which are skipped. */
  function DedupAfter<T(==)>(s: seq<T>, seen: seq<T>): (r: seq<T>)
    requires NoDup(seen)
    ensures NoDup(seen + r)
    ensures Elems(r) == Elems(s) - Elems(seen)
    ensures (forall i :: 0 <= i < |s| ==> s[i] in seen) ==> r == []
    decreases |s|
  {
    if s == [] then []
    else
      assert Elems(s) == {s[0]} + Elems(s[1..]) by { assert s == [s[0]] + s[1..]; }
      if s[0] in seen then DedupAfter(s[1..], seen)
      else
      var rest := DedupAfter(s[1..], seen + [s[0]]);
      assert seen + ([s[0]] + rest) == (seen + [s[0]]) + rest;
      assert Elems([s[0]] + rest) == {s[0]} + Elems(rest);
      [s[0]] + rest
  }

  /** The elements of `s` in order of first occurrence. */
  function Dedup<T(==)>(s: seq<T>): (r: seq<T>)
    ensures NoDup(r)
    ensures Elems(r) == Elems(s)
  {
    var r := DedupAfter(s, []);
    assert [] + r == r;
    r
  }

  /** A duplicate-free sequence is its own deduplication. */
  lemma {:induction false} DedupAfterNoDup<T>(s: seq<T>, seen: seq<T>)
    requires NoDup(seen) && NoDup(seen + s)
    ensures DedupAfter(s, seen) == s
    decreases |s|
  {
    if s != [] {
      assert (seen + s)[|seen|] == s[0];
      assert s[0] !in seen by {
        forall i | 0 <= i < |seen| ensures seen[i] != s[0] {
          assert (seen + s)[i] == seen[i];
        }
      }
      assert seen + s == (seen + [s[0]]) + s[1..];
      DedupAfterNoDup(s[1..], seen + [s[0]]);
    }
  }

  /** A piece of a slice of `s` holds only elements of `s`. */
  lemma SliceWithin<T>(r: seq<T>, s: seq<T>, i: nat)
    requires i <= |s| && r <= s[i..]
    ensures forall x :: x in r ==> x in s
  {
    forall x | x in r ensures x in s {
      var j :| 0 <= j < |r| && r[j] == x;
      assert s[i + j] == x;
    }
  }
}
