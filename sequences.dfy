/**
 * Order-related facts about sequences shared by both pages: what it means
 * for `Array.prototype.filter` to keep a subsequence, and the duplicate-free
 * list `[...new Set(xs)]` builds.
 */
module Sequences {

  /** `xs` can be obtained from `ys` by deleting elements, keeping the rest in order. */
  ghost predicate IsSubsequence<T>(xs: seq<T>, ys: seq<T>)
    decreases |ys|
  {
    if xs == [] then true
    else if ys == [] then false
    else (xs[0] == ys[0] && IsSubsequence(xs[1..], ys[1..])) || IsSubsequence(xs, ys[1..])
  }

  /** A subsequence has no more elements than the sequence, and each of them comes from it. */
  lemma {:induction false} SubsequenceElements<T>(xs: seq<T>, ys: seq<T>)
    requires IsSubsequence(xs, ys)
    ensures |xs| <= |ys|
    ensures forall i :: 0 <= i < |xs| ==> xs[i] in ys
    decreases |ys|
  {
    if xs != [] {
      if xs[0] == ys[0] && IsSubsequence(xs[1..], ys[1..]) {
        SubsequenceElements(xs[1..], ys[1..]);
        assert xs == [xs[0]] + xs[1..];
      } else {
        SubsequenceElements(xs, ys[1..]);
      }
    }
  }

  /** No element occurs twice. */
  ghost predicate Distinct<T>(xs: seq<T>)
  {
    forall i, j :: 0 <= i < j < |xs| ==> xs[i] != xs[j]
  }

  /**
   * `[...new Set(xs)]`: each element of `xs` once, in the order of its first
   * occurrence (a JavaScript `Set` iterates in insertion order).
   */
  function Dedup<T(==)>(xs: seq<T>): (r: seq<T>)
    ensures forall i :: 0 <= i < |xs| ==> xs[i] in r
    ensures forall i :: 0 <= i < |r| ==> r[i] in xs
    ensures Distinct(r)
    decreases |xs|
  {
    if xs == [] then []
    else
      var r := Dedup(xs[..|xs| - 1]);
      var last := xs[|xs| - 1];
      assert xs == xs[..|xs| - 1] + [last];
      if last in r then r else r + [last]
  }

  /** The index of the first occurrence of `x` in `xs`. */
  ghost function FirstIndex<T>(xs: seq<T>, x: T): (k: nat)
    requires x in xs
    ensures k < |xs| && xs[k] == x
    ensures forall j :: 0 <= j < k ==> xs[j] != x
    decreases |xs|
  {
    if xs[0] == x then 0 else 1 + FirstIndex(xs[1..], x)
  }

  /** Appending an element does not move the first occurrence of anything already present. */
  lemma FirstIndexAppend<T>(xs: seq<T>, z: T, x: T)
    requires x in xs
    ensures FirstIndex(xs + [z], x) == FirstIndex(xs, x)
  {
    var k := FirstIndex(xs, x);
    var k' := FirstIndex(xs + [z], x);
    assert (xs + [z])[k] == x;
    assert k' <= k;
    assert xs[k'] == x;
  }

  /**
   * `Dedup` lists the elements in the order of their first occurrence in
   * `xs`. With `Distinct` and the membership clauses of `Dedup` this fixes
   * the result completely.
   */
  lemma {:induction false} DedupFirstAppearance<T>(xs: seq<T>)
    ensures forall i, j :: 0 <= i < j < |Dedup(xs)| ==>
      FirstIndex(xs, Dedup(xs)[i]) < FirstIndex(xs, Dedup(xs)[j])
    decreases |xs|
  {
    if xs != [] {
      var init := xs[..|xs| - 1];
      var last := xs[|xs| - 1];
      assert xs == init + [last];
      DedupFirstAppearance(init);
      var r := Dedup(init);
      var d := Dedup(xs);
      assert d == if last in r then r else r + [last];
      forall i, j | 0 <= i < j < |d| ensures FirstIndex(xs, d[i]) < FirstIndex(xs, d[j]) {
        assert d[i] == r[i] && d[i] in init;
        FirstIndexAppend(init, last, d[i]);
        if j < |r| {
          assert d[j] == r[j] && d[j] in init;
          FirstIndexAppend(init, last, d[j]);
        } else {
          assert d[j] == last && last !in init;
          assert FirstIndex(xs, last) == |init|;
        }
      }
    }
  }

  /** `Dedup` keeps the elements it keeps in their original order. */
  lemma {:induction false} DedupIsSubsequence<T>(xs: seq<T>)
    ensures IsSubsequence(Dedup(xs), xs)
    decreases |xs|
  {
    if xs != [] {
      var init := xs[..|xs| - 1];
      DedupIsSubsequence(init);
      SubsequenceAppend(Dedup(init), init, xs[|xs| - 1]);
      assert xs == init + [xs[|xs| - 1]];
    }
  }

  /** Appending the same element to both sides, or only to the longer one, keeps a subsequence. */
  lemma {:induction false} SubsequenceAppend<T>(xs: seq<T>, ys: seq<T>, z: T)
    requires IsSubsequence(xs, ys)
    ensures IsSubsequence(xs + [z], ys + [z])
    ensures IsSubsequence(xs, ys + [z])
    decreases |ys|
  {
    if xs == [] {
      assert xs + [z] == [z];
      SubsequenceOfSingleton(ys, z);
    } else {
      assert (xs + [z])[0] == xs[0] && (xs + [z])[1..] == xs[1..] + [z];
      assert (ys + [z])[0] == ys[0] && (ys + [z])[1..] == ys[1..] + [z];
      if xs[0] == ys[0] && IsSubsequence(xs[1..], ys[1..]) {
        SubsequenceAppend(xs[1..], ys[1..], z);
      } else {
        SubsequenceAppend(xs, ys[1..], z);
      }
    }
  }

  /** `[z]` is a subsequence of anything ending in `z`. */
  lemma {:induction false} SubsequenceOfSingleton<T>(ys: seq<T>, z: T)
    ensures IsSubsequence([z], ys + [z])
    decreases |ys|
  {
    if ys != [] {
      assert (ys + [z])[1..] == ys[1..] + [z];
      SubsequenceOfSingleton(ys[1..], z);
    } else {
      assert [z][1..] == [];
    }
  }
}
