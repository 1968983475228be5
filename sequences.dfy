/** `Array.prototype.filter` on sequences, and the subsequence order it keeps. */
module Sequences {
  import opened Wrappers

  /** `xs` is `ys` with some elements left out, the rest in their original order. */
  predicate IsSubsequence<T(==)>(xs: seq<T>, ys: seq<T>)
    decreases |ys|
  {
    if xs == [] then true
    else if ys == [] then false
    else if xs[0] == ys[0] then IsSubsequence(xs[1..], ys[1..])
    else IsSubsequence(xs, ys[1..])
  }

  /** `filter`: every element that passes the test, each copy of it, in order; a list
      whose every element passes comes back as it is. */
  function Filter<T(==,!new)>(xs: seq<T>, keep: T -> bool): (r: seq<T>)
    ensures |r| <= |xs| && IsSubsequence(r, xs)
    ensures forall x :: multiset(r)[x] == if keep(x) then multiset(xs)[x] else 0
    ensures forall x :: x in r <==> x in xs && keep(x)
    ensures (forall i :: 0 <= i < |xs| ==> keep(xs[i])) ==> r == xs
  {
    if xs == [] then []
    else
      var rest := Filter(xs[1..], keep);
      var r := if keep(xs[0]) then [xs[0]] + rest else rest;
      assert xs == [xs[0]] + xs[1..];
      FilterCounts(xs, keep, rest);
      CountsGiveMembers(r, xs, keep);
      if keep(xs[0]) then
        KeptSubsequence(xs[0], xs[1..], rest);
        AllKeptTail(xs, keep);
        r
      else
        DroppedSubsequence(xs[0], xs[1..], rest);
        r
  }

  /** Each element is counted in the filtered list as often as in the whole list when it
      passes, and not at all otherwise, one head at a time. */
  lemma FilterCounts<T>(xs: seq<T>, keep: T -> bool, rest: seq<T>)
    requires xs != []
    requires forall x :: multiset(rest)[x] == if keep(x) then multiset(xs[1..])[x] else 0
    ensures forall x :: multiset(if keep(xs[0]) then [xs[0]] + rest else rest)[x] ==
                          if keep(x) then multiset(xs)[x] else 0
  {
    assert xs == [xs[0]] + xs[1..];
    assert multiset(xs) == multiset{xs[0]} + multiset(xs[1..]);
    assert multiset([xs[0]] + rest) == multiset{xs[0]} + multiset(rest);
  }

  /** When every element passes, so does every element of the tail. */
  lemma AllKeptTail<T>(xs: seq<T>, keep: T -> bool)
    requires xs != []
    ensures (forall i :: 0 <= i < |xs| ==> keep(xs[i])) ==> forall i :: 0 <= i < |xs[1..]| ==> keep(xs[1..][i])
  {
    if forall i :: 0 <= i < |xs| ==> keep(xs[i]) {
      forall i | 0 <= i < |xs[1..]| ensures keep(xs[1..][i]) {
        assert xs[1..][i] == xs[i + 1];
      }
    }
  }

  /** Those counts decide which elements occur. */
  lemma CountsGiveMembers<T>(r: seq<T>, xs: seq<T>, keep: T -> bool)
    requires forall x :: multiset(r)[x] == if keep(x) then multiset(xs)[x] else 0
    ensures forall x :: x in r <==> x in xs && keep(x)
  {
    forall x ensures x in r <==> x in xs && keep(x) {
      assert x in r <==> x in multiset(r);
      assert x in xs <==> x in multiset(xs);
    }
  }

  lemma KeptSubsequence<T>(x: T, xs: seq<T>, rest: seq<T>)
    requires IsSubsequence(rest, xs)
    ensures IsSubsequence([x] + rest, [x] + xs)
  {
    assert ([x] + rest)[1..] == rest && ([x] + xs)[1..] == xs;
  }

  lemma DroppedSubsequence<T>(x: T, xs: seq<T>, rest: seq<T>)
    requires IsSubsequence(rest, xs) && x !in rest
    ensures IsSubsequence(rest, [x] + xs)
  {
    assert ([x] + xs)[1..] == xs;
    if rest != [] {
      assert rest[0] in rest;
    }
  }

  /** A prefix one longer is the shorter prefix with the next element appended. */
  lemma PrefixStep<T>(xs: seq<T>, i: int)
    requires 0 <= i < |xs|
    ensures xs[..i + 1] == xs[..i] + [xs[i]]
    ensures |xs[..i + 1]| == i + 1 && xs[..i + 1][..i] == xs[..i] && xs[..i + 1][i] == xs[i]
  {
  }

  /** A suffix of a suffix is a suffix. */
  lemma SuffixOfSuffix<T>(xs: seq<T>, a: nat, r: seq<T>)
    requires a <= |xs| && |r| <= |xs| - a && r == xs[a..][|xs| - a - |r|..]
    ensures r == xs[|xs| - |r|..]
  {
  }

  /** The elements of a sequence with `x` inserted at position `p`. */
  lemma InsertedAt<T>(xs: seq<T>, x: T, p: nat, i: nat)
    requires p <= |xs| && i <= |xs|
    ensures (xs[..p] + [x] + xs[p..])[i] == if i < p then xs[i] else if i == p then x else xs[i - 1]
  {
  }

  /** The position of the first element that passes the test, if any. */
  function FirstIndex<T>(xs: seq<T>, p: T -> bool): (r: Option<nat>)
    ensures r.Some? ==> r.value < |xs| && p(xs[r.value])
    ensures r.Some? ==> forall j :: 0 <= j < r.value ==> !p(xs[j])
    ensures r.None? ==> forall j :: 0 <= j < |xs| ==> !p(xs[j])
  {
    if xs == [] then None
    else if p(xs[0]) then Some(0)
    else match FirstIndex(xs[1..], p)
      case None => None
      case Some(i) => Some(i + 1)
  }
}
