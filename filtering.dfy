/**
  `Iterator::filter` followed by `collect` into a vector: the elements of a
  sequence that satisfy a predicate, in their original order. Beside the
  definition stand the index characterisation that pins the result down
  (`FilterSelectsKeptIndices`) and the facts the search engine needs.
 */
module Filtering {

  /** The elements of `xs` satisfying `p`, in order. */
  function Filter<T>(p: T -> bool, xs: seq<T>): (r: seq<T>)
    ensures |r| <= |xs|
  {
    if xs == [] then []
    else Filter(p, xs[..|xs| - 1]) + (if p(xs[|xs| - 1]) then [xs[|xs| - 1]] else [])
  }

  /** An element is in the result of `Filter` exactly when it is in the input and satisfies `p`. */
  lemma {:induction false} FilterMembership<T>(p: T -> bool, xs: seq<T>)
    ensures forall x :: x in Filter(p, xs) <==> x in xs && p(x)
  {
    if xs != [] {
      var init, last := xs[..|xs| - 1], xs[|xs| - 1];
      FilterMembership(p, init);
      assert xs == init + [last];
    }
  }

  /** The positions of `xs` whose elements satisfy `p`, in increasing order. */
  function KeptIndices<T>(p: T -> bool, xs: seq<T>): (r: seq<nat>)
    ensures forall k :: 0 <= k < |r| ==> r[k] < |xs|
  {
    if xs == [] then []
    else KeptIndices(p, xs[..|xs| - 1]) + (if p(xs[|xs| - 1]) then [|xs| - 1] else [])
  }

  /** `idx` is strictly increasing. */
  ghost predicate Increasing(idx: seq<nat>) {
    forall j, k :: 0 <= j < k < |idx| ==> idx[j] < idx[k]
  }

  /** `idx` lists, in increasing order, positions of `b` holding the elements of `a`. */
  ghost predicate Embeds<T>(idx: seq<nat>, a: seq<T>, b: seq<T>) {
    && |idx| == |a|
    && Increasing(idx)
    && forall k :: 0 <= k < |a| ==> idx[k] < |b| && a[k] == b[idx[k]]
  }

  /** `a` is obtained from `b` by deleting elements, keeping the order of the rest. */
  ghost predicate IsSubsequence<T>(a: seq<T>, b: seq<T>) {
    exists idx :: Embeds(idx, a, b)
  }

  /**
    `r` consists of exactly the elements of `xs` that satisfy `p`, in their
    order: it is `xs` read at increasing positions `idx`, and a position of
    `xs` is among them if and only if its element satisfies `p`.
   */
  ghost predicate KeepsExactly<T>(r: seq<T>, xs: seq<T>, p: T -> bool) {
    exists idx :: Embeds(idx, r, xs) && forall i :: 0 <= i < |xs| ==> (p(xs[i]) <==> i in idx)
  }

  /** `Filter` meets the characterisation `KeepsExactly`. */
  lemma FilterKeepsExactly<T>(p: T -> bool, xs: seq<T>)
    ensures KeepsExactly(Filter(p, xs), xs, p)
  {
    FilterSelectsKeptIndices(p, xs);
  }

  /**
    `Filter` keeps exactly the positions that satisfy `p`, in their order:
    the result is `xs` read at `KeptIndices(p, xs)`, and a position is kept
    if and only if its element satisfies `p`.
   */
  lemma FilterSelectsKeptIndices<T>(p: T -> bool, xs: seq<T>)
    ensures Embeds(KeptIndices(p, xs), Filter(p, xs), xs)
    ensures forall i :: 0 <= i < |xs| ==> (p(xs[i]) <==> i in KeptIndices(p, xs))
  {
    KeptIndicesIncreasing(p, xs);
    FilterReadsKeptIndices(p, xs);
    KeptIndicesExactly(p, xs);
  }

  /** `KeptIndices` is strictly increasing. */
  lemma {:induction false} KeptIndicesIncreasing<T>(p: T -> bool, xs: seq<T>)
    ensures Increasing(KeptIndices(p, xs))
  {
    if xs != [] {
      var init := xs[..|xs| - 1];
      KeptIndicesIncreasing(p, init);
      var ki := KeptIndices(p, init);
      assert forall k :: 0 <= k < |ki| ==> ki[k] < |init|;
    }
  }

  /** A position is in `KeptIndices` exactly when its element satisfies `p`. */
  lemma {:induction false} KeptIndicesExactly<T>(p: T -> bool, xs: seq<T>)
    ensures forall i :: 0 <= i < |xs| ==> (p(xs[i]) <==> i in KeptIndices(p, xs))
  {
    if xs != [] {
      var init := xs[..|xs| - 1];
      KeptIndicesExactly(p, init);
      assert forall i :: 0 <= i < |init| ==> init[i] == xs[i];
    }
  }

  /** `Filter` reads `xs` at the positions `KeptIndices` lists. */
  lemma {:induction false} FilterReadsKeptIndices<T>(p: T -> bool, xs: seq<T>)
    ensures |KeptIndices(p, xs)| == |Filter(p, xs)|
    ensures forall k :: 0 <= k < |Filter(p, xs)| ==> Filter(p, xs)[k] == xs[KeptIndices(p, xs)[k]]
  {
    if xs != [] {
      var init := xs[..|xs| - 1];
      FilterReadsKeptIndices(p, init);
      var ki, fi := KeptIndices(p, init), Filter(p, init);
      assert forall k :: 0 <= k < |fi| ==> fi[k] == init[ki[k]] == xs[ki[k]];
    }
  }

  /** The result of `Filter` is a subsequence of its input. */
  lemma FilterIsSubsequence<T>(p: T -> bool, xs: seq<T>)
    ensures IsSubsequence(Filter(p, xs), xs)
  {
    FilterSelectsKeptIndices(p, xs);
  }

  /** Predicates that agree on the elements of `xs` filter it alike. */
  lemma {:induction false} FilterAgree<T>(p: T -> bool, q: T -> bool, xs: seq<T>)
    requires forall x :: x in xs ==> p(x) == q(x)
    ensures Filter(p, xs) == Filter(q, xs)
  {
    if xs != [] {
      var init := xs[..|xs| - 1];
      assert forall x :: x in init ==> x in xs;
      FilterAgree(p, q, init);
    }
  }

  /** A predicate that holds everywhere keeps the whole sequence. */
  lemma {:induction false} FilterAll<T>(p: T -> bool, xs: seq<T>)
    requires forall x :: x in xs ==> p(x)
    ensures Filter(p, xs) == xs
  {
    if xs != [] {
      var init := xs[..|xs| - 1];
      FilterAll(p, init);
      assert xs == init + [xs[|xs| - 1]];
    }
  }

  /**
    Filtering by a stronger predicate `p` after a weaker `q` is the same as
    filtering by `p` alone.
   */
  lemma {:induction false} FilterOfFilter<T>(p: T -> bool, q: T -> bool, xs: seq<T>)
    requires forall x :: x in xs && p(x) ==> q(x)
    ensures Filter(p, Filter(q, xs)) == Filter(p, xs)
  {
    if xs != [] {
      var init, last := xs[..|xs| - 1], xs[|xs| - 1];
      assert xs == init + [last];
      FilterOfFilter(p, q, init);
      FilterAppend(p, Filter(q, init), if q(last) then [last] else []);
    }
  }

  /** Filtering front to back, as the iterator does, gives the same result. */
  lemma FilterCons<T>(p: T -> bool, x: T, xs: seq<T>)
    ensures Filter(p, [x] + xs) == (if p(x) then [x] else []) + Filter(p, xs)
  {
    var one: seq<T> := [x];
    assert one[..|one| - 1] == [];
    assert Filter(p, one) == (if p(x) then [x] else []);
    FilterAppend(p, one, xs);
  }

  /** Filtering distributes over concatenation. */
  lemma {:induction false} FilterAppend<T>(p: T -> bool, a: seq<T>, b: seq<T>)
    ensures Filter(p, a + b) == Filter(p, a) + Filter(p, b)
    decreases |b|
  {
    if b == [] {
      assert a + b == a;
    } else {
      var init := b[..|b| - 1];
      FilterAppend(p, a, init);
      assert (a + b)[..|a + b| - 1] == a + init;
    }
  }
}
