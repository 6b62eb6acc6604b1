/** Order-preserving filtering of sequences, the shape of every
    "for x in xs: if ...: out.append(...)" loop of the filter. */
module Lists {
  import opened Wrappers

  /** The values `f` keeps, in the order of `xs`. */
  function FilterMap<T, U>(f: T -> Option<U>, xs: seq<T>): (r: seq<U>)
    ensures |r| <= |xs|
  {
    if xs == [] then []
    else
      var init := FilterMap(f, xs[..|xs| - 1]);
      match f(xs[|xs| - 1])
      case None => init
      case Some(y) => init + [y]
  }

  /** The positions of `xs` that `f` keeps, in increasing order. */
  function KeptIndices<T, U>(f: T -> Option<U>, xs: seq<T>): seq<nat>
  {
    if xs == [] then []
    else KeptIndices(f, xs[..|xs| - 1]) + (if f(xs[|xs| - 1]).Some? then [|xs| - 1] else [])
  }

  /** Position j of the output comes from input position Kept[j]. */
  lemma {:induction false} FilterMapAt<T, U>(f: T -> Option<U>, xs: seq<T>)
    ensures var kept := KeptIndices(f, xs);
      var out := FilterMap(f, xs);
      |kept| == |out| &&
      forall j :: 0 <= j < |kept| ==> kept[j] < |xs| && f(xs[kept[j]]) == Some(out[j])
  {
    if xs != [] {
      var init := xs[..|xs| - 1];
      FilterMapAt(f, init);
      var keptInit := KeptIndices(f, init);
      assert forall j :: 0 <= j < |keptInit| ==> xs[keptInit[j]] == init[keptInit[j]];
    }
  }

  /** The kept positions increase strictly and are exactly the positions `f` keeps. */
  lemma {:induction false} KeptIndicesExact<T, U>(f: T -> Option<U>, xs: seq<T>)
    ensures var kept := KeptIndices(f, xs);
      (forall j :: 0 <= j < |kept| ==> kept[j] < |xs|) &&
      (forall j, k :: 0 <= j < k < |kept| ==> kept[j] < kept[k]) &&
      (forall i :: 0 <= i < |xs| ==> (i in kept <==> f(xs[i]).Some?))
  {
    if xs != [] {
      var init := xs[..|xs| - 1];
      KeptIndicesExact(f, init);
      assert forall i :: 0 <= i < |init| ==> xs[i] == init[i];
    }
  }

  /** The elements of `xs` that satisfy `p`, in order (Python's
      `[x for x in xs if p(x)]`). */
  function Filter<T>(p: T -> bool, xs: seq<T>): (r: seq<T>)
    ensures |r| <= |xs|
    ensures forall k :: 0 <= k < |r| ==> p(r[k])
  {
    if xs == [] then []
    else
      var init := Filter(p, xs[..|xs| - 1]);
      var last := xs[|xs| - 1];
      if p(last) then init + [last] else init
  }

  /** Filtering one more element appends it when it satisfies `p`. */
  lemma FilterSnoc<T>(p: T -> bool, xs: seq<T>, x: T)
    ensures Filter(p, xs + [x]) == Filter(p, xs) + (if p(x) then [x] else [])
  {
    assert (xs + [x])[..|xs|] == xs;
  }

  /** Filtering keeps exactly the elements that satisfy `p`. */
  lemma {:induction false} FilterMembership<T>(p: T -> bool, xs: seq<T>)
    ensures forall x :: x in Filter(p, xs) <==> x in xs && p(x)
  {
    if xs != [] {
      var init := xs[..|xs| - 1];
      FilterMembership(p, init);
      assert xs == init + [xs[|xs| - 1]];
    }
  }

  /** `x` satisfies exactly one of `p`, `q` and `r`. */
  predicate ExactlyOne<T>(p: T -> bool, q: T -> bool, r: T -> bool, x: T)
  {
    (p(x) && !q(x) && !r(x)) || (!p(x) && q(x) && !r(x)) || (!p(x) && !q(x) && r(x))
  }

  /** When every element satisfies exactly one of `p`, `q` and `r`, the three
      filters together hold each element exactly as often as `xs` does. */
  lemma {:induction false} FilterPartition3<T>(p: T -> bool, q: T -> bool, r: T -> bool, xs: seq<T>)
    requires forall x :: x in xs ==> ExactlyOne(p, q, r, x)
    ensures multiset(Filter(p, xs) + Filter(q, xs) + Filter(r, xs)) == multiset(xs)
  {
    if xs != [] {
      var init := xs[..|xs| - 1];
      var last := xs[|xs| - 1];
      assert xs == init + [last];
      FilterPartition3(p, q, r, init);
      FilterSnoc(p, init, last);
      FilterSnoc(q, init, last);
      FilterSnoc(r, init, last);
      assert ExactlyOne(p, q, r, last);
      GrowOne(Filter(p, xs), Filter(p, init), Filter(q, xs), Filter(q, init), Filter(r, xs), Filter(r, init), last);
    }
  }

  /** Exactly one of three sequences grew by `x`. */
  lemma GrowOne<T>(a: seq<T>, a0: seq<T>, b: seq<T>, b0: seq<T>, c: seq<T>, c0: seq<T>, x: T)
    requires (a == a0 + [x] && b == b0 && c == c0) ||
             (a == a0 && b == b0 + [x] && c == c0) ||
             (a == a0 && b == b0 && c == c0 + [x])
    ensures multiset(a + b + c) == multiset(a0 + b0 + c0) + multiset{x}
  {
  }

  /** Nothing satisfies `p`, so nothing survives the filter. */
  lemma {:induction false} FilterNone<T>(p: T -> bool, xs: seq<T>)
    requires forall x :: x in xs ==> !p(x)
    ensures Filter(p, xs) == []
  {
    if xs != [] {
      var init := xs[..|xs| - 1];
      assert forall x :: x in init ==> x in xs;
      FilterNone(p, init);
    }
  }

  /** `a` can be obtained from `b` by deleting elements (matched from the back). */
  predicate IsSubsequence<T(==)>(a: seq<T>, b: seq<T>)
    decreases |b|
  {
    if a == [] then true
    else if b == [] then false
    else if a[|a| - 1] == b[|b| - 1] then IsSubsequence(a[..|a| - 1], b[..|b| - 1])
    else IsSubsequence(a, b[..|b| - 1])
  }

  /** Dropping the last element keeps a subsequence a subsequence. */
  lemma {:induction false} SubsequenceDropLast<T>(a: seq<T>, b: seq<T>)
    requires a != [] && IsSubsequence(a, b)
    ensures IsSubsequence(a[..|a| - 1], b)
    decreases |b|, 0
  {
    var a' := a[..|a| - 1];
    if a' != [] {
      if a[|a| - 1] == b[|b| - 1] {
        SubsequenceExtend(a', b[..|b| - 1], b[|b| - 1]);
        assert b == b[..|b| - 1] + [b[|b| - 1]];
      } else {
        SubsequenceDropLast(a, b[..|b| - 1]);
        SubsequenceExtend(a', b[..|b| - 1], b[|b| - 1]);
        assert b == b[..|b| - 1] + [b[|b| - 1]];
      }
    }
  }

  /** Appending to the larger sequence keeps a subsequence a subsequence. */
  lemma {:induction false} SubsequenceExtend<T>(a: seq<T>, b: seq<T>, x: T)
    requires IsSubsequence(a, b)
    ensures IsSubsequence(a, b + [x])
    decreases |b|, 1
  {
    assert (b + [x])[..|b|] == b;
    if a != [] && a[|a| - 1] == x {
      SubsequenceDropLast(a, b);
    }
  }

  /** A filter of a sequence is a subsequence of it. */
  lemma {:induction false} FilterIsSubsequence<T>(p: T -> bool, xs: seq<T>)
    ensures IsSubsequence(Filter(p, xs), xs)
  {
    if xs != [] {
      var init := xs[..|xs| - 1];
      var last := xs[|xs| - 1];
      FilterIsSubsequence(p, init);
      assert xs == init + [last];
      if p(last) {
        var r := Filter(p, init) + [last];
        assert r[..|r| - 1] == Filter(p, init);
      } else {
        SubsequenceExtend(Filter(p, init), init, last);
      }
    }
  }
}
