/** Sequence combinators shared by the views: `Array.prototype.filter`,
    `map`, and the interleaving that a lossy re-tokenisation produces. */
module Seqs {

  /** `a` can be obtained from `b` by deleting elements: nothing added,
      nothing reordered. */
  predicate IsSubsequence<T(==)>(a: seq<T>, b: seq<T>)
    decreases |b|
  {
    |a| == 0 || (|b| > 0 && ((a[0] == b[0] && IsSubsequence(a[1..], b[1..])) || IsSubsequence(a, b[1..])))
  }

  /** The elements of `xs` satisfying `p`, in their original order
      (`xs.filter(p)` in TypeScript, `iter().filter(p)` in Rust). */
  function Filter<T(==,!new)>(xs: seq<T>, p: T -> bool): (r: seq<T>)
    ensures IsSubsequence(r, xs)
    ensures forall i :: 0 <= i < |r| ==> p(r[i])
    decreases |xs|
  {
    if |xs| == 0 then []
    else
      var rest := Filter(xs[1..], p);
      if p(xs[0]) then
        var r := [xs[0]] + rest;
        assert r[1..] == rest;
        r
      else rest
  }

  /** A filter keeps every copy of an element satisfying `p` and no copy
      of any other. */
  lemma {:induction false} FilterMultiset<T(!new)>(xs: seq<T>, p: T -> bool)
    ensures forall x :: multiset(Filter(xs, p))[x] == if p(x) then multiset(xs)[x] else 0
    decreases |xs|
  {
    if |xs| > 0 {
      FilterMultiset(xs[1..], p);
      assert xs == [xs[0]] + xs[1..];
    }
  }

  /** Every element a filter keeps comes from its input. */
  lemma FilterElement<T(!new)>(xs: seq<T>, p: T -> bool, i: int)
    requires 0 <= i < |Filter(xs, p)|
    ensures Filter(xs, p)[i] in xs
  {
    var r := Filter(xs, p);
    FilterMultiset(xs, p);
    assert multiset(r)[r[i]] > 0;
  }

  /** Applies `f` to every element (`xs.map(f)`). */
  function Map<A, B>(xs: seq<A>, f: A --> B): (r: seq<B>)
    requires forall i :: 0 <= i < |xs| ==> f.requires(xs[i])
    ensures |r| == |xs|
    ensures forall i :: 0 <= i < |xs| ==> r[i] == f(xs[i])
  {
    seq(|xs|, i requires 0 <= i < |xs| => f(xs[i]))
  }

  /** `xs` with `filler` between every two neighbours:
      [x0, filler, x1, filler, ..., x(n-1)]. */
  function Spread<T>(xs: seq<T>, filler: T): (r: seq<T>)
    ensures |r| == if |xs| == 0 then 0 else 2 * |xs| - 1
    decreases |xs|
  {
    if |xs| <= 1 then xs else [xs[0], filler] + Spread(xs[1..], filler)
  }

  /** Mapping a spread sequence maps the elements and the filler. */
  lemma MapSpread<A, B>(xs: seq<A>, filler: A, f: A -> B)
    ensures Map(Spread(xs, filler), f) == Spread(Map(xs, f), f(filler))
  {
    var l := Map(Spread(xs, filler), f);
    var r := Spread(Map(xs, f), f(filler));
    forall k | 0 <= k < |l|
      ensures l[k] == r[k]
    {
      SpreadAt(xs, filler, k);
      SpreadAt(Map(xs, f), f(filler), k);
    }
  }

  /** Every position of a spread sequence: an element at an even index,
      the filler at an odd one. */
  lemma SpreadAt<T>(xs: seq<T>, filler: T, k: int)
    requires 0 <= k < |Spread(xs, filler)|
    ensures k % 2 == 0 ==> k / 2 < |xs| && Spread(xs, filler)[k] == xs[k / 2]
    ensures k % 2 == 1 ==> Spread(xs, filler)[k] == filler
  {
    if k % 2 == 0 {
      SpreadEven(xs, filler, k / 2);
    } else {
      SpreadOdd(xs, filler, k / 2);
    }
  }

  /** Element `j` sits at index `2 * j`. */
  lemma {:induction false} SpreadEven<T>(xs: seq<T>, filler: T, j: int)
    requires 0 <= j < |xs|
    ensures 2 * j < |Spread(xs, filler)| && Spread(xs, filler)[2 * j] == xs[j]
    decreases |xs|
  {
    if j > 0 {
      SpreadEven(xs[1..], filler, j - 1);
    }
  }

  /** The filler after element `j` sits at index `2 * j + 1`. */
  lemma {:induction false} SpreadOdd<T>(xs: seq<T>, filler: T, j: int)
    requires 0 <= j && j + 1 < |xs|
    ensures Spread(xs, filler)[2 * j + 1] == filler
    decreases |xs|
  {
    if j > 0 {
      SpreadOdd(xs[1..], filler, j - 1);
    }
  }

  /** A filter that keeps everything is the identity. */
  lemma {:induction false} FilterKeepsAll<T(!new)>(xs: seq<T>, p: T -> bool)
    requires forall i :: 0 <= i < |xs| ==> p(xs[i])
    ensures Filter(xs, p) == xs
    decreases |xs|
  {
    if |xs| > 0 {
      FilterKeepsAll(xs[1..], p);
    }
  }

  /** A filter that keeps nothing yields the empty sequence. */
  lemma {:induction false} FilterKeepsNone<T(!new)>(xs: seq<T>, p: T -> bool)
    requires forall i :: 0 <= i < |xs| ==> !p(xs[i])
    ensures Filter(xs, p) == []
    decreases |xs|
  {
    if |xs| > 0 {
      FilterKeepsNone(xs[1..], p);
    }
  }

  /** Filtering twice with the same predicate changes nothing the second time. */
  lemma FilterIdempotent<T(!new)>(xs: seq<T>, p: T -> bool)
    ensures Filter(Filter(xs, p), p) == Filter(xs, p)
  {
    FilterKeepsAll(Filter(xs, p), p);
  }

  /** Filtering with a weaker predicate first and the stronger one second is
      the same as filtering with the stronger one alone. */
  lemma {:induction false} FilterNarrowing<T(!new)>(xs: seq<T>, weak: T -> bool, strong: T -> bool)
    requires forall i :: 0 <= i < |xs| ==> strong(xs[i]) ==> weak(xs[i])
    ensures Filter(Filter(xs, weak), strong) == Filter(xs, strong)
    decreases |xs|
  {
    if |xs| > 0 {
      FilterNarrowing(xs[1..], weak, strong);
      var rest := Filter(xs[1..], weak);
      if weak(xs[0]) {
        var w := [xs[0]] + rest;
        assert w[1..] == rest;
      }
    }
  }

  /** Every element goes to exactly one side of `p`. */
  lemma {:induction false} FilterPartition<T(!new)>(xs: seq<T>, p: T -> bool)
    ensures |Filter(xs, p)| + |Filter(xs, x => !p(x))| == |xs|
    ensures multiset(Filter(xs, p)) + multiset(Filter(xs, x => !p(x))) == multiset(xs)
    decreases |xs|
  {
    if |xs| > 0 {
      FilterPartition(xs[1..], p);
      assert xs == [xs[0]] + xs[1..];
    }
  }

  /** Filtering commutes with concatenation. */
  lemma {:induction false} FilterConcat<T(!new)>(a: seq<T>, b: seq<T>, p: T -> bool)
    ensures Filter(a + b, p) == Filter(a, p) + Filter(b, p)
    decreases |a|
  {
    if |a| > 0 {
      assert (a + b)[1..] == a[1..] + b;
      FilterConcat(a[1..], b, p);
    } else {
      assert a + b == b;
    }
  }

  /** No element of `xs` satisfies `p` (in context `c`). */
  predicate NoneSatisfy<C, T(==)>(c: C, xs: seq<T>, p: (C, T) -> bool) {
    forall y :: y in xs ==> !p(c, y)
  }

  /** `xs[k]` is the last element of `xs` satisfying `p`. */
  predicate LastSatisfying<C, T(==)>(c: C, xs: seq<T>, k: int, p: (C, T) -> bool) {
    0 <= k < |xs| && p(c, xs[k]) && NoneSatisfy(c, xs[k + 1..], p)
  }

  /** `xs[k]` is the first element of `xs` satisfying `p`. */
  predicate FirstSatisfying<C, T(==)>(c: C, xs: seq<T>, k: int, p: (C, T) -> bool) {
    0 <= k < |xs| && p(c, xs[k]) && NoneSatisfy(c, xs[..k], p)
  }

  lemma NoneSatisfyCons<C, T>(c: C, x: T, xs: seq<T>, p: (C, T) -> bool)
    ensures NoneSatisfy(c, [x] + xs, p) <==> !p(c, x) && NoneSatisfy(c, xs, p)
  {
  }

  lemma LastSatisfyingHead<C, T>(c: C, x: T, xs: seq<T>, p: (C, T) -> bool)
    ensures LastSatisfying(c, [x] + xs, 0, p) <==> p(c, x) && NoneSatisfy(c, xs, p)
  {
    assert ([x] + xs)[1..] == xs;
  }

  lemma LastSatisfyingTail<C, T>(c: C, x: T, xs: seq<T>, k: int, p: (C, T) -> bool)
    requires 0 <= k < |xs|
    ensures LastSatisfying(c, [x] + xs, k + 1, p) <==> LastSatisfying(c, xs, k, p)
  {
    assert ([x] + xs)[k + 2..] == xs[k + 1..];
  }

  lemma FirstSatisfyingHead<C, T>(c: C, x: T, xs: seq<T>, p: (C, T) -> bool)
    ensures FirstSatisfying(c, [x] + xs, 0, p) <==> p(c, x)
  {
    assert ([x] + xs)[..0] == [];
  }

  lemma FirstSatisfyingTail<C, T>(c: C, x: T, xs: seq<T>, k: int, p: (C, T) -> bool)
    requires 0 <= k < |xs|
    ensures FirstSatisfying(c, [x] + xs, k + 1, p) <==> !p(c, x) && FirstSatisfying(c, xs, k, p)
  {
    assert ([x] + xs)[..k + 1] == [x] + xs[..k];
    NoneSatisfyCons(c, x, xs[..k], p);
  }
}
