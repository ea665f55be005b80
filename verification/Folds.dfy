/** Left folds, and when the order of their operands does not matter. */
module Folds {

  function FoldBy<A, B>(f: (B, A) -> B, z: B, xs: seq<A>): B {
    if xs == [] then z else f(FoldBy(f, z, xs[..|xs| - 1]), xs[|xs| - 1])
  }

  /** Two consecutive operands may change places. */
  ghost predicate Swaps<A(!new), B(!new)>(f: (B, A) -> B) {
    forall b, x, y :: f(f(b, x), y) == f(f(b, y), x)
  }

  lemma {:induction false} MoveToEnd<A(!new), B(!new)>(f: (B, A) -> B, z: B, xs: seq<A>, i: nat)
    requires Swaps(f) && i < |xs|
    ensures FoldBy(f, z, xs) == f(FoldBy(f, z, xs[..i] + xs[i + 1..]), xs[i])
  {
    var last := |xs| - 1;
    if i == last {
      assert xs[..i] + xs[i + 1..] == xs[..last];
    } else {
      MoveToEnd(f, z, xs[..last], i);
      var rest := xs[..last][..i] + xs[..last][i + 1..];
      var through := xs[..i] + xs[i + 1..];
      assert through[..|through| - 1] == rest;
    }
  }

  lemma Without<A>(xs: seq<A>, i: nat)
    requires i < |xs|
    ensures multiset(xs) == multiset(xs[..i] + xs[i + 1..]) + multiset{xs[i]}
  {
    assert xs == xs[..i] + [xs[i]] + xs[i + 1..];
    assert multiset(xs) == multiset(xs[..i]) + multiset{xs[i]} + multiset(xs[i + 1..]);
    assert multiset(xs[..i] + xs[i + 1..]) == multiset(xs[..i]) + multiset(xs[i + 1..]);
  }

  lemma SameRest<A>(m: multiset<A>, n: multiset<A>, x: A)
    requires m + multiset{x} == n + multiset{x}
    ensures m == n
  {
    assert m == (m + multiset{x}) - multiset{x} && n == (n + multiset{x}) - multiset{x};
  }

  /** The last element of a permutation, found and removed. */
  lemma LastIn<A>(xs: seq<A>, ys: seq<A>) returns (i: nat)
    requires multiset(xs) == multiset(ys) && ys != []
    ensures i < |xs| && xs[i] == ys[|ys| - 1]
    ensures multiset(xs[..i] + xs[i + 1..]) == multiset(ys[..|ys| - 1])
  {
    var last := |ys| - 1;
    assert ys[last] in multiset(xs);
    i :| 0 <= i < |xs| && xs[i] == ys[last];
    Without(xs, i);
    Without(ys, last);
    assert ys[..last] + ys[last + 1..] == ys[..last];
    SameRest(multiset(xs[..i] + xs[i + 1..]), multiset(ys[..last]), ys[last]);
  }

  /** A fold whose operands may change places depends only on the multiset of its operands. */
  lemma {:induction false} FoldPermuted<A(!new), B(!new)>(f: (B, A) -> B, z: B, xs: seq<A>, ys: seq<A>)
    requires Swaps(f) && multiset(xs) == multiset(ys)
    ensures FoldBy(f, z, xs) == FoldBy(f, z, ys)
    decreases |ys|
  {
    if ys == [] {
      assert |multiset(xs)| == |xs|;
    } else {
      var i := LastIn(xs, ys);
      FoldPermuted(f, z, xs[..i] + xs[i + 1..], ys[..|ys| - 1]);
      MoveToEnd(f, z, xs, i);
    }
  }

  ghost predicate Distinct<A>(xs: seq<A>) {
    forall i, j :: 0 <= i < j < |xs| ==> xs[i] != xs[j]
  }

  lemma {:induction false} DistinctCount<A>(xs: seq<A>, x: A)
    requires Distinct(xs)
    ensures multiset(xs)[x] == if x in xs then 1 else 0
  {
    if xs != [] {
      var last := |xs| - 1;
      assert xs == xs[..last] + [xs[last]];
      DistinctCount(xs[..last], x);
    }
  }

  /** Duplicate-free lists with the same members are permutations of each other. */
  lemma SameMembers<A(!new)>(xs: seq<A>, ys: seq<A>)
    requires Distinct(xs) && Distinct(ys)
    requires forall x :: x in xs <==> x in ys
    ensures multiset(xs) == multiset(ys) && |xs| == |ys|
  {
    forall x: A ensures multiset(xs)[x] == multiset(ys)[x] {
      DistinctCount(xs, x);
      DistinctCount(ys, x);
    }
    assert |multiset(xs)| == |xs| && |multiset(ys)| == |ys|;
  }
}
