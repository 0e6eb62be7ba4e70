/**
  Merging in any order: folds whose steps commute, and maps that must agree where they overlap.

  A fold of commuting steps depends on which elements it is given and not on their order,
  also where a step can refuse.
 */
module Merging {
  import opened Ids

  function Then<S, A>(step: (S, A) -> Option<S>, s: Option<S>, a: A): Option<S> {
    if s.None? then None else step(s.value, a)
  }

  /** Applies a step to each element in turn; a step that fails fails the whole. */
  function FoldAll<S, A>(step: (S, A) -> Option<S>, s: S, xs: seq<A>): Option<S> {
    if xs == [] then Some(s) else Then(step, FoldAll(step, s, xs[..|xs| - 1]), xs[|xs| - 1])
  }

  /** Two steps in either order come to the same, from every state of the invariant. */
  ghost predicate Commutes<S(!new), A(!new)>(step: (S, A) -> Option<S>, inv: S -> bool) {
    && (forall s, a :: inv(s) && step(s, a).Some? ==> inv(step(s, a).value))
    && (forall s, a, b :: inv(s) ==> Then(step, step(s, a), b) == Then(step, step(s, b), a))
  }

  lemma {:induction false} FoldKeeps<S(!new), A(!new)>(step: (S, A) -> Option<S>, inv: S -> bool, s: S, xs: seq<A>)
    requires Commutes(step, inv) && inv(s)
    ensures FoldAll(step, s, xs).Some? ==> inv(FoldAll(step, s, xs).value)
  {
    if xs != [] { FoldKeeps(step, inv, s, xs[..|xs| - 1]); }
  }

  lemma {:induction false} FoldConcat<S, A>(step: (S, A) -> Option<S>, s: S, xs: seq<A>, ys: seq<A>)
    ensures FoldAll(step, s, xs + ys) ==
              if FoldAll(step, s, xs).None? then None else FoldAll(step, FoldAll(step, s, xs).value, ys)
  {
    if ys == [] {
      assert xs + ys == xs;
    } else {
      assert (xs + ys)[..|xs + ys| - 1] == xs + ys[..|ys| - 1];
      FoldConcat(step, s, xs, ys[..|ys| - 1]);
    }
  }

  function Without<A>(xs: seq<A>, j: nat): seq<A>
    requires j < |xs|
  {
    xs[..j] + xs[j + 1..]
  }

  /** An element can be taken last wherever it stands. */
  lemma {:induction false} TakenLast<S(!new), A(!new)>(step: (S, A) -> Option<S>, inv: S -> bool, s: S, xs: seq<A>, j: nat)
    requires Commutes(step, inv) && inv(s) && j < |xs|
    ensures FoldAll(step, s, xs) == Then(step, FoldAll(step, s, Without(xs, j)), xs[j])
  {
    var n := |xs| - 1;
    if j == n {
      assert Without(xs, j) == xs[..n];
    } else {
      TakenLast(step, inv, s, xs[..n], j);
      var rest := Without(xs[..n], j);
      assert Without(xs, j)[..n - 1] == rest && Without(xs, j)[n - 1] == xs[n];
      FoldKeeps(step, inv, s, rest);
    }
  }

  lemma {:induction false} WithoutMultiset<A>(xs: seq<A>, j: nat)
    requires j < |xs|
    ensures multiset(Without(xs, j)) == multiset(xs) - multiset{xs[j]}
  {
    assert xs == xs[..j] + [xs[j]] + xs[j + 1..];
  }

  /** A fold of commuting steps depends on which elements there are, not on their order. */
  lemma {:induction false} AnyOrder<S(!new), A(!new)>(step: (S, A) -> Option<S>, inv: S -> bool, s: S, xs: seq<A>, ys: seq<A>)
    requires Commutes(step, inv) && inv(s) && multiset(xs) == multiset(ys)
    ensures FoldAll(step, s, xs) == FoldAll(step, s, ys)
  {
    if xs == [] {
      assert |multiset(ys)| == 0;
    } else {
      var n := |xs| - 1;
      assert xs[n] in multiset(ys);
      var j :| 0 <= j < |ys| && ys[j] == xs[n];
      TakenLast(step, inv, s, ys, j);
      WithoutMultiset(ys, j);
      WithoutMultiset(xs, n);
      assert Without(xs, n) == xs[..n];
      AnyOrder(step, inv, s, xs[..n], Without(ys, j));
    }
  }

  /** Two lists, one after the other. */
  function FoldTwice<S, A>(step: (S, A) -> Option<S>, s: S, xs: seq<A>, ys: seq<A>): Option<S> {
    if FoldAll(step, s, xs).None? then None else FoldAll(step, FoldAll(step, s, xs).value, ys)
  }

  lemma EitherFirst<S(!new), A(!new)>(step: (S, A) -> Option<S>, inv: S -> bool, s: S, xs: seq<A>, ys: seq<A>)
    requires Commutes(step, inv) && inv(s)
    ensures FoldTwice(step, s, xs, ys) == FoldTwice(step, s, ys, xs)
  {
    FoldConcat(step, s, xs, ys);
    FoldConcat(step, s, ys, xs);
    AnyOrder(step, inv, s, xs + ys, ys + xs);
  }

  // ---------------------------------------------------------------- maps that must agree

  ghost predicate Agree<K, V>(m: map<K, V>, a: map<K, V>) {
    forall k | k in m && k in a :: m[k] == a[k]
  }

  /** The union of two maps, refused where they differ on a key. */
  ghost function MergeAgree<K, V>(m: map<K, V>, a: map<K, V>): Option<map<K, V>> {
    if Agree(m, a) then Some(m + a) else None
  }

  ghost function MergeNext<K, V>(m: Option<map<K, V>>, a: map<K, V>): Option<map<K, V>> {
    if m.None? then None else MergeAgree(m.value, a)
  }

  lemma MergeCommutes<K, V>(m: map<K, V>, a: map<K, V>, b: map<K, V>)
    ensures MergeNext(MergeAgree(m, a), b) == MergeNext(MergeAgree(m, b), a)
  {
    if Agree(m, a) && Agree(m, b) && Agree(a, b) {
      assert m + a + b == m + b + a;
    } else if Agree(m, a) && Agree(m, b) {
      var k :| k in a && k in b && a[k] != b[k];
      assert k in m + a && k in m + b;
    } else if Agree(m, a) {
      var k :| k in m && k in b && m[k] != b[k];
      assert k in m + a && (m + a)[k] == m[k];
    } else if Agree(m, b) {
      var k :| k in m && k in a && m[k] != a[k];
      assert k in m + b && (m + b)[k] == m[k];
    }
  }

  /** A fold that has failed stays failed. */
  lemma {:induction false} FailedStaysFailed<S, A>(step: (S, A) -> Option<S>, s: S, xs: seq<A>, n: nat)
    requires n <= |xs| && FoldAll(step, s, xs[..n]).None?
    ensures FoldAll(step, s, xs).None?
  {
    if n == |xs| {
      assert xs[..n] == xs;
    } else {
      assert xs[..|xs| - 1][..n] == xs[..n];
      FailedStaysFailed(step, s, xs[..|xs| - 1], n);
    }
  }

  lemma {:induction false} FoldNext<S, A>(step: (S, A) -> Option<S>, s: S, xs: seq<A>, n: nat)
    requires n < |xs|
    ensures FoldAll(step, s, xs[..n + 1]) == Then(step, FoldAll(step, s, xs[..n]), xs[n])
  {
    assert xs[..n + 1][..n] == xs[..n];
  }

  /** Part of the additions is in, part remains, and what is in agreed with what was there. */
  ghost predicate PartlyMerged<K(!new), V>(merged: map<K, V>, target: map<K, V>, additions: map<K, V>, remaining: set<K>) {
    && (forall k :: k in merged <==> k in target || (k in additions && k !in remaining))
    && (forall k | k in additions && k !in remaining :: merged[k] == additions[k] && (k in target ==> target[k] == additions[k]))
    && (forall k | k in target && (k !in additions || k in remaining) :: merged[k] == target[k])
  }

  lemma AllMerged<K(!new), V>(merged: map<K, V>, target: map<K, V>, additions: map<K, V>)
    requires PartlyMerged(merged, target, additions, {})
    ensures MergeAgree(target, additions) == Some(merged)
  {
    assert merged == target + additions;
  }

  /** Adding a map's entries one by one, in whatever order they come, refusing the first that differs. */
  method MergeInto<K(==,!new), V(==)>(target: map<K, V>, additions: map<K, V>) returns (merged: map<K, V>, ok: bool)
    ensures ok <==> Agree(target, additions)
    ensures ok ==> Some(merged) == MergeAgree(target, additions)
  {
    merged := target;
    var remaining := additions.Keys;
    while remaining != {}
      invariant remaining <= additions.Keys && PartlyMerged(merged, target, additions, remaining)
      decreases |remaining|
    {
      var k :| k in remaining;
      if k in merged && merged[k] != additions[k] { return merged, false; }
      merged := merged[k := additions[k]];
      remaining := remaining - {k};
    }
    AllMerged(merged, target, additions);
    ok := true;
  }
}
