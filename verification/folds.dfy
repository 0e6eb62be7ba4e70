/**
  Filling a map along an order, each entry computed from the entries before it.

  A fold never revises an entry once it is filled, so a pass in dependency-first order
  reads of every dependency exactly what it ends up as.
 */
module Folds {
  import opened Ids

  function Fold<V>(step: (map<Id, V>, Id) -> V, order: seq<Id>, n: nat): (r: map<Id, V>)
    requires n <= |order|
  {
    if n == 0 then map[]
    else
      var before := Fold(step, order, n - 1);
      before[order[n - 1] := step(before, order[n - 1])]
  }

  lemma {:induction false} FoldKeys<V>(step: (map<Id, V>, Id) -> V, order: seq<Id>, n: nat)
    requires n <= |order|
    ensures forall a :: a in Fold(step, order, n) <==> exists j :: 0 <= j < n && order[j] == a
  {
    if n > 0 { FoldKeys(step, order, n - 1); }
  }

  lemma {:induction false} FoldNew<V>(step: (map<Id, V>, Id) -> V, order: seq<Id>, n: nat)
    requires Distinct(order) && n < |order|
    ensures order[n] !in Fold(step, order, n)
  {
    FoldKeys(step, order, n);
  }

  /** An entry once filled is not revised later. */
  lemma {:induction false} FoldKeeps<V>(step: (map<Id, V>, Id) -> V, order: seq<Id>, j: nat, n: nat)
    requires Distinct(order) && j < n <= |order|
    ensures order[j] in Fold(step, order, n)
    ensures Fold(step, order, n)[order[j]] == step(Fold(step, order, j), order[j])
    decreases n
  {
    if j < n - 1 {
      FoldKeeps(step, order, j, n - 1);
      assert order[j] != order[n - 1];
    }
  }
}
