/**
  Adding edges out of one node, to nodes that do not lead back to it, makes no cycle.

  Plan completion binds one stage at a time to producers that are not downstream of it, so
  every step of it is such an addition.
 */
module Completion {
  import opened Ids
  import opened Graphs

  /** `g'` is `g` with more dependencies for `self`. */
  ghost predicate Adds(g: Graph, self: Id, g': Graph) {
    && self in g
    && g'.Keys == g.Keys
    && (forall a | a in g && a != self :: g'[a] == g[a])
    && (forall d | d in g[self] :: d in g'[self])
  }

  /** And none of them leads back to it in `g`. */
  ghost predicate Extends(g: Graph, self: Id, g': Graph) {
    && Adds(g, self, g')
    && forall d | d in g'[self] && d !in g[self] :: d in g && d != self && !Reaches(g, d, self)
  }

  /** A path to `self` uses only old edges until it first arrives. */
  lemma {:induction false} PathToSelf(g: Graph, self: Id, g': Graph, p: seq<Id>)
    requires Extends(g, self, g') && IsPath(g', p)
    requires p[0] != self && p[|p| - 1] == self
    ensures Reaches(g, p[0], self)
    decreases |p|
  {
    assert Edge(g', p, 0);
    if p[1] == self {
      ReachesEdge(g, p[0], self);
    } else {
      WalkSlice(g', p, 1, |p|);
      assert p[1..|p|] == p[1..];
      PathToSelf(g, self, g', p[1..]);
      ReachesVia(g, p[0], p[1], self);
    }
  }

  lemma SelfNotOnCycle(g: Graph, self: Id, g': Graph)
    requires Extends(g, self, g') && Acyclic(g)
    ensures !Reaches(g', self, self)
  {
    if Reaches(g', self, self) {
      var d := ReachesFirst(g', self, self);
      if d != self {
        var p :| IsPath(g', p) && p[0] == d && p[|p| - 1] == self;
        PathToSelf(g, self, g', p);
      }
      if d in Deps(g, self) { ReachesVia(g, self, d, self); }
    }
  }

  lemma {:induction false} PathParts(g: Graph, p: seq<Id>, k: nat)
    requires IsPath(g, p) && 0 < k < |p| - 1
    ensures Reaches(g, p[0], p[k]) && Reaches(g, p[k], p[|p| - 1])
  {
    WalkSlice(g, p, k, |p|);
    assert IsPath(g, p[k..|p|]);
    WalkSlice(g, p, 0, k + 1);
    assert IsPath(g, p[0..k + 1]);
  }

  /** A cycle of the larger graph passes through `self` or is a cycle of the smaller one. */
  lemma {:induction false} CycleMeets(g: Graph, self: Id, g': Graph, p: seq<Id>)
    requires Extends(g, self, g') && IsPath(g', p) && p[0] == p[|p| - 1]
    ensures Reaches(g', self, self) || Reaches(g, p[0], p[0])
  {
    if k :| 0 <= k < |p| - 1 && p[k] == self {
      if k > 0 {
        PathParts(g', p, k);
        ReachesTransitive(g', self, p[0], self);
      }
    } else {
      forall i | 0 <= i < |p| - 1 ensures Edge(g, p, i) { assert Edge(g', p, i); }
      assert IsPath(g, p);
    }
  }

  lemma StaysAcyclic(g: Graph, self: Id, g': Graph)
    requires Extends(g, self, g') && Acyclic(g)
    ensures Acyclic(g')
  {
    SelfNotOnCycle(g, self, g');
    forall a ensures !Reaches(g', a, a) {
      if Reaches(g', a, a) {
        var p :| IsPath(g', p) && p[0] == a && p[|p| - 1] == a;
        CycleMeets(g, self, g', p);
      }
    }
  }

  lemma StaysClosed(g: Graph, self: Id, g': Graph)
    requires Extends(g, self, g') && Closed(g)
    ensures Closed(g')
  {
  }

  /** Every dependency of the one graph is a dependency of the other. */
  ghost predicate MoreEdges(g: Graph, h: Graph) {
    forall x, d | d in Deps(g, x) :: d in Deps(h, x)
  }

  lemma MoreEdgesReach(g: Graph, h: Graph, a: Id, b: Id)
    requires MoreEdges(g, h) && Reaches(g, a, b)
    ensures Reaches(h, a, b)
  {
    var p :| IsPath(g, p) && p[0] == a && p[|p| - 1] == b;
    forall i | 0 <= i < |p| - 1 ensures Edge(h, p, i) { assert Edge(g, p, i); }
    assert IsPath(h, p);
  }
}
