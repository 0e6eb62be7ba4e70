/**
  Dependency graphs: the one definition of "depends on" that work graphs and plans share.

  A node names the nodes it depends on, in the order and with the repeats its document states.
 */
module Graphs {
  import opened Ids

  datatype Node = Node(id: Id, dependsOn: seq<Id>)

  /** Each node's stated dependencies, by id. */
  type Graph = map<Id, seq<Id>>

  ghost predicate DistinctIds(nodes: seq<Node>) {
    forall i, j | 0 <= i < j < |nodes| :: nodes[i].id != nodes[j].id
  }

  function GraphOf(nodes: seq<Node>): (g: Graph) {
    if nodes == [] then map[]
    else
      var last := nodes[|nodes| - 1];
      GraphOf(nodes[..|nodes| - 1])[last.id := last.dependsOn]
  }

  /** Every entry was stated. */
  lemma {:induction false} EntryStated(nodes: seq<Node>, a: Id)
    requires a in GraphOf(nodes)
    ensures Node(a, GraphOf(nodes)[a]) in nodes
  {
    var n := |nodes| - 1;
    if nodes[n].id != a {
      EntryStated(nodes[..n], a);
      assert Node(a, GraphOf(nodes)[a]) in nodes[..n];
    } else {
      assert nodes[n] == Node(a, GraphOf(nodes)[a]);
    }
  }

  lemma {:induction false} NodeEntered(nodes: seq<Node>, i: nat)
    requires DistinctIds(nodes) && i < |nodes|
    ensures nodes[i].id in GraphOf(nodes) && GraphOf(nodes)[nodes[i].id] == nodes[i].dependsOn
  {
    var n := |nodes| - 1;
    if i < n { NodeEntered(nodes[..n], i); }
  }

  lemma {:induction false} AsManyEntries(nodes: seq<Node>)
    requires DistinctIds(nodes)
    ensures |GraphOf(nodes)| == |nodes|
  {
    if nodes != [] {
      var n := |nodes| - 1;
      AsManyEntries(nodes[..n]);
      if nodes[n].id in GraphOf(nodes[..n]) {
        EntryStated(nodes[..n], nodes[n].id);
      }
      OneMoreKey(GraphOf(nodes[..n]), nodes[n].id, nodes[n].dependsOn);
    }
  }

  lemma {:induction false} GraphOfNodes(nodes: seq<Node>)
    requires DistinctIds(nodes)
    ensures forall n | n in nodes :: n.id in GraphOf(nodes) && GraphOf(nodes)[n.id] == n.dependsOn
    ensures forall a | a in GraphOf(nodes) :: Node(a, GraphOf(nodes)[a]) in nodes
    ensures |GraphOf(nodes)| == |nodes|
  {
    forall n | n in nodes ensures n.id in GraphOf(nodes) && GraphOf(nodes)[n.id] == n.dependsOn {
      var i :| 0 <= i < |nodes| && nodes[i] == n;
      NodeEntered(nodes, i);
    }
    forall a | a in GraphOf(nodes) ensures Node(a, GraphOf(nodes)[a]) in nodes { EntryStated(nodes, a); }
    AsManyEntries(nodes);
  }

  lemma OneMoreKey(g: Graph, id: Id, deps: seq<Id>)
    requires id !in g
    ensures |g[id := deps]| == |g| + 1
  {
    assert g[id := deps].Keys == g.Keys + {id};
  }

  function Deps(g: Graph, a: Id): seq<Id> {
    if a in g then g[a] else []
  }

  ghost predicate Closed(g: Graph) {
    forall a, d | a in g && d in g[a] :: d in g
  }

  ghost predicate Edge(g: Graph, p: seq<Id>, i: int)
    requires 0 <= i < |p| - 1
  {
    p[i + 1] in Deps(g, p[i])
  }

  ghost predicate IsWalk(g: Graph, p: seq<Id>) {
    forall i | 0 <= i < |p| - 1 :: Edge(g, p, i)
  }

  /** A dependency path of at least one edge, from its first id to its last. */
  ghost predicate IsPath(g: Graph, p: seq<Id>) {
    |p| >= 2 && IsWalk(g, p)
  }

  /** `a` depends on `b`, directly or transitively. */
  ghost predicate Reaches(g: Graph, a: Id, b: Id) {
    exists p :: IsPath(g, p) && p[0] == a && p[|p| - 1] == b
  }

  ghost predicate Acyclic(g: Graph) {
    forall a :: !Reaches(g, a, a)
  }

  /** A graph whose edges all go down has no cycle. */
  lemma DescendingAcyclic(g: Graph)
    requires forall a, d | a in g && d in g[a] :: d < a
    ensures Acyclic(g)
  {
    forall a ensures !Reaches(g, a, a) {
      if Reaches(g, a, a) {
        var p :| IsPath(g, p) && p[0] == a && p[|p| - 1] == a;
        PathDescends(g, p, |p| - 1);
      }
    }
  }

  lemma {:induction false} PathDescends(g: Graph, p: seq<Id>, k: nat)
    requires (forall a, d | a in g && d in g[a] :: d < a) && IsPath(g, p) && 0 < k < |p|
    ensures p[k] < p[0]
  {
    assert Edge(g, p, k - 1);
    if k > 1 { PathDescends(g, p, k - 1); }
  }

  lemma ReachesEdge(g: Graph, a: Id, b: Id)
    requires b in Deps(g, a)
    ensures Reaches(g, a, b)
  {
    assert IsPath(g, [a, b]);
  }

  lemma {:induction false} WalkSlice(g: Graph, p: seq<Id>, i: nat, j: nat)
    requires IsWalk(g, p) && i <= j <= |p|
    ensures IsWalk(g, p[i..j])
  {
    var q := p[i..j];
    forall k | 0 <= k < |q| - 1 ensures Edge(g, q, k) {
      assert Edge(g, p, i + k);
    }
  }

  lemma {:induction false} WalkJoin(g: Graph, p: seq<Id>, q: seq<Id>)
    requires p != [] && q != [] && IsWalk(g, p) && IsWalk(g, q)
    requires q[0] in Deps(g, p[|p| - 1])
    ensures IsWalk(g, p + q)
  {
    var r := p + q;
    forall i | 0 <= i < |r| - 1 ensures Edge(g, r, i) {
      if i < |p| - 1 {
        assert Edge(g, p, i);
      } else if i >= |p| {
        assert Edge(g, q, i - |p|);
      }
    }
  }

  lemma ReachesTransitive(g: Graph, a: Id, b: Id, c: Id)
    requires Reaches(g, a, b) && Reaches(g, b, c)
    ensures Reaches(g, a, c)
  {
    var p :| IsPath(g, p) && p[0] == a && p[|p| - 1] == b;
    var q :| IsPath(g, q) && q[0] == b && q[|q| - 1] == c;
    assert Edge(g, q, 0);
    WalkSlice(g, q, 1, |q|);
    assert q[1..|q|] == q[1..];
    WalkJoin(g, p, q[1..]);
    assert IsPath(g, p + q[1..]);
  }

  /** The first edge of a path, and what remains. */
  lemma ReachesFirst(g: Graph, a: Id, b: Id) returns (d: Id)
    requires Reaches(g, a, b)
    ensures d in Deps(g, a) && (d == b || Reaches(g, d, b))
  {
    var p :| IsPath(g, p) && p[0] == a && p[|p| - 1] == b;
    d := p[1];
    assert Edge(g, p, 0);
    if |p| > 2 {
      WalkSlice(g, p, 1, |p|);
      assert p[1..|p|] == p[1..];
      assert IsPath(g, p[1..]);
    }
  }

  lemma ReachesVia(g: Graph, a: Id, d: Id, b: Id)
    requires d in Deps(g, a) && (d == b || Reaches(g, d, b))
    ensures Reaches(g, a, b)
  {
    ReachesEdge(g, a, d);
    if d != b { ReachesTransitive(g, a, d, b); }
  }

  /** A set closed under dependencies contains everything its members depend on. */
  lemma {:induction false} ClosedUnderReach(g: Graph, s: set<Id>, a: Id, b: Id)
    requires forall x, d | x in s && d in Deps(g, x) :: d in s
    requires a in s && Reaches(g, a, b)
    ensures b in s
  {
    var p :| IsPath(g, p) && p[0] == a && p[|p| - 1] == b;
    PathStays(g, s, p, |p| - 1);
  }

  lemma {:induction false} PathStays(g: Graph, s: set<Id>, p: seq<Id>, k: nat)
    requires forall x, d | x in s && d in Deps(g, x) :: d in s
    requires IsPath(g, p) && p[0] in s && k < |p|
    ensures p[k] in s
  {
    if k > 0 {
      PathStays(g, s, p, k - 1);
      assert Edge(g, p, k - 1);
    }
  }

  /** `x` depends on some member of `s`. */
  ghost predicate DependsInto(g: Graph, s: set<Id>, x: Id) {
    exists d :: d in Deps(g, x) && d in s
  }

  /** Walking inside a finite set that always offers a next step returns to a visited id. */
  lemma {:induction false} WalkFindsCycle(g: Graph, s: set<Id>, walk: seq<Id>) returns (c: Id)
    requires forall x {:trigger DependsInto(g, s, x)} | x in s :: DependsInto(g, s, x)
    requires walk != [] && Distinct(walk) && forall x | x in walk :: x in s
    requires IsWalk(g, walk)
    ensures c in s && Reaches(g, c, c)
    ensures c == walk[0] || Reaches(g, walk[0], c)
    decreases |s| - |walk|
  {
    DistinctFits(walk, s);
    assert walk[|walk| - 1] in walk;
    assert DependsInto(g, s, walk[|walk| - 1]);
    var d :| d in Deps(g, walk[|walk| - 1]) && d in s;
    WalkJoin(g, walk, [d]);
    if d in walk {
      c := d;
      WalkReturns(g, walk, d);
    } else {
      DistinctFits(walk + [d], s);
      c := WalkFindsCycle(g, s, walk + [d]);
    }
  }

  lemma {:induction false} WalkReturns(g: Graph, walk: seq<Id>, d: Id)
    requires walk != [] && IsWalk(g, walk) && d in walk
    requires d in Deps(g, walk[|walk| - 1])
    ensures Reaches(g, d, d)
    ensures d == walk[0] || Reaches(g, walk[0], d)
  {
    var i :| 0 <= i < |walk| && walk[i] == d;
    WalkSlice(g, walk, i, |walk|);
    assert walk[i..|walk|] == walk[i..];
    WalkJoin(g, walk[i..], [d]);
    assert IsPath(g, walk[i..] + [d]);
    if i > 0 {
      WalkSlice(g, walk, 0, i + 1);
      assert IsPath(g, walk[0..i + 1]);
    }
  }

  lemma {:induction false} DistinctFits(a: seq<Id>, s: set<Id>)
    requires Distinct(a) && forall x | x in a :: x in s
    ensures |a| <= |s|
    ensures |a| == |s| ==> forall x | x in s :: x in a
  {
    if a != [] {
      var last := a[|a| - 1];
      var rest := a[..|a| - 1];
      assert forall x | x in rest :: x in s - {last};
      DistinctFits(rest, s - {last});
      assert a == rest + [last];
    } else if |s| == 0 {
      assert s == {};
    }
  }
}
