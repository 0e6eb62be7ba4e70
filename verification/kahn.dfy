/** The deterministic dependency-first order, always the least ready node next, and the counting loops that compute it. */
module Kahn {
  import opened Ids
  import opened Graphs

  function ReadySet(g: Graph, done: set<Id>): (r: set<Id>) {
    set a | a in g.Keys && a !in done && forall d | d in g[a] :: d in done
  }

  function OrderFrom(g: Graph, done: set<Id>): (r: seq<Id>)
    decreases g.Keys - done
  {
    var ready := ReadySet(g, done);
    if ready == {} then []
    else
      var a := Least(ready);
      assert a in g.Keys - done && a !in g.Keys - (done + {a});
      [a] + OrderFrom(g, done + {a})
  }

  function Order(g: Graph): (r: seq<Id>) {
    OrderFrom(g, {})
  }

  /** The nodes the order reaches. */
  ghost function Settled(g: Graph): set<Id> {
    Elements(Order(g))
  }

  lemma {:induction false} OrderFromElements(g: Graph, done: set<Id>)
    ensures Distinct(OrderFrom(g, done))
    ensures forall x | x in OrderFrom(g, done) :: x in g && x !in done
    decreases g.Keys - done
  {
    if ReadySet(g, done) != {} {
      var a := Least(ReadySet(g, done));
      assert a in g.Keys - done && a !in g.Keys - (done + {a});
      OrderFromElements(g, done + {a});
    }
  }

  /** Everything before each entry, with what was done at the start, covers its dependencies. */
  lemma {:induction false} OrderFromDependencies(g: Graph, done: set<Id>, i: nat, d: Id)
    requires i < |OrderFrom(g, done)|
    requires d in Deps(g, OrderFrom(g, done)[i])
    ensures d in done || d in OrderFrom(g, done)[..i]
    decreases i
  {
    var a := Least(ReadySet(g, done));
    if i > 0 {
      var rest := OrderFrom(g, done + {a});
      OrderFromDependencies(g, done + {a}, i - 1, d);
      assert OrderFrom(g, done)[..i] == [a] + rest[..i - 1];
    }
  }

  /** When the order stops, nothing is ready. */
  lemma {:induction false} OrderFromExhausts(g: Graph, done: set<Id>)
    ensures ReadySet(g, done + Elements(OrderFrom(g, done))) == {}
    decreases g.Keys - done
  {
    if ReadySet(g, done) == {} {
      assert done + Elements(OrderFrom(g, done)) == done;
    } else {
      var a := Least(ReadySet(g, done));
      assert a in g.Keys - done && a !in g.Keys - (done + {a});
      OrderFromExhausts(g, done + {a});
      assert done + Elements(OrderFrom(g, done)) == (done + {a}) + Elements(OrderFrom(g, done + {a}));
    }
  }

  // ---------------------------------------------------------------- which nodes settle

  /** `a` is, or depends on, a node on a cycle or a node the graph does not have. */
  ghost predicate Doomed(g: Graph, a: Id) {
    exists c :: (c == a || Reaches(g, a, c)) && (c !in g || Reaches(g, c, c))
  }

  lemma SettledIsClosed(g: Graph, a: Id, d: Id)
    requires a in Settled(g) && d in Deps(g, a)
    ensures d in Settled(g)
  {
    var i :| 0 <= i < |Order(g)| && Order(g)[i] == a;
    OrderFromDependencies(g, {}, i, d);
  }

  /** Dependencies come strictly earlier in the order, directly or transitively. */
  lemma {:induction false} ReachesEarlier(g: Graph, i: nat, b: Id)
    requires i < |Order(g)| && Reaches(g, Order(g)[i], b)
    ensures b in Order(g)[..i]
    decreases i
  {
    var d := ReachesFirst(g, Order(g)[i], b);
    OrderFromDependencies(g, {}, i, d);
    if d != b {
      var j :| 0 <= j < i && Order(g)[j] == d;
      ReachesEarlier(g, j, b);
    }
  }

  lemma SettledNotDoomed(g: Graph, a: Id)
    requires a in Settled(g)
    ensures !Doomed(g, a)
  {
    OrderFromElements(g, {});
    forall c | c == a || Reaches(g, a, c) ensures c in g && !Reaches(g, c, c) {
      if c != a {
        assert forall x, d | x in Settled(g) && d in Deps(g, x) :: d in Settled(g) by {
          forall x, d | x in Settled(g) && d in Deps(g, x) ensures d in Settled(g) { SettledIsClosed(g, x, d); }
        }
        ClosedUnderReach(g, Settled(g), a, c);
      }
      var i :| 0 <= i < |Order(g)| && Order(g)[i] == c;
      if Reaches(g, c, c) {
        ReachesEarlier(g, i, c);
        assert false;
      }
    }
  }

  lemma UnsettledDoomed(g: Graph, a: Id)
    requires a in g && a !in Settled(g)
    ensures Doomed(g, a)
  {
    if !Doomed(g, a) {
      var s := set x | x in g.Keys && x !in Settled(g) && (x == a || Reaches(g, a, x));
      assert IsWalk(g, [a]);
      forall x | x in s ensures DependsInto(g, s, x) {
        OrderFromExhausts(g, {});
        assert {} + Elements(OrderFrom(g, {})) == Settled(g);
        assert x !in ReadySet(g, Settled(g));
        var d :| d in g[x] && d !in Settled(g);
        ReachesEdge(g, x, d);
        if x != a { ReachesTransitive(g, a, x, d); }
        assert d in g;
      }
      var c := WalkFindsCycle(g, s, [a]);
    }
  }

  /**
    The order reaches exactly the nodes that lead to no cycle and no missing node. On a
    closed graph the nodes it leaves out, which the refusal names, are exactly those on or
    depending on a cycle.
   */
  lemma SettledExactly(g: Graph, a: Id)
    requires a in g
    ensures a in Settled(g) <==> !Doomed(g, a)
    ensures Closed(g) ==> (a in Settled(g) <==>
              !exists c :: (c == a || Reaches(g, a, c)) && Reaches(g, c, c))
  {
    if a in Settled(g) { SettledNotDoomed(g, a); } else { UnsettledDoomed(g, a); }
    if Closed(g) {
      forall c | Reaches(g, a, c) ensures c in g { ClosedUnderReach(g, g.Keys, a, c); }
    }
  }

  lemma OrderLength(g: Graph)
    ensures Distinct(Order(g)) && forall x | x in Order(g) :: x in g
    ensures |Order(g)| <= |g|
    ensures |Order(g)| == |g| <==> Settled(g) == g.Keys
  {
    OrderFromElements(g, {});
    DistinctFits(Order(g), g.Keys);
    if Settled(g) == g.Keys {
      DistinctCardinality(Order(g));
    } else if |Order(g)| == |g| {
      assert forall x | x in g.Keys :: x in Order(g);
    }
  }

  lemma {:induction false} DistinctCardinality(s: seq<Id>)
    requires Distinct(s)
    ensures |Elements(s)| == |s|
  {
    if s != [] {
      var rest := s[..|s| - 1];
      DistinctCardinality(rest);
      assert s == rest + [s[|s| - 1]];
      assert Elements(s) == Elements(rest) + {s[|s| - 1]};
    } else {
      assert Elements(s) == {};
    }
  }

  /** On a closed graph the order is complete exactly when the graph has no cycle. */
  lemma CompleteIffAcyclic(g: Graph)
    requires Closed(g)
    ensures |Order(g)| == |g| <==> Acyclic(g)
  {
    OrderLength(g);
    if Settled(g) == g.Keys {
      forall a ensures !Reaches(g, a, a) {
        if Reaches(g, a, a) {
          var d := ReachesFirst(g, a, a);
          SettledExactly(g, a);
        }
      }
    }
    if Acyclic(g) {
      forall a | a in g ensures a in Settled(g) { SettledExactly(g, a); }
      assert Settled(g) == g.Keys;
    }
  }

  // ---------------------------------------------------------------- which order it is

  /** A listing of every node, each after everything it depends on. */
  ghost predicate DependencyFirst(g: Graph, order: seq<Id>) {
    && Distinct(order)
    && Elements(order) == g.Keys
    && forall i, d | 0 <= i < |order| && d in Deps(g, order[i]) :: d in order[..i]
  }

  lemma OrderIsDependencyFirst(g: Graph)
    requires |Order(g)| == |g|
    ensures DependencyFirst(g, Order(g))
  {
    OrderLength(g);
    forall i, d | 0 <= i < |Order(g)| && d in Deps(g, Order(g)[i]) ensures d in Order(g)[..i] {
      OrderFromDependencies(g, {}, i, d);
    }
  }

  /** Lexicographic comparison of listings of the same length. */
  ghost predicate NotAfter(a: seq<Id>, b: seq<Id>)
    requires |a| == |b|
  {
    a == b || exists k :: 0 <= k < |a| && a[..k] == b[..k] && a[k] < b[k]
  }

  lemma {:induction false} NextIsReady(g: Graph, other: seq<Id>, k: nat)
    requires DependencyFirst(g, other) && k < |other|
    ensures other[k] in ReadySet(g, Elements(other[..k]))
  {
    assert other[k] in Elements(other);
    assert forall d | d in g[other[k]] :: d in Deps(g, other[k]) && d in other[..k];
    assert forall j | 0 <= j < k :: other[j] != other[k];
  }

  /** Each entry is the least node ready when it is taken. */
  lemma {:induction false} OrderIsGreedy(g: Graph, done: set<Id>, i: nat)
    requires i < |OrderFrom(g, done)|
    ensures ReadySet(g, done + Elements(OrderFrom(g, done)[..i])) != {}
    ensures OrderFrom(g, done)[i] == Least(ReadySet(g, done + Elements(OrderFrom(g, done)[..i])))
    decreases i
  {
    var a := Least(ReadySet(g, done));
    if i == 0 {
      assert done + Elements(OrderFrom(g, done)[..0]) == done;
    } else {
      var rest := OrderFrom(g, done + {a});
      OrderIsGreedy(g, done + {a}, i - 1);
      assert OrderFrom(g, done)[..i] == [a] + rest[..i - 1];
      assert done + Elements(OrderFrom(g, done)[..i]) == done + {a} + Elements(rest[..i - 1]);
    }
  }

  lemma {:induction false} FirstDifference(a: seq<Id>, b: seq<Id>) returns (k: nat)
    requires |a| == |b| && a != b
    ensures k < |a| && a[..k] == b[..k] && a[k] != b[k]
  {
    if a[0] != b[0] {
      k := 0;
    } else {
      assert a == [a[0]] + a[1..] && b == [b[0]] + b[1..];
      var j := FirstDifference(a[1..], b[1..]);
      k := j + 1;
      assert a[..k] == [a[0]] + a[1..][..j] && b[..k] == [b[0]] + b[1..][..j];
    }
  }

  /**
    The least dependency-first order. There is at most one such order, so it depends on the
    graph alone and not on the order its nodes were stated in.
   */
  lemma {:induction false} OrderIsLeast(g: Graph, other: seq<Id>)
    requires |Order(g)| == |g| && DependencyFirst(g, other)
    ensures |other| == |Order(g)| && NotAfter(Order(g), other)
  {
    DistinctCardinality(other);
    if Order(g) != other {
      var k := FirstDifference(Order(g), other);
      NextIsReady(g, other, k);
      OrderIsGreedy(g, {}, k);
      assert {} + Elements(OrderFrom(g, {})[..k]) == Elements(other[..k]);
    }
  }

  // ---------------------------------------------------------------- the counting loops

  /** How many entries of a dependency list are not done yet. */
  function Outstanding(deps: seq<Id>, done: set<Id>): (n: nat)
    ensures n == 0 <==> forall d | d in deps :: d in done
  {
    if deps == [] then 0
    else Outstanding(deps[..|deps| - 1], done) + if deps[|deps| - 1] in done then 0 else 1
  }

  lemma {:induction false} OutstandingDrops(deps: seq<Id>, done: set<Id>, id: Id)
    requires id !in done
    ensures Outstanding(deps, done) == Outstanding(deps, done + {id}) + multiset(deps)[id]
  {
    if deps != [] {
      OutstandingDrops(deps[..|deps| - 1], done, id);
      assert deps == deps[..|deps| - 1] + [deps[|deps| - 1]];
    }
  }

  lemma {:induction false} OutstandingAll(deps: seq<Id>)
    ensures Outstanding(deps, {}) == |deps|
  {
    if deps != [] { OutstandingAll(deps[..|deps| - 1]); }
  }

  ghost predicate CountsMatch(g: Graph, done: set<Id>, remaining: map<Id, int>) {
    && remaining.Keys == g.Keys
    && forall a | a in g :: remaining[a] == Outstanding(g[a], done)
  }

  ghost predicate DependentsMatch(g: Graph, dependents: map<Id, seq<Id>>) {
    forall d, a :: multiset(Deps(dependents, d))[a] == multiset(Deps(g, a))[d]
  }

  /** `dependents` while the entries of one more node are being filed. */
  ghost predicate Filing(g: Graph, id: Id, filed: seq<Id>, dependents: map<Id, seq<Id>>) {
    forall d, a :: multiset(Deps(dependents, d))[a] ==
        multiset(Deps(g, a))[d] + if a == id then multiset(filed)[d] else 0
  }

  ghost predicate Named(nodes: seq<Node>, id: Id) {
    exists i :: 0 <= i < |nodes| && nodes[i].id == id
  }

  /** What the counting maps hold whether or not ids repeat: only stated ids, and no negative count. */
  ghost predicate CountsOnly(nodes: seq<Node>, remaining: map<Id, int>, dependents: map<Id, seq<Id>>) {
    && (forall a :: a in remaining <==> Named(nodes, a))
    && (forall a | a in remaining :: remaining[a] >= 0)
    && forall d, a | a in Deps(dependents, d) :: Named(nodes, a)
  }

  /** Fills `remaining` and `dependents` from the stated nodes. */
  method CountDependencies(nodes: seq<Node>) returns (remaining: map<Id, int>, dependents: map<Id, seq<Id>>)
    ensures DistinctIds(nodes) ==> CountsMatch(GraphOf(nodes), {}, remaining) && DependentsMatch(GraphOf(nodes), dependents)
    ensures CountsOnly(nodes, remaining, dependents)
  {
    remaining, dependents := map[], map[];
    for i := 0 to |nodes|
      invariant DistinctIds(nodes) ==> CountsMatch(GraphOf(nodes[..i]), {}, remaining) && DependentsMatch(GraphOf(nodes[..i]), dependents)
      invariant CountsOnly(nodes[..i], remaining, dependents)
    {
      var node := nodes[i];
      ghost var before := GraphOf(nodes[..i]);
      if DistinctIds(nodes) {
        OneMoreNode(nodes, i);
        OneMoreCount(before, node, remaining);
      }
      ghost var listed := dependents;
      dependents := File(before, node, dependents);
      OneMoreNamed(nodes, i, remaining, listed, dependents);
      remaining := remaining[node.id := |node.dependsOn|];
    }
    assert nodes[..|nodes|] == nodes;
  }

  lemma OneMoreCount(g: Graph, node: Node, remaining: map<Id, int>)
    requires node.id !in g && CountsMatch(g, {}, remaining)
    ensures CountsMatch(g[node.id := node.dependsOn], {}, remaining[node.id := |node.dependsOn|])
  {
    OutstandingAll(node.dependsOn);
  }

  lemma {:induction false} OneMoreNamed(nodes: seq<Node>, i: nat, remaining: map<Id, int>, before: map<Id, seq<Id>>, after: map<Id, seq<Id>>)
    requires i < |nodes| && CountsOnly(nodes[..i], remaining, before)
    requires forall d, a | a in Deps(after, d) :: a in Deps(before, d) || a == nodes[i].id
    ensures CountsOnly(nodes[..i + 1], remaining[nodes[i].id := |nodes[i].dependsOn|], after)
  {
    forall a ensures Named(nodes[..i + 1], a) <==> Named(nodes[..i], a) || a == nodes[i].id {
      if Named(nodes[..i], a) {
        var k :| 0 <= k < i && nodes[..i][k].id == a;
        assert nodes[..i + 1][k].id == a;
      }
      assert nodes[..i + 1][i].id == nodes[i].id;
      if Named(nodes[..i + 1], a) && a != nodes[i].id {
        var k :| 0 <= k < i + 1 && nodes[..i + 1][k].id == a;
        assert nodes[..i][k].id == a;
      }
    }
    forall d, a | a in Deps(after, d) ensures Named(nodes[..i + 1], a) {
      if a != nodes[i].id {
        assert a in Deps(before, d);
        assert Named(nodes[..i], a);
      }
    }
  }

  lemma {:induction false} OneMoreNode(nodes: seq<Node>, i: nat)
    requires DistinctIds(nodes) && i < |nodes|
    ensures nodes[i].id !in GraphOf(nodes[..i])
    ensures GraphOf(nodes[..i + 1]) == GraphOf(nodes[..i])[nodes[i].id := nodes[i].dependsOn]
  {
    assert nodes[..i + 1][..i] == nodes[..i];
    GraphOfNodes(nodes[..i]);
  }

  lemma {:induction false} FileOneAt(g: Graph, id: Id, filed: seq<Id>, listed: seq<Id>, dependency: Id, d: Id, a: Id)
    requires multiset(listed)[a] == multiset(Deps(g, a))[d] + if a == id then multiset(filed)[d] else 0
    ensures multiset(if d == dependency then listed + [id] else listed)[a] ==
        multiset(Deps(g, a))[d] + if a == id then multiset(filed + [dependency])[d] else 0
  {
  }

  lemma DepsExtended(dependents: map<Id, seq<Id>>, dependency: Id, id: Id, d: Id)
    ensures Deps(dependents[dependency := Deps(dependents, dependency) + [id]], d)
         == if d == dependency then Deps(dependents, d) + [id] else Deps(dependents, d)
  {
  }

  lemma {:induction false} FileOne(g: Graph, id: Id, filed: seq<Id>, dependents: map<Id, seq<Id>>, dependency: Id)
    requires Filing(g, id, filed, dependents)
    ensures Filing(g, id, filed + [dependency],
              dependents[dependency := Deps(dependents, dependency) + [id]])
  {
    var after := dependents[dependency := Deps(dependents, dependency) + [id]];
    forall d, a ensures multiset(Deps(after, d))[a] ==
        multiset(Deps(g, a))[d] + if a == id then multiset(filed + [dependency])[d] else 0
    {
      DepsExtended(dependents, dependency, id, d);
      FileOneAt(g, id, filed, Deps(dependents, d), dependency, d, a);
    }
  }

  /** Files one node under each of its dependencies. */
  method File(ghost g: Graph, node: Node, dependents0: map<Id, seq<Id>>) returns (dependents: map<Id, seq<Id>>)
    ensures node.id !in g && DependentsMatch(g, dependents0) ==> DependentsMatch(g[node.id := node.dependsOn], dependents)
    ensures forall d, a | a in Deps(dependents, d) :: a in Deps(dependents0, d) || a == node.id
  {
    dependents := dependents0;
    for j := 0 to |node.dependsOn|
      invariant node.id !in g && DependentsMatch(g, dependents0) ==> Filing(g, node.id, node.dependsOn[..j], dependents)
      invariant forall d, a | a in Deps(dependents, d) :: a in Deps(dependents0, d) || a == node.id
    {
      var dependency := node.dependsOn[j];
      assert node.dependsOn[..j + 1] == node.dependsOn[..j] + [dependency];
      if node.id !in g && DependentsMatch(g, dependents0) {
        FileOne(g, node.id, node.dependsOn[..j], dependents, dependency);
      }
      dependents := dependents[dependency := Deps(dependents, dependency) + [node.id]];
    }
    if node.id !in g && DependentsMatch(g, dependents0) { FiledAll(g, node, dependents); }
  }

  lemma {:induction false} FiledAll(g: Graph, node: Node, dependents: map<Id, seq<Id>>)
    requires node.id !in g && Filing(g, node.id, node.dependsOn[..|node.dependsOn|], dependents)
    ensures DependentsMatch(g[node.id := node.dependsOn], dependents)
  {
    assert node.dependsOn[..|node.dependsOn|] == node.dependsOn;
    var after := g[node.id := node.dependsOn];
    forall d, a ensures multiset(Deps(dependents, d))[a] == multiset(Deps(after, a))[d] {
      assert multiset(Deps(dependents, d))[a] ==
        multiset(Deps(g, a))[d] + if a == node.id then multiset(node.dependsOn)[d] else 0;
    }
  }

  ghost function Zero(remaining: map<Id, int>): set<Id> {
    set a | a in remaining.Keys && remaining[a] == 0
  }

  /** The nodes whose count is zero at the start, in the order the sort leaves them. */
  method InitialReady(remaining: map<Id, int>) returns (ready: seq<Id>)
    ensures ready == Listing(Zero(remaining))
  {
    // A map is ranged over in no particular order.
    ready := [];
    var left := remaining.Keys;
    while left != {}
      invariant left <= remaining.Keys && Distinct(ready)
      invariant forall a :: a in ready <==> a in remaining.Keys && a !in left && remaining[a] == 0
    {
      var id :| id in left;
      left := left - {id};
      if remaining[id] == 0 { ready := ready + [id]; }
    }
    assert Elements(ready) == Zero(remaining);
    SortLists(ready, Zero(remaining));
    ready := Sort(ready);
  }

  /** What `remaining` holds while the dependents of a settled node are being counted down. */
  ghost predicate CountingDown(g: Graph, done: set<Id>, remaining: map<Id, int>, left: seq<Id>) {
    && remaining.Keys == g.Keys
    && (forall a | a in g :: remaining[a] == Outstanding(g[a], done) + multiset(left)[a])
    && (forall a | a in left :: a in g && a !in done)
  }

  ghost function AtZero(done: set<Id>, remaining: map<Id, int>): set<Id> {
    set a | a in remaining.Keys && a !in done && remaining[a] == 0
  }

  /** What is done contains everything it depends on. */
  ghost predicate DoneClosed(g: Graph, done: set<Id>) {
    forall a, d | a in done && d in Deps(g, a) :: d in done
  }

  lemma {:induction false} StartCountingDown(g: Graph, done: set<Id>, id: Id, dependents: map<Id, seq<Id>>, remaining: map<Id, int>)
    requires CountsMatch(g, done, remaining) && DependentsMatch(g, dependents)
    requires id in ReadySet(g, done) && DoneClosed(g, done)
    ensures CountingDown(g, done + {id}, remaining, Sort(Deps(dependents, id)))
    ensures AtZero(done + {id}, remaining) == ReadySet(g, done) - {id}
  {
    SortSorts(Deps(dependents, id));
    forall a | a in g ensures remaining[a] == Outstanding(g[a], done + {id}) + multiset(Sort(Deps(dependents, id)))[a] {
      OutstandingDrops(g[a], done, id);
      assert multiset(Deps(dependents, id))[a] == multiset(Deps(g, a))[id];
    }
    forall a | a in Sort(Deps(dependents, id)) ensures a in g && a !in done + {id} {
      assert multiset(Deps(dependents, id))[a] > 0;
      assert multiset(Deps(g, a))[id] > 0;
      assert id in Deps(g, a);
    }
  }

  /** One dependent counted down. */
  lemma {:induction false} CountDownOne(g: Graph, now: set<Id>, remaining: map<Id, int>, dependent: Id, left: seq<Id>)
    requires CountingDown(g, now, remaining, [dependent] + left)
    ensures dependent in remaining && dependent !in now && remaining[dependent] > 0
    ensures CountingDown(g, now, remaining[dependent := remaining[dependent] - 1], left)
  {
    assert dependent in [dependent] + left;
    assert multiset([dependent] + left) == multiset{dependent} + multiset(left);
    var after := remaining[dependent := remaining[dependent] - 1];
    assert after.Keys == g.Keys;
    forall a | a in g ensures after[a] == Outstanding(g[a], now) + multiset(left)[a] {
      assert remaining[a] == Outstanding(g[a], now) + multiset([dependent] + left)[a];
    }
    forall a | a in left ensures a in g && a !in now { assert a in [dependent] + left; }
  }

  lemma ZeroAfterOne(now: set<Id>, remaining: map<Id, int>, dependent: Id)
    requires dependent in remaining && dependent !in now && remaining[dependent] > 0
    ensures AtZero(now, remaining[dependent := remaining[dependent] - 1])
         == if remaining[dependent] == 1 then AtZero(now, remaining) + {dependent} else AtZero(now, remaining)
  {
  }

  /** Appending one id to a listing and sorting it again. */
  lemma ListAppended(s: set<Id>, x: Id)
    requires x !in s
    ensures Sort(Listing(s) + [x]) == Listing(s + {x})
  {
    ListingLists(s);
    assert x !in Elements(Listing(s));
    assert Elements(Listing(s) + [x]) == Elements(Listing(s)) + {x};
    SortLists(Listing(s) + [x], s + {x});
  }

  /** What the loop that counts dependents down updates. */
  datatype Counter = Counter(remaining: map<Id, int>, ready: seq<Id>)

  function CountOf(remaining: map<Id, int>, a: Id): int {
    if a in remaining then remaining[a] else 0
  }

  function CountDown(c: Counter, id: Id): Counter {
    var n := CountOf(c.remaining, id) - 1;
    Counter(c.remaining[id := n], if n == 0 then Sort(c.ready + [id]) else c.ready)
  }

  /** The counter once every entry of `left` has been counted down. */
  function CountedDown(c: Counter, left: seq<Id>): Counter
    decreases |left|
  {
    if left == [] then c else CountedDown(CountDown(c, left[0]), left[1..])
  }

  ghost predicate Counting(g: Graph, now: set<Id>, c: Counter, left: seq<Id>) {
    CountingDown(g, now, c.remaining, left) && c.ready == Listing(AtZero(now, c.remaining))
  }

  lemma {:induction false} CountingStep(g: Graph, now: set<Id>, c: Counter, left: seq<Id>)
    requires left != [] && Counting(g, now, c, left)
    ensures Counting(g, now, CountDown(c, left[0]), left[1..])
  {
    assert left == [left[0]] + left[1..];
    CountDownOne(g, now, c.remaining, left[0], left[1..]);
    QueueFollows(now, c, left[0]);
  }

  lemma QueueFollows(now: set<Id>, c: Counter, id: Id)
    requires id in c.remaining && id !in now && c.remaining[id] > 0 && c.ready == Listing(AtZero(now, c.remaining))
    ensures CountDown(c, id).ready == Listing(AtZero(now, CountDown(c, id).remaining))
  {
    ZeroAfterOne(now, c.remaining, id);
    if c.remaining[id] == 1 { ListAppended(AtZero(now, c.remaining), id); }
  }

  lemma NothingLeft(g: Graph, now: set<Id>, c: Counter)
    requires Counting(g, now, c, [])
    ensures CountsMatch(g, now, c.remaining)
    ensures c.ready == Listing(ReadySet(g, now))
  {
    assert AtZero(now, c.remaining) == ReadySet(g, now);
  }

  lemma {:induction false} CountingDone(g: Graph, now: set<Id>, c: Counter, left: seq<Id>)
    requires Counting(g, now, c, left)
    ensures CountsMatch(g, now, CountedDown(c, left).remaining)
    ensures CountedDown(c, left).ready == Listing(ReadySet(g, now))
    decreases |left|
  {
    if left == [] {
      NothingLeft(g, now, c);
    } else {
      CountingStep(g, now, c, left);
      CountingDone(g, now, CountDown(c, left[0]), left[1..]);
    }
  }

  /** Counts down every dependent of a node just settled, releasing those that reach zero. */
  method Release(id: Id, dependents: map<Id, seq<Id>>, counter: Counter) returns (c: Counter)
    ensures c == CountedDown(counter, Sort(Deps(dependents, id)))
  {
    var remaining, ready := counter.remaining, counter.ready;
    var next := Sort(Deps(dependents, id));
    assert next[0..] == next;
    for j := 0 to |next|
      invariant CountedDown(Counter(remaining, ready), next[j..]) == CountedDown(counter, next)
    {
      var dependent := next[j];
      assert next[j..][1..] == next[j + 1..];
      remaining := remaining[dependent := CountOf(remaining, dependent) - 1];
      if remaining[dependent] == 0 {
        ready := Sort(ready + [dependent]);
      }
    }
    c := Counter(remaining, ready);
  }

  /** Settling a ready node leaves the counts and the queue of the larger done set. */
  lemma {:induction false} Released(g: Graph, done: set<Id>, id: Id, dependents: map<Id, seq<Id>>, c: Counter)
    requires CountsMatch(g, done, c.remaining) && DependentsMatch(g, dependents) && DoneClosed(g, done)
    requires id in ReadySet(g, done) && c.ready == Listing(ReadySet(g, done) - {id})
    ensures var r := CountedDown(c, Sort(Deps(dependents, id)));
            CountsMatch(g, done + {id}, r.remaining) && r.ready == Listing(ReadySet(g, done + {id}))
  {
    StartCountingDown(g, done, id, dependents, c.remaining);
    CountingDone(g, done + {id}, c, Sort(Deps(dependents, id)));
  }

  // ---------------------------------------------------------------- what one pass of the outer loop keeps

  /** The nodes a count still holds back. */
  ghost function Positive(remaining: map<Id, int>): set<Id> {
    set a | a in remaining.Keys && remaining[a] > 0
  }

  /** The state of the outer loop: `order` is what the deterministic order starts with. */
  ghost predicate Walking(g: Graph, dependents: map<Id, seq<Id>>, c: Counter, order: seq<Id>) {
    && DependentsMatch(g, dependents)
    && CountsMatch(g, Elements(order), c.remaining)
    && c.ready == Listing(ReadySet(g, Elements(order)))
    && DoneClosed(g, Elements(order))
    && order + OrderFrom(g, Elements(order)) == Order(g)
  }

  lemma {:induction false} WalkStarts(g: Graph, dependents: map<Id, seq<Id>>, c: Counter)
    requires DependentsMatch(g, dependents) && CountsMatch(g, {}, c.remaining)
    requires c.ready == Listing(Zero(c.remaining))
    ensures Walking(g, dependents, c, [])
  {
    assert Zero(c.remaining) == ReadySet(g, {});
    assert Elements<Id>([]) == {};
    assert [] + OrderFrom(g, {}) == Order(g);
  }

  lemma {:induction false} OrderGrows(g: Graph, order: seq<Id>, id: Id)
    requires order + OrderFrom(g, Elements(order)) == Order(g)
    requires ReadySet(g, Elements(order)) != {} && id == Least(ReadySet(g, Elements(order)))
    requires DoneClosed(g, Elements(order))
    ensures Elements(order + [id]) == Elements(order) + {id}
    ensures (order + [id]) + OrderFrom(g, Elements(order + [id])) == Order(g)
    ensures DoneClosed(g, Elements(order + [id]))
    ensures |order| < |Order(g)|
  {
    var done := Elements(order);
    assert Elements(order + [id]) == done + {id};
    assert OrderFrom(g, done) == [id] + OrderFrom(g, done + {id});
    assert (order + [id]) + OrderFrom(g, done + {id}) == order + ([id] + OrderFrom(g, done + {id}));
    forall a, d | a in done + {id} && d in Deps(g, a) ensures d in done + {id} {
      if a == id { assert id in ReadySet(g, done); }
    }
  }

  lemma {:induction false} WalkSteps(g: Graph, dependents: map<Id, seq<Id>>, c: Counter, order: seq<Id>)
    requires Walking(g, dependents, c, order) && c.ready != []
    ensures Walking(g, dependents,
              CountedDown(Counter(c.remaining, c.ready[1..]), Sort(Deps(dependents, c.ready[0]))),
              order + [c.ready[0]])
    ensures |order| < |Order(g)|
  {
    var s := ReadySet(g, Elements(order));
    assert s != {} by { ListingLists(s); }
    OrderGrows(g, order, c.ready[0]);
    Released(g, Elements(order), c.ready[0], dependents, Counter(c.remaining, c.ready[1..]));
  }

  lemma {:induction false} WalkEnds(g: Graph, dependents: map<Id, seq<Id>>, c: Counter, order: seq<Id>)
    requires Walking(g, dependents, c, order) && c.ready == []
    ensures order == Order(g)
    ensures Positive(c.remaining) == g.Keys - Settled(g)
  {
    ListingLists(ReadySet(g, Elements(order)));
    assert ReadySet(g, Elements(order)) == {};
    assert OrderFrom(g, Elements(order)) == [];
    assert order + [] == order;
    forall a | a in g ensures c.remaining[a] > 0 <==> a !in Settled(g) {
      assert a !in ReadySet(g, Settled(g));
      assert forall d | d in g[a] :: d in Deps(g, a);
    }
  }

  /** The ids with a positive count, in the order the sort leaves them. */
  method Unresolved(remaining: map<Id, int>) returns (unresolved: seq<Id>)
    ensures unresolved == Listing(Positive(remaining))
  {
    unresolved := [];
    var left := remaining.Keys;
    while left != {}
      invariant left <= remaining.Keys && Distinct(unresolved)
      invariant forall a :: a in unresolved <==> a in remaining.Keys && a !in left && remaining[a] > 0
    {
      var id :| id in left;
      left := left - {id};
      if remaining[id] > 0 { unresolved := unresolved + [id]; }
    }
    assert Elements(unresolved) == Positive(remaining);
    SortLists(unresolved, Positive(remaining));
    unresolved := Sort(unresolved);
  }

  // ---------------------------------------------------------------- when ids repeat

  /** Whatever the counts mean, no id is queued twice and none is queued while its count is positive. */
  ghost predicate Queued(c: Counter, order: seq<Id>) {
    && Distinct(order + c.ready)
    && forall a :: a in order + c.ready <==> a in c.remaining && c.remaining[a] <= 0
  }

  lemma QueueStarts(c: Counter)
    requires (forall a | a in c.remaining :: c.remaining[a] >= 0) && c.ready == Listing(Zero(c.remaining))
    ensures Queued(c, [])
  {
    ListingLists(Zero(c.remaining));
    assert [] + c.ready == c.ready;
    assert forall a :: a in c.ready <==> a in Elements(c.ready);
  }

  lemma {:induction false} QueueCountsDown(c: Counter, order: seq<Id>, id: Id)
    requires Queued(c, order) && id in c.remaining
    ensures Queued(CountDown(c, id), order) && CountDown(c, id).remaining.Keys == c.remaining.Keys
  {
    if c.remaining[id] == 1 {
      var grown := c.ready + [id];
      assert id !in order + c.ready;
      assert Distinct(c.ready) by {
        forall i, j | 0 <= i < j < |c.ready| ensures c.ready[i] != c.ready[j] {
          assert (order + c.ready)[|order| + i] != (order + c.ready)[|order| + j];
        }
      }
      SortLists(grown, Elements(grown));
      ListingLists(Elements(grown));
      var sorted := Sort(grown);
      assert forall a :: a in sorted <==> a in Elements(sorted);
      assert forall a :: a in sorted <==> a == id || a in c.ready;
      forall i, j | 0 <= i < j < |order + sorted| ensures (order + sorted)[i] != (order + sorted)[j] {
        if i < |order| <= j {
          assert (order + sorted)[j] in sorted;
          if (order + sorted)[j] in c.ready {
            var k :| 0 <= k < |c.ready| && c.ready[k] == (order + sorted)[j];
            assert (order + c.ready)[i] != (order + c.ready)[|order| + k];
          } else {
            assert (order + c.ready)[i] in order + c.ready;
          }
        } else if j < |order| {
          assert (order + c.ready)[i] != (order + c.ready)[j];
        }
      }
    }
  }

  lemma {:induction false} QueueCountedDown(c: Counter, order: seq<Id>, left: seq<Id>)
    requires Queued(c, order) && forall a | a in left :: a in c.remaining
    ensures Queued(CountedDown(c, left), order) && CountedDown(c, left).remaining.Keys == c.remaining.Keys
    decreases |left|
  {
    if left != [] {
      assert left[0] in left && forall a | a in left[1..] :: a in left;
      QueueCountsDown(c, order, left[0]);
      QueueCountedDown(CountDown(c, left[0]), order, left[1..]);
    }
  }

  lemma {:induction false} QueueSteps(dependents: map<Id, seq<Id>>, c: Counter, order: seq<Id>)
    requires Queued(c, order) && c.ready != []
    requires forall d, a | a in Deps(dependents, d) :: a in c.remaining
    ensures var after := CountedDown(Counter(c.remaining, c.ready[1..]), Sort(Deps(dependents, c.ready[0])));
            Queued(after, order + [c.ready[0]]) && after.remaining.Keys == c.remaining.Keys
    ensures |order| < |c.remaining|
  {
    var id := c.ready[0];
    assert (order + [id]) + c.ready[1..] == order + c.ready;
    SortSorts(Deps(dependents, id));
    QueueCountedDown(Counter(c.remaining, c.ready[1..]), order + [id], Sort(Deps(dependents, id)));
    DistinctFits(order + c.ready, c.remaining.Keys);
  }
}
