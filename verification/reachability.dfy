/** The planner's three reachability searches; each ends on every graph, cyclic or not, and decides exactly `Reaches`. */
module Reachability {
  import opened Ids
  import opened Graphs
  import opened Plans

  /** Everything a search from `from` could ever visit. */
  ghost function Universe(g: Graph, from: Id): set<Id> {
    {from} + g.Keys + set a, d | a in g.Keys && d in g[a] :: d
  }

  /** What both worklist searches maintain. */
  ghost predicate Searching(g: Graph, from: Id, to: Id, visited: set<Id>, frontier: seq<Id>) {
    && from in visited
    && visited <= Universe(g, from)
    && (forall x | x in frontier :: x in Universe(g, from) && Reaches(g, from, x))
    && (forall x, d | x in visited && d in Deps(g, x) :: d in frontier || (d in visited && d != to))
    && (forall x | x in visited :: x == from || Reaches(g, from, x))
  }

  lemma SearchStarts(g: Graph, from: Id, to: Id)
    ensures Searching(g, from, to, {from}, Deps(g, from))
  {
    forall x | x in Deps(g, from) ensures Reaches(g, from, x) { ReachesEdge(g, from, x); }
  }

  lemma {:induction false} SearchVisits(g: Graph, from: Id, to: Id, visited: set<Id>, frontier: seq<Id>)
    requires Searching(g, from, to, visited, frontier)
    requires frontier != [] && frontier[0] != to
    ensures Searching(g, from, to, visited + {frontier[0]}, frontier[1..] + Deps(g, frontier[0]))
  {
    var next := frontier[0];
    var rest := frontier[1..] + Deps(g, next);
    assert frontier == [next] + frontier[1..];
    forall x | x in Deps(g, next) ensures x in Universe(g, from) && Reaches(g, from, x) {
      ReachesEdge(g, next, x);
      ReachesTransitive(g, from, next, x);
    }
    forall x, d | x in visited + {next} && d in Deps(g, x)
      ensures d in rest || (d in visited + {next} && d != to)
    {
      if x in visited && d in frontier && d != next { assert d in frontier[1..]; }
    }
  }

  lemma {:induction false} SearchSkips(g: Graph, from: Id, to: Id, visited: set<Id>, frontier: seq<Id>)
    requires Searching(g, from, to, visited, frontier)
    requires frontier != [] && frontier[0] != to && frontier[0] in visited
    ensures Searching(g, from, to, visited, frontier[1..])
  {
    assert frontier == [frontier[0]] + frontier[1..];
    forall x, d | x in visited && d in Deps(g, x) ensures d in frontier[1..] || (d in visited && d != to) {
      if d in frontier && d != frontier[0] { assert d in frontier[1..]; }
    }
  }

  /** Nothing that stays inside `s` and never steps to `to` depends on it. */
  lemma NeverArrives(g: Graph, s: set<Id>, a: Id, to: Id)
    requires a in s
    requires forall x, d | x in s && d in Deps(g, x) :: d in s && d != to
    ensures !Reaches(g, a, to)
  {
    forall p | IsPath(g, p) && p[0] == a ensures p[|p| - 1] != to {
      var k := |p| - 2;
      PathStays(g, s, p, k);
      assert Edge(g, p, k);
      assert p[k + 1] in s && p[k + 1] != to;
    }
  }

  /** `reaches`: the plan compiler's search over a dependency index. */
  method ReachesSearch(dependsOn: Graph, from: Id, to: Id) returns (found: bool)
    ensures found <==> Reaches(dependsOn, from, to)
  {
    var visited := {from};
    var frontier := Deps(dependsOn, from);
    SearchStarts(dependsOn, from, to);
    while |frontier| > 0
      invariant Searching(dependsOn, from, to, visited, frontier)
      decreases Universe(dependsOn, from) - visited, |frontier|
    {
      var next := frontier[0];
      if next == to {
        return true;
      }
      if next in visited {
        SearchSkips(dependsOn, from, to, visited, frontier);
        frontier := frontier[1..];
        continue;
      }
      SearchVisits(dependsOn, from, to, visited, frontier);
      visited, frontier := visited + {next}, frontier[1..] + Deps(dependsOn, next);
    }
    NeverArrives(dependsOn, visited, from, to);
    return false;
  }

  /** The dependencies of the stages a validator indexes by id. */
  function IndexGraph(byID: map<Id, PlanStage>): Graph {
    map id | id in byID :: byID[id].dependsOn
  }

  function DependenciesIn(byID: map<Id, PlanStage>, id: Id): (deps: seq<Id>)
    ensures deps == Deps(IndexGraph(byID), id)
  {
    if id in byID then byID[id].dependsOn else []
  }

  /** `dependsOnTransitively`: the graph law's search over indexed stages. */
  method DependsOnTransitively(from: Id, to: Id, byID: map<Id, PlanStage>) returns (found: bool)
    ensures found <==> Reaches(IndexGraph(byID), from, to)
  {
    ghost var g := IndexGraph(byID);
    var visited := {from};
    var frontier := DependenciesIn(byID, from);
    SearchStarts(g, from, to);
    while |frontier| > 0
      invariant Searching(g, from, to, visited, frontier)
      decreases Universe(g, from) - visited, |frontier|
    {
      var next := frontier[0];
      if next == to {
        return true;
      }
      if next in visited {
        SearchSkips(g, from, to, visited, frontier);
        frontier := frontier[1..];
        continue;
      }
      SearchVisits(g, from, to, visited, frontier);
      visited, frontier := visited + {next}, frontier[1..] + DependenciesIn(byID, next);
    }
    NeverArrives(g, visited, from, to);
    return false;
  }

  /** The record of visited stages one depth-first search shares with its recursive calls. */
  class Seen {
    var ids: set<Id>

    constructor ()
      ensures ids == {}
    {
      ids := {};
    }
  }

  /** Everything in `now` that was not in `before` steps only inside `now`, and never to `ancestor`. */
  ghost predicate SearchedPast(g: Graph, ancestor: Id, before: set<Id>, now: set<Id>) {
    forall x, d | x in now && x !in before && d in Deps(g, x) :: d in now && d != ancestor
  }

  /** `dependsOnStage`: the depth-first search, marking what it has seen as it goes. */
  method DependsOnStage(id: Id, ancestor: Id, byID: map<Id, PlanStage>, seen: Seen, ghost within: set<Id>)
    returns (found: bool)
    requires id in within && seen.ids <= within
    requires forall x, d | x in within && d in Deps(IndexGraph(byID), x) :: d in within
    modifies seen
    ensures old(seen.ids) <= seen.ids <= within
    ensures found ==> Reaches(IndexGraph(byID), id, ancestor)
    ensures !found ==> id in seen.ids && SearchedPast(IndexGraph(byID), ancestor, old(seen.ids), seen.ids)
    decreases within - seen.ids
  {
    ghost var g := IndexGraph(byID);
    if id in seen.ids {
      return false;
    }
    ghost var before := seen.ids;
    seen.ids := seen.ids + {id};
    var dependencies := DependenciesIn(byID, id);
    for k := 0 to |dependencies|
      invariant before + {id} <= seen.ids <= within
      invariant forall j | 0 <= j < k :: dependencies[j] in seen.ids && dependencies[j] != ancestor
      invariant SearchedPast(g, ancestor, before + {id}, seen.ids)
    {
      var dependency := dependencies[k];
      assert dependency in Deps(g, id);
      if dependency == ancestor {
        ReachesEdge(g, id, ancestor);
        return true;
      }
      var deeper := DependsOnStage(dependency, ancestor, byID, seen, within);
      if deeper {
        ReachesVia(g, id, dependency, ancestor);
        return true;
      }
    }
    return false;
  }

  /** The depth-first search from a fresh record. */
  method DependsOnStageAfresh(id: Id, ancestor: Id, byID: map<Id, PlanStage>) returns (found: bool)
    ensures found <==> Reaches(IndexGraph(byID), id, ancestor)
  {
    ghost var g := IndexGraph(byID);
    var seen := new Seen();
    ghost var within := Universe(g, id);
    found := DependsOnStage(id, ancestor, byID, seen, within);
    if !found {
      NeverArrives(g, seen.ids, id, ancestor);
    }
  }
}
