/**
  The interval sweep, against counting at every instant. Time is whole units.

  Here are the spans, what counting them at every instant says, and the edges the sweep goes
  over; the sweep itself is in the next module.
 */
module Intervals {
  import opened Ids

  datatype Span = Span(start: int, end: int)

  datatype Concurrency = Concurrency(spans: nat, ignored: nat, peak: int, union: int, overlap: int, sum: int)

  // ---------------------------------------------------------------- counting at every instant

  /** A span is active from its start up to, and not at, its end. */
  predicate Covers(s: Span, t: int) {
    s.start <= t < s.end
  }

  function Coverage(spans: seq<Span>, t: int): nat {
    if spans == [] then 0
    else Coverage(spans[..|spans| - 1], t) + if Covers(spans[|spans| - 1], t) then 1 else 0
  }

  /** How many instants of `[lo, hi)` at least `k` spans are active at. */
  function Measure(spans: seq<Span>, k: nat, lo: int, hi: int): nat
    decreases hi - lo
  {
    if hi <= lo then 0 else Measure(spans, k, lo, hi - 1) + if Coverage(spans, hi - 1) >= k then 1 else 0
  }

  /** The coverage of `[lo, hi)` added up instant by instant. */
  function TotalCoverage(spans: seq<Span>, lo: int, hi: int): nat
    decreases hi - lo
  {
    if hi <= lo then 0 else TotalCoverage(spans, lo, hi - 1) + Coverage(spans, hi - 1)
  }

  /** No span starts before `lo` or ends after `hi`; spans of no duration do not matter. */
  ghost predicate Brackets(spans: seq<Span>, lo: int, hi: int) {
    lo <= hi && forall i | 0 <= i < |spans| && spans[i].start < spans[i].end :: lo <= spans[i].start && spans[i].end <= hi
  }

  // ---------------------------------------------------------------- edges

  datatype Edge = Edge(at: int, delta: int)

  function EdgesOf(spans: seq<Span>): seq<Edge> {
    if spans == [] then []
    else
      var last := spans[|spans| - 1];
      EdgesOf(spans[..|spans| - 1]) + if last.end <= last.start then [] else [Edge(last.start, 1), Edge(last.end, -1)]
  }

  /** By instant, and within one instant the closing edges first, so that the sweep never counts two touching spans at once. */
  predicate EdgeBefore(a: Edge, b: Edge) {
    a.at < b.at || (a.at == b.at && a.delta <= b.delta)
  }

  ghost predicate SortedEdges(edges: seq<Edge>) {
    forall i, j | 0 <= i < j < |edges| :: EdgeBefore(edges[i], edges[j])
  }

  function InsertEdge(e: Edge, edges: seq<Edge>): seq<Edge> {
    if edges == [] || EdgeBefore(edges[|edges| - 1], e) then edges + [e]
    else InsertEdge(e, edges[..|edges| - 1]) + [edges[|edges| - 1]]
  }

  /** `sort.Slice` by instant and then by delta. */
  function SortEdges(edges: seq<Edge>): seq<Edge> {
    if edges == [] then [] else InsertEdge(edges[|edges| - 1], SortEdges(edges[..|edges| - 1]))
  }

  lemma {:induction false} InsertEdgeMultiset(e: Edge, edges: seq<Edge>)
    ensures multiset(InsertEdge(e, edges)) == multiset(edges) + multiset{e}
  {
    if edges != [] {
      var n := |edges| - 1;
      assert edges == edges[..n] + [edges[n]];
      if !EdgeBefore(edges[n], e) { InsertEdgeMultiset(e, edges[..n]); }
    }
  }

  lemma {:induction false} InsertEdgeSorted(e: Edge, edges: seq<Edge>)
    requires SortedEdges(edges)
    ensures SortedEdges(InsertEdge(e, edges))
  {
    if edges != [] && !EdgeBefore(edges[|edges| - 1], e) {
      var n := |edges| - 1;
      InsertEdgeSorted(e, edges[..n]);
      InsertEdgeMultiset(e, edges[..n]);
      var r := InsertEdge(e, edges[..n]);
      forall i | 0 <= i < |r| ensures EdgeBefore(r[i], edges[n]) {
        assert r[i] in multiset(r);
        assert r[i] == e || r[i] in edges[..n];
      }
    }
  }

  lemma {:induction false} SortEdgesSorts(edges: seq<Edge>)
    ensures SortedEdges(SortEdges(edges))
    ensures multiset(SortEdges(edges)) == multiset(edges)
  {
    if edges != [] {
      var n := |edges| - 1;
      SortEdgesSorts(edges[..n]);
      InsertEdgeSorted(edges[n], SortEdges(edges[..n]));
      InsertEdgeMultiset(edges[n], SortEdges(edges[..n]));
      assert edges == edges[..n] + [edges[n]];
    }
  }

  /** Whatever sorting does with equal edges, the sorted list is the same. */
  lemma {:induction false} SortedEdgesUnique(a: seq<Edge>, b: seq<Edge>)
    requires SortedEdges(a) && SortedEdges(b) && multiset(a) == multiset(b)
    ensures a == b
  {
    if a == [] {
      assert |multiset(b)| == 0;
    } else {
      assert a[0] in multiset(b);
      assert b != [];
      assert b[0] in multiset(a);
      assert a[0] == b[0];
      TailMultiset(a);
      TailMultiset(b);
      SortedEdgesUnique(a[1..], b[1..]);
      assert a == [a[0]] + a[1..] && b == [b[0]] + b[1..];
    }
  }

  lemma {:induction false} TailMultiset(edges: seq<Edge>)
    requires edges != []
    ensures multiset(edges[1..]) == multiset(edges) - multiset{edges[0]}
  {
    assert edges == [edges[0]] + edges[1..];
  }

  // ---------------------------------------------------------------- sums over edges

  function DeltaSum(edges: seq<Edge>): int {
    if edges == [] then 0 else DeltaSum(edges[..|edges| - 1]) + edges[|edges| - 1].delta
  }

  /** The net change of all edges up to and including `t`. */
  function SumAtMost(edges: seq<Edge>, t: int): int {
    if edges == [] then 0
    else SumAtMost(edges[..|edges| - 1], t) + if edges[|edges| - 1].at <= t then edges[|edges| - 1].delta else 0
  }

  function StartsAt(edges: seq<Edge>, t: int): nat {
    if edges == [] then 0
    else StartsAt(edges[..|edges| - 1], t) + if edges[|edges| - 1] == Edge(t, 1) then 1 else 0
  }

  lemma {:induction false} InsertEdgeSums(e: Edge, edges: seq<Edge>, t: int)
    ensures SumAtMost(InsertEdge(e, edges), t) == SumAtMost(edges, t) + if e.at <= t then e.delta else 0
    ensures StartsAt(InsertEdge(e, edges), t) == StartsAt(edges, t) + if e == Edge(t, 1) then 1 else 0
    ensures DeltaSum(InsertEdge(e, edges)) == DeltaSum(edges) + e.delta
  {
    if edges == [] || EdgeBefore(edges[|edges| - 1], e) {
      assert (edges + [e])[..|edges|] == edges;
    } else {
      var n := |edges| - 1;
      InsertEdgeSums(e, edges[..n], t);
      assert InsertEdge(e, edges)[..|InsertEdge(e, edges[..n])|] == InsertEdge(e, edges[..n]);
    }
  }

  lemma {:induction false} SortEdgesSums(edges: seq<Edge>, t: int)
    ensures SumAtMost(SortEdges(edges), t) == SumAtMost(edges, t)
    ensures StartsAt(SortEdges(edges), t) == StartsAt(edges, t)
    ensures DeltaSum(SortEdges(edges)) == DeltaSum(edges)
  {
    if edges != [] {
      SortEdgesSums(edges[..|edges| - 1], t);
      InsertEdgeSums(edges[|edges| - 1], SortEdges(edges[..|edges| - 1]), t);
    }
  }

  lemma {:induction false} TwoMore(edges: seq<Edge>, a: Edge, b: Edge, t: int)
    ensures SumAtMost(edges + [a, b], t) == SumAtMost(edges, t) + (if a.at <= t then a.delta else 0) + (if b.at <= t then b.delta else 0)
    ensures StartsAt(edges + [a, b], t) == StartsAt(edges, t) + (if a == Edge(t, 1) then 1 else 0) + (if b == Edge(t, 1) then 1 else 0)
    ensures DeltaSum(edges + [a, b]) == DeltaSum(edges) + a.delta + b.delta
  {
    var whole := edges + [a, b];
    assert whole[..|edges| + 1] == edges + [a];
    assert (edges + [a])[..|edges|] == edges;
  }

  /** At every instant the edges up to it add up to the coverage, and those that start at it never exceed it. */
  lemma {:induction false} EdgesCount(spans: seq<Span>, t: int)
    ensures SumAtMost(EdgesOf(spans), t) == Coverage(spans, t)
    ensures StartsAt(EdgesOf(spans), t) <= Coverage(spans, t)
    ensures DeltaSum(EdgesOf(spans)) == 0
  {
    if spans != [] {
      var n := |spans| - 1;
      EdgesCount(spans[..n], t);
      if spans[n].start < spans[n].end {
        TwoMore(EdgesOf(spans[..n]), Edge(spans[n].start, 1), Edge(spans[n].end, -1), t);
      } else {
        assert EdgesOf(spans[..n]) + [] == EdgesOf(spans[..n]);
      }
    }
  }

  ghost predicate UnitDeltas(edges: seq<Edge>) {
    forall i | 0 <= i < |edges| :: edges[i].delta == 1 || edges[i].delta == -1
  }

  lemma {:induction false} EdgesAreUnits(spans: seq<Span>)
    ensures UnitDeltas(EdgesOf(spans))
  {
    if spans != [] { EdgesAreUnits(spans[..|spans| - 1]); }
  }

  lemma {:induction false} SortKeepsUnits(edges: seq<Edge>)
    requires UnitDeltas(edges)
    ensures UnitDeltas(SortEdges(edges))
  {
    SortEdgesSorts(edges);
    forall i | 0 <= i < |SortEdges(edges)| ensures SortEdges(edges)[i].delta == 1 || SortEdges(edges)[i].delta == -1 {
      assert SortEdges(edges)[i] in multiset(edges);
      assert SortEdges(edges)[i] in edges;
    }
  }
}
