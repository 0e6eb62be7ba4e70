/** `ComputeConcurrency`: one pass over the sorted edges equals counting at every instant. */
module Sweep {
  import opened Ids
  import opened Intervals

  // ---------------------------------------------------------------- prefixes of the sorted edges

  lemma {:induction false} AllAtMost(edges: seq<Edge>, t: int)
    requires forall i | 0 <= i < |edges| :: edges[i].at <= t
    ensures SumAtMost(edges, t) == DeltaSum(edges)
  {
    if edges != [] { AllAtMost(edges[..|edges| - 1], t); }
  }

  /** Between two neighbouring edges the running count is the net change up to any instant there. */
  lemma {:induction false} PrefixIsCount(edges: seq<Edge>, i: nat, t: int)
    requires SortedEdges(edges) && i <= |edges|
    requires i > 0 ==> edges[i - 1].at <= t
    requires i < |edges| ==> t < edges[i].at
    ensures SumAtMost(edges, t) == DeltaSum(edges[..i])
  {
    if i == |edges| {
      assert edges[..i] == edges;
      forall k | 0 <= k < |edges| ensures edges[k].at <= t { if k < i - 1 { assert EdgeBefore(edges[k], edges[i - 1]); } }
      AllAtMost(edges, t);
    } else {
      var n := |edges| - 1;
      if i < n { assert EdgeBefore(edges[i], edges[n]); }
      assert edges[..n][..i] == edges[..i];
      PrefixIsCount(edges[..n], i, t);
    }
  }

  /** Just after a start, the running count is at most the final count of that instant. */
  lemma {:induction false} StartWithinCount(edges: seq<Edge>, j: nat)
    requires SortedEdges(edges) && UnitDeltas(edges) && 0 < j <= |edges| && edges[j - 1].delta == 1
    ensures DeltaSum(edges[..j]) <= SumAtMost(edges, edges[j - 1].at)
  {
    var t := edges[j - 1].at;
    if j == |edges| {
      assert edges[..j] == edges;
      forall k | 0 <= k < |edges| ensures edges[k].at <= t { if k < j - 1 { assert EdgeBefore(edges[k], edges[j - 1]); } }
      AllAtMost(edges, t);
    } else {
      var n := |edges| - 1;
      assert EdgeBefore(edges[j - 1], edges[n]);
      assert edges[..n][..j] == edges[..j];
      StartWithinCount(edges[..n], j);
    }
  }

  /** The running count never falls below what the spans active before the instant leave. */
  lemma {:induction false} PrefixAtLeast(edges: seq<Edge>, j: nat)
    requires SortedEdges(edges) && UnitDeltas(edges) && 0 < j <= |edges|
    ensures DeltaSum(edges[..j]) >= SumAtMost(edges, edges[j - 1].at) - StartsAt(edges, edges[j - 1].at)
  {
    var t := edges[j - 1].at;
    if j == |edges| {
      assert edges[..j] == edges;
      forall k | 0 <= k < |edges| ensures edges[k].at <= t { if k < j - 1 { assert EdgeBefore(edges[k], edges[j - 1]); } }
      AllAtMost(edges, t);
    } else {
      var n := |edges| - 1;
      assert edges[..n][..j] == edges[..j];
      PrefixAtLeast(edges[..n], j);
    }
  }

  /** The sorted edges of a list of spans. */
  ghost function Sorted(spans: seq<Span>): seq<Edge> {
    SortEdges(EdgesOf(spans))
  }

  lemma {:induction false} SortedFacts(spans: seq<Span>)
    ensures SortedEdges(Sorted(spans)) && UnitDeltas(Sorted(spans)) && DeltaSum(Sorted(spans)) == 0
    ensures forall t :: SumAtMost(Sorted(spans), t) == Coverage(spans, t)
    ensures forall t :: StartsAt(Sorted(spans), t) <= Coverage(spans, t)
  {
    SortEdgesSorts(EdgesOf(spans));
    EdgesAreUnits(spans);
    SortKeepsUnits(EdgesOf(spans));
    forall t ensures SumAtMost(Sorted(spans), t) == Coverage(spans, t) && StartsAt(Sorted(spans), t) <= Coverage(spans, t) {
      SortEdgesSums(EdgesOf(spans), t);
      EdgesCount(spans, t);
    }
    SortEdgesSums(EdgesOf(spans), 0);
    EdgesCount(spans, 0);
  }

  /** The running count is never negative, and ends at zero. */
  lemma {:induction false} ActiveNeverNegative(spans: seq<Span>, j: nat)
    requires j <= |Sorted(spans)|
    ensures DeltaSum(Sorted(spans)[..j]) >= 0
    ensures j == |Sorted(spans)| ==> DeltaSum(Sorted(spans)[..j]) == 0
  {
    var edges := Sorted(spans);
    SortedFacts(spans);
    if j > 0 { PrefixAtLeast(edges, j); }
    if j == |edges| { assert edges[..j] == edges; }
  }

  // ---------------------------------------------------------------- the peak

  ghost function MaxPrefix(edges: seq<Edge>, i: nat): int
    requires i <= |edges|
  {
    if i == 0 then 0
    else if DeltaSum(edges[..i]) > MaxPrefix(edges, i - 1) then DeltaSum(edges[..i]) else MaxPrefix(edges, i - 1)
  }

  lemma {:induction false} MaxPrefixBounds(edges: seq<Edge>, i: nat, j: nat)
    requires j <= i <= |edges|
    ensures 0 <= MaxPrefix(edges, i) && DeltaSum(edges[..j]) <= MaxPrefix(edges, i)
  {
    if i > 0 { MaxPrefixBounds(edges, i - 1, if j < i then j else i - 1); }
  }

  /** Every running count is reached or exceeded by the coverage of some instant. */
  lemma {:induction false} SomeInstantCovers(spans: seq<Span>, j: nat) returns (t: int)
    requires j <= |Sorted(spans)|
    ensures DeltaSum(Sorted(spans)[..j]) <= Coverage(spans, t)
  {
    var edges := Sorted(spans);
    SortedFacts(spans);
    if j == 0 {
      t := 0;
    } else if edges[j - 1].delta == 1 {
      t := edges[j - 1].at;
      StartWithinCount(edges, j);
    } else {
      t := SomeInstantCovers(spans, j - 1);
      assert edges[..j][..j - 1] == edges[..j - 1];
    }
  }

  lemma {:induction false} MaxPrefixAttained(spans: seq<Span>, i: nat) returns (t: int)
    requires i <= |Sorted(spans)|
    ensures MaxPrefix(Sorted(spans), i) <= Coverage(spans, t)
  {
    if i == 0 {
      t := 0;
    } else if DeltaSum(Sorted(spans)[..i]) > MaxPrefix(Sorted(spans), i - 1) {
      t := SomeInstantCovers(spans, i);
    } else {
      t := MaxPrefixAttained(spans, i - 1);
    }
  }

  lemma {:induction false} CutAt(edges: seq<Edge>, t: int, n: nat) returns (i: nat)
    requires SortedEdges(edges) && n <= |edges| && forall k | n <= k < |edges| :: t < edges[k].at
    ensures i <= n && (i > 0 ==> edges[i - 1].at <= t) && (i < |edges| ==> t < edges[i].at)
  {
    if n > 0 && t < edges[n - 1].at { i := CutAt(edges, t, n - 1); } else { i := n; }
  }

  /** The peak is the largest coverage of any instant. */
  lemma {:induction false} PeakIsMaximum(spans: seq<Span>)
    ensures forall t :: Coverage(spans, t) <= MaxPrefix(Sorted(spans), |Sorted(spans)|)
    ensures exists t :: Coverage(spans, t) == MaxPrefix(Sorted(spans), |Sorted(spans)|)
  {
    var edges := Sorted(spans);
    SortedFacts(spans);
    forall t ensures Coverage(spans, t) <= MaxPrefix(edges, |edges|) {
      var i := CutAt(edges, t, |edges|);
      PrefixIsCount(edges, i, t);
      MaxPrefixBounds(edges, |edges|, i);
    }
    var t := MaxPrefixAttained(spans, |edges|);
    assert Coverage(spans, t) == MaxPrefix(edges, |edges|);
  }

  // ---------------------------------------------------------------- measures

  lemma {:induction false} MeasureSplit(spans: seq<Span>, k: nat, lo: int, mid: int, hi: int)
    requires lo <= mid <= hi
    ensures Measure(spans, k, lo, hi) == Measure(spans, k, lo, mid) + Measure(spans, k, mid, hi)
    decreases hi - mid
  {
    if mid < hi { MeasureSplit(spans, k, lo, mid, hi - 1); }
  }

  lemma {:induction false} MeasureConstant(spans: seq<Span>, k: nat, lo: int, hi: int, c: int)
    requires lo <= hi && forall t | lo <= t < hi :: Coverage(spans, t) == c
    ensures Measure(spans, k, lo, hi) == if c >= k then hi - lo else 0
    decreases hi - lo
  {
    if lo < hi { MeasureConstant(spans, k, lo, hi - 1, c); }
  }

  /** From the first edge to the last processed one. */
  ghost function Swept(spans: seq<Span>, k: nat, i: nat): nat
    requires i <= |Sorted(spans)|
  {
    if i == 0 then 0 else Measure(spans, k, Sorted(spans)[0].at, Sorted(spans)[i - 1].at)
  }

  /** One gap between neighbouring edges adds its whole length or nothing. */
  lemma {:induction false} SweptOneMore(spans: seq<Span>, k: nat, i: nat)
    requires 0 < i < |Sorted(spans)|
    ensures Sorted(spans)[i - 1].at <= Sorted(spans)[i].at
    ensures Swept(spans, k, i + 1) == Swept(spans, k, i)
         + if DeltaSum(Sorted(spans)[..i]) >= k then Sorted(spans)[i].at - Sorted(spans)[i - 1].at else 0
  {
    var edges := Sorted(spans);
    SortedFacts(spans);
    assert EdgeBefore(edges[i - 1], edges[i]);
    if i > 1 { assert EdgeBefore(edges[0], edges[i - 1]); }
    MeasureSplit(spans, k, edges[0].at, edges[i - 1].at, edges[i].at);
    forall t | edges[i - 1].at <= t < edges[i].at ensures Coverage(spans, t) == DeltaSum(edges[..i]) {
      PrefixIsCount(edges, i, t);
    }
    MeasureConstant(spans, k, edges[i - 1].at, edges[i].at, DeltaSum(edges[..i]));
  }

  lemma {:induction false} EdgesWithin(spans: seq<Span>, lo: int, hi: int)
    requires Brackets(spans, lo, hi)
    ensures forall e | e in EdgesOf(spans) :: lo <= e.at <= hi
  {
    if spans != [] {
      EdgesWithin(spans[..|spans| - 1], lo, hi);
    }
  }

  lemma {:induction false} SortedWithin(spans: seq<Span>, lo: int, hi: int, i: nat)
    requires Brackets(spans, lo, hi) && i < |Sorted(spans)|
    ensures lo <= Sorted(spans)[i].at <= hi
  {
    SortEdgesSorts(EdgesOf(spans));
    EdgesWithin(spans, lo, hi);
    assert Sorted(spans)[i] in multiset(Sorted(spans));
    assert Sorted(spans)[i] in EdgesOf(spans);
  }

  lemma {:induction false} BeforeFirst(spans: seq<Span>, t: int)
    requires |Sorted(spans)| > 0 ==> t < Sorted(spans)[0].at
    ensures Coverage(spans, t) == 0
  {
    SortedFacts(spans);
    PrefixIsCount(Sorted(spans), 0, t);
  }

  lemma {:induction false} AfterLast(spans: seq<Span>, t: int)
    requires |Sorted(spans)| > 0 && Sorted(spans)[|Sorted(spans)| - 1].at <= t
    ensures Coverage(spans, t) == 0
  {
    var edges := Sorted(spans);
    SortedFacts(spans);
    PrefixIsCount(edges, |edges|, t);
    assert edges[..|edges|] == edges;
  }

  lemma {:induction false} FirstToLast(spans: seq<Span>)
    requires |Sorted(spans)| > 0
    ensures Sorted(spans)[0].at <= Sorted(spans)[|Sorted(spans)| - 1].at
  {
    SortEdgesSorts(EdgesOf(spans));
    if |Sorted(spans)| > 1 { assert EdgeBefore(Sorted(spans)[0], Sorted(spans)[|Sorted(spans)| - 1]); }
  }

  /** Outside the edges nothing is covered, so the sweep measures any bracket of the spans. */
  lemma {:induction false} SweptWhole(spans: seq<Span>, k: nat, lo: int, hi: int)
    requires Brackets(spans, lo, hi) && k > 0
    ensures Swept(spans, k, |Sorted(spans)|) == Measure(spans, k, lo, hi)
  {
    var n := |Sorted(spans)|;
    if n == 0 {
      forall t | lo <= t < hi ensures Coverage(spans, t) == 0 { BeforeFirst(spans, t); }
      MeasureConstant(spans, k, lo, hi, 0);
    } else {
      var first, last := Sorted(spans)[0].at, Sorted(spans)[n - 1].at;
      SortedWithin(spans, lo, hi, 0);
      SortedWithin(spans, lo, hi, n - 1);
      FirstToLast(spans);
      forall t | lo <= t < first ensures Coverage(spans, t) == 0 { BeforeFirst(spans, t); }
      forall t | last <= t < hi ensures Coverage(spans, t) == 0 { AfterLast(spans, t); }
      MeasureConstant(spans, k, lo, first, 0);
      MeasureConstant(spans, k, last, hi, 0);
      MeasureSplit(spans, k, lo, first, hi);
      MeasureSplit(spans, k, first, last, hi);
    }
  }

  // ---------------------------------------------------------------- durations

  function Durations(spans: seq<Span>): nat {
    if spans == [] then 0
    else
      var last := spans[|spans| - 1];
      Durations(spans[..|spans| - 1]) + if last.end <= last.start then 0 else last.end - last.start
  }

  function Ignored(spans: seq<Span>): nat {
    if spans == [] then 0
    else Ignored(spans[..|spans| - 1]) + if spans[|spans| - 1].end <= spans[|spans| - 1].start then 1 else 0
  }

  lemma {:induction false} OneSpanMore(spans: seq<Span>, lo: int, hi: int)
    requires spans != [] && lo <= hi
    ensures var last := spans[|spans| - 1];
            var from, to := if last.start < lo then lo else last.start, if last.end > hi then hi else last.end;
            TotalCoverage(spans, lo, hi) == TotalCoverage(spans[..|spans| - 1], lo, hi) + if from < to then to - from else 0
    decreases hi - lo
  {
    if lo < hi { OneSpanMore(spans, lo, hi - 1); }
  }

  lemma {:induction false} NoSpans(lo: int, hi: int)
    ensures TotalCoverage([], lo, hi) == 0
    decreases hi - lo
  {
    if lo < hi { NoSpans(lo, hi - 1); }
  }

  /** The durations add up to the coverage. */
  lemma {:induction false} DurationsAreCoverage(spans: seq<Span>, lo: int, hi: int)
    requires Brackets(spans, lo, hi)
    ensures Durations(spans) == TotalCoverage(spans, lo, hi)
  {
    if spans == [] {
      NoSpans(lo, hi);
    } else {
      DurationsAreCoverage(spans[..|spans| - 1], lo, hi);
      OneSpanMore(spans, lo, hi);
    }
  }

  // ---------------------------------------------------------------- the sweep

  ghost predicate Sweeping(spans: seq<Span>, i: nat, active: int, peak: int, union: int, overlap: int) {
    && i <= |Sorted(spans)|
    && active == DeltaSum(Sorted(spans)[..i])
    && peak == MaxPrefix(Sorted(spans), i)
    && union == Swept(spans, 1, i)
    && overlap == Swept(spans, 2, i)
  }

  lemma {:induction false} SweepStep(spans: seq<Span>, i: nat, active: int, peak: int, union: int, overlap: int)
    requires Sweeping(spans, i, active, peak, union, overlap) && i < |Sorted(spans)|
    ensures var e := Sorted(spans)[i];
            var gap := if i > 0 then e.at - Sorted(spans)[i - 1].at else 0;
            Sweeping(spans, i + 1, active + e.delta,
              if active + e.delta > peak then active + e.delta else peak,
              if active >= 1 then union + gap else union,
              if active >= 2 then overlap + gap else overlap)
  {
    var edges := Sorted(spans);
    assert edges[..i + 1][..i] == edges[..i];
    if i > 0 {
      SweptOneMore(spans, 1, i);
      SweptOneMore(spans, 2, i);
    } else {
      assert edges[..0] == [];
    }
  }

  lemma {:induction false} SweepEnds(spans: seq<Span>, active: int, peak: int, union: int, overlap: int)
    requires Sweeping(spans, |Sorted(spans)|, active, peak, union, overlap)
    ensures active == 0
    ensures (forall t :: Coverage(spans, t) <= peak) && exists t :: Coverage(spans, t) == peak
    ensures forall lo, hi | Brackets(spans, lo, hi) :: union == Measure(spans, 1, lo, hi) && overlap == Measure(spans, 2, lo, hi)
  {
    ActiveNeverNegative(spans, |Sorted(spans)|);
    PeakIsMaximum(spans);
    forall lo, hi | Brackets(spans, lo, hi) ensures union == Measure(spans, 1, lo, hi) && overlap == Measure(spans, 2, lo, hi) {
      SweptWhole(spans, 1, lo, hi);
      SweptWhole(spans, 2, lo, hi);
    }
  }

  /**
    What counting at every instant says of a list of spans. The peak is the largest number of
    spans active at any instant; the union and the overlap are how many instants have at least
    one and at least two; the sum is the coverage added up.
   */
  ghost predicate Describes(c: Concurrency, spans: seq<Span>) {
    && c.spans == |spans| && c.ignored == Ignored(spans)
    && (forall t :: Coverage(spans, t) <= c.peak) && (exists t :: Coverage(spans, t) == c.peak)
    && forall lo, hi | Brackets(spans, lo, hi) ::
         && c.union == Measure(spans, 1, lo, hi)
         && c.overlap == Measure(spans, 2, lo, hi)
         && c.sum == TotalCoverage(spans, lo, hi)
  }

  /** `ComputeConcurrency`. */
  method ComputeConcurrency(spans: seq<Span>) returns (c: Concurrency)
    ensures Describes(c, spans)
  {
    var ignored, sum := 0, 0;
    var edges: seq<Edge> := [];
    for i := 0 to |spans|
      invariant edges == EdgesOf(spans[..i])
      invariant ignored == Ignored(spans[..i]) && sum == Durations(spans[..i])
    {
      var s := spans[i];
      assert spans[..i + 1][..i] == spans[..i];
      if s.end <= s.start {
        ignored := ignored + 1;
        continue;
      }
      sum := sum + (s.end - s.start);
      edges := edges + [Edge(s.start, 1), Edge(s.end, -1)];
    }
    assert spans[..|spans|] == spans;
    edges := SortEdges(edges);
    var active, peak, union, overlap := 0, 0, 0, 0;
    for i := 0 to |edges|
      invariant Sweeping(spans, i, active, peak, union, overlap)
      invariant active >= 0
    {
      var e := edges[i];
      SweepStep(spans, i, active, peak, union, overlap);
      ActiveNeverNegative(spans, i + 1);
      if i > 0 {
        var gap := e.at - edges[i - 1].at;
        if active >= 1 { union := union + gap; }
        if active >= 2 { overlap := overlap + gap; }
      }
      active := active + e.delta;
      if active > peak { peak := active; }
    }
    SweepEnds(spans, active, peak, union, overlap);
    forall lo, hi | Brackets(spans, lo, hi) ensures sum == TotalCoverage(spans, lo, hi) { DurationsAreCoverage(spans, lo, hi); }
    c := Concurrency(|spans|, ignored, peak, union, overlap, sum);
  }

  // ---------------------------------------------------------------- spans that never overlap

  lemma {:induction false} SinglyCovered(spans: seq<Span>, lo: int, hi: int)
    requires forall t :: Coverage(spans, t) <= 1
    ensures Measure(spans, 1, lo, hi) == TotalCoverage(spans, lo, hi)
    ensures Measure(spans, 2, lo, hi) == 0
    decreases hi - lo
  {
    if lo < hi { SinglyCovered(spans, lo, hi - 1); }
  }
}
