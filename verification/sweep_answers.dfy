/** What a sweep reports, as numbers of spans and of instants. */
module SweepAnswers {
  import opened Ids
  import opened Intervals
  import opened Sweep
  import opened LedgerLaws

  /** The spans active at an instant: started by then, and not yet ended. */
  ghost function ActiveAt(spans: seq<Span>, t: int): set<nat> {
    set i: nat | i < |spans| && spans[i].start <= t && t + 1 <= spans[i].end
  }

  /** The instants of a stretch of time at which at least so many spans are active. */
  ghost function Instants(spans: seq<Span>, k: nat, lo: int, hi: int): set<int> {
    set t | lo <= t < hi && |ActiveAt(spans, t)| >= k
  }

  /** The spans without duration. */
  ghost function Empty(spans: seq<Span>): set<nat> {
    set i: nat | i < |spans| && !(spans[i].start < spans[i].end)
  }

  lemma {:induction false} CoverageExactly(spans: seq<Span>, t: int)
    ensures Coverage(spans, t) == |ActiveAt(spans, t)|
  {
    if spans != [] {
      var n := |spans| - 1;
      CoverageExactly(spans[..n], t);
      assert ActiveAt(spans, t) == ActiveAt(spans[..n], t) + if Covers(spans[n], t) then {n} else {};
    }
  }

  lemma InstantsNext(spans: seq<Span>, k: nat, lo: int, hi: int)
    requires lo < hi
    ensures Instants(spans, k, lo, hi) == Instants(spans, k, lo, hi - 1) + if |ActiveAt(spans, hi - 1)| >= k then {hi - 1} else {}
  {
  }

  lemma {:induction false} MeasureExactly(spans: seq<Span>, k: nat, lo: int, hi: int)
    requires lo <= hi
    ensures Measure(spans, k, lo, hi) == |Instants(spans, k, lo, hi)|
    decreases hi - lo
  {
    if lo < hi {
      MeasureExactly(spans, k, lo, hi - 1);
      CoverageExactly(spans, hi - 1);
      InstantsNext(spans, k, lo, hi);
    } else {
      assert Instants(spans, k, lo, hi) == {};
    }
  }

  lemma {:induction false} IgnoredExactly(spans: seq<Span>)
    ensures Ignored(spans) == |Empty(spans)|
  {
    if spans != [] {
      var n := |spans| - 1;
      IgnoredExactly(spans[..n]);
      assert Empty(spans) == Empty(spans[..n]) + if spans[n].end <= spans[n].start then {n} else {};
    }
  }

  /** What a sweep reports; a stretch of time that holds every span with a duration holds everything counted. */
  lemma {:induction false} SweepCounts(c: Concurrency, spans: seq<Span>, lo: int, hi: int)
    requires Describes(c, spans) && Brackets(spans, lo, hi)
    ensures c.spans == |spans| && c.ignored == |Empty(spans)|
    ensures c.union == |Instants(spans, 1, lo, hi)| && c.overlap == |Instants(spans, 2, lo, hi)|
    ensures (forall t :: |ActiveAt(spans, t)| <= c.peak) && exists t :: |ActiveAt(spans, t)| == c.peak
    ensures c.sum == Durations(spans)
  {
    IgnoredExactly(spans);
    MeasureExactly(spans, 1, lo, hi);
    MeasureExactly(spans, 2, lo, hi);
    forall t ensures Coverage(spans, t) == |ActiveAt(spans, t)| { CoverageExactly(spans, t); }
    DurationsAreCoverage(spans, lo, hi);
  }

  lemma {:induction false} DescribedOnce(c: Concurrency, d: Concurrency, spans: seq<Span>)
    requires Describes(c, spans) && Describes(d, spans)
    ensures c == d
  {
    var lo, hi := SomeBracket(spans);
    SweepCounts(c, spans, lo, hi);
    SweepCounts(d, spans, lo, hi);
    var t :| |ActiveAt(spans, t)| == c.peak;
    var u :| |ActiveAt(spans, u)| == d.peak;
    assert |ActiveAt(spans, t)| <= d.peak && |ActiveAt(spans, u)| <= c.peak;
  }

  /** One span that lasts. */
  lemma {:induction false} OneSpan(c: Concurrency, start: int, end: int)
    requires start < end && Describes(c, [Span(start, end)])
    ensures c == Concurrency(1, 0, 1, end - start, 0, end - start)
  {
    var spans := [Span(start, end)];
    SweepCounts(c, spans, start, end);
    assert spans[..0] == [];
    forall t ensures Coverage(spans, t) == if start <= t < end then 1 else 0 {}
    SinglyCovered(spans, start, end);
    DurationsAreCoverage(spans, start, end);
    assert Empty(spans) == {};
    assert Coverage(spans, start) == 1;
  }
}
