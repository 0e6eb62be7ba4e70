/** What an accepted activity log says: one stream of attention, one operator, no gap in the accounting. */
module LedgerLaws {
  import opened Ids
  import opened Activity
  import opened Intervals
  import opened Sweep

  // ---------------------------------------------------------------- sorting by start

  lemma {:induction false} InsertByStartMultiset(x: Interval, s: seq<Interval>)
    ensures multiset(InsertByStart(x, s)) == multiset(s) + multiset{x}
  {
    if s != [] {
      var n := |s| - 1;
      assert s == s[..n] + [s[n]];
      if s[n].start > x.start { InsertByStartMultiset(x, s[..n]); }
    }
  }

  lemma {:induction false} SortByStartMultiset(s: seq<Interval>)
    ensures multiset(SortByStart(s)) == multiset(s)
  {
    if s != [] {
      var n := |s| - 1;
      SortByStartMultiset(s[..n]);
      InsertByStartMultiset(s[n], SortByStart(s[..n]));
      assert s == s[..n] + [s[n]];
    }
  }

  /** Everything in the ledger came from a start record and is as folding left it. */
  lemma {:induction false} LedgerIsSound(records: seq<Record>)
    ensures forall x | x in LedgerOf(records) :: SoundInterval(x.id, x)
  {
    var f := FoldRecords(records);
    FoldIsSound(records);
    var listed := Listed(f, f.order);
    SortByStartMultiset(listed);
    forall x | x in LedgerOf(records) ensures SoundInterval(x.id, x) {
      assert x in multiset(LedgerOf(records));
      assert x in listed;
    }
  }

  // ---------------------------------------------------------------- disjointness

  ghost predicate Disjoint(ledger: seq<Interval>) {
    forall i, j | 0 <= i < j < |ledger| :: Follows(ledger[i], ledger[j])
  }

  /** Checking neighbours is enough. */
  lemma {:induction false} NeighboursSuffice(ledger: seq<Interval>, i: nat, j: nat)
    requires NoOverlap(ledger) && i < j < |ledger|
    requires forall x | x in ledger :: SoundInterval(x.id, x)
    ensures Follows(ledger[i], ledger[j])
    decreases j
  {
    assert Follows(ledger[j - 1], ledger[j]);
    if i < j - 1 {
      NeighboursSuffice(ledger, i, j - 1);
      assert SoundInterval(ledger[j - 1].id, ledger[j - 1]);
    }
  }

  /** The intervals of an accepted log are pairwise disjoint, only the last can be open, and one operator performs them all. */
  lemma {:induction false} AcceptedIsOneStream(records: seq<Record>)
    requires FoldAccepts(records)
    ensures Disjoint(LedgerOf(records))
    ensures forall i | 0 <= i < |LedgerOf(records)| - 1 :: LedgerOf(records)[i].end.Some?
    ensures forall x, y | x in LedgerOf(records) && y in LedgerOf(records) :: x.operator == y.operator
  {
    var ledger := LedgerOf(records);
    LedgerIsSound(records);
    forall i, j | 0 <= i < j < |ledger| ensures Follows(ledger[i], ledger[j]) { NeighboursSuffice(ledger, i, j); }
    forall i | 0 <= i < |ledger| - 1 ensures ledger[i].end.Some? { assert Follows(ledger[i], ledger[i + 1]); }
  }

  // ---------------------------------------------------------------- attention time

  function Duration(x: Interval): int {
    if x.end.None? then 0 else x.end.value - x.start
  }

  /** Attended or unattended time of one arm. */
  function Time(ledger: seq<Interval>, arm: Arm, attended: bool): int {
    if ledger == [] then 0
    else
      var last := ledger[|ledger| - 1];
      Time(ledger[..|ledger| - 1], arm, attended)
      + if last.arm == arm && CountsAsHumanAttention(last.kind) == attended then Duration(last) else 0
  }

  /** The intervals that have ended. */
  function ClosedSpans(ledger: seq<Interval>): seq<Span> {
    if ledger == [] then []
    else
      var last := ledger[|ledger| - 1];
      ClosedSpans(ledger[..|ledger| - 1]) + if last.end.Some? then [Span(last.start, last.end.value)] else []
  }

  lemma {:induction false} NothingCovers(spans: seq<Span>, t: int)
    requires forall s | s in spans :: s.end <= t
    ensures Coverage(spans, t) == 0
  {
    if spans != [] { NothingCovers(spans[..|spans| - 1], t); }
  }

  lemma {:induction false} SpansEndBy(ledger: seq<Interval>, t: int)
    requires forall x | x in ledger && x.end.Some? :: x.end.value <= t
    ensures forall s | s in ClosedSpans(ledger) :: s.end <= t
  {
    if ledger != [] { SpansEndBy(ledger[..|ledger| - 1], t); }
  }

  lemma {:induction false} DisjointCoversOnce(ledger: seq<Interval>, t: int)
    requires Disjoint(ledger)
    ensures Coverage(ClosedSpans(ledger), t) <= 1
  {
    if ledger != [] {
      var n := |ledger| - 1;
      var last := ledger[n];
      DisjointCoversOnce(ledger[..n], t);
      var before := ClosedSpans(ledger[..n]);
      if last.end.Some? {
        assert (before + [Span(last.start, last.end.value)])[..|before|] == before;
        if last.start <= t {
          SpansEndBy(ledger[..n], t);
          NothingCovers(before, t);
        }
      } else {
        assert before + [] == before;
      }
    }
  }

  ghost predicate Timely(ledger: seq<Interval>) {
    forall x | x in ledger :: !x.arm.UnknownArm? && (x.end.Some? ==> x.start < x.end.value)
  }

  /** Every closed interval's time is counted once, under one arm and one of the two headings. */
  lemma {:induction false} TimeIsDurations(ledger: seq<Interval>)
    requires Timely(ledger)
    ensures Time(ledger, Planned, true) + Time(ledger, Planned, false) + Time(ledger, Direct, true) + Time(ledger, Direct, false)
         == Durations(ClosedSpans(ledger))
  {
    if ledger != [] {
      var n := |ledger| - 1;
      assert ledger[n] in ledger;
      assert Timely(ledger[..n]);
      TimeIsDurations(ledger[..n]);
      OneMoreSpan(ledger, n);
      assert CountsAsHumanAttention(ledger[n].kind) == true || CountsAsHumanAttention(ledger[n].kind) == false;
    }
  }

  lemma {:induction false} OneMoreSpan(ledger: seq<Interval>, n: nat)
    requires n + 1 == |ledger|
    ensures Durations(ClosedSpans(ledger)) == Durations(ClosedSpans(ledger[..n]))
              + if ledger[n].end.Some? && ledger[n].start < ledger[n].end.value then ledger[n].end.value - ledger[n].start else 0
  {
    var before := ClosedSpans(ledger[..n]);
    if ledger[n].end.Some? {
      assert (before + [Span(ledger[n].start, ledger[n].end.value)])[..|before|] == before;
    } else {
      assert before + [] == before;
    }
  }

  lemma {:induction false} SomeBracket(spans: seq<Span>) returns (lo: int, hi: int)
    ensures Brackets(spans, lo, hi)
  {
    if spans == [] {
      lo, hi := 0, 0;
    } else {
      lo, hi := SomeBracket(spans[..|spans| - 1]);
      var last := spans[|spans| - 1];
      if last.start < last.end {
        if last.start < lo { lo := last.start; }
        if last.end > hi { hi := last.end; }
      }
    }
  }

  /**
    Over both arms of an accepted log, the attended and the unattended time add up to what the
    sweep finds on the closed intervals: no instant is counted twice and none is lost.
   */
  lemma {:induction false} AttentionIsConserved(records: seq<Record>, c: Concurrency)
    requires FoldAccepts(records) && Describes(c, ClosedSpans(LedgerOf(records)))
    ensures var l := LedgerOf(records);
            var total := Time(l, Planned, true) + Time(l, Planned, false) + Time(l, Direct, true) + Time(l, Direct, false);
            total == c.sum && total == c.union
    ensures c.overlap == 0 && c.peak <= 1
  {
    var ledger := LedgerOf(records);
    var spans := ClosedSpans(ledger);
    AcceptedIsOneStream(records);
    LedgerIsSound(records);
    TimeIsDurations(ledger);
    forall t ensures Coverage(spans, t) <= 1 { DisjointCoversOnce(ledger, t); }
    var lo, hi := SomeBracket(spans);
    SinglyCovered(spans, lo, hi);
    DurationsAreCoverage(spans, lo, hi);
  }
}
