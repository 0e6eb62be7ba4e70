/** Where a connection starts, what a page holds, and that a client can always be brought up to date. */
module StreamAnswers {
  import opened Ids
  import opened Streams

  // ---------------------------------------------------------------- what a request asks for

  /** A number the header or the query carries that a position can be. */
  ghost predicate Position(p: Param, n: int) {
    p == Number(n) && 0 <= n <= 9223372036854775807
  }

  /** The reconnect header decides whenever it is there; otherwise the stated position; otherwise the stream starts afresh. */
  lemma CursorExactly(lastEventId: Param, after: Param)
    ensures var c := StreamCursor(lastEventId, after);
            var asked := if lastEventId == Absent then after else lastEventId;
            && (c.resuming <==> asked != Absent)
            && (c.ok <==> asked == Absent || exists n :: Position(asked, n))
            && forall n | Position(asked, n) :: c.position == n
  {
    var asked := if lastEventId == Absent then after else lastEventId;
    if asked.Number? && 0 <= asked.n <= MAX_INT64 { assert Position(asked, asked.n); }
  }

  /** The events after a position, as many as asked for, and whether that was not all of them. */
  lemma PageExactly(journal: seq<Event>, cursor: nat, limit: nat)
    ensures var (page, more) := PageAfter(journal, cursor, limit);
            && |page| == (if |journal| < cursor then 0 else if |journal| - cursor < limit then |journal| - cursor else limit)
            && (forall i | 0 <= i < |page| :: page[i] == journal[cursor + i])
            && (more <==> cursor + limit < |journal|)
  {
  }

  // ---------------------------------------------------------------- getting from one state to another

  /** The steps can be taken one after the other. */
  ghost predicate Takes(s: State, labels: seq<Label>, t: State)
    decreases |labels|
  {
    if labels == [] then s == t else Next(s, labels[0]).Some? && Takes(Next(s, labels[0]).value, labels[1..], t)
  }

  ghost predicate Leads(s: State, t: State) {
    exists labels: seq<Label> :: Takes(s, labels, t)
  }

  lemma {:induction false} TakesBoth(s: State, a: seq<Label>, t: State, b: seq<Label>, u: State)
    requires Takes(s, a, t) && Takes(t, b, u)
    ensures Takes(s, a + b, u)
    decreases |a|
  {
    if a == [] {
      assert a + b == b;
    } else {
      assert (a + b)[0] == a[0] && (a + b)[1..] == a[1..] + b;
      TakesBoth(Next(s, a[0]).value, a[1..], t, b, u);
    }
  }

  lemma {:induction false} LeadsOn(s: State, t: State, u: State)
    requires Leads(s, t) && Leads(t, u)
    ensures Leads(s, u)
  {
    var a: seq<Label> :| Takes(s, a, t);
    var b: seq<Label> :| Takes(t, b, u);
    TakesBoth(s, a, t, b, u);
  }

  lemma LeadsNext(s: State, l: Label)
    requires Next(s, l).Some?
    ensures Leads(s, Next(s, l).value)
  {
    assert [l][1..] == [];
    assert Takes(s, [l], Next(s, l).value);
  }

  lemma LeadsSelf(s: State)
    ensures Leads(s, s)
  {
    assert Takes(s, [], s);
  }

  // ---------------------------------------------------------------- catching up

  /** Everything in flight arrives. */
  lemma {:induction false} AllArrive(s: State) returns (t: State)
    ensures Leads(s, t) && t == s.(wire := [], session := Received(s.session, s.wire))
    decreases |s.wire|
  {
    if s.wire == [] {
      t := s;
      LeadsSelf(s);
    } else {
      LeadsNext(s, Deliver);
      t := AllArrive(Next(s, Deliver).value);
      LeadsOn(s, Next(s, Deliver).value, t);
    }
  }

  /** Where the client will have started from, once everything in flight has arrived. */
  ghost function BaseOf(s: State): Option<int> {
    var session := Received(s.session, s.wire);
    if session.None? then None else Some(session.value.base)
  }

  /** One event of the page is written. */
  lemma OneWritten(s: State) returns (t: State)
    requires Inv(s) && s.conn.Draining? && s.conn.page != []
    ensures Leads(s, t) && Inv(t) && t.journal == s.journal && t.conn.Draining? && t.conn.cursor == s.conn.cursor + 1
    ensures t.conn.page == s.conn.page[1..] && t.conn.more == s.conn.more && BaseOf(t) == BaseOf(s)
  {
    assert s.conn.page[0] == s.journal[s.conn.cursor];
    EndIsContiguous(s.journal, s.session, s.wire);
    OneMoreFrame(s.journal, s.session, s.wire, EventFrame(s.conn.page[0].sequence, s.conn.page[0]));
    t := Next(s, WriteEvent(Done)).value;
    LeadsNext(s, WriteEvent(Done));
    StepKeeps(s, WriteEvent(Done));
  }

  /** The page is written out. */
  lemma {:induction false} PageWritten(s: State) returns (t: State)
    requires Inv(s) && s.conn.Draining?
    ensures Leads(s, t) && Inv(t) && t.journal == s.journal && t.conn.Draining? && t.conn.page == []
    ensures t.conn.cursor == s.conn.cursor + |s.conn.page| && t.conn.more == s.conn.more && BaseOf(t) == BaseOf(s)
    decreases if s.conn.Draining? then |s.conn.page| else 0
  {
    if s.conn.page == [] {
      t := s;
      LeadsSelf(s);
    } else {
      var one := OneWritten(s);
      t := PageWritten(one);
      LeadsOn(s, one, t);
    }
  }

  /** With nothing of the page left and events remaining, a further page is read, if need be after polling. */
  lemma NextPageRead(s: State) returns (t: State)
    requires Inv(s) && s.conn.Draining? && s.conn.page == [] && s.conn.cursor < |s.journal|
    ensures Leads(s, t) && Inv(t) && t.journal == s.journal && t.conn.Draining? && t.conn.cursor == s.conn.cursor && t.conn.page != []
    ensures BaseOf(t) == BaseOf(s)
  {
    var ready := s;
    LeadsSelf(s);
    if !s.conn.more {
      var tailing := Next(s, PagesDone).value;
      LeadsNext(s, PagesDone);
      StepKeeps(s, PagesDone);
      ready := Next(tailing, Poll).value;
      LeadsNext(tailing, Poll);
      StepKeeps(tailing, Poll);
      LeadsOn(s, tailing, ready);
    }
    t := Next(ready, ReadPage(true, Done)).value;
    LeadsNext(ready, ReadPage(true, Done));
    StepKeeps(ready, ReadPage(true, Done));
    PageExactly(ready.journal, ready.conn.cursor, ready.conn.limit);
    LeadsOn(s, ready, t);
  }

  /** While writes go through and nobody commits, the connection drains the whole journal. */
  lemma {:induction false} Drains(s: State) returns (t: State)
    requires Inv(s) && s.conn.Draining?
    ensures Leads(s, t) && Inv(t) && t.journal == s.journal && t.conn.Draining? && t.conn.page == [] && t.conn.cursor == |s.journal|
    ensures BaseOf(t) == BaseOf(s)
    decreases if s.conn.Draining? then |s.journal| - s.conn.cursor else 0
  {
    var written := PageWritten(s);
    if written.conn.cursor == |s.journal| {
      t := written;
    } else {
      var read := NextPageRead(written);
      var one := OneWritten(read);
      t := Drains(one);
      LeadsOn(s, written, read);
      LeadsOn(s, read, one);
      LeadsOn(s, one, t);
    }
  }

  /** The client holds every event from where it started to the end of the journal. */
  ghost predicate UpToDate(s: State) {
    s.session.Some? && HoldsEverything(s.journal, s.session.value) && s.session.value.lastId == |s.journal|
  }

  lemma {:induction false} CatchesUp(s: State) returns (t: State)
    requires Inv(s) && s.conn.Draining?
    ensures Leads(s, t) && t.journal == s.journal && UpToDate(t) && Some(t.session.value.base) == BaseOf(s)
  {
    var drained := Drains(s);
    t := AllArrive(drained);
    EndIsContiguous(drained.journal, drained.session, drained.wire);
    ContiguousHoldsEverything(t.journal, t.session);
    LeadsOn(s, drained, t);
  }

  // ---------------------------------------------------------------- coming back

  /** A lost connection leaves the client as it is, with nothing on the way to it. */
  lemma Lost(s: State) returns (t: State)
    requires Inv(s)
    ensures Leads(s, t) && Inv(t) && t == s.(conn := Closed, wire := [])
  {
    t := Next(s, LoseConnection).value;
    LeadsNext(s, LoseConnection);
    StepKeeps(s, LoseConnection);
  }

  /** A client that comes back with the last id it saw is served from exactly there. */
  lemma Resumes(s: State) returns (t: State)
    requires Inv(s) && s.conn.Closed? && s.wire == [] && s.session.Some? && s.session.value.lastId <= |s.journal|
    requires |s.journal| <= MAX_INT64
    ensures Leads(s, t) && Inv(t) && t.journal == s.journal && t.session == s.session && t.wire == [] && t.conn.Draining?
  {
    var l := Connect(Number(s.session.value.lastId), Absent, Absent);
    var admitted := Next(s, l).value;
    LeadsNext(s, l);
    StepKeeps(s, l);
    t := Next(admitted, ReadLatest(true)).value;
    LeadsNext(admitted, ReadLatest(true));
    StepKeeps(admitted, ReadLatest(true));
    LeadsOn(s, admitted, t);
  }

  /** A client that comes with nothing is given a snapshot and served from where it was taken. */
  lemma Begins(s: State) returns (t: State)
    requires Inv(s) && s.conn.Closed? && s.wire == []
    ensures Leads(s, t) && Inv(t) && t.journal == s.journal && t.conn.Draining?
  {
    var l := Connect(Absent, Absent, Absent);
    var admitted := Next(s, l).value;
    LeadsNext(s, l);
    StepKeeps(s, l);
    var read := Next(admitted, ReadLatest(true)).value;
    LeadsNext(admitted, ReadLatest(true));
    StepKeeps(admitted, ReadLatest(true));
    var reflected := Next(read, ReadSnapshot(true)).value;
    LeadsNext(read, ReadSnapshot(true));
    StepKeeps(read, ReadSnapshot(true));
    t := Next(reflected, WriteSnapshot(Done)).value;
    LeadsNext(reflected, WriteSnapshot(Done));
    StepKeeps(reflected, WriteSnapshot(Done));
    LeadsOn(s, admitted, read);
    LeadsOn(s, read, reflected);
    LeadsOn(s, reflected, t);
  }

  /**
    Nothing a run does shuts a client out: after it, whatever state the connection is in, the
    client can lose it, come back with the last id it saw, and end holding every event from
    where it first started to the end of the journal; and a client that holds nothing can begin.
   */
  lemma {:induction false} CanBeBroughtUpToDate(labels: seq<Label>) returns (t: State)
    requires |Run(labels).journal| <= MAX_INT64
    ensures Leads(Run(labels), t) && t.journal == Run(labels).journal && UpToDate(t)
    ensures Run(labels).session.Some? && Run(labels).session.value.lastId <= |Run(labels).journal| ==>
              t.session.value.base == Run(labels).session.value.base
  {
    var s := Run(labels);
    RunKeeps(labels);
    var lost := Lost(s);
    if s.session.Some? && s.session.value.lastId <= |s.journal| {
      var resumed := Resumes(lost);
      t := CatchesUp(resumed);
      LeadsOn(s, lost, resumed);
      LeadsOn(s, resumed, t);
    } else {
      var begun := Begins(lost);
      t := CatchesUp(begun);
      LeadsOn(s, lost, begun);
      LeadsOn(s, begun, t);
    }
  }
}
