/** The per-run event stream as a protocol: a growing journal, one connection, frames in flight, a client that reconnects. */
module Streams {
  import opened Ids

  const DEFAULT_PAGE := 100
  const MAX_PAGE := 500

  datatype Event = Event(sequence: int, body: Id)

  /** Every frame carries an id, which is what a client resumes from. */
  datatype Frame =
    | Snapshot(id: int, reflects: nat)
    | EventFrame(id: int, event: Event)
    | Heartbeat(id: int)
    | Stale(id: int)

  // ---------------------------------------------------------------- request parameters

  datatype Param = Absent | Malformed | Number(n: int)

  datatype Cursor = Cursor(position: int, resuming: bool, ok: bool)

  /** `pageNumber`. */
  function PageNumber(p: Param, fallback: int, max: int): Option<int> {
    match p
    case Absent => Some(fallback)
    case Malformed => None
    case Number(n) => if 0 <= n <= max then Some(n) else None
  }

  const MAX_INT64: int := 0x7FFF_FFFF_FFFF_FFFF

  /** `streamCursor`: the reconnect header wins over an explicit position. */
  function StreamCursor(lastEventId: Param, after: Param): Cursor {
    match lastEventId
    case Number(n) => Cursor(n, true, 0 <= n <= MAX_INT64)
    case Malformed => Cursor(0, true, false)
    case Absent =>
      if after.Absent? then Cursor(0, false, true)
      else
        var n := PageNumber(after, 0, MAX_INT64);
        if n.None? then Cursor(0, true, false) else Cursor(n.value, true, true)
  }

  // ---------------------------------------------------------------- the client

  /**
    What a client holds: the position it started from, what the snapshot there reflected if
    it was given one, the events it got since, and the last id it saw.
   */
  datatype Session = Session(base: int, reflects: Option<nat>, got: seq<Event>, lastId: int)

  function OnFrame(session: Option<Session>, f: Frame): Option<Session> {
    match f
    case Snapshot(id, reflects) => Some(Session(id, Some(reflects), [], id))
    case EventFrame(id, e) =>
      if session.None? then None else Some(session.value.(got := session.value.got + [e], lastId := id))
    case Heartbeat(id) => if session.None? then None else Some(session.value.(lastId := id))
    case Stale(id) => if session.None? then None else Some(session.value.(lastId := id))
  }

  /** What the client holds once everything in flight has arrived. */
  function Received(session: Option<Session>, wire: seq<Frame>): Option<Session>
    decreases |wire|
  {
    if wire == [] then session else Received(OnFrame(session, wire[0]), wire[1..])
  }

  // ---------------------------------------------------------------- steps

  datatype Conn =
    | Closed
    | Opened(resume: Option<nat>, limit: nat)
    | CursorRead(latest: nat, limit: nat)
    | SnapshotRead(latest: nat, reflects: nat, limit: nat)
    | Draining(cursor: int, limit: nat, page: seq<Event>, more: bool)
    | Tailing(cursor: int, limit: nat)

  datatype State = State(journal: seq<Event>, conn: Conn, wire: seq<Frame>, session: Option<Session>)

  /** A write can fail before or after the client's side of it happened. */
  datatype Write = Done | Failed | FailedAfterSending

  datatype Label =
    | Append(body: Id)
    | Connect(lastEventId: Param, after: Param, limit: Param)
    | ReadLatest(ok: bool)
    | ReadSnapshot(ok: bool)
    | WriteSnapshot(w: Write)
    | ReadPage(ok: bool, staleFrame: Write)
    | WriteEvent(w: Write)
    | PagesDone
    | Poll
    | WriteHeartbeat(w: Write)
    | Hangup
    | Deliver
    | LoseConnection
    | StartFrom(position: nat)

  /** A frame and where the connection goes if it was written. */
  function Wrote(s: State, w: Write, f: Frame, next: Conn): State {
    match w
    case Done => s.(wire := s.wire + [f], conn := next)
    case Failed => s.(conn := Closed)
    case FailedAfterSending => s.(wire := s.wire + [f], conn := Closed)
  }

  /** `EventsPage`: at most `limit` events after `cursor`, and whether there are more. */
  function PageAfter(journal: seq<Event>, cursor: nat, limit: nat): (seq<Event>, bool) {
    if cursor >= |journal| then ([], false)
    else if cursor + limit < |journal| then (journal[cursor..cursor + limit], true)
    else (journal[cursor..], false)
  }

  /** A client asks for what it has no session for, or resumes exactly where its session ends. */
  predicate AsksForItsOwn(session: Option<Session>, c: Cursor) {
    c.ok && c.resuming ==> session.Some? && session.value.lastId == c.position
  }

  /** The state after a step, or `None` where the step cannot happen. */
  function Next(s: State, l: Label): Option<State> {
    match l
    case Append(body) => Some(s.(journal := s.journal + [Event(|s.journal| + 1, body)]))
    case StartFrom(position) => if !s.conn.Closed? then None else Some(s.(wire := [], session := Some(Session(position, None, [], position))))
    case Connect(lastEventId, after, limit) =>
      var c, page := StreamCursor(lastEventId, after), PageNumber(limit, DEFAULT_PAGE, MAX_PAGE);
      if !s.conn.Closed? || !AsksForItsOwn(s.session, c) then None
      else if !c.ok || page.None? || page.value == 0 then Some(s.(wire := []))
      else if c.resuming then Some(s.(wire := [], conn := Opened(Some(c.position), page.value)))
      else Some(s.(wire := [], conn := Opened(None, page.value), session := None))
    case ReadLatest(ok) =>
      if !s.conn.Opened? then None
      else if !ok then Some(s.(conn := Closed))
      else if s.conn.resume.None? then Some(s.(conn := CursorRead(|s.journal|, s.conn.limit)))
      else if s.conn.resume.value > |s.journal| then Some(s.(conn := Closed))
      else Some(s.(conn := Draining(s.conn.resume.value, s.conn.limit, [], true)))
    case ReadSnapshot(ok) =>
      if !s.conn.CursorRead? then None
      else if !ok then Some(s.(conn := Closed))
      else Some(s.(conn := SnapshotRead(s.conn.latest, |s.journal|, s.conn.limit)))
    case WriteSnapshot(w) =>
      if !s.conn.SnapshotRead? then None
      else Some(Wrote(s, w, Snapshot(s.conn.latest, s.conn.reflects), Draining(s.conn.latest, s.conn.limit, [], true)))
    case ReadPage(ok, staleFrame) =>
      if !s.conn.Draining? || s.conn.page != [] || !s.conn.more || s.conn.cursor < 0 then None
      else if !ok then Some(Wrote(s, staleFrame, Stale(s.conn.cursor), Closed))
      else
        var (page, more) := PageAfter(s.journal, s.conn.cursor, s.conn.limit);
        Some(s.(conn := s.conn.(page := page, more := more)))
    case WriteEvent(w) =>
      if !s.conn.Draining? || s.conn.page == [] then None
      else
        var e := s.conn.page[0];
        Some(Wrote(s, w, EventFrame(e.sequence, e), s.conn.(cursor := e.sequence, page := s.conn.page[1..])))
    case PagesDone =>
      if !s.conn.Draining? || s.conn.page != [] || s.conn.more then None
      else Some(s.(conn := Tailing(s.conn.cursor, s.conn.limit)))
    case Poll =>
      if !s.conn.Tailing? then None else Some(s.(conn := Draining(s.conn.cursor, s.conn.limit, [], true)))
    case WriteHeartbeat(w) =>
      if !s.conn.Tailing? || s.conn.cursor < 0 then None else Some(Wrote(s, w, Heartbeat(s.conn.cursor), s.conn))
    case Hangup => Some(s.(conn := Closed))
    case Deliver => if s.wire == [] then None else Some(s.(wire := s.wire[1..], session := OnFrame(s.session, s.wire[0])))
    case LoseConnection => Some(s.(conn := Closed, wire := []))
  }

  // ---------------------------------------------------------------- the invariant

  ghost predicate Numbered(journal: seq<Event>) {
    forall i | 0 <= i < |journal| :: journal[i].sequence == i + 1
  }

  /** The events got are exactly the run of the journal between where the client started and the last id it saw. */
  ghost predicate Contiguous(journal: seq<Event>, session: Option<Session>) {
    session.Some? ==>
      var x := session.value;
      && 0 <= x.base && x.lastId == x.base + |x.got|
      && (x.got != [] ==> x.lastId <= |journal|)
      && (forall i | 0 <= i < |x.got| :: x.got[i] == journal[x.base + i])
      && (x.reflects.Some? ==> x.base <= x.reflects.value <= |journal|)
  }

  /** So it is now, and so it stays however many of the frames in flight still arrive. */
  ghost predicate StaysContiguous(journal: seq<Event>, session: Option<Session>, wire: seq<Frame>)
    decreases |wire|
  {
    Contiguous(journal, session) && (wire == [] || StaysContiguous(journal, OnFrame(session, wire[0]), wire[1..]))
  }

  /** Everything up to the connection's cursor has been sent, and nothing else. */
  ghost predicate SentUpTo(s: State, cursor: int) {
    && 0 <= cursor <= |s.journal|
    && Received(s.session, s.wire).Some? && Received(s.session, s.wire).value.lastId == cursor
  }

  ghost predicate ConnAgrees(s: State) {
    match s.conn
    case Closed => true
    case Opened(resume, limit) =>
      s.wire == [] && 1 <= limit <= MAX_PAGE
      && (resume.Some? ==> s.session.Some? && s.session.value.lastId == resume.value)
    case CursorRead(latest, limit) => s.wire == [] && 1 <= limit <= MAX_PAGE && latest <= |s.journal|
    case SnapshotRead(latest, reflects, limit) =>
      s.wire == [] && 1 <= limit <= MAX_PAGE && latest <= reflects <= |s.journal|
    case Draining(cursor, limit, page, more) =>
      && SentUpTo(s, cursor) && 1 <= limit <= MAX_PAGE
      && cursor + |page| <= |s.journal| && page == s.journal[cursor..cursor + |page|]
    case Tailing(cursor, limit) => SentUpTo(s, cursor) && 1 <= limit <= MAX_PAGE
  }

  ghost predicate Inv(s: State) {
    Numbered(s.journal) && StaysContiguous(s.journal, s.session, s.wire) && ConnAgrees(s)
  }

  const EMPTY := State([], Closed, [], None)

  function Run(labels: seq<Label>): State {
    if labels == [] then EMPTY
    else
      var before := Run(labels[..|labels| - 1]);
      var after := Next(before, labels[|labels| - 1]);
      if after.None? then before else after.value
  }

  lemma {:induction false} GrowthIsHarmless(journal: seq<Event>, e: Event, session: Option<Session>, wire: seq<Frame>)
    requires StaysContiguous(journal, session, wire)
    ensures StaysContiguous(journal + [e], session, wire)
    decreases |wire|
  {
    if wire != [] { GrowthIsHarmless(journal, e, OnFrame(session, wire[0]), wire[1..]); }
  }

  lemma {:induction false} OneMoreFrame(journal: seq<Event>, session: Option<Session>, wire: seq<Frame>, f: Frame)
    requires StaysContiguous(journal, session, wire) && Contiguous(journal, OnFrame(Received(session, wire), f))
    ensures StaysContiguous(journal, session, wire + [f])
    ensures Received(session, wire + [f]) == OnFrame(Received(session, wire), f)
    decreases |wire|
  {
    if wire == [] {
      assert [f][1..] == [];
    } else {
      assert (wire + [f])[1..] == wire[1..] + [f];
      OneMoreFrame(journal, OnFrame(session, wire[0]), wire[1..], f);
    }
  }

  lemma {:induction false} EndIsContiguous(journal: seq<Event>, session: Option<Session>, wire: seq<Frame>)
    requires StaysContiguous(journal, session, wire)
    ensures Contiguous(journal, Received(session, wire))
    decreases |wire|
  {
    if wire != [] { EndIsContiguous(journal, OnFrame(session, wire[0]), wire[1..]); }
  }

  /** The frames the server writes keep the client contiguous: its snapshot, the next event, or its own cursor again. */
  lemma NextFrame(s: State, f: Frame)
    requires Inv(s)
    requires match f
             case Snapshot(id, reflects) => 0 <= id <= reflects <= |s.journal|
             case EventFrame(id, e) => SentUpTo(s, id - 1) && id <= |s.journal| && e == s.journal[id - 1]
             case Heartbeat(id) => SentUpTo(s, id)
             case Stale(id) => SentUpTo(s, id)
    ensures StaysContiguous(s.journal, s.session, s.wire + [f])
    ensures Received(s.session, s.wire + [f]).Some? && Received(s.session, s.wire + [f]).value.lastId == f.id
  {
    EndIsContiguous(s.journal, s.session, s.wire);
    OneMoreFrame(s.journal, s.session, s.wire, f);
  }

  lemma WrittenKeeps(s: State, w: Write, f: Frame, next: Conn)
    requires Inv(s)
    requires match f
             case Snapshot(id, reflects) => 0 <= id <= reflects <= |s.journal|
             case EventFrame(id, e) => SentUpTo(s, id - 1) && id <= |s.journal| && e == s.journal[id - 1]
             case Heartbeat(id) => SentUpTo(s, id)
             case Stale(id) => SentUpTo(s, id)
    requires w.Done? && !next.Closed? ==> SentUpTo(s.(wire := s.wire + [f]), f.id) ==> ConnAgrees(s.(wire := s.wire + [f], conn := next))
    ensures Inv(Wrote(s, w, f, next))
  {
    NextFrame(s, f);
  }

  lemma WriteKeeps(s: State, l: Label)
    requires Inv(s) && Next(s, l).Some?
    requires l.WriteSnapshot? || l.WriteEvent? || l.WriteHeartbeat? || l.ReadPage?
    ensures Inv(Next(s, l).value)
  {
    match l
    case WriteSnapshot(w) =>
      WrittenKeeps(s, w, Snapshot(s.conn.latest, s.conn.reflects), Draining(s.conn.latest, s.conn.limit, [], true));
    case WriteEvent(w) =>
      var e, page := s.conn.page[0], s.conn.page;
      assert e == s.journal[s.conn.cursor] && e.sequence == s.conn.cursor + 1;
      assert page[1..] == s.journal[e.sequence..e.sequence + |page| - 1];
      WrittenKeeps(s, w, EventFrame(e.sequence, e), s.conn.(cursor := e.sequence, page := page[1..]));
    case WriteHeartbeat(w) => WrittenKeeps(s, w, Heartbeat(s.conn.cursor), s.conn);
    case ReadPage(ok, staleFrame) =>
      if !ok { WrittenKeeps(s, staleFrame, Stale(s.conn.cursor), Closed); }
  }

  lemma StepKeeps(s: State, l: Label)
    requires Inv(s) && Next(s, l).Some?
    ensures Inv(Next(s, l).value)
  {
    match l
    case Append(body) => GrowthIsHarmless(s.journal, Event(|s.journal| + 1, body), s.session, s.wire);
    case WriteSnapshot(_) => WriteKeeps(s, l);
    case WriteEvent(_) => WriteKeeps(s, l);
    case WriteHeartbeat(_) => WriteKeeps(s, l);
    case ReadPage(_, _) => WriteKeeps(s, l);
    case Deliver =>
    case Connect(lastEventId, after, limit) =>
    case ReadLatest(_) =>
    case _ =>
  }

  lemma {:induction false} RunKeeps(labels: seq<Label>)
    ensures Inv(Run(labels))
  {
    if labels != [] {
      var before := Run(labels[..|labels| - 1]);
      RunKeeps(labels[..|labels| - 1]);
      if Next(before, labels[|labels| - 1]).Some? { StepKeeps(before, labels[|labels| - 1]); }
    }
  }

  /**
    The client holds every event after its starting position up to the last id it saw, once
    and in order, and a snapshot reflects at least everything up to the position it was given
    with.
   */
  ghost predicate HoldsEverything(journal: seq<Event>, x: Session) {
    && 0 <= x.base && |x.got| == x.lastId - x.base
    && (forall i | 0 <= i < |x.got| :: x.got[i].sequence == x.base + i + 1)
    && (x.got != [] ==> x.lastId <= |journal| && x.got == journal[x.base..x.lastId])
    && (x.reflects.Some? ==> x.base <= x.reflects.value <= |journal|)
  }

  lemma {:induction false} ContiguousHoldsEverything(journal: seq<Event>, session: Option<Session>)
    requires Numbered(journal) && Contiguous(journal, session) && session.Some?
    ensures HoldsEverything(journal, session.value)
  {
  }

  /** However appends, page reads, failed writes, lost connections and reconnects interleave. */
  lemma {:induction false} NeverSkips(labels: seq<Label>)
    ensures Run(labels).session.Some? ==> HoldsEverything(Run(labels).journal, Run(labels).session.value)
  {
    RunKeeps(labels);
    var s := Run(labels);
    if s.session.Some? { ContiguousHoldsEverything(s.journal, s.session); }
  }

  /** A connection that has nothing left to write or deliver has brought the client to its cursor. */
  lemma {:induction false} QuietMeansCaughtUp(labels: seq<Label>)
    requires Run(labels).conn.Tailing? && Run(labels).wire == []
    ensures Run(labels).session.Some? && Run(labels).session.value.lastId == Run(labels).conn.cursor
  {
    RunKeeps(labels);
  }

  // ---------------------------------------------------------------- a cursor the client is ahead of

  lemma {:induction false} RunNext(labels: seq<Label>, l: Label)
    ensures Run(labels + [l]) == if Next(Run(labels), l).None? then Run(labels) else Next(Run(labels), l).value
  {
    assert (labels + [l])[..|labels|] == labels;
  }

  /**
    A write that reaches the client and still reports an error ends the connection one behind:
    the cursor is never moved, and the client comes to hold the event after it.
   */
  lemma {:induction false} CursorLags(labels: seq<Label>)
    requires Run(labels).conn.Draining? && Run(labels).conn.page != []
    ensures var after := Run(labels + [WriteEvent(FailedAfterSending)]);
            && after.conn.Closed?
            && Received(after.session, after.wire).Some?
            && Received(after.session, after.wire).value.lastId == Run(labels).conn.cursor + 1
  {
    var s := Run(labels);
    RunKeeps(labels);
    RunNext(labels, WriteEvent(FailedAfterSending));
    var e := s.conn.page[0];
    assert e == s.journal[s.conn.cursor];
    NextFrame(s, EventFrame(e.sequence, e));
  }

  /** A client resuming from the start of a journal of one event. */
  function Resuming(): seq<Label> {
    [Append(0), StartFrom(0), Connect(Number(0), Absent, Absent), ReadLatest(true), ReadPage(true, Done)]
  }

  /** Such a connection exists: the cursor stays at zero and the client holds the first event. */
  lemma CursorLagsSomewhere()
    ensures Run(Resuming()).conn.Draining? && Run(Resuming()).conn.page != [] && Run(Resuming()).conn.cursor == 0
  {
    var e := Event(1, 0);
    RunNext([], Append(0));
    RunNext([Append(0)], StartFrom(0));
    RunNext([Append(0), StartFrom(0)], Connect(Number(0), Absent, Absent));
    RunNext([Append(0), StartFrom(0), Connect(Number(0), Absent, Absent)], ReadLatest(true));
    RunNext([Append(0), StartFrom(0), Connect(Number(0), Absent, Absent), ReadLatest(true)], ReadPage(true, Done));
    assert Resuming() == [Append(0), StartFrom(0), Connect(Number(0), Absent, Absent), ReadLatest(true)] + [ReadPage(true, Done)];
    assert [Append(0), StartFrom(0), Connect(Number(0), Absent, Absent)] + [ReadLatest(true)] == [Append(0), StartFrom(0), Connect(Number(0), Absent, Absent), ReadLatest(true)];
    assert [Append(0), StartFrom(0)] + [Connect(Number(0), Absent, Absent)] == [Append(0), StartFrom(0), Connect(Number(0), Absent, Absent)];
    assert [Append(0)] + [StartFrom(0)] == [Append(0), StartFrom(0)];
    assert [] + [Append(0)] == [Append(0)];
    assert Run([Append(0)]).journal == [e];
  }
}
