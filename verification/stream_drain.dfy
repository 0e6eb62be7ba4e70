/** `drain`: replaying a journal that others keep appending to, frame by frame. */
module StreamDrain {
  import opened Ids
  import opened Streams

  function EventFrames(events: seq<Event>): seq<Frame> {
    if events == [] then []
    else EventFrames(events[..|events| - 1]) + [EventFrame(events[|events| - 1].sequence, events[|events| - 1])]
  }

  /** What can have gone out last before the connection stopped being served. */
  predicate LastWords(words: seq<Frame>, journal: seq<Event>, cursor: int)
    requires 0 <= cursor <= |journal|
  {
    || words == []
    || words == [Stale(cursor)]
    || (cursor < |journal| && words == [EventFrame(cursor + 1, journal[cursor])])
  }

  ghost predicate SentSince(sent: seq<Frame>, before: seq<Frame>, journal: seq<Event>, from: int, cursor: int)
    requires 0 <= from <= cursor <= |journal|
  {
    sent == before + EventFrames(journal[from..cursor])
  }

  lemma {:induction false} OneFrameOn(journal: seq<Event>, from: int, cursor: int)
    requires Numbered(journal) && 0 <= from <= cursor < |journal|
    ensures EventFrames(journal[from..cursor + 1]) == EventFrames(journal[from..cursor]) + [EventFrame(cursor + 1, journal[cursor])]
  {
    assert journal[from..cursor + 1][..cursor - from] == journal[from..cursor];
  }

  /** A client standing at `from` that receives the frames stands at `end`, with the events between. */
  lemma {:induction false} FramesAdvance(journal: seq<Event>, session: Session, from: nat, end: nat)
    requires Numbered(journal) && from <= end <= |journal| && session.lastId == from
    ensures Received(Some(session), EventFrames(journal[from..end])) == Some(session.(got := session.got + journal[from..end], lastId := end))
    decreases end
  {
    if from == end {
      assert session.got + journal[from..end] == session.got;
    } else {
      FramesAdvance(journal, session, from, end - 1);
      OneFrameOn(journal, from, end - 1);
      var f := EventFrame(end, journal[end - 1]);
      ReceivedLast(Some(session), EventFrames(journal[from..end - 1]), f);
      assert session.got + journal[from..end - 1] + [journal[end - 1]] == session.got + journal[from..end];
    }
  }

  lemma {:induction false} ReceivedLast(session: Option<Session>, wire: seq<Frame>, f: Frame)
    ensures Received(session, wire + [f]) == OnFrame(Received(session, wire), f)
    decreases |wire|
  {
    if wire == [] {
      assert [f][1..] == [];
    } else {
      assert (wire + [f])[1..] == wire[1..] + [f];
      ReceivedLast(OnFrame(session, wire[0]), wire[1..], f);
    }
  }

  /** One connection's handler, the journal it reads and the frames it has written. */
  class Handler {
    var journal: seq<Event>
    /** How many events others will still commit; whatever it is, it is finite. */
    var arriving: nat
    var sent: seq<Frame>
    var cursor: int

    constructor (journal: seq<Event>, arriving: nat, cursor: int)
      ensures this.journal == journal && this.arriving == arriving && this.cursor == cursor && sent == []
    {
      this.journal, this.arriving, this.cursor, sent := journal, arriving, cursor, [];
    }

    /** Others may commit between any two reads. */
    method OthersCommit()
      requires Numbered(journal)
      modifies this`journal, this`arriving
      ensures old(journal) <= journal && Numbered(journal)
      ensures |journal| + arriving == old(|journal| + arriving)
    {
      while arriving > 0
        invariant old(journal) <= journal && Numbered(journal)
        invariant |journal| + arriving == old(|journal| + arriving)
        decreases arriving
      {
        if * { break; }
        var body: Id := *;
        journal := journal + [Event(|journal| + 1, body)];
        arriving := arriving - 1;
      }
    }

    /** The extra row establishes whether there are more. */
    method EventsPage(after: int, limit: nat) returns (events: seq<Event>, more: bool, ok: bool)
      requires Numbered(journal)
      modifies this`journal, this`arriving
      ensures old(journal) <= journal && Numbered(journal)
      ensures |journal| + arriving == old(|journal| + arriving)
      ensures ok ==> 0 <= after && 1 <= limit <= MAX_PAGE && (events, more) == PageAfter(journal, after, limit)
    {
      OthersCommit();
      events, more, ok := [], false, false;
      if after < 0 || limit < 1 || limit > MAX_PAGE { return; }
      if * { return; }
      ok := true;
      if after < |journal| {
        var rows := journal[after..if after + limit + 1 < |journal| then after + limit + 1 else |journal|];
        events := rows;
        if |rows| > limit {
          events, more := rows[..limit], true;
          assert events == journal[after..after + limit];
        } else {
          assert events == journal[after..];
        }
      }
    }

    /** A failed write may or may not have reached the client. */
    method WriteSSE(f: Frame) returns (ok: bool)
      modifies this`sent
      ensures ok ==> sent == old(sent) + [f]
      ensures !ok ==> sent == old(sent) || sent == old(sent) + [f]
    {
      if * { return false; }
      sent := sent + [f];
      ok := *;
    }

    /** Writes one page; the cursor follows each frame. */
    method WritePage(events: seq<Event>, ghost before: seq<Frame>, ghost from: int) returns (ok: bool)
      requires Numbered(journal) && 0 <= from <= cursor && cursor + |events| <= |journal|
      requires events == journal[cursor..cursor + |events|]
      requires SentSince(sent, before, journal, from, cursor)
      modifies this`sent, this`cursor
      ensures old(cursor) <= cursor <= old(cursor) + |events|
      ensures ok ==> cursor == old(cursor) + |events| && SentSince(sent, before, journal, from, cursor)
      ensures !ok ==> exists words :: LastWords(words, journal, cursor)
                        && sent == before + EventFrames(journal[from..cursor]) + words
    {
      ghost var start := cursor;
      for i := 0 to |events|
        invariant cursor == start + i && SentSince(sent, before, journal, from, cursor)
      {
        var e := events[i];
        assert e == journal[cursor] && e.sequence == cursor + 1;
        OneFrameOn(journal, from, cursor);
        ghost var had := sent;
        ok := WriteSSE(EventFrame(e.sequence, e));
        if !ok {
          ghost var words := if sent == had then [] else [EventFrame(cursor + 1, journal[cursor])];
          assert had + [] == had;
          assert LastWords(words, journal, cursor) && sent == had + words;
          return;
        }
        cursor := e.sequence;
      }
      ok := true;
    }


    /**
      `drain` always comes to an end. It keeps serving only when the client has been sent every
      event up to the end of the journal as last read; when it stops, every event up to the
      cursor has been sent in order, and a reconnect from the cursor continues with the next.
     */
    method Drain(limit: nat) returns (serving: bool)
      requires Numbered(journal) && 0 <= cursor <= |journal| && 1 <= limit <= MAX_PAGE
      modifies this
      ensures Numbered(journal) && old(journal) <= journal && old(cursor) <= cursor <= |journal|
      ensures serving ==> cursor == |journal| && SentSince(sent, old(sent), journal, old(cursor), cursor)
      ensures !serving ==> exists words :: LastWords(words, journal, cursor)
                             && sent == old(sent) + EventFrames(journal[old(cursor)..cursor]) + words
    {
      ghost var before, from := sent, cursor;
      assert journal[from..from] == [] && before + [] == before;
      while true
        invariant Numbered(journal) && old(journal) <= journal && from <= cursor <= |journal|
        invariant SentSince(sent, before, journal, from, cursor)
        decreases |journal| + arriving - cursor
      {
        ghost var was := journal;
        var events, more, ok := EventsPage(cursor, limit);
        assert journal[from..cursor] == was[from..cursor];
        if !ok {
          ghost var had := sent;
          var _ := WriteSSE(Stale(cursor));
          ghost var words := if sent == had then [] else [Stale(cursor)];
          assert had + [] == had;
          assert LastWords(words, journal, cursor) && sent == had + words;
          return false;
        }
        var written := WritePage(events, before, from);
        if !written { return false; }
        if !more { return true; }
      }
    }
  }
}
