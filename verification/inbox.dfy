/** The inbox projection: which live records a unit sees, under which heading, and how many it does not. */
module Inboxes {
  import opened Ids
  import opened Messages
  import opened Admissions

  const MAX_INBOX_ENTRIES := 16

  datatype List = Requests | Findings | StaleFindings

  /** The list a live message goes on, if any, besides the updates. */
  function Filed(m: Message, unit: Id, current: Option<HandoffSubject>): Option<List> {
    if m.kind.StateUpdate? && m.source.unit != unit then None
    else if !m.route.audience.ToUnit? || m.route.unit != Some(unit) then None
    else if m.kind.Finding? && (current.None? || !AppliesTo(m, current.value)) then Some(StaleFindings)
    else if m.kind.Finding? then Some(Findings)
    else Some(Requests)
  }

  function FiledUnder(live: seq<Message>, unit: Id, current: Option<HandoffSubject>, l: List): seq<Message> {
    if live == [] then []
    else
      var last := live[|live| - 1];
      FiledUnder(live[..|live| - 1], unit, current, l) + if Filed(last, unit, current) == Some(l) then [last] else []
  }

  predicate ShownAsUpdate(m: Message, unit: Id) {
    m.kind.StateUpdate? && m.source.unit != unit
  }

  /** The latest of the updates of a unit. */
  function LatestUpdate(live: seq<Message>, unit: Id, other: Id): Option<Message> {
    if live == [] then None
    else if ShownAsUpdate(live[|live| - 1], unit) && live[|live| - 1].source.unit == other then Some(live[|live| - 1])
    else LatestUpdate(live[..|live| - 1], unit, other)
  }

  /** One entry per other unit that has observed something: its latest live observation. */
  ghost predicate ShowsUpdates(updates: seq<Message>, latest: map<Id, nat>, live: seq<Message>, unit: Id) {
    && (forall other :: other in latest <==> LatestUpdate(live, unit, other).Some?)
    && (forall other | other in latest ::
           && latest[other] < |updates| && updates[latest[other]].source.unit == other
           && LatestUpdate(live, unit, other) == Some(updates[latest[other]]))
    && (forall i | 0 <= i < |updates| :: updates[i].source.unit in latest && latest[updates[i].source.unit] == i)
  }

  /** The updates are exactly the latest live observation of each other unit, once. */
  ghost predicate OnePerUnit(updates: seq<Message>, live: seq<Message>, unit: Id) {
    && (forall i, j | 0 <= i < j < |updates| :: updates[i].source.unit != updates[j].source.unit)
    && (forall i | 0 <= i < |updates| :: LatestUpdate(live, unit, updates[i].source.unit) == Some(updates[i]))
    && (forall other :: LatestUpdate(live, unit, other).Some? ==> LatestUpdate(live, unit, other).value in updates)
  }

  /** The newest entries, as many as are shown. */
  function Newest(s: seq<Message>): seq<Message> {
    if |s| <= MAX_INBOX_ENTRIES then s else s[|s| - MAX_INBOX_ENTRIES..]
  }

  /** Replaces the unit's earlier update in place, or adds its first. */
  method ShowUpdate(updates: seq<Message>, latest: map<Id, nat>, m: Message, ghost live: seq<Message>, unit: Id)
    returns (updates': seq<Message>, latest': map<Id, nat>)
    requires ShowsUpdates(updates, latest, live, unit) && ShownAsUpdate(m, unit)
    ensures ShowsUpdates(updates', latest', live + [m], unit)
  {
    assert (live + [m])[..|live|] == live;
    var other := m.source.unit;
    if other in latest {
      updates', latest' := updates[latest[other] := m], latest;
    } else {
      latest' := latest[other := |updates|];
      updates' := updates + [m];
    }
  }

  class Inbox {
    var requests: seq<Message>
    var findings: seq<Message>
    var staleFindings: seq<Message>
    var updates: seq<Message>
    var omitted: nat

    constructor ()
      ensures requests == [] && findings == [] && staleFindings == [] && updates == [] && omitted == 0
    {
      requests, findings, staleFindings, updates, omitted := [], [], [], [], 0;
    }

    /** Shows the newest; every message is shown or counted, and none is left out while there is room. */
    method Latest(messages: seq<Message>) returns (shown: seq<Message>)
      modifies this`omitted
      ensures |shown| <= |messages| && shown == messages[|messages| - |shown|..]
      ensures |shown| + (omitted - old(omitted)) == |messages|
      ensures |shown| <= MAX_INBOX_ENTRIES && (|shown| < |messages| ==> |shown| == MAX_INBOX_ENTRIES)
    {
      if |messages| <= MAX_INBOX_ENTRIES { return messages; }
      omitted := omitted + (|messages| - MAX_INBOX_ENTRIES);
      return messages[|messages| - MAX_INBOX_ENTRIES..];
    }

    ghost predicate Files(live: seq<Message>, unit: Id, current: Option<HandoffSubject>)
      reads this`requests, this`findings, this`staleFindings
    {
      && requests == FiledUnder(live, unit, current, Requests)
      && findings == FiledUnder(live, unit, current, Findings)
      && staleFindings == FiledUnder(live, unit, current, StaleFindings)
    }

    /** Files one live message that is not an update. */
    method File(m: Message, unit: Id, current: Option<HandoffSubject>, ghost before: seq<Message>)
      requires Files(before, unit, current) && !ShownAsUpdate(m, unit)
      modifies this`requests, this`findings, this`staleFindings
      ensures Files(before + [m], unit, current)
    {
      assert (before + [m])[..|before|] == before;
      if !m.route.audience.ToUnit? || m.route.unit != Some(unit) {
      } else if m.kind.Finding? && (current.None? || !AppliesTo(m, current.value)) {
        staleFindings := staleFindings + [m];
      } else if m.kind.Finding? {
        findings := findings + [m];
      } else {
        requests := requests + [m];
      }
    }

    /** One live message of the loop. */
    method Show(m: Message, unit: Id, current: Option<HandoffSubject>, latest: map<Id, nat>, ghost before: seq<Message>)
      returns (latest': map<Id, nat>)
      requires Files(before, unit, current) && ShowsUpdates(updates, latest, before, unit)
      modifies this`requests, this`findings, this`staleFindings, this`updates
      ensures Files(before + [m], unit, current) && ShowsUpdates(updates, latest', before + [m], unit)
    {
      if ShownAsUpdate(m, unit) {
        updates, latest' := ShowUpdate(updates, latest, m, before, unit);
      } else {
        latest' := latest;
        File(m, unit, current, before);
      }
    }

    method Bound()
      modifies this`requests, this`findings, this`staleFindings, this`omitted
      ensures requests == Newest(old(requests)) && findings == Newest(old(findings)) && staleFindings == Newest(old(staleFindings))
      ensures |requests| + |findings| + |staleFindings| + omitted
           == |old(requests)| + |old(findings)| + |old(staleFindings)| + old(omitted)
    {
      requests := Latest(requests);
      findings := Latest(findings);
      staleFindings := Latest(staleFindings);
    }
  }

  /**
    `InboxFor`: the newest live entries of each list, the rest counted, and one update for
    each other unit that has any.
   */
  method InboxFor(unit: Id, messages: seq<Message>, current: Option<HandoffSubject>) returns (inbox: Inbox)
    ensures fresh(inbox)
    ensures inbox.requests == Newest(FiledUnder(Living(messages), unit, current, Requests))
    ensures inbox.findings == Newest(FiledUnder(Living(messages), unit, current, Findings))
    ensures inbox.staleFindings == Newest(FiledUnder(Living(messages), unit, current, StaleFindings))
    ensures |inbox.requests| + |inbox.findings| + |inbox.staleFindings| + inbox.omitted == Addressed(Living(messages), unit)
    ensures OnePerUnit(inbox.updates, Living(messages), unit)
  {
    var live := Live(messages);
    ghost var latest: map<Id, nat>;
    inbox, latest := FileAll(unit, live, current);
    EachAddressedIsFiled(live, unit, current);
    inbox.Bound();
  }

  /** The loop over the live messages. */
  method FileAll(unit: Id, live: seq<Message>, current: Option<HandoffSubject>) returns (inbox: Inbox, latest: map<Id, nat>)
    ensures fresh(inbox) && inbox.omitted == 0 && inbox.Files(live, unit, current)
    ensures ShowsUpdates(inbox.updates, latest, live, unit)
  {
    inbox := new Inbox();
    latest := map[];
    ghost var done: seq<Message> := [];
    for i := 0 to |live|
      invariant done == live[..i] && fresh(inbox) && inbox.omitted == 0
      invariant inbox.Files(done, unit, current)
      invariant ShowsUpdates(inbox.updates, latest, done, unit)
    {
      latest := inbox.Show(live[i], unit, current, latest, done);
      done := done + [live[i]];
    }
    assert done == live;
  }

  /** How many live messages are addressed to a unit. */
  function Addressed(live: seq<Message>, unit: Id): nat {
    if live == [] then 0
    else
      var last := live[|live| - 1];
      Addressed(live[..|live| - 1], unit)
      + if last.route == Route(ToUnit, Some(unit)) && !ShownAsUpdate(last, unit) then 1 else 0
  }

  lemma {:induction false} EachAddressedIsFiled(live: seq<Message>, unit: Id, current: Option<HandoffSubject>)
    ensures |FiledUnder(live, unit, current, Requests)| + |FiledUnder(live, unit, current, Findings)|
          + |FiledUnder(live, unit, current, StaleFindings)| == Addressed(live, unit)
  {
    if live != [] { EachAddressedIsFiled(live[..|live| - 1], unit, current); }
  }

  /** A finding is shown as current only when it is bound to the unit's exact current subject. */
  lemma {:induction false} CurrentFindingsApply(live: seq<Message>, unit: Id, current: Option<HandoffSubject>, m: Message)
    requires m in FiledUnder(live, unit, current, Findings)
    ensures current.Some? && AppliesTo(m, current.value) && m in live && m.route == Route(ToUnit, Some(unit))
  {
    if live[|live| - 1] != m || m in FiledUnder(live[..|live| - 1], unit, current, Findings) {
      CurrentFindingsApply(live[..|live| - 1], unit, current, m);
    }
  }
}
