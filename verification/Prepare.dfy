/** Preparing a session for the detectors: validate, sort, coalesce. */
module Prepare {
  import opened Text
  import opened Ordering
  import opened Session
  import opened Coalesce
  import opened CoalesceLaws
  import opened CoalesceEvidence
  import opened CoalesceMeaning

  const MAX_SESSION_EVENTS := 10_000

  datatype SessionInput = SessionInput(
    sessionID: string, projectScope: string, scopeQuality: string,
    events: seq<Event>, enrichments: map<string, Enrichment>)

  datatype PreparedSession = PreparedSession(
    sessionID: string, projectScope: string, scopeQuality: string, events: seq<Prepared>)

  datatype PrepareError = InvalidSession | SessionLimit | Canceled

  datatype PrepareResult = Ready(session: PreparedSession) | Rejected(error: PrepareError)

  function Enriched(event: Event, enrichments: map<string, Enrichment>): Prepared {
    Prepared(event, if event.id in enrichments then enrichments[event.id] else Enrichment("", "", "", ""), [event.id],
             event.historical || event.source == "artifact", !event.historical && event.source == "hook")
  }

  function EnrichAll(events: seq<Event>, enrichments: map<string, Enrichment>): (r: seq<Prepared>)
    ensures |r| == |events| && forall i | 0 <= i < |r| :: r[i] == Enriched(events[i], enrichments)
  {
    seq(|events|, i requires 0 <= i < |events| => Enriched(events[i], enrichments))
  }

  predicate Foreign(input: SessionInput, event: Event) {
    event.sessionKey != "" && event.sessionKey != input.sessionID
  }

  ghost predicate AnyForeign(input: SessionInput) {
    exists event | event in input.events :: Foreign(input, event)
  }

  /** What an uncancelled preparation returns. */
  ghost function PreparedAs(input: SessionInput): PrepareResult {
    if TrimSpace(input.sessionID) == "" then Rejected(InvalidSession)
    else if |input.events| > MAX_SESSION_EVENTS then Rejected(SessionLimit)
    else if AnyForeign(input) then Rejected(InvalidSession)
    else Ready(PreparedSession(
      input.sessionID, TrimSpace(input.projectScope), Lower(TrimSpace(input.scopeQuality)),
      Coalesced(SortEvents(EnrichAll(input.events, input.enrichments)))))
  }

  predicate Accepted(input: SessionInput) {
    TrimSpace(input.sessionID) != "" && |input.events| <= MAX_SESSION_EVENTS
  }

  predicate SeenAt(done: nat -> bool, i: nat) {
    i % 64 == 0 && done(i)
  }

  /** Nothing stops the validation before event i. */
  predicate Passes(input: SessionInput, done: nat -> bool, i: nat)
    requires i <= |input.events|
  {
    forall k | 0 <= k < i :: !SeenAt(done, k) && !Foreign(input, input.events[k])
  }

  /** The signal is seen before any foreign event, or a foreign event before the signal. */
  ghost predicate CanceledFirst(input: SessionInput, done: nat -> bool) {
    exists i: nat | i < |input.events| :: Passes(input, done, i) && SeenAt(done, i)
  }

  ghost predicate ForeignFirst(input: SessionInput, done: nat -> bool) {
    exists i: nat | i < |input.events| :: Passes(input, done, i) && !SeenAt(done, i) && Foreign(input, input.events[i])
  }

  function EmptySession(input: SessionInput): PreparedSession {
    PreparedSession(input.sessionID, TrimSpace(input.projectScope), Lower(TrimSpace(input.scopeQuality)), [])
  }

  /** How the validation can end: before event i at the signal, at event i as foreign, or after all. */
  lemma StoppedAt(input: SessionInput, done: nat -> bool, i: nat)
    requires i < |input.events| && Passes(input, done, i)
    ensures SeenAt(done, i) ==>
      CanceledFirst(input, done) && !ForeignFirst(input, done) && Cancelled(done, |input.events|)
    ensures !SeenAt(done, i) && Foreign(input, input.events[i]) ==>
      ForeignFirst(input, done) && !CanceledFirst(input, done) && AnyForeign(input)
  {
    hide Foreign;
    assert input.events[i] in input.events;
  }

  lemma RanThrough(input: SessionInput, done: nat -> bool)
    requires Passes(input, done, |input.events|)
    ensures !CanceledFirst(input, done) && !ForeignFirst(input, done) && !AnyForeign(input)
  {
    hide Foreign;
  }

  /** `done` is the cancellation signal while the events are validated, `later` while they are
      coalesced: a signal seen then leaves the sorted events as they are. */
  method PrepareSession(hasContext: bool, input: SessionInput, done: nat -> bool, later: nat -> bool)
    returns (r: PrepareResult)
    ensures !hasContext ==> r == Rejected(InvalidSession)
    ensures hasContext && !Cancelled(done, |input.events|) && !Cancelled(later, |input.events|) ==>
      r == PreparedAs(input)
    ensures r.Ready? && Cancelled(later, |input.events|) ==>
      r.session.events == SortEvents(EnrichAll(input.events, input.enrichments))
    ensures r == Rejected(SessionLimit) <==>
      hasContext && TrimSpace(input.sessionID) != "" && |input.events| > 10_000
    ensures r == Rejected(Canceled) <==> hasContext && Accepted(input) && CanceledFirst(input, done)
    ensures r == Rejected(InvalidSession) <==>
      !hasContext || TrimSpace(input.sessionID) == "" || (Accepted(input) && ForeignFirst(input, done))
    ensures r.Ready? ==> r.session.(events := []) == EmptySession(input)
  {
    hide Coalesced, SortEvents, TrimSpace, Lower, Enriched, CanceledFirst, ForeignFirst, AnyForeign, Cancelled;
    if !hasContext || TrimSpace(input.sessionID) == "" { return Rejected(InvalidSession); }
    if |input.events| > MAX_SESSION_EVENTS { return Rejected(SessionLimit); }
    var events: seq<Prepared> := [];
    for index := 0 to |input.events|
      invariant events == EnrichAll(input.events[..index], input.enrichments)
      invariant Passes(input, done, index)
    {
      StoppedAt(input, done, index);
      if index % 64 == 0 && done(index) { return Rejected(Canceled); }
      var event := input.events[index];
      if event.sessionKey != "" && event.sessionKey != input.sessionID { return Rejected(InvalidSession); }
      events := events + [Enriched(event, input.enrichments)];
    }
    RanThrough(input, done);
    assert input.events[..|input.events|] == input.events;
    var sorted := SortEvents(events);
    assert |sorted| == |multiset(sorted)| == |multiset(events)| == |events|;
    var coalesced := CoalesceEvents(sorted, later);
    r := Ready(PreparedSession(
      input.sessionID, TrimSpace(input.projectScope), Lower(TrimSpace(input.scopeQuality)), coalesced));
  }

  // ---------------------------------------------------------------- the order of the input does not matter

  ghost predicate DistinctEventIDs(events: seq<Event>) {
    forall i, j | 0 <= i < j < |events| :: events[i].id != events[j].id
  }

  lemma EnrichedBag(a: seq<Event>, b: seq<Event>, enrichments: map<string, Enrichment>)
    requires multiset(a) == multiset(b)
    ensures multiset(EnrichAll(a, enrichments)) == multiset(EnrichAll(b, enrichments))
  {
    hide Enriched;
    var f := (event: Event) => Enriched(event, enrichments);
    assert EnrichAll(a, enrichments) == Map(f, a) && EnrichAll(b, enrichments) == Map(f, b);
    MapBag(f, a, b);
  }

  lemma EnrichedIDs(events: seq<Event>, enrichments: map<string, Enrichment>)
    requires DistinctEventIDs(events)
    ensures DistinctIDs(EnrichAll(events, enrichments))
  {
  }

  lemma SortedAlike(a: seq<Event>, b: seq<Event>, enrichments: map<string, Enrichment>)
    requires multiset(a) == multiset(b) && DistinctEventIDs(a)
    ensures SortEvents(EnrichAll(a, enrichments)) == SortEvents(EnrichAll(b, enrichments))
  {
    EnrichedIDs(a, enrichments);
    DistinctTieFree(EnrichAll(a, enrichments));
    EnrichedBag(a, b, enrichments);
    EventLeOrder();
    hide *;
    assert SortEvents(EnrichAll(a, enrichments)) == SortEvents(EnrichAll(b, enrichments)) by {
      SortEventsPermutation(EnrichAll(a, enrichments), EnrichAll(b, enrichments));
    }
  }

  lemma SortEventsPermutation(x: seq<Prepared>, y: seq<Prepared>)
    requires multiset(x) == multiset(y) && TotalPreorder(EventLe) && TieFree(EventLe, x)
    ensures SortEvents(x) == SortEvents(y)
  {
    hide EventLe, TieFree, TotalPreorder;
    SortByPermutation(EventLe, x, y);
  }

  lemma SameEvents(a: SessionInput, b: SessionInput)
    requires multiset(a.events) == multiset(b.events) && a.sessionID == b.sessionID
    ensures |a.events| == |b.events| && AnyForeign(a) == AnyForeign(b)
  {
    BagMembers(a.events, b.events);
  }

  /** Preparation is invariant under every reordering of input events with distinct IDs. */
  lemma PrepareIgnoresOrder(a: SessionInput, b: SessionInput)
    requires multiset(a.events) == multiset(b.events) && a == b.(events := a.events)
    requires DistinctEventIDs(a.events)
    ensures PreparedAs(a) == PreparedAs(b)
  {
    hide Coalesced, SortEvents, EnrichAll, DistinctEventIDs, AnyForeign, TrimSpace, Lower;
    SortedAlike(a.events, b.events, a.enrichments);
    SameEvents(a, b);
  }

  // ---------------------------------------------------------------- every event is cited

  function Enlisted(input: SessionInput): seq<Prepared> {
    SortEvents(EnrichAll(input.events, input.enrichments))
  }

  lemma EnrichNext(events: seq<Event>, enrichments: map<string, Enrichment>)
    requires events != []
    ensures EnrichAll(events, enrichments) ==
      EnrichAll(events[..|events| - 1], enrichments) + [Enriched(events[|events| - 1], enrichments)]
    ensures Enriched(events[|events| - 1], enrichments).evidence == [events[|events| - 1].id]
  {
  }

  lemma {:induction false} EnrichedCites(events: seq<Event>, enrichments: map<string, Enrichment>, id: string)
    ensures Cites(EnrichAll(events, enrichments), id) <==> exists e :: e in events && e.id == id
  {
    if events != [] {
      hide EnrichAll, Enriched, Cites;
      var init, last := events[..|events| - 1], events[|events| - 1];
      EnrichedCites(init, enrichments, id);
      EnrichNext(events, enrichments);
      CitesAppend(EnrichAll(init, enrichments), Enriched(last, enrichments), id);
      assert events == init + [last];
      assert last in events;
    }
  }

  /** In every prepared session, reciprocal or not, the IDs cited are exactly those of the input's
      events. */
  lemma EveryEventCited(input: SessionInput, id: string)
    requires PreparedAs(input).Ready?
    ensures Cites(PreparedAs(input).session.events, id) <==> exists e :: e in input.events && e.id == id
  {
    var all := EnrichAll(input.events, input.enrichments);
    PreparedEvents(input);
    hide Coalesced, SortEvents, EnrichAll, PreparedAs, Cites;
    NothingLost(Enlisted(input), id);
    SameCites(SortEvents(all), all, id);
    EnrichedCites(input.events, input.enrichments, id);
  }

  lemma {:induction false} EnrichedCount(events: seq<Event>, enrichments: map<string, Enrichment>, id: string)
    requires DistinctEventIDs(events)
    ensures Evidence(EnrichAll(events, enrichments))[id] == if exists e :: e in events && e.id == id then 1 else 0
  {
    var all := EnrichAll(events, enrichments);
    if events != [] {
      var rest := events[1..];
      EnrichedCount(rest, enrichments, id);
      assert all[1..] == EnrichAll(rest, enrichments);
      assert all[0].evidence == [events[0].id];
      assert events == [events[0]] + rest;
      hide EnrichAll, Enriched;
      if events[0].id == id {
        assert forall e | e in rest :: e.id != id;
      }
    }
  }

  ghost predicate EachCitedOnce(input: SessionInput, events: seq<Prepared>) {
    forall e | e in input.events :: Evidence(events)[e.id] == 1
  }

  /** With distinct event IDs, every event of the input is cited by exactly one event of the result if
      and only if coalescing merges no event a second time. */
  lemma EveryEventCitedOnce(input: SessionInput)
    requires DistinctEventIDs(input.events) && PreparedAs(input).Ready?
    ensures EachCitedOnce(input, PreparedAs(input).session.events) <==> MergesOnce(BoardOf(Enlisted(input)))
  {
    var sorted := Enlisted(input);
    PreparedEvents(input);
    hide Coalesced, SortEvents, EnrichAll, PreparedAs, MergesOnce, DistinctEventIDs, Enlisted, BoardOf;
    EachOnce(input);
    EvidenceConserved(sorted);
    hide Evidence, Cites;
    forall id | id in Evidence(Coalesced(sorted)) ensures exists e :: e in input.events && e.id == id {
      EvidenceMembers(Coalesced(sorted), id);
      EveryEventCited(input, id);
    }
    OnceIsAll(input, Coalesced(sorted));
  }

  lemma OnceIsAll(input: SessionInput, out: seq<Prepared>)
    requires forall id :: Evidence(Enlisted(input))[id] == if exists e :: e in input.events && e.id == id then 1 else 0
    requires forall id :: id in Evidence(out) ==> exists e :: e in input.events && e.id == id
    ensures EachCitedOnce(input, out) <==> Evidence(out) == Evidence(Enlisted(input))
  {
    hide Enlisted, Evidence;
  }

  lemma PreparedEvents(input: SessionInput)
    requires PreparedAs(input).Ready?
    ensures PreparedAs(input).session.events == Coalesced(Enlisted(input))
  {
    hide Coalesced, SortEvents, EnrichAll, TrimSpace, Lower, Foreign;
  }

  lemma EachOnce(input: SessionInput)
    requires DistinctEventIDs(input.events)
    ensures NoRepeatedEvidence(Enlisted(input)) && AllCite(Enlisted(input))
    ensures forall id :: Evidence(Enlisted(input))[id] == if exists e :: e in input.events && e.id == id then 1 else 0
  {
    var all := EnrichAll(input.events, input.enrichments);
    forall id ensures Evidence(all)[id] == if exists e :: e in input.events && e.id == id then 1 else 0 {
      EnrichedCount(input.events, input.enrichments, id);
    }
    EvidenceSort(all);
    AllEnriched(input);
    hide EnrichAll, SortEvents, Evidence;
  }

  lemma AllEnriched(input: SessionInput)
    ensures AllCite(Enlisted(input))
  {
    var all := EnrichAll(input.events, input.enrichments);
    forall x | x in all ensures x.evidence != [] {
      var i :| 0 <= i < |all| && all[i] == x;
    }
    BagMembers(Enlisted(input), all);
    hide EnrichAll, SortEvents, Enlisted;
    forall i | 0 <= i < |Enlisted(input)| ensures Enlisted(input)[i].evidence != [] {
      assert Enlisted(input)[i] in Enlisted(input);
    }
  }

  // ---------------------------------------------------------------- what is prepared

  /** A session is prepared if and only if it has an ID, at most ten thousand events, and none of another
      session; under its ID, with trimmed scope, and its events in the order of sequence, time and ID. */
  lemma PreparedWhen(input: SessionInput)
    ensures PreparedAs(input).Ready? <==>
      TrimSpace(input.sessionID) != "" && |input.events| <= 10_000 &&
      forall e | e in input.events :: e.sessionKey in {"", input.sessionID}
    ensures PreparedAs(input).Ready? ==> var s := PreparedAs(input).session;
      && s.sessionID == input.sessionID && s.projectScope == TrimSpace(input.projectScope)
      && s.scopeQuality == Lower(TrimSpace(input.scopeQuality)) && InSessionOrder(s.events)
  {
    hide Coalesced, SortEvents, EnrichAll, TrimSpace, Lower, InSessionOrder;
    if PreparedAs(input).Ready? { InOrderWhenCoalesced(SortEvents(EnrichAll(input.events, input.enrichments))); }
  }

  ghost predicate InSessionOrder(events: seq<Prepared>) {
    forall a, b | 0 <= a < b < |events| :: Follows(events[a].event, events[b].event)
  }

  predicate Follows(x: Event, y: Event) {
    && x.sequence <= y.sequence && (x.sequence == y.sequence ==> x.at <= y.at)
    && (x.sequence == y.sequence && x.at == y.at ==> StrLe(x.id, y.id))
  }

  lemma InOrderWhenCoalesced(events: seq<Prepared>)
    ensures InSessionOrder(Coalesced(events))
  {
    hide Coalesced, StrLe, Follows;
    var out := Coalesced(events);
    forall a, b | 0 <= a < b < |out| ensures Follows(out[a].event, out[b].event) {
      OutputInOrder(events, a, b);
      InOrderPair(out[a].event, out[b].event);
    }
  }

  lemma InOrderPair(x: Event, y: Event)
    requires x.sequence <= y.sequence && (x.sequence == y.sequence ==> x.at <= y.at)
    requires x.sequence == y.sequence && x.at == y.at ==> StrLe(x.id, y.id)
    ensures Follows(x, y)
  {
  }

  // ---------------------------------------------------------------- what a prepared event says

  /** The event comes from an archive, or is marked as historical. */
  predicate Archived(e: Event) {
    e.historical || e.source == "artifact"
  }

  predicate SeenLive(e: Event) {
    !e.historical && e.source == "hook"
  }

  function EnrichmentOf(input: SessionInput, e: Event): Enrichment {
    if e.id in input.enrichments then input.enrichments[e.id] else Enrichment("", "", "", "")
  }

  lemma EnlistedMembers(input: SessionInput, x: Prepared)
    ensures x in Enlisted(input) <==> exists e :: e in input.events && x == Enriched(e, input.enrichments)
  {
    var all := EnrichAll(input.events, input.enrichments);
    BagMembers(Enlisted(input), all);
    hide Enriched, SortEvents;
    if x in all {
      var i :| 0 <= i < |all| && all[i] == x;
      assert input.events[i] in input.events;
    }
    if e :| e in input.events && x == Enriched(e, input.enrichments) {
      var i :| 0 <= i < |input.events| && input.events[i] == e;
      assert all[i] == x;
    }
  }

  /** A prepared event cites an input event under its ID alone. */
  lemma EnrichedIs(input: SessionInput, q: Prepared, e: Event)
    ensures var x := Enriched(e, input.enrichments);
      && x.event == e && x.enrichment == EnrichmentOf(input, e) && x.evidence == [e.id]
      && (x.historical <==> Archived(e)) && (x.live <==> SeenLive(e)) && (Draws(q, x) <==> e.id in q.evidence)
  {
    var x := Enriched(e, input.enrichments);
    assert x.evidence[0] == e.id;
  }

  /** Historical and live by the events it cites, of which it is the best covered one. */
  ghost predicate Summarizes(input: SessionInput, q: Prepared) {
    && (q.historical <==> exists e :: e in input.events && e.id in q.evidence && Archived(e))
    && (q.live <==> exists e :: e in input.events && e.id in q.evidence && SeenLive(e))
    && q.event in input.events && q.event.id in q.evidence
    && forall e | e in input.events && e.id in q.evidence :: RankOf(e) <= RankOf(q.event)
  }

  function RankOf(e: Event): nat {
    DepthRank(e.depth) + Coalesce.ConfidenceRank(e.confidence)
  }

  /** Every event of a prepared session, in range or not, says what the input events it cites say
      together. */
  lemma PreparedMeans(input: SessionInput, q: Prepared)
    requires DistinctEventIDs(input.events) && PreparedAs(input).Ready? && q in PreparedAs(input).session.events
    ensures Represents(Enlisted(input), q) && Summarizes(input, q)
  {
    hide Coalesced, SortEvents, EnrichAll, PreparedAs, DistinctEventIDs, Enlisted, NoRepeatedEvidence, AllCite,
         Summarizes;
    PreparedEvents(input);
    EachOnce(input);
    OutputMeans(Enlisted(input), q);
    hide Represents;
    SummaryFrom(input, q);
  }

  lemma SummaryFrom(input: SessionInput, q: Prepared)
    requires Represents(Enlisted(input), q)
    ensures Summarizes(input, q)
  {
    hide Enlisted, Enriched, EvidenceUnited, EnrichmentFilledIn;
    forall x ensures x in Enlisted(input) <==> exists e :: e in input.events && x == Enriched(e, input.enrichments) {
      EnlistedMembers(input, x);
    }
    forall e { EnrichedIs(input, q, e); }
    hide Draws;
  }
}
