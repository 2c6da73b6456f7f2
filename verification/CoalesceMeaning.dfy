/** What every output event of coalescing stands for, in terms of the input events whose evidence it
    cites. */
module CoalesceMeaning {
  import opened Ordering
  import opened Session
  import opened Pairing
  import opened Matching
  import opened GroupOrder
  import opened Coalesce
  import opened CoalesceEvidence

  // ---------------------------------------------------------------- where an output event comes from

  /** q is event i unchanged, or events i and j merged. */
  ghost predicate From(events: seq<Prepared>, q: Prepared, i: nat, j: nat) {
    && i < |events| && j < |events|
    && q == if i == j then events[i] else Merged(events[i], events[j])
  }

  predicate MergedAs(p: map<nat, nat>, i: nat, j: nat) {
    if i == j then i !in p else i in p && p[i] == j
  }

  lemma {:induction false} AssembledFrom(events: seq<Prepared>, p: map<nat, nat>, k: nat, q: Prepared)
    returns (i: nat, j: nat)
    requires k <= |events| && Closed(p) && Bounds(p, |events|) && q in Assemble(events, p, k).0
    ensures From(events, q, i, j) && i !in Consumed(p, i) && MergedAs(p, i, j)
  {
    AssembleNext(events, p, k - 1);
    hide Merged, Consumed;
    if q in Assemble(events, p, k - 1).0 {
      i, j := AssembledFrom(events, p, k - 1, q);
    } else {
      i := k - 1;
      j := if i in p then p[i] else i;
    }
  }

  lemma CoalescedFrom(events: seq<Prepared>, q: Prepared) returns (i: nat, j: nat)
    requires q in Coalesced(events)
    ensures From(events, q, i, j) && MergedAs(PairedIn(BoardOf(events)), i, j)
    ensures MergesOnce(BoardOf(events)) ==> i <= j
  {
    var p, n := PairedIn(BoardOf(events)), |events|;
    PairedIsClosed(BoardOf(events));
    BagMembers(Coalesced(events), Assemble(events, p, n).0);
    hide PairedIn, Assemble, SortEvents;
    i, j := AssembledFrom(events, p, n, q);
    PassedIsConsumed(p, i);
    hide Consumed, From, BoardOf;
    if j < i { assert MergesAgain(p, i); }
  }

  // ---------------------------------------------------------------- the inputs that it cites

  /** q cites event e. */
  predicate Draws(q: Prepared, e: Prepared) {
    exists id :: id in e.evidence && id in q.evidence
  }

  lemma Shared(events: seq<Prepared>, i: nat, m: nat, id: string)
    requires NoRepeatedEvidence(events) && i < |events| && m < |events|
    requires id in events[i].evidence && id in events[m].evidence
    ensures i == m
  {
    var bag := multiset(events[i].evidence) + multiset(events[m].evidence);
    assert bag[id] >= 2;
    if i != m { PairUnrepeated(events, i, m); }
  }

  /** With evidence of their own, the inputs that q cites are those it comes from. */
  lemma DrawsExactly(events: seq<Prepared>, q: Prepared, i: nat, j: nat, e: Prepared)
    requires NoRepeatedEvidence(events) && AllCite(events) && From(events, q, i, j) && e in events
    ensures Draws(q, e) <==> e == events[i] || e == events[j]
  {
    hide NoRepeatedEvidence, Merged;
    var m :| 0 <= m < |events| && events[m] == e;
    if Draws(q, e) {
      var id :| id in e.evidence && id in q.evidence;
      if i != j { MergedCites(events[i], events[j], id); }
      if id in events[i].evidence { Shared(events, i, m, id); } else { Shared(events, j, m, id); }
    }
    if e == events[i] || e == events[j] {
      assert e.evidence[0] in e.evidence;
      if i != j { MergedCites(events[i], events[j], e.evidence[0]); }
    }
  }

  // ---------------------------------------------------------------- what it says of them

  /** Historical, or live, when some event it cites is. */
  ghost predicate FlagsUnited(events: seq<Prepared>, q: Prepared) {
    && (q.historical <==> exists e :: e in events && Draws(q, e) && e.historical)
    && (q.live <==> exists e :: e in events && Draws(q, e) && e.live)
  }

  /** It is the best covered of the events it cites. */
  ghost predicate BestCovered(events: seq<Prepared>, q: Prepared, kept: Prepared) {
    && kept in events && Draws(q, kept) && q.event == kept.event
    && forall e | e in events && Draws(q, e) :: CoverageRank(e) <= CoverageRank(kept)
  }

  /** One field of the enrichment: the retained event's own unless that is empty; then another's. */
  ghost predicate FilledIn(events: seq<Prepared>, q: Prepared, field: Enrichment -> string, kept: Prepared) {
    && (field(kept.enrichment) != "" ==> field(q.enrichment) == field(kept.enrichment))
    && (field(q.enrichment) != "" <==> exists e :: e in events && Draws(q, e) && field(e.enrichment) != "")
    && (exists e :: e in events && Draws(q, e) && field(e.enrichment) == field(q.enrichment))
  }

  ghost predicate EnrichmentFilledIn(events: seq<Prepared>, q: Prepared, kept: Prepared) {
    && FilledIn(events, q, (e: Enrichment) => e.signature, kept)
    && FilledIn(events, q, (e: Enrichment) => e.commandClass, kept)
    && FilledIn(events, q, (e: Enrichment) => e.permission, kept)
    && FilledIn(events, q, (e: Enrichment) => e.version, kept)
  }

  /** Exactly the evidence of the events it cites. */
  ghost predicate EvidenceUnited(events: seq<Prepared>, q: Prepared) {
    forall id :: id in q.evidence <==> exists e :: e in events && Draws(q, e) && id in e.evidence
  }

  ghost predicate Represents(events: seq<Prepared>, q: Prepared) {
    && FlagsUnited(events, q) && EvidenceUnited(events, q)
    && exists kept :: BestCovered(events, q, kept) && EnrichmentFilledIn(events, q, kept)
  }

  lemma MergedParts(left: Prepared, right: Prepared)
    ensures var q, kept, other := Merged(left, right), if KeepsLeft(left, right) then left else right,
                                  if KeepsLeft(left, right) then right else left;
      && (q.historical <==> left.historical || right.historical) && (q.live <==> left.live || right.live)
      && q.event == kept.event && CoverageRank(other) <= CoverageRank(kept)
      && q.enrichment.signature == OrElse(kept.enrichment.signature, other.enrichment.signature)
      && q.enrichment.commandClass == OrElse(kept.enrichment.commandClass, other.enrichment.commandClass)
      && q.enrichment.permission == OrElse(kept.enrichment.permission, other.enrichment.permission)
      && q.enrichment.version == OrElse(kept.enrichment.version, other.enrichment.version)
  {
    hide SortedDistinct, OrElse;
  }

  ghost predicate TwoSources(events: seq<Prepared>, q: Prepared, x: Prepared, y: Prepared) {
    x in events && y in events && forall e | e in events :: Draws(q, e) <==> e == x || e == y
  }

  lemma FieldFrom(events: seq<Prepared>, q: Prepared, field: Enrichment -> string, kept: Prepared, other: Prepared)
    requires TwoSources(events, q, kept, other)
    requires field(q.enrichment) == OrElse(field(kept.enrichment), field(other.enrichment))
    ensures FilledIn(events, q, field, kept)
  {
    assert Draws(q, kept) && Draws(q, other);
    hide Draws;
  }

  lemma FlagsFrom(events: seq<Prepared>, q: Prepared, x: Prepared, y: Prepared)
    requires TwoSources(events, q, x, y)
    requires q.historical == (x.historical || y.historical) && q.live == (x.live || y.live)
    ensures FlagsUnited(events, q)
  {
    assert Draws(q, x) && Draws(q, y);
    hide Draws;
  }

  lemma BestFrom(events: seq<Prepared>, q: Prepared, kept: Prepared, other: Prepared)
    requires TwoSources(events, q, kept, other) && q.event == kept.event && CoverageRank(other) <= CoverageRank(kept)
    ensures BestCovered(events, q, kept)
  {
    assert Draws(q, kept);
    hide Draws, CoverageRank;
  }

  /** q has its enrichment from `kept`, filled in from `other`. */
  predicate Fills(q: Enrichment, kept: Enrichment, other: Enrichment) {
    && q.signature == OrElse(kept.signature, other.signature)
    && q.commandClass == OrElse(kept.commandClass, other.commandClass)
    && q.permission == OrElse(kept.permission, other.permission)
    && q.version == OrElse(kept.version, other.version)
  }

  lemma FieldsFrom(events: seq<Prepared>, q: Prepared, kept: Prepared, other: Prepared)
    requires TwoSources(events, q, kept, other) && Fills(q.enrichment, kept.enrichment, other.enrichment)
    ensures EnrichmentFilledIn(events, q, kept)
  {
    hide TwoSources, FilledIn, OrElse;
    FieldFrom(events, q, (e: Enrichment) => e.signature, kept, other);
    FieldFrom(events, q, (e: Enrichment) => e.commandClass, kept, other);
    FieldFrom(events, q, (e: Enrichment) => e.permission, kept, other);
    FieldFrom(events, q, (e: Enrichment) => e.version, kept, other);
  }

  /** What a merge takes from which side; an event by itself is both sides. */
  lemma SidesOf(events: seq<Prepared>, q: Prepared, i: nat, j: nat) returns (kept: Prepared, other: Prepared)
    requires From(events, q, i, j)
    ensures {kept, other} == {events[i], events[j]}
    ensures q.event == kept.event && CoverageRank(other) <= CoverageRank(kept)
    ensures Fills(q.enrichment, kept.enrichment, other.enrichment)
    ensures q.historical == (kept.historical || other.historical) && q.live == (kept.live || other.live)
  {
    var x, y := events[i], events[j];
    MergedParts(x, y);
    if i == j || KeepsLeft(x, y) { kept, other := x, y; } else { kept, other := y, x; }
    hide Merged, CoverageRank;
  }

  lemma RepresentsFrom(events: seq<Prepared>, q: Prepared, i: nat, j: nat)
    requires From(events, q, i, j) && TwoSources(events, q, events[i], events[j])
    ensures FlagsUnited(events, q)
    ensures exists kept :: BestCovered(events, q, kept) && EnrichmentFilledIn(events, q, kept)
  {
    var kept, other := SidesOf(events, q, i, j);
    assert TwoSources(events, q, kept, other) by { SidesAgree(events, q, events[i], events[j], kept, other); }
    hide From, TwoSources, FlagsUnited, BestCovered, EnrichmentFilledIn, Fills, CoverageRank;
    FlagsFrom(events, q, kept, other);
    BestFrom(events, q, kept, other);
    FieldsFrom(events, q, kept, other);
  }

  lemma SidesAgree(events: seq<Prepared>, q: Prepared, x: Prepared, y: Prepared, kept: Prepared, other: Prepared)
    requires TwoSources(events, q, x, y) && {kept, other} == {x, y}
    ensures TwoSources(events, q, kept, other)
  {
    hide Draws;
    assert kept in {x, y} && other in {x, y} && x in {kept, other} && y in {kept, other};
  }

  lemma EvidenceFrom(events: seq<Prepared>, q: Prepared, i: nat, j: nat)
    requires From(events, q, i, j) && TwoSources(events, q, events[i], events[j])
    ensures EvidenceUnited(events, q)
  {
    var x, y := events[i], events[j];
    assert Draws(q, x) && Draws(q, y);
    hide Draws, Merged;
    forall id ensures id in q.evidence <==> exists e :: e in events && Draws(q, e) && id in e.evidence {
      if i != j { MergedCites(x, y, id); }
    }
  }

  /** Every output event, of any session whose events have evidence of their own, is the best covered of
      the inputs it cites, filled in from the other, with the evidence and the flags of both. */
  lemma OutputMeans(events: seq<Prepared>, q: Prepared)
    requires NoRepeatedEvidence(events) && AllCite(events) && q in Coalesced(events)
    ensures Represents(events, q)
  {
    var i, j := CoalescedFrom(events, q);
    hide Coalesced, NoRepeatedEvidence, AllCite, From, FlagsUnited, EvidenceUnited, BestCovered, EnrichmentFilledIn;
    assert TwoSources(events, q, events[i], events[j]) by { SourcesOf(events, q, i, j); }
    RepresentsFrom(events, q, i, j);
    EvidenceFrom(events, q, i, j);
  }

  lemma SourcesOf(events: seq<Prepared>, q: Prepared, i: nat, j: nat)
    requires NoRepeatedEvidence(events) && AllCite(events) && From(events, q, i, j)
    ensures TwoSources(events, q, events[i], events[j])
  {
    hide NoRepeatedEvidence, AllCite, Draws, Merged;
    forall e | e in events
      ensures Draws(q, e) <==> e == events[i] || e == events[j]
    { DrawsExactly(events, q, i, j, e); }
  }

  /** The best covered comes first: by coverage, and among equals by the order of the session. */
  ghost predicate First(events: seq<Prepared>, q: Prepared, m: nat) {
    && m < |events| && q.event == events[m].event && Draws(q, events[m])
    && forall l: nat | l < |events| && Draws(q, events[l]) ::
         CoverageRank(events[l]) < CoverageRank(events[m]) ||
         (CoverageRank(events[l]) == CoverageRank(events[m]) && m <= l)
  }

  /** Where no event is merged a second time, a tie goes to the earlier event. */
  lemma TieGoesToEarlier(events: seq<Prepared>, q: Prepared)
    requires NoRepeatedEvidence(events) && AllCite(events) && MergesOnce(BoardOf(events)) && q in Coalesced(events)
    ensures exists m :: First(events, q, m)
  {
    hide Coalesced, NoRepeatedEvidence, AllCite, MergesOnce, BoardOf;
    var i, j := CoalescedFrom(events, q);
    var m := KeptAt(events, q, i, j);
    hide Merged, CoverageRank, Draws, From;
    forall l: nat | l < |events| && Draws(q, events[l]) ensures l == i || l == j { DrawnAt(events, q, i, j, l); }
    DrawsExactly(events, q, i, j, events[m]);
    assert First(events, q, m);
  }

  lemma KeptAt(events: seq<Prepared>, q: Prepared, i: nat, j: nat) returns (m: nat)
    requires From(events, q, i, j)
    ensures (m == i || m == j) && q.event == events[m].event
    ensures CoverageRank(events[i]) <= CoverageRank(events[m]) && CoverageRank(events[j]) <= CoverageRank(events[m])
    ensures CoverageRank(events[i]) == CoverageRank(events[m]) ==> m == i
  {
    MergedParts(events[i], events[j]);
    m := if i == j || KeepsLeft(events[i], events[j]) then i else j;
    hide Merged, CoverageRank;
  }

  lemma DrawnAt(events: seq<Prepared>, q: Prepared, i: nat, j: nat, l: nat)
    requires NoRepeatedEvidence(events) && From(events, q, i, j) && l < |events| && Draws(q, events[l])
    ensures l == i || l == j
  {
    hide NoRepeatedEvidence, Merged;
    var id :| id in events[l].evidence && id in q.evidence;
    if i != j { MergedCites(events[i], events[j], id); }
    if id in events[i].evidence { Shared(events, i, l, id); } else { Shared(events, j, l, id); }
  }

  // ---------------------------------------------------------------- coverage

  const DEPTHS := ["artifact", "otlp", "lifecycle", "tool_call", "full"]
  const CONFIDENCES := ["low", "medium", "high"]

  /** Depth decides, then confidence; anything else ranks below all of them. */
  lemma CoverageOrder(x: Prepared, y: Prepared)
    ensures CoverageRank(x) < CoverageRank(y) <==>
      Higher(DEPTHS, x.event.depth, y.event.depth) ||
      (SameLevel(DEPTHS, x.event.depth, y.event.depth) && Higher(CONFIDENCES, x.event.confidence, y.event.confidence))
  {
    DepthLevels(x.event.depth, y.event.depth);
    ConfidenceLevels(x.event.confidence, y.event.confidence);
    DepthSteps(x.event.depth);
    DepthSteps(y.event.depth);
    hide DepthRank, Coalesce.ConfidenceRank, Higher, SameLevel;
  }

  /** b is listed, and a is not or stands before it. */
  predicate Higher(levels: seq<string>, a: string, b: string) {
    exists j | 0 <= j < |levels| :: levels[j] == b && forall i | j <= i < |levels| :: levels[i] != a
  }

  predicate SameLevel(levels: seq<string>, a: string, b: string) {
    a == b || (a !in levels && b !in levels)
  }

  lemma DepthLevels(a: string, b: string)
    ensures DepthRank(a) < DepthRank(b) <==> Higher(DEPTHS, a, b)
    ensures DepthRank(a) == DepthRank(b) <==> SameLevel(DEPTHS, a, b)
  {
    assert DEPTHS[0] == "artifact" && DEPTHS[1] == "otlp" && DEPTHS[2] == "lifecycle" && DEPTHS[3] == "tool_call";
    assert DEPTHS[4] == "full";
  }

  lemma DepthSteps(a: string)
    ensures DepthRank(a) % 10 == 0 && Coalesce.ConfidenceRank(a) < 10
  {
  }

  lemma ConfidenceLevels(a: string, b: string)
    ensures Coalesce.ConfidenceRank(a) < Coalesce.ConfidenceRank(b) <==> Higher(CONFIDENCES, a, b)
    ensures Coalesce.ConfidenceRank(a) == Coalesce.ConfidenceRank(b) <==> SameLevel(CONFIDENCES, a, b)
    ensures Coalesce.ConfidenceRank(a) < 10 && Coalesce.ConfidenceRank(b) < 10
  {
    assert CONFIDENCES[0] == "low" && CONFIDENCES[1] == "medium" && CONFIDENCES[2] == "high";
  }

  // ---------------------------------------------------------------- order

  /** The output is in the order of sequence, time and event ID. */
  lemma OutputInOrder(events: seq<Prepared>, a: nat, b: nat)
    requires a < b < |Coalesced(events)|
    ensures var x, y := Coalesced(events)[a].event, Coalesced(events)[b].event;
      && x.sequence <= y.sequence && (x.sequence == y.sequence ==> x.at <= y.at)
      && (x.sequence == y.sequence && x.at == y.at ==> StrLe(x.id, y.id))
  {
    EventLeOrder();
    SortBySorted(EventLe, Assemble(events, PairedIn(BoardOf(events)), |events|).0);
    hide StrLe, Assemble, PairedIn;
  }
}
