/** Merging each historical/live double of a session. */
module Coalesce {
  import opened Text
  import opened Ordering
  import opened Session
  import opened Pairing
  import opened Matching
  import opened GroupOrder
  import opened PairingLoop

  // ---------------------------------------------------------------- candidates

  function SourceOf(item: Prepared): string {
    match item.event.source
    case "artifact" => "historical"
    case "hook" => "live"
    case _ => ""
  }

  function ExitCodeText(event: Event): string {
    match event.exitCode
    case None => "exit:none"
    case Some(code) => "exit:" + Itoa(code)
  }

  /** The merge identity; empty for an event that is never merged. */
  function Identity(item: Prepared): string {
    var event, enrichment := item.event, item.enrichment;
    var base := JoinNul([event.sessionKey, event.kind, event.actor, Lower(TrimSpace(event.outcome)),
                         ExitCodeText(event)]);
    if event.kind == "command.exec" then
      if enrichment.signature == "" then "" else base + "\0command\0" + enrichment.signature
    else if event.kind == "command.result" then
      if ToolCallID(event) != "" then base + "\0command-result-tool-call\0" + ToolCallID(event)
      else if enrichment.signature == "" then "" else base + "\0command\0" + enrichment.signature
    else if event.kind in {"permission.requested", "permission.approved", "permission.denied"} then
      if enrichment.permission == "" then "" else base + "\0permission\0" + enrichment.permission
    else if event.kind in {"file.read", "file.write", "file.delete"} then
      match event.resource {
        case None => ""
        case Some(r) => if r.kind == "" || r.name == "" then "" else base + "\0resource\0" + r.kind + "\0" + r.name
      }
    else if event.kind == "tool.result" then
      if event.toolIdentity == "" then "" else base + "\0tool-result\0" + event.toolIdentity
    else ""
  }

  /** The identity an event is grouped under; empty for an event left out of every group. */
  function KeyOf(item: Prepared): string {
    if SourceOf(item) == "" then "" else Identity(item)
  }

  function CandidateOf(item: Prepared, index: nat): Candidate {
    Candidate(index, SourceOf(item), ToolCallID(item.event), item.enrichment.signature, item.event.at)
  }

  ghost function BoardOf(events: seq<Prepared>): (b: Board)
    ensures b.Valid() && |b.keys| == |events|
    ensures forall i | 0 <= i < |events| :: b.keys[i] == KeyOf(events[i]) && b.cands[i] == CandidateOf(events[i], i)
  {
    Board(seq(|events|, i requires 0 <= i < |events| => KeyOf(events[i])),
          seq(|events|, i requires 0 <= i < |events| => CandidateOf(events[i], i)))
  }

  ghost function GraphOf(events: seq<Prepared>): Graph {
    BoardOf(events).Graph()
  }

  ghost predicate InRange(events: seq<Prepared>) {
    BoardOf(events).InRange()
  }

  // ---------------------------------------------------------------- merging a pair

  function DepthRank(depth: string): nat {
    match depth
    case "full" => 50
    case "tool_call" => 40
    case "lifecycle" => 30
    case "otlp" => 20
    case "artifact" => 10
    case _ => 0
  }

  function ConfidenceRank(confidence: string): nat {
    match confidence
    case "high" => 3
    case "medium" => 2
    case "low" => 1
    case _ => 0
  }

  function CoverageRank(item: Prepared): nat {
    DepthRank(item.event.depth) + ConfidenceRank(item.event.confidence)
  }

  function OrElse(a: string, b: string): string {
    if a == "" then b else a
  }

  function MergedEnrichment(a: Enrichment, b: Enrichment): Enrichment {
    Enrichment(OrElse(a.signature, b.signature), OrElse(a.commandClass, b.commandClass),
               OrElse(a.permission, b.permission), OrElse(a.version, b.version))
  }

  /** The event of the pair with the better coverage survives; the left one on a tie. */
  predicate KeepsLeft(left: Prepared, right: Prepared) {
    CoverageRank(right) <= CoverageRank(left)
  }

  function Merged(left: Prepared, right: Prepared): Prepared {
    var kept, other := if KeepsLeft(left, right) then left else right, if KeepsLeft(left, right) then right else left;
    Prepared(kept.event, MergedEnrichment(kept.enrichment, other.enrichment),
             SortedDistinct(kept.evidence + other.evidence),
             left.historical || right.historical, left.live || right.live)
  }

  method MergeCoalesced(left: Prepared, right: Prepared) returns (retained: Prepared)
    ensures retained == Merged(left, right)
  {
    retained := left;
    var other := right;
    if CoverageRank(right) > CoverageRank(left) {
      retained, other := right, left;
    }
    var evidence := retained.evidence + other.evidence;
    var copy := new string[|evidence|](i requires 0 <= i < |evidence| => evidence[i]);
    assert copy[..] == evidence;
    SortStrings(copy);
    var n := CompactInPlace(copy);
    retained := retained.(evidence := copy[..n]);
    retained := retained.(enrichment := MergedEnrichment(retained.enrichment, other.enrichment));
    retained := retained.(historical := retained.historical || other.historical, live := retained.live || other.live);
  }

  /** Filling in an enrichment never moves the retained event to another identity. */
  lemma MergedKeepsIdentity(left: Prepared, right: Prepared)
    ensures var kept := if KeepsLeft(left, right) then left else right;
      KeyOf(kept) != "" ==> KeyOf(Merged(left, right)) == KeyOf(kept)
  {
    hide JoinNul, CoverageRank, SortedDistinct;
  }

  // ---------------------------------------------------------------- the output

  /** The output loop: pairs are merged where their first member stands, its opposite is consumed. */
  function Assemble(events: seq<Prepared>, p: map<nat, nat>, k: nat): (r: (seq<Prepared>, set<nat>))
    requires k <= |events| && forall i | i in p :: p[i] < |events|
  {
    if k == 0 then ([], {})
    else
      var (out, consumed) := Assemble(events, p, k - 1);
      if k - 1 in consumed then (out, consumed)
      else if k - 1 !in p then (out + [events[k - 1]], consumed)
      else (out + [Merged(events[k - 1], events[p[k - 1]])], consumed + {k - 1, p[k - 1]})
  }

  ghost predicate HasPartner(g: Graph, i: nat) {
    exists j: nat :: g.Mutual(i, j)
  }

  ghost function Partner(g: Graph, i: nat): nat
    requires HasPartner(g, i)
  {
    var j: nat :| g.Mutual(i, j); j
  }

  /** The declarative pairing: the events that are each other's only compatible opposite. */
  ghost function PairingOf(events: seq<Prepared>): (p: map<nat, nat>)
    ensures GraphOf(events).IsPairing(p) && forall i | i in p :: p[i] < |events|
  {
    var g := GraphOf(events);
    var paired := set i: nat | i < |events| && HasPartner(g, i);
    map i | i in paired :: Partner(g, i)
  }

  /** What coalescing yields. */
  ghost function Coalesced(events: seq<Prepared>): seq<Prepared> {
    SortEvents(Assemble(events, PairedIn(BoardOf(events)), |events|).0)
  }

  /** The result does not depend on the order the groups are visited in, for any session at all. */
  lemma CoalescedAnyOrder(events: seq<Prepared>, order: seq<nat>)
    requires InGroupOrder(BoardOf(events), order)
    ensures Visits(GraphOf(events), order)
    ensures SortEvents(Assemble(events, PairInOrder(GraphOf(events), order), |events|).0) == Coalesced(events)
  {
    InGroupOrderVisits(BoardOf(events), order);
    AnyGroupOrder(BoardOf(events), order);
  }

  /** Every event whose one compatible opposite has one itself is that one's. */
  ghost predicate Reciprocal(events: seq<Prepared>) {
    GraphOf(events).Reciprocal()
  }

  lemma InRangeReciprocal(events: seq<Prepared>)
    requires InRange(events)
    ensures Reciprocal(events)
  {
    GraphSymmetric(BoardOf(events));
  }

  /** The loop computes the declarative pairing exactly for reciprocal sessions. */
  lemma PairedIsDeclarative(events: seq<Prepared>)
    ensures PairedIn(BoardOf(events)) == PairingOf(events) <==> Reciprocal(events)
  {
    PairingIsMutual(BoardOf(events));
    if Reciprocal(events) { PairingUnique(GraphOf(events), PairedIn(BoardOf(events)), PairingOf(events)); }
  }

  // ---------------------------------------------------------------- the method

  /** Looks at the cancellation signal before every 64th event. */
  method GroupCandidates(events: seq<Prepared>, done: nat -> bool)
    returns (cancelled: bool, groups: map<string, seq<Candidate>>)
    ensures cancelled <==> Cancelled(done, |events|)
    ensures !cancelled ==> Grouped(BoardOf(events), groups)
  {
    hide Identity, SourceOf, Grouped, Members;
    ghost var b := BoardOf(events);
    groups := map[];
    GroupedEmpty();
    assert Board(b.keys[..0], b.cands[..0]) == Board([], []);
    for i := 0 to |events|
      invariant Grouped(Board(b.keys[..i], b.cands[..i]), groups) && !Cancelled(done, i)
    {
      if i % 64 == 0 && done(i) {
        return true, groups;
      }
      GroupedStep(Board(b.keys[..i], b.cands[..i]), b.keys[i], b.cands[i], groups);
      assert b.keys[..i + 1] == b.keys[..i] + [b.keys[i]] && b.cands[..i + 1] == b.cands[..i] + [b.cands[i]];
      var identity, source := Identity(events[i]), SourceOf(events[i]);
      if identity == "" || source == "" { continue; }
      var group := if identity in groups then groups[identity] else [];
      groups := groups[identity := group + [CandidateOf(events[i], i)]];
    }
    assert b == Board(b.keys[..|events|], b.cands[..|events|]);
    cancelled := false;
  }

  method AssembleOutput(events: seq<Prepared>, paired: map<nat, nat>) returns (result: seq<Prepared>)
    requires forall i | i in paired :: paired[i] < |events|
    ensures result == Assemble(events, paired, |events|).0
  {
    hide Merged;
    result := [];
    var consumed: set<nat> := {};
    for index := 0 to |events|
      invariant (result, consumed) == Assemble(events, paired, index)
    {
      if index in consumed { continue; }
      if index !in paired {
        result := result + [events[index]];
        continue;
      }
      var opposite := paired[index];
      consumed := consumed + {index, opposite};
      var merged := MergeCoalesced(events[index], events[opposite]);
      result := result + [merged];
    }
  }

  /** A cancelled run hands its input back; any other run yields the coalesced session. */
  method CoalesceEvents(events: seq<Prepared>, done: nat -> bool) returns (result: seq<Prepared>)
    ensures result == if Cancelled(done, |events|) then events else Coalesced(events)
  {
    hide Assemble, PairedIn;
    var cancelled, groups := GroupCandidates(events, done);
    if cancelled { return events; }
    var paired := PairCandidates(BoardOf(events), groups);
    result := AssembleOutput(events, paired);
    result := SortEvents(result);
  }
}
