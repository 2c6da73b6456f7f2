/** Coalescing a coalesced session changes nothing, although merging may have filled in a command
    signature that the retained event did not have. */
module CoalesceIdempotent {
  import opened Ordering
  import opened Session
  import opened Pairing
  import opened Matching
  import opened GroupOrder
  import opened Coalesce
  import opened CoalesceLaws
  import opened CoalesceEvidence

  /** y counts as an opposite of x. */
  ghost predicate Opposed(x: Prepared, y: Prepared) {
    KeyOf(x) != "" && KeyOf(x) == KeyOf(y) && Opposes(CandidateOf(x, 0), CandidateOf(y, 0))
  }

  lemma OpposedInGraph(events: seq<Prepared>, i: nat, j: nat)
    requires i < |events|
    ensures j in GraphOf(events).opposites[i] <==> j < |events| && Opposed(events[i], events[j])
  {
    hide KeyOf, SourceOf, Session.ToolCallID, Session.WithinWindow;
    var b := BoardOf(events);
    assert GraphOf(events).opposites[i] == b.Opposites(i);
  }

  function Kept(left: Prepared, right: Prepared): Prepared {
    if KeepsLeft(left, right) then left else right
  }

  /** The merged event opposes no more than the event it retains. */
  lemma MergedOpposed(left: Prepared, right: Prepared, w: Prepared)
    requires KeyOf(Kept(left, right)) != ""
    ensures Opposed(Merged(left, right), w) ==> Opposed(Kept(left, right), w)
    ensures Opposed(w, Merged(left, right)) ==> Opposed(w, Kept(left, right))
  {
    MergedKeepsIdentity(left, right);
    hide KeyOf, CoverageRank, SortedDistinct, Session.WithinWindow, Session.ToolCallID;
  }

  /** The position of the event that an output event retains. */
  function Retained(events: seq<Prepared>, p: map<nat, nat>, i: nat): nat
    requires i < |events| && Involution(p, |events|)
  {
    if i in p && !KeepsLeft(events[i], events[p[i]]) then p[i] else i
  }

  /** Every paired event has a nonempty identity. */
  ghost predicate PairsKeyed(events: seq<Prepared>, p: map<nat, nat>) {
    Involution(p, |events|) && forall i | i in p :: KeyOf(events[i]) != ""
  }

  lemma OutputOpposed(events: seq<Prepared>, p: map<nat, nat>, i: nat, j: nat)
    requires i < |events| && j < |events| && PairsKeyed(events, p)
    requires Opposed(OutputAt(events, p, i), OutputAt(events, p, j))
    ensures Opposed(events[Retained(events, p, i)], events[Retained(events, p, j)])
  {
    hide Opposed, KeyOf, Merged, KeepsLeft;
    if i in p { MergedOpposed(events[i], events[p[i]], OutputAt(events, p, j)); }
    if j in p { MergedOpposed(events[j], events[p[j]], events[Retained(events, p, i)]); }
  }

  lemma PairingKeyed(events: seq<Prepared>)
    ensures PairsKeyed(events, PairingOf(events))
  {
    var p, g := PairingOf(events), GraphOf(events);
    PairingIsInvolution(events);
    forall i | i in p ensures KeyOf(events[i]) != "" {
      assert g.Mutual(i, p[i]);
      assert p[i] in g.opposites[i];
      OpposedInGraph(events, i, p[i]);
    }
  }

  /** An opposite of a paired event is its partner. */
  lemma PartnerOnly(events: seq<Prepared>, i: nat, j: nat)
    requires i < |events| && j < |events| && Opposed(events[i], events[j]) && i in PairingOf(events)
    ensures PairingOf(events)[i] == j
  {
    hide Opposed;
    assert GraphOf(events).Mutual(i, PairingOf(events)[i]);
    OpposedInGraph(events, i, j);
  }

  lemma OpposedSymmetric(events: seq<Prepared>, i: nat, j: nat)
    requires InRange(events) && i < |events| && j < |events|
    ensures Opposed(events[i], events[j]) <==> Opposed(events[j], events[i])
  {
    hide Opposed;
    GraphSymmetric(BoardOf(events));
    OpposedInGraph(events, i, j);
    OpposedInGraph(events, j, i);
  }

  lemma NotOpposedToSelf(x: Prepared)
    ensures !Opposed(x, x)
  {
  }

  /** Opposed output events are unpaired input events. */
  lemma OpposedOutputsUnpaired(events: seq<Prepared>, i: nat, j: nat)
    requires InRange(events) && i < |events| && j < |events|
    requires Involution(PairingOf(events), |events|) && Stands(PairingOf(events), i) && Stands(PairingOf(events), j)
    requires Opposed(OutputAt(events, PairingOf(events), i), OutputAt(events, PairingOf(events), j))
    ensures i !in PairingOf(events) && j !in PairingOf(events)
  {
    hide Opposed, KeyOf, Coalesce.InRange, Merged, KeepsLeft;
    var p := PairingOf(events);
    PairingKeyed(events);
    OutputOpposed(events, p, i, j);
    var r, s := Retained(events, p, i), Retained(events, p, j);
    OpposedSymmetric(events, r, s);
    NotOpposedToSelf(OutputAt(events, p, i));
    if i in p { PartnerOnly(events, r, s); }
    if j in p { PartnerOnly(events, s, r); }
  }

  // ---------------------------------------------------------------- from the output back to the input

  lemma CoalescedOrigin(events: seq<Prepared>, a: nat) returns (i: nat)
    requires Reciprocal(events)
    requires a < |Coalesced(events)|
    ensures i < |events| && Involution(PairingOf(events), |events|) && Stands(PairingOf(events), i)
    ensures Coalesced(events)[a] == OutputAt(events, PairingOf(events), i)
  {
    CoalescedIs(events);
    var p, n := PairingOf(events), |events|;
    PairingIsInvolution(events);
    AssembleIsOutputs(events, p, n);
    assert Coalesced(events)[a] in multiset(Coalesced(events));
    i := OutputOrigin(events, p, n, Coalesced(events)[a]);
  }

  lemma UnpairedSurvives(events: seq<Prepared>, k: nat)
    requires Reciprocal(events)
    requires k < |events| && k !in PairingOf(events)
    ensures events[k] in Coalesced(events)
  {
    CoalescedIs(events);
    var p, n := PairingOf(events), |events|;
    PairingIsInvolution(events);
    AssembleIsOutputs(events, p, n);
    OutputContains(events, p, n, k);
    assert events[k] in multiset(Outputs(events, p, n));
    assert events[k] in multiset(Coalesced(events));
  }

  /** Where an unpaired event stands in the output, unchanged. */
  ghost function SurvivesAt(events: seq<Prepared>, k: nat): (c: nat)
    requires Reciprocal(events)
    requires k < |events| && k !in PairingOf(events)
    ensures c < |Coalesced(events)| && Coalesced(events)[c] == events[k]
  {
    UnpairedSurvives(events, k);
    var c: nat :| c < |Coalesced(events)| && Coalesced(events)[c] == events[k];
    c
  }

  /** An opposite of an unpaired event stands in the output, where it is the event's opposite still. */
  lemma OppositeSurvives(events: seq<Prepared>, i: nat, k: nat, a: nat) returns (c: nat)
    requires InRange(events) && i < |events| && i !in PairingOf(events) && k in GraphOf(events).opposites[i]
    requires a < |Coalesced(events)| && Coalesced(events)[a] == events[i]
    ensures k < |events| && c < |Coalesced(events)| && Coalesced(events)[c] == events[k]
    ensures c in GraphOf(Coalesced(events)).opposites[a]
  {
    InRangeReciprocal(events);
    hide Coalesce.InRange, Coalesced, Opposed;
    OpposedInGraph(events, i, k);
    OpposedSymmetric(events, i, k);
    if k in PairingOf(events) {
      PartnerOnly(events, k, i);
      PairingIsInvolution(events);
      assert false;
    }
    c := SurvivesAt(events, k);
    OpposedInGraph(Coalesced(events), a, c);
  }

  lemma OnlyTransfers(events: seq<Prepared>, i: nat, j: nat, a: nat, b: nat)
    requires InRange(events) && DistinctIDs(events)
    requires i < |events| && i !in PairingOf(events) && j < |events| && Opposed(events[i], events[j])
    requires a < |Coalesced(events)| && Coalesced(events)[a] == events[i]
    requires b < |Coalesced(events)| && Coalesced(events)[b] == events[j]
    requires GraphOf(Coalesced(events)).opposites[a] == {b}
    ensures GraphOf(events).opposites[i] == {j}
  {
    hide Coalesce.InRange, Coalesced, Opposed, PairingOf;
    OpposedInGraph(events, i, j);
    forall k: nat | k in GraphOf(events).opposites[i] ensures k == j {
      var c := OppositeSurvives(events, i, k, a);
      assert c == b;
    }
    assert GraphOf(events).opposites[i] == {j};
  }

  lemma {:induction false} CardInjection(domain: set<nat>, image: set<nat>, f: map<nat, nat>)
    requires forall k | k in domain :: k in f && f[k] in image
    requires forall k, l | k in domain && l in domain && f[k] == f[l] :: k == l
    ensures |domain| <= |image|
  {
    if domain != {} {
      var k :| k in domain;
      CardInjection(domain - {k}, image - {f[k]}, f);
    }
  }

  lemma LargeGroupUnpaired(events: seq<Prepared>, k: nat)
    requires k < |events| && k in PairingOf(events)
    ensures |BoardOf(events).Group(KeyOf(events[k]))| <= MAX_COALESCE_GROUP
  {
    hide KeyOf;
    assert GraphOf(events).Mutual(k, PairingOf(events)[k]);
    assert BoardOf(events).InSmallGroup(k);
  }

  /** A group too large to be matched is as large in the output. */
  lemma GroupTransfers(events: seq<Prepared>, key: string)
    requires Reciprocal(events)
    requires DistinctIDs(events)
    ensures |BoardOf(events).Group(key)| > MAX_COALESCE_GROUP ==>
      |BoardOf(events).Group(key)| <= |BoardOf(Coalesced(events)).Group(key)|
  {
    hide KeyOf, Coalesced;
    var group, image := BoardOf(events).Group(key), BoardOf(Coalesced(events)).Group(key);
    if |group| > MAX_COALESCE_GROUP {
      forall k | k in group ensures k < |events| && k !in PairingOf(events) {
        if k in PairingOf(events) { LargeGroupUnpaired(events, k); }
      }
      var f := map k | k in group :: SurvivesAt(events, k);
      forall k | k in group ensures f[k] in image { assert Coalesced(events)[f[k]] == events[k]; }
      forall k, l | k in group && l in group && f[k] == f[l] ensures k == l {
        assert events[k] == Coalesced(events)[f[k]] == events[l];
      }
      CardInjection(group, image, f);
    }
  }

  lemma NoSecondPair(events: seq<Prepared>, a: nat, b: nat)
    requires InRange(events) && DistinctIDs(events)
    ensures !GraphOf(Coalesced(events)).Mutual(a, b)
  {
    InRangeReciprocal(events);
    hide Coalesce.InRange, Coalesced, KeyOf, Opposed, Merged;
    var out := Coalesced(events);
    if GraphOf(out).Mutual(a, b) {
      var i := CoalescedOrigin(events, a);
      var j := CoalescedOrigin(events, b);
      OpposedInGraph(out, a, b);
      OpposedInGraph(out, b, a);
      OpposedOutputsUnpaired(events, i, j);
      OnlyTransfers(events, i, j, a, b);
      OnlyTransfers(events, j, i, b, a);
      assert !GraphOf(events).Mutual(i, j);
      assert !BoardOf(events).InSmallGroup(i);
      GroupTransfers(events, KeyOf(events[i]));
      assert false;
    }
  }

  lemma {:induction false} NothingToAssemble(events: seq<Prepared>, p: map<nat, nat>, k: nat)
    requires k <= |events| && p == map[]
    ensures Assemble(events, p, k) == (events[..k], {})
  {
    if k > 0 {
      NothingToAssemble(events, p, k - 1);
      assert events[..k] == events[..k - 1] + [events[k - 1]];
    }
  }

  lemma CoalescedSorted(events: seq<Prepared>)
    ensures Sorted(EventLe, Coalesced(events))
  {
    EventLeOrder();
    SortBySorted(EventLe, Assemble(events, PairedIn(BoardOf(events)), |events|).0);
  }

  // ---------------------------------------------------------------- exactly when a second pass does nothing

  /** No event has one compatible opposite that has one itself. */
  ghost predicate NothingFires(g: Graph) {
    forall i, j: nat | i in g.small && i < |g.opposites| && j < |g.opposites| :: !g.Fires(i, j)
  }

  lemma {:induction false} QuietRun(g: Graph, order: seq<nat>)
    requires g.Valid() && NothingFires(g) && forall k | 0 <= k < |order| :: order[k] in g.small
    ensures PairInOrder(g, order) == map[]
  {
    if order != [] {
      QuietRun(g, order[..|order| - 1]);
      StepSkips(g, map[], order[|order| - 1]);
    }
  }

  /** Any pair at all makes the output shorter. */
  lemma PairedShorten(events: seq<Prepared>)
    requires PairedIn(BoardOf(events)) != map[]
    ensures |Coalesced(events)| < |events|
  {
    hide PairedIn, Coalesced, BoardOf;
    PairedIsClosed(BoardOf(events));
    OutputLength(events);
    AgainFewer(PairedIn(BoardOf(events)), |events|);
  }

  /** A second pass changes nothing if and only if no event of the first output has one compatible
      opposite that has one itself: for any session, in range or not. */
  lemma CoalescedTwiceExact(events: seq<Prepared>)
    ensures Coalesced(Coalesced(events)) == Coalesced(events) <==> NothingFires(GraphOf(Coalesced(events)))
  {
    var out := Coalesced(events);
    var b := BoardOf(out);
    SessionOrderInGroupOrder(b);
    InGroupOrderVisits(b, SessionOrder(b, |b.keys|));
    CoalescedSorted(events);
    hide Coalesced, InGroupOrder;
    if NothingFires(GraphOf(out)) {
      QuietRun(b.Graph(), SessionOrder(b, |b.keys|));
      CoalescedUnpaired(out);
    } else {
      var i, j: nat :| i in b.Graph().small && i < |b.Graph().opposites| && j < |b.Graph().opposites| &&
        b.Graph().Fires(i, j);
      FiredStays(b.Graph(), SessionOrder(b, |b.keys|), i, j);
      PairedShorten(out);
    }
  }

  lemma CoalescedUnpaired(events: seq<Prepared>)
    requires PairedIn(BoardOf(events)) == map[] && Sorted(EventLe, events)
    ensures Coalesced(events) == events
  {
    hide PairedIn, EventLe;
    NothingToAssemble(events, map[], |events|);
    SortByFixed(EventLe, events);
    assert events[..|events|] == events;
  }

  lemma NothingFiresAgain(events: seq<Prepared>)
    requires InRange(events) && DistinctIDs(events)
    ensures NothingFires(GraphOf(Coalesced(events)))
  {
    var out := Coalesced(events);
    InRangeKept(events);
    InRangeReciprocal(out);
    var g := GraphOf(out);
    hide Coalesced, GraphOf, Coalesce.InRange;
    forall i, j: nat | i in g.small && i < |g.opposites| && j < |g.opposites| ensures !g.Fires(i, j) {
      NoSecondPair(events, i, j);
    }
  }

  /** Idempotence: a second pass over a session in range finds no pair and keeps every event where it
      is. */
  lemma CoalescedTwice(events: seq<Prepared>)
    requires InRange(events) && DistinctIDs(events)
    ensures Coalesced(Coalesced(events)) == Coalesced(events)
  {
    hide *;
    NothingFiresAgain(events);
    CoalescedTwiceExact(events);
  }

  /** The output of a session in range is in range. */
  lemma InRangeKept(events: seq<Prepared>)
    requires InRange(events)
    ensures InRange(Coalesced(events))
  {
    InRangeReciprocal(events);
    var out := Coalesced(events);
    hide Coalesced;
    forall a: nat, c: nat | BoardOf(out).Comparable(a, c)
      ensures BoardOf(out).cands[c].at - BoardOf(out).cands[a].at > Session.MIN_DURATION
    {
      var i := CoalescedOrigin(events, a);
      var j := CoalescedOrigin(events, c);
      OutputComparable(events, PairingOf(events), i, j);
    }
  }

  /** The two events could be opposites but for their times. */
  ghost predicate Comparables(x: Prepared, y: Prepared) {
    KeyOf(x) != "" && KeyOf(x) == KeyOf(y) && Contrasts(CandidateOf(x, 0), CandidateOf(y, 0))
  }

  lemma MergedComparable(left: Prepared, right: Prepared, w: Prepared)
    requires KeyOf(Kept(left, right)) != ""
    ensures Comparables(Merged(left, right), w) ==> Comparables(Kept(left, right), w)
    ensures Comparables(w, Merged(left, right)) ==> Comparables(w, Kept(left, right))
    ensures Merged(left, right).event == Kept(left, right).event
  {
    MergedKeepsIdentity(left, right);
    hide KeyOf, CoverageRank, SortedDistinct, Session.ToolCallID;
  }

  lemma OutputComparable(events: seq<Prepared>, p: map<nat, nat>, i: nat, j: nat)
    requires InRange(events) && i < |events| && j < |events| && p == PairingOf(events) && Involution(p, |events|)
    requires Comparables(OutputAt(events, p, i), OutputAt(events, p, j))
    ensures OutputAt(events, p, j).event.at - OutputAt(events, p, i).event.at > Session.MIN_DURATION
  {
    PairingKeyed(events);
    var r, s := Retained(events, p, i), Retained(events, p, j);
    ComparablesInRange(events, r, s);
    hide Comparables, KeyOf, Merged, KeepsLeft, Coalesce.InRange, PairingOf;
    if i in p { MergedComparable(events[i], events[p[i]], OutputAt(events, p, j)); }
    if j in p { MergedComparable(events[j], events[p[j]], events[r]); }
  }

  lemma ComparablesInRange(events: seq<Prepared>, i: nat, j: nat)
    requires InRange(events) && i < |events| && j < |events|
    ensures Comparables(events[i], events[j]) ==> events[j].event.at - events[i].event.at > Session.MIN_DURATION
  {
    hide KeyOf, SourceOf, Session.ToolCallID;
    var b := BoardOf(events);
    assert Comparables(events[i], events[j]) ==> b.Comparable(i, j);
  }

  /** Two runs in a row, as the program would make them. */
  method CoalesceTwice(events: seq<Prepared>, first: nat -> bool, second: nat -> bool)
    returns (once: seq<Prepared>, twice: seq<Prepared>)
    requires InRange(events) && DistinctIDs(events)
    ensures !Cancelled(first, |events|) ==> twice == once
  {
    once := CoalesceEvents(events, first);
    twice := CoalesceEvents(once, second);
    if !Cancelled(first, |events|) { CoalescedTwice(events); }
  }
}
