/** What coalescing keeps of the evidence and of the number of events, in every session, and exactly
    when it cites an ID twice. */
module CoalesceEvidence {
  import opened Ordering
  import opened Session
  import opened Pairing
  import opened Matching
  import opened GroupOrder
  import opened Coalesce
  import opened CoalesceLaws

  // ---------------------------------------------------------------- what the output loop consumes

  /** The positions consumed when the output loop stands at k. */
  function Consumed(p: map<nat, nat>, k: nat): set<nat> {
    if k == 0 then {}
    else
      var before := Consumed(p, k - 1);
      if k - 1 in before || k - 1 !in p then before else before + {k - 1, p[k - 1]}
  }

  /** The loop asks whether i is consumed, and not whether its opposite is. */
  predicate MergesAgain(p: map<nat, nat>, i: nat) {
    i in p && i !in Consumed(p, i) && p[i] in Consumed(p, i)
  }

  /** No event is merged a second time. */
  ghost predicate MergesOnce(b: Board)
    requires b.Valid()
  {
    forall i: nat | i < |b.keys| :: !MergesAgain(PairedIn(b), i)
  }

  lemma {:induction false} ConsumedIs(events: seq<Prepared>, p: map<nat, nat>, k: nat)
    requires k <= |events| && Bounds(p, |events|)
    ensures Assemble(events, p, k).1 == Consumed(p, k)
  {
    hide Merged;
    if k > 0 { ConsumedIs(events, p, k - 1); }
  }

  /** What position i does. */
  datatype Turn = Skipped | Copied | MergedWith(other: nat)

  function TurnAt(p: map<nat, nat>, i: nat): Turn {
    if i in Consumed(p, i) then Skipped else if i in p then MergedWith(p[i]) else Copied
  }

  lemma ConsumedNext(p: map<nat, nat>, i: nat)
    ensures Consumed(p, i + 1) == if TurnAt(p, i).MergedWith? then Consumed(p, i) + {i, p[i]} else Consumed(p, i)
  {
  }

  lemma {:induction false} ConsumedIsPaired(p: map<nat, nat>, k: nat)
    requires Closed(p)
    ensures Consumed(p, k) <= p.Keys
  {
    if k > 0 {
      ConsumedIsPaired(p, k - 1);
      ConsumedNext(p, k - 1);
      hide Consumed;
    }
  }

  /** Whatever is paired is consumed once the loop has passed it. */
  lemma {:induction false} PassedIsConsumed(p: map<nat, nat>, k: nat)
    ensures forall i | i in p && i < k :: i in Consumed(p, k)
  {
    if k > 0 {
      PassedIsConsumed(p, k - 1);
      ConsumedNext(p, k - 1);
      assert k - 1 in p ==> k - 1 in Consumed(p, k);
      hide Consumed;
    }
  }

  function Range(n: nat): (r: set<nat>)
    ensures |r| == n && forall i: nat :: i in r <==> i < n
  {
    if n == 0 then {} else Range(n - 1) + {n - 1}
  }

  /** The positions whose events have reached the output when the loop stands at k. */
  ghost function Reached(p: map<nat, nat>, k: nat): set<nat> {
    Range(k) + Consumed(p, k)
  }

  lemma RangeNext(i: nat)
    ensures Range(i + 1) == Range(i) + {i} && i !in Range(i)
  {
  }

  lemma ReachedNext(p: map<nat, nat>, i: nat)
    requires Closed(p)
    ensures match TurnAt(p, i)
      case Skipped => Reached(p, i + 1) == Reached(p, i)
      case Copied => i !in Reached(p, i) && Reached(p, i + 1) == Reached(p, i) + {i}
      case MergedWith(j) =>
        i !in Reached(p, i) && j != i && Reached(p, i + 1) == Reached(p, i) + {i} + {j} &&
        (j in Reached(p, i) <==> MergesAgain(p, i))
  {
    PassedIsConsumed(p, i);
    ConsumedIsPaired(p, i);
    ConsumedNext(p, i);
    RangeNext(i);
    hide Range, Consumed;
    match TurnAt(p, i)
    case Skipped =>
    case Copied =>
    case MergedWith(j) => assert j in Range(i) ==> j in Consumed(p, i);
  }

  lemma AssembleNext(events: seq<Prepared>, p: map<nat, nat>, i: nat)
    requires i < |events| && Bounds(p, |events|)
    ensures Assemble(events, p, i + 1).0 ==
      match TurnAt(p, i)
      case Skipped => Assemble(events, p, i).0
      case Copied => Assemble(events, p, i).0 + [events[i]]
      case MergedWith(j) => Assemble(events, p, i).0 + [Merged(events[i], events[j])]
  {
    hide Merged;
    ConsumedIs(events, p, i);
  }

  lemma ReachedAll(p: map<nat, nat>, n: nat)
    requires Closed(p) && Bounds(p, n)
    ensures Reached(p, 0) == {} && Reached(p, n) == Range(n) && Consumed(p, n) == p.Keys
  {
    PassedIsConsumed(p, n);
    ConsumedIsPaired(p, n);
    hide Consumed;
    assert Consumed(p, 0) == {} by { ConsumedNothing(p); }
    assert p.Keys <= Range(n);
  }

  lemma ConsumedNothing(p: map<nat, nat>)
    ensures Consumed(p, 0) == {}
  {
  }

  // ---------------------------------------------------------------- nothing is lost or invented

  ghost predicate Cites(events: seq<Prepared>, id: string) {
    exists q :: q in events && id in q.evidence
  }

  ghost predicate CitedAt(events: seq<Prepared>, s: set<nat>, id: string) {
    exists i :: i in s && i < |events| && id in events[i].evidence
  }

  lemma CitesAppend(out: seq<Prepared>, x: Prepared, id: string)
    ensures Cites(out + [x], id) <==> Cites(out, id) || id in x.evidence
  {
    forall q ensures q in out + [x] <==> q in out || q == x {}
  }

  lemma CitedAtAdd(events: seq<Prepared>, s: set<nat>, i: nat, id: string)
    requires i < |events|
    ensures CitedAt(events, s + {i}, id) <==> CitedAt(events, s, id) || id in events[i].evidence
  {
    assert i in s + {i};
  }

  lemma MergedCites(x: Prepared, y: Prepared, id: string)
    ensures id in Merged(x, y).evidence <==> id in x.evidence || id in y.evidence
  {
    hide CoverageRank, SortedDistinct;
  }

  lemma TurnCites(events: seq<Prepared>, p: map<nat, nat>, i: nat, id: string)
    requires i < |events| && Closed(p) && Bounds(p, |events|)
    requires Cites(Assemble(events, p, i).0, id) <==> CitedAt(events, Reached(p, i), id)
    ensures Cites(Assemble(events, p, i + 1).0, id) <==> CitedAt(events, Reached(p, i + 1), id)
  {
    hide Assemble, Reached, Merged, Cites, CitedAt, Consumed, MergesAgain;
    ReachedNext(p, i);
    AssembleNext(events, p, i);
    var out, s := Assemble(events, p, i).0, Reached(p, i);
    match TurnAt(p, i)
    case Skipped =>
    case Copied =>
      CitesAppend(out, events[i], id);
      CitedAtAdd(events, s, i, id);
    case MergedWith(j) =>
      CitesAppend(out, Merged(events[i], events[j]), id);
      MergedCites(events[i], events[j], id);
      CitedAtAdd(events, s, i, id);
      CitedAtAdd(events, s + {i}, j, id);
  }

  lemma {:induction false} ReachedCites(events: seq<Prepared>, p: map<nat, nat>, k: nat, id: string)
    requires k <= |events| && Closed(p) && Bounds(p, |events|)
    ensures Cites(Assemble(events, p, k).0, id) <==> CitedAt(events, Reached(p, k), id)
  {
    if k == 0 {
      assert Reached(p, 0) == {};
    } else {
      hide *;
      ReachedCites(events, p, k - 1, id);
      TurnCites(events, p, k - 1, id);
    }
  }

  /** In every session the output cites exactly the IDs that the input cites. */
  lemma NothingLost(events: seq<Prepared>, id: string)
    ensures Cites(Coalesced(events), id) <==> Cites(events, id)
  {
    hide Assemble, PairedIn, SortEvents, Reached, BoardOf, Cites, CitedAt, Consumed;
    var p, n := PairedIn(BoardOf(events)), |events|;
    PairedIsClosed(BoardOf(events));
    ReachedCites(events, p, n, id);
    ReachedAll(p, n);
    SameCites(SortEvents(Assemble(events, p, n).0), Assemble(events, p, n).0, id);
    CitedAtAll(events, id);
  }

  lemma SameCites(a: seq<Prepared>, b: seq<Prepared>, id: string)
    requires multiset(a) == multiset(b)
    ensures Cites(a, id) <==> Cites(b, id)
  {
    BagMembers(a, b);
  }

  lemma CitedAtAll(events: seq<Prepared>, id: string)
    ensures CitedAt(events, Range(|events|), id) <==> Cites(events, id)
  {
    if Cites(events, id) {
      var q :| q in events && id in q.evidence;
      var i :| 0 <= i < |events| && events[i] == q;
      assert i in Range(|events|);
    }
  }

  // ---------------------------------------------------------------- how often each ID is cited

  function Evidence(events: seq<Prepared>): multiset<string> {
    if events == [] then multiset{} else multiset(events[0].evidence) + Evidence(events[1..])
  }

  lemma {:induction false} EvidenceAppend(a: seq<Prepared>, x: Prepared)
    ensures Evidence(a + [x]) == Evidence(a) + multiset(x.evidence)
  {
    if a != [] {
      EvidenceAppend(a[1..], x);
      assert (a + [x])[1..] == a[1..] + [x];
    }
  }

  lemma {:induction false} EvidenceMembers(events: seq<Prepared>, id: string)
    ensures id in Evidence(events) <==> Cites(events, id)
  {
    if events != [] {
      EvidenceMembers(events[1..], id);
      assert events == [events[0]] + events[1..];
      hide Evidence;
    }
  }

  lemma {:induction false} EvidenceInsert(x: Prepared, s: seq<Prepared>)
    ensures Evidence(Insert(EventLe, x, s)) == multiset(x.evidence) + Evidence(s)
  {
    hide EventLe;
    assert ([x] + s)[1..] == s;
    if s != [] && !EventLe(x, s[0]) {
      EvidenceInsert(x, s[1..]);
      assert ([s[0]] + Insert(EventLe, x, s[1..]))[1..] == Insert(EventLe, x, s[1..]);
    }
  }

  lemma {:induction false} EvidenceSort(s: seq<Prepared>)
    ensures Evidence(SortEvents(s)) == Evidence(s)
  {
    if s != [] {
      EvidenceSort(s[1..]);
      EvidenceInsert(s[0], SortBy(EventLe, s[1..]));
    }
  }

  /** The evidence of the events whose positions are in s. */
  ghost function EvidenceAt(events: seq<Prepared>, s: set<nat>): multiset<string> {
    if events == [] then multiset{}
    else
      var n := |events| - 1;
      EvidenceAt(events[..n], s) + if n in s then multiset(events[n].evidence) else multiset{}
  }

  lemma {:induction false} EvidenceAtAdd(events: seq<Prepared>, s: set<nat>, i: nat)
    requires i < |events| && i !in s
    ensures EvidenceAt(events, s + {i}) == EvidenceAt(events, s) + multiset(events[i].evidence)
  {
    var n := |events| - 1;
    if i < n {
      EvidenceAtAdd(events[..n], s, i);
    } else {
      EvidenceAtIrrelevant(events[..n], s, i);
    }
  }

  lemma {:induction false} EvidenceAtIrrelevant(events: seq<Prepared>, s: set<nat>, i: nat)
    requires |events| <= i
    ensures EvidenceAt(events, s + {i}) == EvidenceAt(events, s)
  {
    if events != [] { EvidenceAtIrrelevant(events[..|events| - 1], s, i); }
  }

  lemma {:induction false} EvidenceAtAll(events: seq<Prepared>, s: set<nat>)
    requires forall i: nat | i < |events| :: i in s
    ensures EvidenceAt(events, s) == Evidence(events)
  {
    if events != [] {
      var n := |events| - 1;
      EvidenceAtAll(events[..n], s);
      EvidenceAppend(events[..n], events[n]);
      assert events == events[..n] + [events[n]];
    } else {
      assert s >= {};
    }
  }

  lemma {:induction false} EvidenceAtNone(events: seq<Prepared>)
    ensures EvidenceAt(events, {}) == multiset{}
  {
    if events != [] { EvidenceAtNone(events[..|events| - 1]); }
  }

  ghost predicate Unrepeated(bag: multiset<string>) {
    forall id :: bag[id] <= 1
  }

  /** No evidence ID is cited twice in the session. */
  ghost predicate NoRepeatedEvidence(events: seq<Prepared>) {
    Unrepeated(Evidence(events))
  }

  lemma SortedDistinctBag(s: seq<string>)
    requires Unrepeated(multiset(s))
    ensures multiset(SortedDistinct(s)) == multiset(s)
  {
    var sorted := SortBy(StrLe, s);
    forall i | 0 < i < |sorted| ensures sorted[i - 1] != sorted[i] {
      assert sorted == sorted[..i - 1] + [sorted[i - 1], sorted[i]] + sorted[i + 1..];
      assert multiset(sorted)[sorted[i]] <= 1;
    }
    CompactFixed(sorted);
  }

  lemma MergedEvidence(x: Prepared, y: Prepared)
    requires Unrepeated(multiset(x.evidence) + multiset(y.evidence))
    ensures multiset(Merged(x, y).evidence) == multiset(x.evidence) + multiset(y.evidence)
  {
    hide CoverageRank, SortedDistinct;
    assert multiset(x.evidence + y.evidence) == multiset(y.evidence + x.evidence)
      == multiset(x.evidence) + multiset(y.evidence);
    if KeepsLeft(x, y) { SortedDistinctBag(x.evidence + y.evidence); }
    else { SortedDistinctBag(y.evidence + x.evidence); }
  }

  lemma {:induction false} EvidenceAtBound(events: seq<Prepared>, s: set<nat>, id: string)
    ensures EvidenceAt(events, s)[id] <= Evidence(events)[id]
  {
    if events != [] {
      var n := |events| - 1;
      EvidenceAtBound(events[..n], s, id);
      EvidenceAppend(events[..n], events[n]);
      assert events == events[..n] + [events[n]];
    }
  }

  lemma PairUnrepeated(events: seq<Prepared>, i: nat, j: nat)
    requires NoRepeatedEvidence(events) && i < |events| && j < |events| && i != j
    ensures Unrepeated(multiset(events[i].evidence) + multiset(events[j].evidence))
  {
    EvidenceAtAdd(events, {}, i);
    EvidenceAtAdd(events, {} + {i}, j);
    forall id ensures (multiset(events[i].evidence) + multiset(events[j].evidence))[id] <= 1 {
      EvidenceAtBound(events, {} + {i} + {j}, id);
    }
  }

  /** The evidence of the events that are merged a second time. */
  function Repeated(events: seq<Prepared>, p: map<nat, nat>, k: nat): multiset<string>
    requires k <= |events| && Bounds(p, |events|)
  {
    if k == 0 then multiset{}
    else
      var before := Repeated(events, p, k - 1);
      if MergesAgain(p, k - 1) then before + multiset(events[p[k - 1]].evidence) else before
  }

  lemma ReachedEvidence(events: seq<Prepared>, p: map<nat, nat>, i: nat)
    requires i < |events| && Closed(p) && Bounds(p, |events|)
    ensures var now, next := EvidenceAt(events, Reached(p, i)), EvidenceAt(events, Reached(p, i + 1));
      match TurnAt(p, i)
      case Skipped => next == now
      case Copied => next == now + multiset(events[i].evidence)
      case MergedWith(j) =>
        next == now + multiset(events[i].evidence) +
          if MergesAgain(p, i) then multiset{} else multiset(events[j].evidence)
  {
    ReachedNext(p, i);
    var s := Reached(p, i);
    hide Reached, EvidenceAt, Consumed;
    match TurnAt(p, i)
    case Skipped =>
    case Copied => EvidenceAtAdd(events, s, i);
    case MergedWith(j) =>
      EvidenceAtAdd(events, s, i);
      if j in s { assert s + {i} + {j} == s + {i}; } else { EvidenceAtAdd(events, s + {i}, j); }
  }

  /** What one turn adds to the output. */
  lemma TurnEvidence(events: seq<Prepared>, p: map<nat, nat>, i: nat)
    requires i < |events| && Closed(p) && Bounds(p, |events|) && NoRepeatedEvidence(events)
    ensures var now, next := Evidence(Assemble(events, p, i).0), Evidence(Assemble(events, p, i + 1).0);
      match TurnAt(p, i)
      case Skipped => next == now
      case Copied => next == now + multiset(events[i].evidence)
      case MergedWith(j) => next == now + (multiset(events[i].evidence) + multiset(events[j].evidence))
  {
    AssembleNext(events, p, i);
    var out := Assemble(events, p, i).0;
    hide Assemble, Merged, Evidence, Consumed, NoRepeatedEvidence;
    match TurnAt(p, i)
    case Skipped =>
    case Copied => EvidenceAppend(out, events[i]);
    case MergedWith(j) =>
      EvidenceAppend(out, Merged(events[i], events[j]));
      PairUnrepeated(events, i, j);
      MergedEvidence(events[i], events[j]);
  }

  lemma RepeatedNext(events: seq<Prepared>, p: map<nat, nat>, i: nat)
    requires i < |events| && Bounds(p, |events|)
    ensures Repeated(events, p, i + 1) == Repeated(events, p, i) +
      if MergesAgain(p, i) then multiset(events[p[i]].evidence) else multiset{}
  {
  }

  lemma TurnBalances(events: seq<Prepared>, p: map<nat, nat>, i: nat)
    requires i < |events| && Closed(p) && Bounds(p, |events|) && NoRepeatedEvidence(events)
    requires Evidence(Assemble(events, p, i).0) == EvidenceAt(events, Reached(p, i)) + Repeated(events, p, i)
    ensures Evidence(Assemble(events, p, i + 1).0) ==
      EvidenceAt(events, Reached(p, i + 1)) + Repeated(events, p, i + 1)
  {
    hide Assemble, Reached, Evidence, EvidenceAt, NoRepeatedEvidence, Repeated, Consumed, Closed;
    TurnEvidence(events, p, i);
    ReachedEvidence(events, p, i);
    RepeatedNext(events, p, i);
    var at, again := EvidenceAt(events, Reached(p, i)), Repeated(events, p, i);
    match TurnAt(p, i)
    case Skipped =>
    case Copied => Regroup(at, again, multiset(events[i].evidence), multiset{});
    case MergedWith(j) => Regroup(at, again, multiset(events[i].evidence), multiset(events[j].evidence));
  }

  lemma Regroup(at: multiset<string>, again: multiset<string>, x: multiset<string>, y: multiset<string>)
    ensures at + again + x == at + x + again
    ensures at + again + (x + y) == at + x + y + again == at + x + (again + y)
    ensures at + x + multiset{} == at + x && again + multiset{} == again
  {
  }

  lemma {:induction false} Accounted(events: seq<Prepared>, p: map<nat, nat>, k: nat)
    requires k <= |events| && Closed(p) && Bounds(p, |events|) && NoRepeatedEvidence(events)
    ensures Evidence(Assemble(events, p, k).0) == EvidenceAt(events, Reached(p, k)) + Repeated(events, p, k)
  {
    if k == 0 {
      NothingReached(events, p);
    } else {
      hide *;
      Accounted(events, p, k - 1);
      TurnBalances(events, p, k - 1);
    }
  }

  lemma NothingReached(events: seq<Prepared>, p: map<nat, nat>)
    requires Bounds(p, |events|)
    ensures EvidenceAt(events, Reached(p, 0)) == Repeated(events, p, 0) == Evidence([]) == multiset{}
  {
    assert Reached(p, 0) == {};
    EvidenceAtNone(events);
  }

  /** The balance of every session without repeated evidence: the output cites what the input cites, and
      once more the evidence of each event that is merged a second time. */
  lemma EvidenceBalance(events: seq<Prepared>)
    requires NoRepeatedEvidence(events)
    ensures Evidence(Coalesced(events)) ==
      Evidence(events) + Repeated(events, PairedIn(BoardOf(events)), |events|)
  {
    hide Assemble, PairedIn, SortEvents, Evidence, EvidenceAt, Repeated, Reached, BoardOf, NoRepeatedEvidence, Consumed;
    var p, n := PairedIn(BoardOf(events)), |events|;
    PairedIsClosed(BoardOf(events));
    Accounted(events, p, n);
    ReachedAll(p, n);
    EvidenceAtAll(events, Range(n));
    EvidenceSort(Assemble(events, p, n).0);
  }

  ghost predicate AllCite(events: seq<Prepared>) {
    forall i | 0 <= i < |events| :: events[i].evidence != []
  }

  lemma {:induction false} RepeatedNothing(events: seq<Prepared>, p: map<nat, nat>, k: nat)
    requires k <= |events| && Bounds(p, |events|)
    ensures (forall i: nat | i < k :: !MergesAgain(p, i)) ==> Repeated(events, p, k) == multiset{}
    ensures AllCite(events) && Repeated(events, p, k) == multiset{} ==> forall i: nat | i < k :: !MergesAgain(p, i)
  {
    if k > 0 {
      RepeatedNothing(events, p, k - 1);
      hide Consumed;
      if MergesAgain(p, k - 1) && AllCite(events) { Cited(events, p[k - 1], Repeated(events, p, k - 1)); }
    }
  }

  lemma Cited(events: seq<Prepared>, j: nat, more: multiset<string>)
    requires j < |events| && AllCite(events)
    ensures more + multiset(events[j].evidence) != multiset{}
  {
    assert events[j].evidence[0] in more + multiset(events[j].evidence);
  }

  /** Conservation: each evidence ID of the input is cited by exactly one output event if and only if no
      event is merged a second time. */
  lemma EvidenceConserved(events: seq<Prepared>)
    requires NoRepeatedEvidence(events) && AllCite(events)
    ensures Evidence(Coalesced(events)) == Evidence(events) <==> MergesOnce(BoardOf(events))
  {
    var b := BoardOf(events);
    EvidenceBalance(events);
    RepeatedNothing(events, PairedIn(b), |events|);
    hide Coalesced, Evidence, Repeated, NoRepeatedEvidence, AllCite, PairedIn, MergesAgain;
  }

  lemma {:induction false} InvolutionConsumes(p: map<nat, nat>, n: nat, k: nat)
    requires Involution(p, n)
    ensures forall i | i in p :: i in Consumed(p, k) <==> p[i] in Consumed(p, k)
  {
    if k > 0 { InvolutionConsumes(p, n, k - 1); }
  }

  /** Reciprocal sessions, those in range among them, merge every event at most once. */
  lemma ReciprocalMergesOnce(events: seq<Prepared>)
    requires Reciprocal(events)
    ensures MergesOnce(BoardOf(events))
  {
    var b := BoardOf(events);
    PairedIsDeclarative(events);
    PairingIsInvolution(events);
    hide PairedIn, Consumed, Involution;
    forall i: nat | i < |b.keys| ensures !MergesAgain(PairedIn(b), i) { InvolutionConsumes(PairedIn(b), |events|, i); }
  }

  // ---------------------------------------------------------------- counting

  /** The unpaired ones of the first k events. */
  function Alone(p: map<nat, nat>, k: nat): (r: set<nat>)
    ensures forall i: nat :: i in r <==> i < k && i !in p
  {
    if k == 0 then {} else if k - 1 in p then Alone(p, k - 1) else Alone(p, k - 1) + {k - 1}
  }

  ghost function Again(p: map<nat, nat>, k: nat): set<nat> {
    set i: nat | i < k && MergesAgain(p, i)
  }

  lemma ConsumedCount(p: map<nat, nat>, i: nat)
    requires Closed(p)
    ensures |Consumed(p, i + 1)| ==
      |Consumed(p, i)| + if !TurnAt(p, i).MergedWith? then 0 else if MergesAgain(p, i) then 1 else 2
  {
    ConsumedNext(p, i);
    hide Consumed;
    if TurnAt(p, i).MergedWith? {
      var before := Consumed(p, i);
      assert p[i] != i;
      if p[i] in before { assert before + {i, p[i]} == before + {i}; }
      else { assert before + {i, p[i]} == before + {i} + {p[i]}; }
    }
  }

  lemma AloneNext(p: map<nat, nat>, i: nat)
    requires Closed(p)
    ensures |Alone(p, i + 1)| == |Alone(p, i)| + if TurnAt(p, i) == Copied then 1 else 0
  {
    PassedIsConsumed(p, i);
    ConsumedIsPaired(p, i);
    hide Consumed;
  }

  lemma AgainCount(p: map<nat, nat>, i: nat)
    ensures |Again(p, i + 1)| == |Again(p, i)| + if MergesAgain(p, i) then 1 else 0
  {
    hide MergesAgain;
    assert Again(p, i + 1) == if MergesAgain(p, i) then Again(p, i) + {i} else Again(p, i);
  }

  ghost predicate Counted(events: seq<Prepared>, p: map<nat, nat>, k: nat)
    requires k <= |events| && Bounds(p, |events|)
  {
    2 * |Assemble(events, p, k).0| == 2 * |Alone(p, k)| + |Consumed(p, k)| + |Again(p, k)|
  }

  lemma TurnCounts(events: seq<Prepared>, p: map<nat, nat>, i: nat)
    requires i < |events| && Closed(p) && Bounds(p, |events|) && Counted(events, p, i)
    ensures Counted(events, p, i + 1)
  {
    hide Assemble, Consumed, Again, Alone, Merged, Closed;
    AssembleNext(events, p, i);
    ConsumedCount(p, i);
    AloneNext(p, i);
    AgainCount(p, i);
  }

  lemma NothingCounted(events: seq<Prepared>, p: map<nat, nat>)
    requires Bounds(p, |events|)
    ensures Counted(events, p, 0)
  {
    assert Again(p, 0) == {} && Alone(p, 0) == {} && Consumed(p, 0) == {};
  }

  lemma {:induction false} AssembleCount(events: seq<Prepared>, p: map<nat, nat>, k: nat)
    requires k <= |events| && Closed(p) && Bounds(p, |events|)
    ensures Counted(events, p, k)
  {
    hide Counted;
    if k == 0 {
      NothingCounted(events, p);
    } else {
      AssembleCount(events, p, k - 1);
      TurnCounts(events, p, k - 1);
    }
  }

  /** The output is as much shorter as there are pairs, and longer by every event merged a second time:
      for any session. */
  lemma OutputLength(events: seq<Prepared>)
    ensures var p := PairedIn(BoardOf(events));
      2 * |Coalesced(events)| + |p| == 2 * |events| + |Again(p, |events|)|
    ensures 2 * |Coalesced(events)| + |PairedIn(BoardOf(events))| == 2 * |events| <==> MergesOnce(BoardOf(events))
  {
    var b, n := BoardOf(events), |events|;
    var p := PairedIn(b);
    PairedIsClosed(b);
    hide Assemble, PairedIn, SortEvents, Alone, MergesAgain, Consumed, BoardOf;
    AssembleCount(events, p, n);
    ReachedAll(p, n);
    AloneAndPaired(p, n);
    SameLength(Assemble(events, p, n).0);
    assert |p| == |p.Keys|;
    NoneAgain(b);
  }

  lemma NoneAgain(b: Board)
    requires b.Valid()
    ensures |Again(PairedIn(b), |b.keys|)| == 0 <==> MergesOnce(b)
  {
    hide MergesAgain, PairedIn;
    var again := Again(PairedIn(b), |b.keys|);
    if again == {} {
      forall i: nat | i < |b.keys| ensures !MergesAgain(PairedIn(b), i) { assert i !in again; }
    }
  }

  lemma {:induction false} NothingConsumed(p: map<nat, nat>, m: nat)
    requires forall i | i in p :: m <= i
    ensures Consumed(p, m) == {}
  {
    if m > 0 { NothingConsumed(p, m - 1); }
  }

  lemma {:induction false} Least(s: set<nat>) returns (m: nat)
    requires s != {}
    ensures m in s && forall i | i in s :: m <= i
  {
    var x: nat :| x in s;
    m := x;
    if y: nat :| y in s && y < x {
      assert y in s - {x};
      m := Least(s - {x});
      assert m <= y;
      forall i | i in s ensures m <= i { assert i != x ==> i in s - {x}; }
    }
  }

  /** The first pair is a pair for the first time. */
  lemma AgainFewer(p: map<nat, nat>, n: nat)
    requires p != map[]
    ensures |Again(p, n)| < |p|
  {
    var i :| i in p;
    var m := Least(p.Keys);
    NothingConsumed(p, m);
    hide Consumed;
    assert Again(p, n) <= p.Keys - {m};
    SubsetCount(Again(p, n), p.Keys - {m});
    assert |p.Keys - {m}| == |p.Keys| - 1 == |p| - 1;
  }

  lemma SameLength(out: seq<Prepared>)
    ensures |SortEvents(out)| == |out|
  {
    hide SortEvents;
    BagMembers(SortEvents(out), out);
  }

  lemma AloneAndPaired(p: map<nat, nat>, n: nat)
    requires Bounds(p, n)
    ensures |Alone(p, n)| + |p| == n
  {
    hide Alone, Range;
    assert p.Keys <= Range(n);
    assert Alone(p, n) + p.Keys == Range(n);
    PartitionSize(Alone(p, n), p.Keys, Range(n));
  }

  lemma PartitionSize<T>(a: set<T>, b: set<T>, whole: set<T>)
    requires a !! b && a + b == whole
    ensures |a| + |b| == |whole|
  {
  }
}
