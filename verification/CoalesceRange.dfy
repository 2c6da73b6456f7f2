/** Two sessions with comparable events 2^63 ns apart, where the window test is not symmetric: one whose
    coalescing cites an event's evidence twice, and one that a second pass coalesces further. */
module CoalesceRange {
  import opened Text
  import opened Ordering
  import opened Session
  import opened Pairing
  import opened Matching
  import opened GroupOrder
  import opened Coalesce
  import opened CoalesceLaws
  import opened CoalesceEvidence
  import opened CoalesceIdempotent

  function Sample(id: string, sequence: int, at: int, source: string): Prepared {
    Prepared(
      Event(id, at, sequence, source, "s", "tool.result", "", "", None, None, "t", None, "", "", false),
      Enrichment("", "", "", ""), [id], source == "artifact", source == "hook")
  }

  const FAR := 0x8000_0000_0000_0000

  /** One historical result between a live one 2^63 ns later and a live one at the next instant. */
  function Wrapped(): seq<Prepared> {
    [Sample("a", 1, FAR, "hook"), Sample("b", 2, 0, "artifact"), Sample("c", 3, 1, "hook")]
  }

  /** The same with the second live result half a second later, and a historical one after it that it
      may double as well. */
  function Deferred(): seq<Prepared> {
    [Sample("a", 1, FAR, "hook"), Sample("b", 2, 0, "artifact"),
     Sample("c", 3, 500_000_000, "hook"), Sample("d", 4, 1_200_000_000, "artifact")]
  }

  // ---------------------------------------------------------------- sessions of one identity

  const KEY: string := JoinNul(["s", "tool.result", "", Lower(TrimSpace("")), "exit:none"]) + "\0tool-result\0" + "t"

  lemma SampleKey(id: string, sequence: int, at: int, source: string)
    requires source in {"hook", "artifact"}
    ensures KeyOf(Sample(id, sequence, at, source)) == KEY && KEY != ""
  {
    hide JoinNul, Lower, TrimSpace;
    assert KEY[|KEY| - 1] == 't';
  }

  /** The opposites of each event are those that `edges` lists. */
  ghost predicate Listed(events: seq<Prepared>, edges: seq<set<nat>>) {
    && |edges| == |events| && (forall i | 0 <= i < |events| :: KeyOf(events[i]) == KEY)
    && forall i, j | 0 <= i < |events| && 0 <= j < |events| :: Opposing(events, i, j) <==> j in edges[i]
  }

  ghost predicate Opposing(events: seq<Prepared>, i: nat, j: nat)
    requires i < |events| && j < |events|
  {
    Opposes(CandidateOf(events[i], i), CandidateOf(events[j], j))
  }

  ghost predicate Uniform(b: Board, edges: seq<set<nat>>) {
    && b.Valid() && |b.keys| == |edges| && b.Graph().opposites == edges
    && forall i: nat | i < |edges| :: b.InSmallGroup(i)
  }

  lemma UniformBoard(events: seq<Prepared>, edges: seq<set<nat>>)
    requires KEY != "" && |events| <= MAX_COALESCE_GROUP && Listed(events, edges)
    requires forall i, j | 0 <= i < |edges| && j in edges[i] :: j < |edges|
    ensures Uniform(BoardOf(events), edges)
  {
    var b := BoardOf(events);
    AllInGroup(b);
    hide KeyOf, CandidateOf, Opposes, Contrasts, KEY;
    forall i: nat | i < |events| ensures b.Opposites(i) == edges[i] && b.InSmallGroup(i) {
      forall j: nat ensures j in b.Opposites(i) <==> j in edges[i] {
        if j < |events| { OppositeWhen(events, i, j); }
      }
    }
    assert b.Graph().opposites == edges;
  }

  lemma AllInGroup(b: Board)
    requires forall i | 0 <= i < |b.keys| :: b.keys[i] == KEY
    ensures |b.Group(KEY)| == |b.keys|
  {
    hide KEY;
    assert b.Group(KEY) == Range(|b.keys|);
  }

  lemma OppositeWhen(events: seq<Prepared>, i: nat, j: nat)
    requires i < |events| && j < |events| && KeyOf(events[i]) == KeyOf(events[j]) != ""
    ensures j in BoardOf(events).Opposites(i) <==> Opposing(events, i, j)
  {
    hide KeyOf, CandidateOf, Opposes, Contrasts;
    var b := BoardOf(events);
    if Opposes(b.cands[i], b.cands[j]) { OpposesContrasts(b.cands[i], b.cands[j]); }
  }

  function Count(n: nat): (r: seq<nat>)
    ensures |r| == n && forall k | 0 <= k < n :: r[k] == k
  {
    if n == 0 then [] else Count(n - 1) + [n - 1]
  }

  lemma {:induction false} OrderOfAll(b: Board, n: nat)
    requires b.Valid() && n <= |b.keys| && forall i: nat | i < n :: b.InSmallGroup(i)
    ensures SessionOrder(b, n) == Count(n)
  {
    hide Board.InSmallGroup;
    if n > 0 { OrderOfAll(b, n - 1); }
  }

  lemma UniformPairing(b: Board, edges: seq<set<nat>>)
    requires Uniform(b, edges)
    ensures SmallUpTo(b.Graph(), |edges|) && PairedIn(b) == PairInOrder(b.Graph(), Count(|edges|))
  {
    OrderOfAll(b, |edges|);
    hide Board.InSmallGroup, PairInOrder, Count;
  }

  ghost predicate SmallUpTo(g: Graph, n: nat) {
    g.Valid() && n <= |g.opposites| && forall i: nat | i < n :: i in g.small
  }

  /** One more visit, when it pairs and when it does not. */
  lemma VisitPairs(g: Graph, n: nat, p: map<nat, nat>, j: nat)
    requires SmallUpTo(g, n + 1) && j < |g.opposites| && g.Fires(n, j) && PairInOrder(g, Count(n)) == p && n !in p
    ensures PairInOrder(g, Count(n + 1)) == p[n := j][j := n]
  {
    hide PairInOrder, PairStep;
    PairNext(g, Count(n), n);
    StepPairs(g, p, n, j);
  }

  lemma VisitSkips(g: Graph, n: nat, p: map<nat, nat>)
    requires SmallUpTo(g, n + 1) && PairInOrder(g, Count(n)) == p
    requires n in p || forall j: nat | j < |g.opposites| :: !g.Fires(n, j)
    ensures PairInOrder(g, Count(n + 1)) == p
  {
    hide PairInOrder, PairStep;
    PairNext(g, Count(n), n);
    StepSkips(g, p, n);
  }

  /** Two samples oppose each other by source and time alone. */
  lemma SamplesOppose(events: seq<Prepared>, i: nat, j: nat)
    requires i < |events| && j < |events| && Plain(events[i]) && Plain(events[j])
    ensures Opposing(events, i, j) <==>
      SourceOf(events[i]) != SourceOf(events[j]) && Near(events[i].event.at, events[j].event.at)
  {
    WithinWindowExact(events[j].event.at, events[i].event.at, COALESCE_WINDOW);
    hide Session.WithinWindow;
  }

  predicate Plain(x: Prepared) {
    ToolCallID(x.event) == "" && x.enrichment.signature == ""
  }

  predicate Near(a: int, b: int) {
    Distance(a, b) <= COALESCE_WINDOW || b - a <= MIN_DURATION
  }

  // ---------------------------------------------------------------- evidence cited twice

  const WRAPPED: seq<set<nat>> := [{1}, {2}, {1}]

  /** "b" opposes "a" and not the other way round; "b" and "c" oppose each other. */
  lemma WrappedListed()
    ensures |Wrapped()| == 3 && Listed(Wrapped(), WRAPPED) && KEY != ""
  {
    WrappedFacts();
    WrappedKeys();
    hide Wrapped, KeyOf, KEY, Plain, SourceOf, Opposing;
    forall i, j | 0 <= i < 3 && 0 <= j < 3 ensures Opposing(Wrapped(), i, j) <==> j in WRAPPED[i] {
      SamplesOppose(Wrapped(), i, j);
    }
  }

  lemma WrappedFacts()
    ensures var e := Wrapped();
      && |e| == 3 && (forall i | 0 <= i < 3 :: Plain(e[i]))
      && SourceOf(e[0]) == "live" && SourceOf(e[1]) == "historical" && SourceOf(e[2]) == "live"
      && e[0].event.at == FAR && e[1].event.at == 0 && e[2].event.at == 1
  {
  }

  lemma WrappedKeys()
    ensures KEY != "" && |Wrapped()| == 3 && forall i | 0 <= i < 3 :: KeyOf(Wrapped()[i]) == KEY
  {
    hide KeyOf, KEY;
    SampleKey("a", 1, FAR, "hook");
    SampleKey("b", 2, 0, "artifact");
    SampleKey("c", 3, 1, "hook");
  }

  lemma WrappedVisits(g: Graph)
    requires SmallUpTo(g, 3) && g.opposites == WRAPPED
    ensures PairInOrder(g, Count(3)) == map[0 := 1, 1 := 2, 2 := 1]
  {
    assert PairInOrder(g, Count(0)) == map[];
    hide PairInOrder, PairStep, Count;
    VisitPairs(g, 0, map[], 1);
    VisitSkips(g, 1, map[0 := 1, 1 := 0]);
    VisitPairs(g, 2, map[0 := 1, 1 := 0], 1);
  }

  lemma WrappedPairing()
    ensures Uniform(BoardOf(Wrapped()), WRAPPED)
    ensures PairedIn(BoardOf(Wrapped())) == map[0 := 1, 1 := 2, 2 := 1]
  {
    WrappedListed();
    hide Wrapped, KEY, Listed, PairInOrder, PairedIn, BoardOf, Count;
    UniformBoard(Wrapped(), WRAPPED);
    UniformPairing(BoardOf(Wrapped()), WRAPPED);
    WrappedVisits(BoardOf(Wrapped()).Graph());
  }

  lemma NotReciprocal(events: seq<Prepared>, edges: seq<set<nat>>, i: nat, j: nat)
    requires Uniform(BoardOf(events), edges) && i < |edges| && j < |edges|
    requires edges[i] == {j} && |edges[j]| == 1 && i !in edges[j]
    ensures !Reciprocal(events)
  {
    hide BoardOf;
    assert GraphOf(events).Fires(i, j);
  }

  lemma Evidence3(x: Prepared, y: Prepared, z: Prepared)
    ensures Evidence([x, y, z]) == multiset(x.evidence) + multiset(y.evidence) + multiset(z.evidence)
  {
    assert [x, y, z][1..] == [y, z] && [y, z][1..] == [z] && [z][1..] == [];
    assert Evidence([z]) == multiset(z.evidence);
  }

  lemma WrappedEvidence()
    ensures Evidence(Wrapped()) == multiset{"a", "b", "c"} && DistinctIDs(Wrapped()) && AllCite(Wrapped())
  {
    var e := Wrapped();
    Evidence3(e[0], e[1], e[2]);
    hide Evidence;
    assert e == [e[0], e[1], e[2]];
  }

  lemma DeferredEvidence()
    ensures Evidence(Deferred()) == multiset{"a", "b", "c", "d"} && DistinctIDs(Deferred()) && AllCite(Deferred())
  {
    hide Evidence;
    var e := Deferred();
    Evidence3(e[0], e[1], e[2]);
    EvidenceAppend([e[0], e[1], e[2]], e[3]);
    assert e == [e[0], e[1], e[2]] + [e[3]];
  }

  lemma WrappedTurns()
    ensures var p := map[0 := 1, 1 := 2, 2 := 1];
      MergesAgain(p, 2) && !MergesAgain(p, 0) && !MergesAgain(p, 1)
  {
    var p: map<nat, nat> := map[0 := 1, 1 := 2, 2 := 1];
    assert Consumed(p, 0) == {} && Consumed(p, 1) == {0, 1} && Consumed(p, 2) == {0, 1};
  }

  lemma WrappedRepeated()
    ensures |Wrapped()| == 3 && Bounds(map[0 := 1, 1 := 2, 2 := 1], 3)
    ensures Repeated(Wrapped(), map[0 := 1, 1 := 2, 2 := 1], 3) == multiset{"b"}
  {
    var p: map<nat, nat> := map[0 := 1, 1 := 2, 2 := 1];
    WrappedTurns();
    hide MergesAgain;
    assert Repeated(Wrapped(), p, 0) == Repeated(Wrapped(), p, 1) == Repeated(Wrapped(), p, 2) == multiset{};
    assert Wrapped()[1].evidence == ["b"];
  }

  lemma Unrepeats(e: seq<Prepared>)
    requires Evidence(e) == multiset{"a", "b", "c"} || Evidence(e) == multiset{"a", "b", "c", "d"}
    ensures NoRepeatedEvidence(e)
  {
    hide Evidence;
    assert "a" != "b" && "a" != "c" && "a" != "d" && "b" != "c" && "b" != "d" && "c" != "d";
  }

  /** The evidence of "b" appears in two output events. */
  lemma OutOfRangeRepeatsEvidence()
    ensures NoRepeatedEvidence(Wrapped()) && DistinctIDs(Wrapped()) && !MergesOnce(BoardOf(Wrapped()))
    ensures Evidence(Coalesced(Wrapped()))["b"] == 2
  {
    hide Wrapped, Evidence, NoRepeatedEvidence, Repeated, Coalesced, PairedIn, MergesAgain, BoardOf;
    WrappedEvidence();
    Unrepeats(Wrapped());
    WrappedPairing();
    WrappedTurns();
    WrappedRepeated();
    EvidenceBalance(Wrapped());
  }

  // ---------------------------------------------------------------- a second pass that merges more

  const DEFERRED: seq<set<nat>> := [{1}, {2}, {1, 3}, {2}]

  /** "b" and "d" both double "c", and "a" has only "b". */
  lemma DeferredListed()
    ensures |Deferred()| == 4 && Listed(Deferred(), DEFERRED) && KEY != ""
  {
    DeferredFacts();
    DeferredKeys();
    hide Deferred, KeyOf, KEY, Plain, SourceOf, Opposing;
    forall i, j | 0 <= i < 4 && 0 <= j < 4 ensures Opposing(Deferred(), i, j) <==> j in DEFERRED[i] {
      SamplesOppose(Deferred(), i, j);
    }
  }

  lemma DeferredFacts()
    ensures var e := Deferred();
      && |e| == 4 && (forall i | 0 <= i < 4 :: Plain(e[i]))
      && SourceOf(e[0]) == "live" && SourceOf(e[1]) == "historical"
      && SourceOf(e[2]) == "live" && SourceOf(e[3]) == "historical"
      && e[0].event.at == FAR && e[1].event.at == 0 && e[2].event.at == 500_000_000 && e[3].event.at == 1_200_000_000
  {
  }

  lemma DeferredKeys()
    ensures KEY != "" && |Deferred()| == 4 && forall i | 0 <= i < 4 :: KeyOf(Deferred()[i]) == KEY
  {
    hide KeyOf, KEY;
    SampleKey("a", 1, FAR, "hook");
    SampleKey("b", 2, 0, "artifact");
    SampleKey("c", 3, 500_000_000, "hook");
    SampleKey("d", 4, 1_200_000_000, "artifact");
  }

  lemma DeferredVisits(g: Graph)
    requires SmallUpTo(g, 4) && g.opposites == DEFERRED
    ensures PairInOrder(g, Count(4)) == map[0 := 1, 1 := 0]
  {
    assert PairInOrder(g, Count(0)) == map[];
    hide PairInOrder, PairStep, Count;
    assert |{1, 3}| == 2;
    VisitPairs(g, 0, map[], 1);
    VisitSkips(g, 1, map[0 := 1, 1 := 0]);
    VisitSkips(g, 2, map[0 := 1, 1 := 0]);
    VisitSkips(g, 3, map[0 := 1, 1 := 0]);
  }

  lemma DeferredPairing()
    ensures Uniform(BoardOf(Deferred()), DEFERRED) && PairedIn(BoardOf(Deferred())) == map[0 := 1, 1 := 0]
  {
    DeferredListed();
    hide Deferred, KEY, Listed, PairInOrder, PairedIn, BoardOf, Count;
    UniformBoard(Deferred(), DEFERRED);
    UniformPairing(BoardOf(Deferred()), DEFERRED);
    DeferredVisits(BoardOf(Deferred()).Graph());
  }

  lemma AssembleFour(e: seq<Prepared>)
    requires |e| == 4
    ensures Assemble(e, map[0 := 1, 1 := 0], 4).0 == [Merged(e[0], e[1]), e[2], e[3]]
  {
    hide Merged;
    var p: map<nat, nat> := map[0 := 1, 1 := 0];
    var m := Merged(e[0], e[1]);
    assert Assemble(e, p, 0) == ([], {});
    assert Assemble(e, p, 1).0 == [m] && Assemble(e, p, 1).1 == {0, 1};
    assert Assemble(e, p, 2).0 == [m] && Assemble(e, p, 2).1 == {0, 1};
    assert Assemble(e, p, 3).0 == [m] + [e[2]] && Assemble(e, p, 3).1 == {0, 1};
    assert Assemble(e, p, 4).0 == [m] + [e[2]] + [e[3]];
  }

  function FirstPass(): seq<Prepared> {
    var e := Deferred();
    [Merged(e[0], e[1]), e[2], e[3]]
  }

  /** The merged event keeps all of "a" but its evidence. */
  lemma MergedSample()
    ensures var m := FirstPass()[0]; m.event == Deferred()[0].event && m.enrichment == Deferred()[0].enrichment
  {
    hide SortedDistinct;
  }

  lemma FirstPassSorted()
    ensures Coalesced(Deferred()) == FirstPass()
  {
    DeferredPairing();
    MergedSample();
    EventLeOrder();
    hide Merged, Assemble, PairedIn, BoardOf;
    AssembleFour(Deferred());
    assert Sorted(EventLe, FirstPass());
    SortByFixed(EventLe, FirstPass());
  }

  const AFTER: seq<set<nat>> := [{}, {2}, {1}]

  /** With "b" gone, "c" and "d" are each other's only opposites. */
  lemma FirstPassListed()
    ensures |FirstPass()| == 3 && Listed(FirstPass(), AFTER) && KEY != ""
  {
    FirstPassFacts();
    FirstPassKeys();
    hide FirstPass, Deferred, KeyOf, KEY, Plain, SourceOf, Opposing;
    var e := FirstPass();
    forall i, j | 0 <= i < 3 && 0 <= j < 3 ensures Opposing(e, i, j) <==> j in AFTER[i] {
      SamplesOppose(e, i, j);
    }
  }

  lemma FirstPassFacts()
    ensures var e := FirstPass();
      && |e| == 3 && (forall i | 0 <= i < 3 :: Plain(e[i]))
      && SourceOf(e[0]) == "live" && SourceOf(e[1]) == "live" && SourceOf(e[2]) == "historical"
      && e[0].event.at == FAR && e[1].event.at == 500_000_000 && e[2].event.at == 1_200_000_000
  {
    MergedSample();
    hide Merged;
  }

  lemma FirstPassKeys()
    ensures KEY != "" && |FirstPass()| == 3 && forall i | 0 <= i < 3 :: KeyOf(FirstPass()[i]) == KEY
  {
    hide Merged, KeyOf, KEY, Deferred;
    MergedSample();
    DeferredKeys();
    SameKey(FirstPass()[0], Deferred()[0]);
  }

  lemma SameKey(x: Prepared, y: Prepared)
    requires x.event == y.event && x.enrichment == y.enrichment
    ensures KeyOf(x) == KeyOf(y)
  {
    hide JoinNul, Lower, TrimSpace;
  }

  lemma FirstPassFires()
    ensures !NothingFires(GraphOf(Coalesced(Deferred())))
  {
    FirstPassSorted();
    FirstPassListed();
    hide FirstPass, Deferred, Listed, KEY, Coalesced, BoardOf;
    UniformBoard(FirstPass(), AFTER);
    var g := GraphOf(FirstPass());
    assert g.opposites == AFTER && 1 in g.small;
    assert g.Fires(1, 2);
  }

  lemma DeferredMergesOnce()
    ensures MergesOnce(BoardOf(Deferred()))
  {
    DeferredPairing();
    hide Deferred, BoardOf, PairedIn, Consumed;
    var p: map<nat, nat> := map[0 := 1, 1 := 0];
    forall i: nat ensures !MergesAgain(p, i) {
      if i in p { InvolutionConsumes(p, 2, i); }
    }
  }

  /** A session that is not reciprocal, loses and doubles no evidence, and is coalesced further by a
      second pass. */
  lemma SecondPassMergesMore()
    ensures DistinctIDs(Deferred()) && NoRepeatedEvidence(Deferred()) && !Reciprocal(Deferred())
    ensures Evidence(Coalesced(Deferred())) == Evidence(Deferred())
    ensures Coalesced(Coalesced(Deferred())) != Coalesced(Deferred())
  {
    hide Deferred, Evidence, NoRepeatedEvidence, AllCite, Coalesced, PairedIn, MergesOnce, BoardOf, NothingFires;
    DeferredEvidence();
    Unrepeats(Deferred());
    DeferredPairing();
    assert |{1, 3}| == 2;
    NotReciprocal(Deferred(), DEFERRED, 0, 1);
    DeferredMergesOnce();
    EvidenceConserved(Deferred());
    FirstPassFires();
    CoalescedTwiceExact(Deferred());
  }
}
