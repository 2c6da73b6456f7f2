/** The loop that pairs coalescing candidates, group by group. */
module PairingLoop {
  import opened Session
  import opened Pairing
  import opened Matching
  import opened GroupOrder

  /** The loop body, in the terms the code tests, is the step on the graph. */
  lemma StepOfGroup(b: Board, key: string, n: nat, paired: map<nat, nat>)
    requires b.Valid() && key != "" && n < |Members(b, key)| <= MAX_COALESCE_GROUP
    requires b.Graph().Bounded(paired)
    ensures var group := Members(b, key); var c := group[n];
      && b.InSmallGroup(c.index)
      && (c.index in paired || |OpposingPositions(c, group)| != 1 ==> PairStep(b.Graph(), paired, c.index) == paired)
      && forall k: nat | OpposingPositions(c, group) == {k} && c.index !in paired ::
           k < |group| && PairStep(b.Graph(), paired, c.index) ==
             if |OpposingPositions(group[k], group)| != 1 then paired
             else paired[c.index := group[k].index][group[k].index := c.index]
  {
    hide Opposes;
    var g, group := b.Graph(), Members(b, key);
    var c := group[n];
    MembersOf(b, key);
    MembersCount(b, key);
    assert Holds(b, key, c);
    OpposingInSession(b, c.index);
    assert g.opposites[c.index] == b.Opposites(c.index);
    forall k: nat | OpposingPositions(c, group) == {k} && c.index !in paired
      ensures k < |group| && PairStep(g, paired, c.index) ==
        if |OpposingPositions(group[k], group)| != 1 then paired
        else paired[c.index := group[k].index][group[k].index := c.index]
    {
      var other := group[k];
      assert Holds(b, key, other);
      OpposingInSession(b, other.index);
      assert g.opposites[c.index] == {other.index};
      assert g.opposites[other.index] == b.Opposites(other.index);
    }
  }

  /** The inner loop over one group of at most 256: its candidates are visited in session order. */
  method PairGroup(ghost b: Board, key: string, group: seq<Candidate>, before: map<nat, nat>, ghost visited: seq<nat>)
    returns (paired: map<nat, nat>)
    requires b.Valid() && key != "" && group == Members(b, key) && |group| <= MAX_COALESCE_GROUP
    requires AllSmall(b, visited) && before == PairInOrder(b.Graph(), visited)
    ensures AllSmall(b, visited + Indexes(group)) && paired == PairInOrder(b.Graph(), visited + Indexes(group))
  {
    hide Opposes, PairStep, PairInOrder;
    ghost var g := b.Graph();
    ghost var order := visited;
    paired := before;
    for n := 0 to |group|
      invariant AllSmall(b, order) && order == visited + Indexes(group)[..n] && paired == PairInOrder(g, order)
    {
      var c := group[n];
      StepOfGroup(b, key, n, paired);
      PairNext(g, order, c.index);
      assert Indexes(group)[..n + 1] == Indexes(group)[..n] + [c.index];
      order := order + [c.index];
      if c.index in paired { continue; }
      MembersOf(b, key);
      var matches := UniqueOppositeCandidates(c, group);
      if |matches| != 1 { continue; }
      var opposite := matches[0];
      var back := UniqueOppositeCandidates(opposite, group);
      if |back| != 1 { continue; }
      paired := paired[c.index := opposite.index];
      paired := paired[opposite.index := c.index];
    }
    assert Indexes(group)[..|group|] == Indexes(group);
  }

  /** What is known when some groups have been visited and the rest are still to come. */
  ghost predicate VisitedAllBut(b: Board, order: seq<nat>, rest: set<string>)
    requires b.Valid()
  {
    && AllSmall(b, order)
    && (forall key | key in rest :: Visited(b, order, key) == [])
    && (forall key | key !in rest && SmallKey(b, key) :: Visited(b, order, key) == Indexes(Members(b, key)))
  }

  lemma GroupVisits(b: Board, key: string, other: string)
    requires b.Valid()
    ensures Visited(b, Indexes(Members(b, key)), other) == if other == key then Indexes(Members(b, key)) else []
  {
    MembersOf(b, key);
    var order := Indexes(Members(b, key));
    forall k | 0 <= k < |order| ensures order[k] < |b.keys| && b.keys[order[k]] == key {
      assert Holds(b, key, Members(b, key)[k]);
    }
    VisitsOfOne(b, order, key, other);
  }

  lemma {:induction false} VisitsOfOne(b: Board, order: seq<nat>, key: string, other: string)
    requires forall k | 0 <= k < |order| :: order[k] < |b.keys| && b.keys[order[k]] == key
    ensures Visited(b, order, other) == if other == key then order else []
  {
    if order != [] {
      VisitsOfOne(b, order[..|order| - 1], key, other);
      assert order == order[..|order| - 1] + [order[|order| - 1]];
    }
  }

  lemma VisitGroup(b: Board, order: seq<nat>, rest: set<string>, key: string)
    requires b.Valid() && VisitedAllBut(b, order, rest) && key in rest
    requires AllSmall(b, order + Indexes(Members(b, key)))
    ensures VisitedAllBut(b, order + Indexes(Members(b, key)), rest - {key})
  {
    var longer := order + Indexes(Members(b, key));
    hide Visited, Indexes, Members, AllSmall, SmallKey;
    forall other: string
      ensures Visited(b, longer, other) ==
        Visited(b, order, other) + if other == key then Indexes(Members(b, key)) else []
    {
      VisitedConcat(b, order, Indexes(Members(b, key)), other);
      GroupVisits(b, key, other);
    }
  }

  lemma NothingVisited(b: Board, groups: map<string, seq<Candidate>>)
    requires b.Valid() && Grouped(b, groups)
    ensures VisitedAllBut(b, [], groups.Keys)
  {
    forall key | key !in groups && SmallKey(b, key) ensures Indexes(Members(b, key)) == [] {
      MembersAbsent(b, key, groups);
    }
  }

  /** The outer loop over the groups, in the unspecified order of a map iteration: whatever the order,
      the result is the same. */
  method PairCandidates(ghost b: Board, groups: map<string, seq<Candidate>>) returns (paired: map<nat, nat>)
    requires b.Valid() && Grouped(b, groups)
    ensures paired == PairedIn(b)
  {
    hide PairInOrder, Visited, VisitedAllBut, PairedIn;
    ghost var order: seq<nat> := [];
    paired := map[];
    NothingVisited(b, groups);
    assert PairInOrder(b.Graph(), []) == map[] by { PairNothing(b.Graph()); }
    var keys := groups.Keys;
    while keys != {}
      invariant keys <= groups.Keys && VisitedAllBut(b, order, keys)
      invariant AllSmall(b, order) && paired == PairInOrder(b.Graph(), order)
      decreases |keys|
    {
      var key :| key in keys;
      var candidates := groups[key];
      MembersCount(b, key);
      if |candidates| > MAX_COALESCE_GROUP {
        SkipLarge(b, order, keys, key);
        keys := keys - {key};
        continue;
      }
      paired := PairGroup(b, key, candidates, paired, order);
      VisitGroup(b, order, keys, key);
      keys := keys - {key};
      order := order + Indexes(candidates);
    }
    AllVisited(b, order);
    AnyGroupOrder(b, order);
  }

  lemma PairNothing(g: Graph)
    requires g.Valid()
    ensures PairInOrder(g, []) == map[]
  {
  }

  lemma SkipLarge(b: Board, order: seq<nat>, rest: set<string>, key: string)
    requires b.Valid() && VisitedAllBut(b, order, rest) && !SmallKey(b, key)
    ensures VisitedAllBut(b, order, rest - {key})
  {
    hide Visited, Indexes, Members, AllSmall;
  }

  lemma AllVisited(b: Board, order: seq<nat>)
    requires b.Valid() && VisitedAllBut(b, order, {})
    ensures InGroupOrder(b, order)
  {
    hide Visited, Indexes, Members, AllSmall;
  }
}
