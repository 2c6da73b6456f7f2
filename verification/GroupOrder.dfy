/** Why the unspecified order of a map's groups does not matter: a step of the pairing loop touches one
    identity group only, and within a group candidates are visited in session order. */
module GroupOrder {
  import opened Session
  import opened Pairing
  import opened Matching

  // ---------------------------------------------------------------- what one group sees of a visiting order

  /** The visits to one identity group. */
  ghost function Visited(b: Board, order: seq<nat>, key: string): seq<nat> {
    if order == [] then []
    else
      var last := order[|order| - 1];
      Visited(b, order[..|order| - 1], key) + if last < |b.keys| && b.keys[last] == key then [last] else []
  }

  lemma {:induction false} VisitedConcat(b: Board, x: seq<nat>, y: seq<nat>, key: string)
    ensures Visited(b, x + y, key) == Visited(b, x, key) + Visited(b, y, key)
  {
    if y == [] {
      assert x + y == x;
    } else {
      assert (x + y)[..|x + y| - 1] == x + y[..|y| - 1];
      VisitedConcat(b, x, y[..|y| - 1], key);
    }
  }

  lemma {:induction false} VisitedMembers(b: Board, order: seq<nat>, key: string, i: nat)
    ensures i in Visited(b, order, key) <==> i in order && i < |b.keys| && b.keys[i] == key
  {
    if order != [] {
      VisitedMembers(b, order[..|order| - 1], key, i);
      assert order == order[..|order| - 1] + [order[|order| - 1]];
    }
  }

  ghost predicate SmallKey(b: Board, key: string) {
    key != "" && |b.Group(key)| <= MAX_COALESCE_GROUP
  }

  ghost predicate AllSmall(b: Board, order: seq<nat>) {
    forall k | 0 <= k < |order| :: b.InSmallGroup(order[k])
  }

  /** The orders a run can visit candidates in: each small group in session order, the groups mixed in
      any way. */
  ghost predicate InGroupOrder(b: Board, order: seq<nat>)
    requires b.Valid()
  {
    AllSmall(b, order) && forall key | SmallKey(b, key) :: Visited(b, order, key) == Indexes(Members(b, key))
  }

  lemma InGroupOrderVisits(b: Board, order: seq<nat>)
    requires b.Valid() && InGroupOrder(b, order)
    ensures Visits(b.Graph(), order)
  {
    forall i: nat | b.InSmallGroup(i) ensures i in order {
      var key := b.keys[i];
      assert SmallKey(b, key);
      MembersComplete(b, key, i);
      var a :| 0 <= a < |Members(b, key)| && Members(b, key)[a].index == i;
      assert Indexes(Members(b, key))[a] == i;
      VisitedMembers(b, order, key, i);
    }
  }

  // ---------------------------------------------------------------- a step touches one group

  ghost function Restrict(b: Board, p: map<nat, nat>, key: string): map<nat, nat> {
    map i | i in p && i < |b.keys| && b.keys[i] == key :: p[i]
  }

  /** What a step does when it does something. */
  lemma StepPairs(g: Graph, p: map<nat, nat>, i: nat, j: nat)
    requires g.Valid() && i in g.small && g.Bounded(p) && j < |g.opposites|
    ensures i !in p && g.Fires(i, j) ==> PairStep(g, p, i) == p[i := j][j := i]
  {
  }

  lemma StepSkips(g: Graph, p: map<nat, nat>, i: nat)
    requires g.Valid() && i in g.small && g.Bounded(p)
    requires i in p || forall j: nat | j < |g.opposites| :: !g.Fires(i, j)
    ensures PairStep(g, p, i) == p
  {
    if i !in p && |g.opposites[i]| == 1 {
      var j :| j in g.opposites[i];
      SingletonSet(g.opposites[i], j);
      assert !g.Fires(i, j);
    }
  }

  lemma OppositeInGroup(b: Board, i: nat, j: nat)
    requires b.Valid() && i < |b.keys| && j < |b.keys| && b.Graph().Fires(i, j)
    ensures b.keys[i] == b.keys[j] && b.keys[i] != ""
  {
    assert j in b.Opposites(i);
  }

  /** A visit to the group acts on the group's part of the pairing alone. */
  lemma RestrictInside(b: Board, p: map<nat, nat>, i: nat, key: string)
    requires b.Valid() && b.InSmallGroup(i) && b.keys[i] == key && b.Graph().Bounded(p)
    ensures b.Graph().Bounded(Restrict(b, p, key))
    ensures Restrict(b, PairStep(b.Graph(), p, i), key) == PairStep(b.Graph(), Restrict(b, p, key), i)
  {
    var g, q := b.Graph(), Restrict(b, p, key);
    hide PairStep;
    if j: nat :| j < |g.opposites| && i !in p && g.Fires(i, j) {
      OppositeInGroup(b, i, j);
      StepPairs(g, p, i, j);
      StepPairs(g, q, i, j);
    } else {
      StepSkips(g, p, i);
      StepSkips(g, q, i);
    }
  }

  /** A visit to another group leaves this group's part as it is. */
  lemma RestrictOutside(b: Board, p: map<nat, nat>, i: nat, key: string)
    requires b.Valid() && b.InSmallGroup(i) && b.keys[i] != key && b.Graph().Bounded(p)
    ensures Restrict(b, PairStep(b.Graph(), p, i), key) == Restrict(b, p, key)
  {
    var g := b.Graph();
    hide PairStep;
    if j: nat :| j < |g.opposites| && i !in p && g.Fires(i, j) {
      OppositeInGroup(b, i, j);
      StepPairs(g, p, i, j);
    } else {
      StepSkips(g, p, i);
    }
  }

  lemma VisitedSmall(b: Board, order: seq<nat>, key: string)
    requires AllSmall(b, order)
    ensures AllSmall(b, Visited(b, order, key))
  {
    forall k | 0 <= k < |Visited(b, order, key)| ensures b.InSmallGroup(Visited(b, order, key)[k]) {
      VisitedMembers(b, order, key, Visited(b, order, key)[k]);
    }
  }

  lemma PairNext(g: Graph, order: seq<nat>, i: nat)
    requires g.Valid() && i in g.small && forall k | 0 <= k < |order| :: order[k] in g.small
    ensures PairInOrder(g, order + [i]) == PairStep(g, PairInOrder(g, order), i)
  {
    assert (order + [i])[..|order|] == order;
  }

  lemma VisitNext(b: Board, order: seq<nat>, i: nat, key: string)
    requires i < |b.keys|
    ensures Visited(b, order + [i], key) ==
      if b.keys[i] == key then Visited(b, order, key) + [i] else Visited(b, order, key)
  {
    assert (order + [i])[..|order|] == order;
  }

  lemma {:induction false} RestrictRun(b: Board, order: seq<nat>, key: string)
    requires b.Valid() && AllSmall(b, order)
    ensures AllSmall(b, Visited(b, order, key))
    ensures Restrict(b, PairInOrder(b.Graph(), order), key) == PairInOrder(b.Graph(), Visited(b, order, key))
  {
    var g := b.Graph();
    VisitedSmall(b, order, key);
    if order == [] {
      assert Restrict(b, map[], key) == map[];
    } else {
      var init, last := order[..|order| - 1], order[|order| - 1];
      hide PairStep, Restrict, Visited, PairInOrder, Board.Graph;
      assert AllSmall(b, init) && order == init + [last] && b.InSmallGroup(last);
      RestrictRun(b, init, key);
      VisitNext(b, init, last, key);
      PairNext(g, init, last);
      if b.keys[last] == key {
        RestrictInside(b, PairInOrder(g, init), last, key);
        PairNext(g, Visited(b, init, key), last);
      } else {
        RestrictOutside(b, PairInOrder(g, init), last, key);
      }
    }
  }

  /** Two orders with the same visits to every group yield the same pairing, in range or not. */
  lemma GroupOrderIrrelevant(b: Board, x: seq<nat>, y: seq<nat>)
    requires b.Valid() && AllSmall(b, x) && AllSmall(b, y)
    requires forall key :: Visited(b, x, key) == Visited(b, y, key)
    ensures PairInOrder(b.Graph(), x) == PairInOrder(b.Graph(), y)
  {
    var p, q := PairInOrder(b.Graph(), x), PairInOrder(b.Graph(), y);
    forall key ensures Restrict(b, p, key) == Restrict(b, q, key) {
      RestrictRun(b, x, key);
      RestrictRun(b, y, key);
    }
    hide PairInOrder;
    forall i | i in p ensures i in q && q[i] == p[i] { assert i in Restrict(b, p, b.keys[i]); }
    forall i | i in q ensures i in p { assert i in Restrict(b, q, b.keys[i]); }
  }

  // ---------------------------------------------------------------- one order for all

  /** All candidates of small groups, in session order. */
  ghost function SessionOrder(b: Board, n: nat): (r: seq<nat>)
    requires b.Valid() && n <= |b.keys|
    ensures AllSmall(b, r)
  {
    if n == 0 then []
    else
      var init := SessionOrder(b, n - 1);
      if b.InSmallGroup(n - 1) then init + [n - 1] else init
  }

  lemma MembersNext(b: Board, n: nat, key: string)
    requires b.Valid() && n < |b.keys|
    ensures var init := Members(Board(b.keys[..n], b.cands[..n]), key);
      Indexes(Members(Board(b.keys[..n + 1], b.cands[..n + 1]), key)) ==
        if b.keys[n] == key then Indexes(init) + [n] else Indexes(init)
  {
    assert b.keys[..n + 1][..n] == b.keys[..n] && b.cands[..n + 1][..n] == b.cands[..n];
  }

  lemma SmallKeyed(b: Board, i: nat, key: string)
    requires i < |b.keys| && SmallKey(b, key)
    ensures b.keys[i] == key ==> b.InSmallGroup(i)
  {
  }

  lemma {:induction false} SessionVisits(b: Board, n: nat, key: string)
    requires b.Valid() && n <= |b.keys| && SmallKey(b, key)
    ensures Visited(b, SessionOrder(b, n), key) == Indexes(Members(Board(b.keys[..n], b.cands[..n]), key))
  {
    hide Visited, Members, Indexes, SmallKey, Board.InSmallGroup;
    if n == 0 {
      NothingVisited(b, key);
    } else {
      SmallKeyed(b, n - 1, key);
      SessionVisits(b, n - 1, key);
      MembersNext(b, n - 1, key);
      VisitNext(b, SessionOrder(b, n - 1), n - 1, key);
    }
  }

  lemma NothingVisited(b: Board, key: string)
    requires b.Valid()
    ensures Visited(b, [], key) == Indexes(Members(Board(b.keys[..0], b.cands[..0]), key)) == []
  {
  }

  /** What the pairing loop computes. */
  ghost function PairedIn(b: Board): (p: map<nat, nat>)
    requires b.Valid()
    ensures b.Graph().Bounded(p)
  {
    PairInOrder(b.Graph(), SessionOrder(b, |b.keys|))
  }

  lemma SessionOrderInGroupOrder(b: Board)
    requires b.Valid()
    ensures InGroupOrder(b, SessionOrder(b, |b.keys|))
  {
    forall key | SmallKey(b, key) ensures Visited(b, SessionOrder(b, |b.keys|), key) == Indexes(Members(b, key)) {
      SessionVisits(b, |b.keys|, key);
      assert b.keys[..|b.keys|] == b.keys && b.cands[..|b.keys|] == b.cands;
    }
  }

  lemma NoVisits(b: Board, order: seq<nat>, key: string)
    requires AllSmall(b, order) && !SmallKey(b, key)
    ensures Visited(b, order, key) == []
  {
    if Visited(b, order, key) != [] {
      VisitedMembers(b, order, key, Visited(b, order, key)[0]);
      assert false;
    }
  }

  /** Every order a run can take computes the same pairing. */
  lemma AnyGroupOrder(b: Board, order: seq<nat>)
    requires b.Valid() && InGroupOrder(b, order)
    ensures PairInOrder(b.Graph(), order) == PairedIn(b)
  {
    var session := SessionOrder(b, |b.keys|);
    SessionOrderInGroupOrder(b);
    forall key ensures Visited(b, order, key) == Visited(b, session, key) {
      if !SmallKey(b, key) {
        NoVisits(b, order, key);
        NoVisits(b, session, key);
      }
    }
    GroupOrderIrrelevant(b, order, session);
  }

  /** The loop pairs exactly the events that are each other's only compatible opposite if and only if
      the session is reciprocal. */
  lemma PairingIsMutual(b: Board)
    requires b.Valid()
    ensures b.Graph().IsPairing(PairedIn(b)) <==> b.Graph().Reciprocal()
  {
    SessionOrderInGroupOrder(b);
    InGroupOrderVisits(b, SessionOrder(b, |b.keys|));
    PairingExact(b.Graph(), SessionOrder(b, |b.keys|));
  }

  // ---------------------------------------------------------------- what every pairing keeps

  /** Partners are paired too, and nothing is its own partner. */
  ghost predicate Closed(p: map<nat, nat>) {
    forall i | i in p :: p[i] in p && p[i] != i
  }

  lemma {:induction false} RunIsClosed(g: Graph, order: seq<nat>)
    requires g.Valid() && (forall i: nat | i < |g.opposites| :: i !in g.opposites[i])
    requires forall k | 0 <= k < |order| :: order[k] in g.small
    ensures Closed(PairInOrder(g, order))
  {
    if order != [] {
      var init, i := order[..|order| - 1], order[|order| - 1];
      RunIsClosed(g, init);
      var p := PairInOrder(g, init);
      hide PairStep;
      if j: nat :| j < |g.opposites| && i !in p && g.Fires(i, j) {
        StepPairs(g, p, i, j);
        assert j in g.opposites[i];
      } else {
        StepSkips(g, p, i);
      }
    }
  }

  ghost predicate Bounds(p: map<nat, nat>, n: nat) {
    forall i | i in p :: i < n && p[i] < n
  }

  lemma PairedIsClosed(b: Board)
    requires b.Valid()
    ensures Closed(PairedIn(b)) && Bounds(PairedIn(b), |b.keys|)
  {
    RunIsClosed(b.Graph(), SessionOrder(b, |b.keys|));
  }
}
