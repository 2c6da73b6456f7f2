/** Mutual-uniqueness matching: what the coalescing loop computes, whatever order it visits the
    candidates in. */
module Pairing {

  /** For each of n items the items that are compatible opposites of it, and the items whose
      identity group is small enough to be matched at all. */
  datatype Graph = Graph(opposites: seq<set<nat>>, small: set<nat>) {
    ghost predicate Valid() {
      && (forall i: nat, j: nat | i < |opposites| && j in opposites[i] :: j < |opposites|)
      && (forall i: nat, j: nat | i < |opposites| && j in opposites[i] && i in small :: j in small)
      && forall i | i in small :: i < |opposites|
    }

    ghost predicate Symmetric() {
      && Valid()
      && forall i: nat, j: nat | i < |opposites| && j in opposites[i] :: i in opposites[j]
    }

    /** Whoever has one opposite, which itself has one, is that one's. */
    ghost predicate Reciprocal() {
      forall i, j: nat | i in small && i < |opposites| && j < |opposites| && Fires(i, j) :: opposites[j] == {i}
    }

    /** The test of the loop body: j is the only opposite of i, and has one itself. */
    ghost predicate Fires(i: nat, j: nat)
      requires i < |opposites| && j < |opposites|
    {
      opposites[i] == {j} && |opposites[j]| == 1
    }

    /** i and j are each other's only opposite. */
    ghost predicate Mutual(i: nat, j: nat) {
      && i < |opposites| && j < |opposites| && i in small
      && opposites[i] == {j} && opposites[j] == {i}
    }

    /** p relates exactly the mutual pairs. */
    ghost predicate IsPairing(p: map<nat, nat>) {
      && (forall i | i in p :: Mutual(i, p[i]))
      && (forall i: nat, j: nat | Mutual(i, j) :: i in p && p[i] == j)
    }

    ghost predicate Bounded(p: map<nat, nat>) {
      forall i | i in p :: i < |opposites| && p[i] < |opposites|
    }
  }

  /** The body of the loop for one candidate: skip it when it is already paired, when it has not
      exactly one opposite, or when that opposite has not exactly one. */
  ghost function PairStep(g: Graph, p: map<nat, nat>, i: nat): (r: map<nat, nat>)
    requires g.Valid() && i in g.small && g.Bounded(p)
    ensures g.Bounded(r)
  {
    if i in p || |g.opposites[i]| != 1 then p
    else
      var j :| j in g.opposites[i];
      if |g.opposites[j]| != 1 then p else p[i := j][j := i]
  }

  /** The whole loop, over the candidates in the order it happens to visit them. */
  ghost function PairInOrder(g: Graph, order: seq<nat>): (r: map<nat, nat>)
    requires g.Valid() && forall k | 0 <= k < |order| :: order[k] in g.small
    ensures g.Bounded(r)
  {
    if order == [] then map[]
    else PairStep(g, PairInOrder(g, order[..|order| - 1]), order[|order| - 1])
  }

  /** Every candidate of every small group is visited; nothing is said about the order. */
  ghost predicate Visits(g: Graph, order: seq<nat>) {
    && (forall k | 0 <= k < |order| :: order[k] in g.small)
    && (forall i | i in g.small :: i in order)
  }

  lemma SingletonSet<T>(s: set<T>, x: T)
    requires x in s
    ensures |s| == 1 <==> s == {x}
  {
    assert s == {x} + (s - {x});
  }

  ghost predicate Sound(g: Graph, p: map<nat, nat>) {
    forall i | i in p :: g.Mutual(i, p[i])
  }

  ghost predicate Settled(g: Graph, p: map<nat, nat>, i: nat) {
    forall j: nat | g.Mutual(i, j) :: i in p && p[i] == j
  }

  lemma PairStepSound(g: Graph, p: map<nat, nat>, i: nat)
    requires g.Valid() && g.Reciprocal() && i in g.small && g.Bounded(p) && Sound(g, p)
    ensures var r := PairStep(g, p, i); Sound(g, r) && Settled(g, r, i)
    ensures forall k: nat | Settled(g, p, k) :: Settled(g, PairStep(g, p, i), k)
  {
    var r := PairStep(g, p, i);
    if i !in p && |g.opposites[i]| == 1 {
      var j :| j in g.opposites[i];
      SingletonSet(g.opposites[i], j);
      if |g.opposites[j]| == 1 {
        assert g.Fires(i, j);
        assert r == p[i := j][j := i];
        assert g.Mutual(i, j) && g.Mutual(j, i);
      }
    }
    forall j: nat | g.Mutual(i, j) ensures i in r && r[i] == j {
      assert j in g.opposites[i];
      if i in p { assert g.Mutual(i, p[i]); }
    }
  }

  lemma {:induction false} PairInOrderSound(g: Graph, order: seq<nat>)
    requires g.Valid() && g.Reciprocal() && forall k | 0 <= k < |order| :: order[k] in g.small
    ensures var r := PairInOrder(g, order);
      Sound(g, r) && forall k | 0 <= k < |order| :: Settled(g, r, order[k])
  {
    if order != [] {
      var init, last := order[..|order| - 1], order[|order| - 1];
      PairInOrderSound(g, init);
      PairStepSound(g, PairInOrder(g, init), last);
      forall k | 0 <= k < |order| ensures Settled(g, PairInOrder(g, order), order[k]) {
        if k < |init| { assert Settled(g, PairInOrder(g, init), init[k]); }
      }
    }
  }

  lemma SymmetricReciprocal(g: Graph)
    requires g.Symmetric()
    ensures g.Reciprocal()
  {
    forall i, j: nat | i in g.small && i < |g.opposites| && j < |g.opposites| && g.Fires(i, j)
      ensures g.opposites[j] == {i}
    {
      assert j in g.opposites[i];
      SingletonSet(g.opposites[j], i);
    }
  }

  /** A visited item that fires, or fired before, is paired from then on. */
  lemma {:induction false} FiredStays(g: Graph, order: seq<nat>, i: nat, j: nat)
    requires g.Valid() && (forall k | 0 <= k < |order| :: order[k] in g.small) && i in order
    requires i < |g.opposites| && j < |g.opposites| && g.Fires(i, j)
    ensures i in PairInOrder(g, order)
  {
    var init, last := order[..|order| - 1], order[|order| - 1];
    if i in init { FiredStays(g, init, i, j); }
  }

  /** In every visiting order the loop computes exactly the mutual pairs if and only if every item that
      fires is the one opposite of the item it fires at. */
  lemma PairingExact(g: Graph, order: seq<nat>)
    requires g.Valid() && Visits(g, order)
    ensures g.IsPairing(PairInOrder(g, order)) <==> g.Reciprocal()
  {
    var p := PairInOrder(g, order);
    if g.Reciprocal() {
      PairInOrderSound(g, order);
      forall i: nat, j: nat | g.Mutual(i, j) ensures i in p && p[i] == j {
        var k :| 0 <= k < |order| && order[k] == i;
        assert Settled(g, p, order[k]);
      }
    }
    if g.IsPairing(p) {
      forall i, j: nat | i in g.small && i < |g.opposites| && j < |g.opposites| && g.Fires(i, j)
        ensures g.opposites[j] == {i}
      {
        FiredStays(g, order, i, j);
        assert g.Mutual(i, p[i]);
      }
    }
  }

  /** A pairing is a fixed-point-free involution when no item opposes itself. */
  lemma PairingInvolution(g: Graph, p: map<nat, nat>, i: nat)
    requires g.IsPairing(p) && i in p && i !in g.opposites[i] && g.Valid()
    ensures i < |g.opposites| && p[i] != i && p[i] in p && p[p[i]] == i
  {
    assert g.Mutual(i, p[i]);
    assert p[i] in g.opposites[i];
    assert g.Mutual(p[i], i);
  }

  lemma PairingUnique(g: Graph, p: map<nat, nat>, q: map<nat, nat>)
    requires g.IsPairing(p) && g.IsPairing(q)
    ensures p == q
  {
    forall i | i in p ensures i in q && q[i] == p[i] { assert g.Mutual(i, p[i]); }
    forall i | i in q ensures i in p { assert g.Mutual(i, q[i]); }
  }
}
