/** The shape of the output of a reciprocal session: what stands at which position. */
module CoalesceLaws {
  import opened Ordering
  import opened Session
  import opened Pairing
  import opened Matching
  import opened GroupOrder
  import opened Coalesce

  // ---------------------------------------------------------------- the shape of the output

  predicate Involution(p: map<nat, nat>, n: nat) {
    forall i | i in p :: i < n && p[i] < n && p[i] != i && p[i] in p && p[p[i]] == i
  }

  lemma PairingIsInvolution(events: seq<Prepared>)
    ensures Involution(PairingOf(events), |events|)
  {
    var p, g := PairingOf(events), GraphOf(events);
    forall i | i in p ensures i < |events| && p[i] < |events| && p[i] != i && p[i] in p && p[p[i]] == i {
      assert g.Mutual(i, p[i]);
      PairingInvolution(g, p, i);
    }
  }

  /** The events an output event can stand at: the unpaired ones and the first of each pair. */
  predicate Stands(p: map<nat, nat>, i: nat) {
    i in p ==> i < p[i]
  }

  function OutputAt(events: seq<Prepared>, p: map<nat, nat>, i: nat): Prepared
    requires i < |events| && Involution(p, |events|)
  {
    if i in p then Merged(events[i], events[p[i]]) else events[i]
  }

  /** The pair of i has been merged when the loop stands at k. */
  ghost predicate Touched(p: map<nat, nat>, i: nat, k: nat) {
    i in p && (i < k || p[i] < k)
  }

  ghost function Used(p: map<nat, nat>, k: nat): set<nat> {
    set i | i in p && Touched(p, i, k)
  }

  lemma TouchedStep(p: map<nat, nat>, n: nat, i: nat, x: nat)
    requires i < n && Involution(p, n)
    ensures Touched(p, x, i + 1) <==> Touched(p, x, i) || (i in p && (x == i || x == p[i]))
  {
  }

  lemma UsedStep(p: map<nat, nat>, n: nat, i: nat)
    requires i < n && Involution(p, n)
    ensures Used(p, i + 1) == if i in p && i < p[i] then Used(p, i) + {i, p[i]} else Used(p, i)
    ensures i in Used(p, i) <==> i in p && p[i] < i
    ensures i in p && i < p[i] ==> p[i] !in Used(p, i)
  {
    forall x: nat ensures x in Used(p, i + 1) <==> x in Used(p, i) || (i in p && (x == i || x == p[i])) {
      TouchedStep(p, n, i, x);
    }
    assert i in p ==> (i in Used(p, i) <==> p[i] < i) && (p[i] in Used(p, i) <==> p[i] < i);
  }

  lemma {:induction false} AssembleConsumed(events: seq<Prepared>, p: map<nat, nat>, k: nat)
    requires k <= |events| && Involution(p, |events|)
    ensures Assemble(events, p, k).1 == Used(p, k)
  {
    hide Merged;
    if k > 0 {
      AssembleConsumed(events, p, k - 1);
      UsedStep(p, |events|, k - 1);
      hide Used;
    } else {
      assert Used(p, 0) == {};
    }
  }

  /** The output without the consumed set: position i contributes one event exactly when it stands. */
  function Outputs(events: seq<Prepared>, p: map<nat, nat>, k: nat): seq<Prepared>
    requires k <= |events| && Involution(p, |events|)
  {
    if k == 0 then []
    else Outputs(events, p, k - 1) + if Stands(p, k - 1) then [OutputAt(events, p, k - 1)] else []
  }

  lemma {:induction false} AssembleIsOutputs(events: seq<Prepared>, p: map<nat, nat>, k: nat)
    requires k <= |events| && Involution(p, |events|)
    ensures Assemble(events, p, k).0 == Outputs(events, p, k)
  {
    hide Merged;
    if k > 0 {
      AssembleIsOutputs(events, p, k - 1);
      AssembleConsumed(events, p, k - 1);
      UsedStep(p, |events|, k - 1);
      hide Used;
    }
  }

  lemma {:induction false} OutputOrigin(events: seq<Prepared>, p: map<nat, nat>, k: nat, x: Prepared) returns (i: nat)
    requires k <= |events| && Involution(p, |events|) && x in Outputs(events, p, k)
    ensures i < k && Stands(p, i) && x == OutputAt(events, p, i)
  {
    hide OutputAt, Stands, Involution;
    if x in Outputs(events, p, k - 1) {
      i := OutputOrigin(events, p, k - 1, x);
    } else {
      i := k - 1;
    }
  }

  lemma {:induction false} OutputContains(events: seq<Prepared>, p: map<nat, nat>, k: nat, i: nat)
    requires i < k <= |events| && Involution(p, |events|) && Stands(p, i)
    ensures OutputAt(events, p, i) in Outputs(events, p, k)
  {
    hide OutputAt, Stands, Involution;
    if i < k - 1 { OutputContains(events, p, k - 1, i); }
  }

  /** For a reciprocal session the output is assembled from the declarative pairing. */
  lemma CoalescedIs(events: seq<Prepared>)
    requires Reciprocal(events)
    ensures Coalesced(events) == SortEvents(Assemble(events, PairingOf(events), |events|).0)
  {
    PairedIsDeclarative(events);
  }
}
