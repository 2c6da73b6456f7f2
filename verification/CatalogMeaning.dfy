/** When a catalog run is current, and what its matches are, in terms of what the detectors returned. */
module CatalogMeaning {
  import opened Text
  import opened Ordering
  import opened Fingerprints
  import opened Catalog

  // ---------------------------------------------------------------- one match

  /** A match that is the detector's own, complete in its texts, with a time span and a fingerprint. */
  predicate WellFormed(slot: Slot, m: Match) {
    && m.detector == slot.id && m.version == slot.version && m.fingerprintVersion == slot.fingerprintVersion
    && "" !in {m.category, m.title, m.severity, m.confidence} && m.first != 0 && m.first <= m.last
    && m.fingerprint != [] && forall d | d in m.fingerprint :: "" !in {d.name, d.value}
  }

  /** One of the first fifty citations. */
  predicate CitedEarly(m: Match, id: string) {
    exists k | 0 <= k < |m.cited| :: k < 50 && m.cited[k] == id
  }

  /** The same match with its first fifty citations, and its fingerprint, in order. */
  ghost predicate Publishes(m: Match, published: Match) {
    && published == m.(cited := published.cited, complete := published.complete, fingerprint := published.fingerprint)
    && StrictlySorted(StrLe, published.cited) && (forall id :: id in published.cited <==> CitedEarly(m, id))
    && (published.complete <==> m.complete && |m.cited| <= 50)
    && multiset(published.fingerprint) == multiset(m.fingerprint) && Sorted(DimensionLe, published.fingerprint)
  }

  lemma ValidIsWellFormed(slot: Slot, m: Match)
    ensures ValidMatch(slot, m) <==> WellFormed(slot, m)
  {
  }

  lemma NormalizedPublishes(m: Match)
    ensures Publishes(m, Normalized(m))
  {
    var cited := if |m.cited| > 50 then m.cited[..50] else m.cited;
    SortedDistinctStrict(cited);
    DimensionLeOrder();
    SortBySorted(DimensionLe, m.fingerprint);
    hide SortedDistinct, StrLe, DimensionLe;
    forall id ensures id in cited <==> CitedEarly(m, id) {
      if CitedEarly(m, id) {
        var k :| 0 <= k < |m.cited| && k < 50 && m.cited[k] == id;
        assert cited[k] == id;
      }
    }
  }

  lemma MapFirst(m: Match, rest: seq<Match>)
    ensures Map(Normalized, [m] + rest) == [Normalized(m)] + Map(Normalized, rest)
  {
    hide Normalized;
  }

  lemma {:induction false} AllValid(slot: Slot, matches: seq<Match>)
    ensures |ValidPrefix(slot, matches)| == |matches| <==> forall m | m in matches :: WellFormed(slot, m)
    ensures |ValidPrefix(slot, matches)| == |matches| ==> ValidPrefix(slot, matches) == Map(Normalized, matches)
  {
    hide ValidMatch, WellFormed, Normalized;
    if matches != [] {
      var m, rest := matches[0], matches[1..];
      ValidIsWellFormed(slot, m);
      AllValid(slot, rest);
      hide Map;
      assert matches == [m] + rest;
      assert Map(Normalized, matches) == [Normalized(m)] + Map(Normalized, rest) by { MapFirst(m, rest); }
    }
  }

  /** The detector completed, and all it returned is well formed. */
  predicate WellAnswered(slot: Slot, response: Response) {
    response.Completed? && forall m | m in response.matches :: WellFormed(slot, m)
  }

  lemma ProperIsWellAnswered(slot: Slot, response: Response)
    ensures Proper(slot, response) <==> WellAnswered(slot, response)
    ensures Proper(slot, response) ==> Contribution(slot, response) == Map(Normalized, response.matches)
  {
    if response.Completed? { AllValid(slot, response.matches); }
    hide ValidPrefix, WellFormed;
  }

  // ---------------------------------------------------------------- the whole run

  /** Everything the first k detectors returned. */
  function ReturnedBy(responses: seq<Response>, k: nat): seq<Match>
    requires k <= |responses|
  {
    if k == 0 then []
    else ReturnedBy(responses, k - 1) + if responses[k - 1].Completed? then responses[k - 1].matches else []
  }

  lemma {:induction false} CollectedIs(slots: seq<Slot>, responses: seq<Response>, k: nat)
    requires k <= |slots| == |responses| && forall i | 0 <= i < k :: WellAnswered(slots[i], responses[i])
    ensures Collected(slots, responses, k) == Map(Normalized, ReturnedBy(responses, k))
  {
    hide WellAnswered, Normalized, Contribution;
    if k > 0 {
      CollectedIs(slots, responses, k - 1);
      ProperIsWellAnswered(slots[k - 1], responses[k - 1]);
      assert responses[k - 1].Completed? by { Answered(slots[k - 1], responses[k - 1]); }
      MapConcat(Normalized, ReturnedBy(responses, k - 1), responses[k - 1].matches);
    }
  }

  lemma Answered(slot: Slot, response: Response)
    requires WellAnswered(slot, response)
    ensures response.Completed?
  {
  }

  lemma MapConcat<T, U>(f: T -> U, a: seq<T>, b: seq<T>)
    ensures Map(f, a + b) == Map(f, a) + Map(f, b)
  {
  }

  /** The same detector, and the same dimensions in some order. */
  predicate Twins(x: Match, y: Match) {
    x.detector == y.detector && multiset(x.fingerprint) == multiset(y.fingerprint)
  }

  ghost predicate NoTwins(all: seq<Match>) {
    forall i, j | 0 <= i < j < |all| :: !Twins(all[i], all[j])
  }

  lemma KeysOfTwins(x: Match, y: Match)
    requires '\0' !in x.detector && '\0' !in y.detector
    ensures Catalog.KeyOf(Normalized(x)) == Catalog.KeyOf(Normalized(y)) <==> Twins(x, y)
  {
    SortedKeyMeansSameDimensions(x.fingerprint, y.fingerprint);
    MatchKeys(x.detector, SortBy(DimensionLe, x.fingerprint), y.detector, SortBy(DimensionLe, y.fingerprint));
    hide MatchKey, DimensionKey, DimensionLe;
  }

  lemma MatchKeys(d: string, ds: seq<Dimension>, e: string, es: seq<Dimension>)
    requires '\0' !in d && '\0' !in e
    ensures MatchKey(d, ds) == MatchKey(e, es) <==> d == e && DimensionKey(ds) == DimensionKey(es)
  {
    if MatchKey(d, ds) == MatchKey(e, es) { MatchKeyInjective(d, ds, e, es); }
    hide DimensionKey;
  }

  lemma DistinctMeansNoTwins(all: seq<Match>)
    requires forall m | m in all :: '\0' !in m.detector
    ensures DistinctKeys(Map(Normalized, all)) <==> NoTwins(all)
  {
    hide Normalized, Catalog.KeyOf;
    forall i, j | 0 <= i < j < |all|
      ensures Catalog.KeyOf(Map(Normalized, all)[i]) == Catalog.KeyOf(Map(Normalized, all)[j]) <==>
        Twins(all[i], all[j])
    {
      KeysOfTwins(all[i], all[j]);
    }
  }

  ghost predicate AllWellAnswered(slots: seq<Slot>, responses: seq<Response>)
    requires |slots| == |responses|
  {
    forall i | 0 <= i < |slots| :: WellAnswered(slots[i], responses[i])
  }

  lemma {:induction false} ReturnedDetector(slots: seq<Slot>, responses: seq<Response>, k: nat, m: Match)
    requires k <= |slots| == |responses| && AllWellAnswered(slots, responses) && m in ReturnedBy(responses, k)
    ensures exists i :: 0 <= i < k && responses[i].Completed? && m in responses[i].matches && WellFormed(slots[i], m)
  {
    hide WellFormed;
    if m in ReturnedBy(responses, k - 1) {
      ReturnedDetector(slots, responses, k - 1, m);
    } else {
      assert WellAnswered(slots[k - 1], responses[k - 1]);
      assert m in responses[k - 1].matches;
    }
  }

  lemma SameSlot(slots: seq<Slot>, responses: seq<Response>, m: Match)
    requires |slots| == |responses| && AllWellAnswered(slots, responses) && m in ReturnedBy(responses, |slots|)
    requires forall slot | slot in slots :: '\0' !in slot.id
    ensures '\0' !in m.detector
  {
    ReturnedDetector(slots, responses, |slots|, m);
    var i :| 0 <= i < |slots| && responses[i].Completed? && m in responses[i].matches && WellFormed(slots[i], m);
    assert slots[i] in slots;
  }

  /** A prepared run is current if and only if every detector answered well, at most a hundred matches
      came back in all, and no two of them are twins. */
  lemma CurrentExactly(slots: seq<Slot>, responses: seq<Response>, r: CatalogResult)
    requires |slots| == |responses| && Aggregates(Prepared, slots, responses, r)
    requires forall slot | slot in slots :: '\0' !in slot.id
    ensures r.status == Current <==>
      AllWellAnswered(slots, responses) && |ReturnedBy(responses, |slots|)| <= 100 &&
      NoTwins(ReturnedBy(responses, |slots|))
  {
    var n, all := |slots|, ReturnedBy(responses, |slots|);
    NoFailures(slots, responses, n);
    forall i | 0 <= i < n ensures Proper(slots[i], responses[i]) <==> WellAnswered(slots[i], responses[i]) {
      ProperIsWellAnswered(slots[i], responses[i]);
    }
    hide Proper, WellAnswered, Collected, FailuresOf, RowsOf, DistinctKeys, NoTwins, ReturnedBy, Normalized;
    if AllWellAnswered(slots, responses) {
      CollectedIs(slots, responses, n);
      forall m | m in all ensures '\0' !in m.detector { SameSlot(slots, responses, m); }
      DistinctMeansNoTwins(all);
    }
  }

  // ---------------------------------------------------------------- failures and rows

  /** The failure that a detector is charged with. */
  predicate Charges(slot: Slot, response: Response, f: Failure) {
    && !WellAnswered(slot, response) && f.detector == slot.id
    && f.code == if response.Broken? then response.code else "detector_invalid_output"
  }

  /** The row of a detector: its own account of what it could not see, or that it failed to answer. */
  predicate Accounts(slot: Slot, response: Response, row: Row) {
    && row.slot == slot
    && (response.Completed? ==> row.absence == response.absence && row.reason == response.reason)
    && (response.Broken? ==> row.absence == Incomplete && row.reason == response.code)
  }

  lemma ChargedExactly(slot: Slot, response: Response, f: Failure)
    ensures f in FailureOf(slot, response) <==> Charges(slot, response, f)
  {
    ProperIsWellAnswered(slot, response);
    hide ValidPrefix, WellFormed, WellAnswered;
  }

  lemma {:induction false} FailuresAre(slots: seq<Slot>, responses: seq<Response>, k: nat, f: Failure)
    requires k <= |slots| == |responses|
    ensures f in FailuresOf(slots, responses, k) <==> exists i | 0 <= i < k :: Charges(slots[i], responses[i], f)
  {
    hide Charges, FailureOf;
    if k > 0 {
      FailuresAre(slots, responses, k - 1, f);
      ChargedExactly(slots[k - 1], responses[k - 1], f);
    }
  }

  /** A prepared run that was not cut off accounts for every detector, and charges exactly those that did
      not answer well; or, if all did, nobody in particular with returning one match twice. */
  lemma AccountsForAll(slots: seq<Slot>, responses: seq<Response>, r: CatalogResult, f: Failure)
    requires |slots| == |responses| && Aggregates(Prepared, slots, responses, r) && r.status != Truncated
    ensures |r.rows| == |slots| && forall i | 0 <= i < |slots| :: Accounts(slots[i], responses[i], r.rows[i])
    ensures f in r.failures <==>
      (exists i | 0 <= i < |slots| :: Charges(slots[i], responses[i], f)) ||
      (r.status == Failed && AllWellAnswered(slots, responses) && f == Failure("", "detector_invalid_output"))
  {
    NoFailures(slots, responses, |slots|);
    FailuresAre(slots, responses, |slots|, f);
    forall i | 0 <= i < |slots|
      ensures Proper(slots[i], responses[i]) <==> WellAnswered(slots[i], responses[i])
      ensures WellAnswered(slots[i], responses[i]) ==> !Charges(slots[i], responses[i], f)
    {
      ProperIsWellAnswered(slots[i], responses[i]);
    }
    hide Proper, WellAnswered, Collected, FailuresOf, DistinctKeys, Charges, MatchLe;
  }

  // ---------------------------------------------------------------- matches

  /** The matches of a current run are those that came back, each in its published form, in strictly
      increasing order. */
  lemma CurrentPublishes(slots: seq<Slot>, responses: seq<Response>, r: CatalogResult)
    returns (published: seq<Match>)
    requires |slots| == |responses| && Aggregates(Prepared, slots, responses, r) && r.status == Current
    ensures var all := ReturnedBy(responses, |slots|);
      && |published| == |all| && (forall k | 0 <= k < |all| :: Publishes(all[k], published[k]))
      && multiset(r.matches) == multiset(published)
    ensures StrictlyOrdered(r.matches)
  {
    var n, all := |slots|, ReturnedBy(responses, |slots|);
    NoFailures(slots, responses, n);
    forall i | 0 <= i < n ensures Proper(slots[i], responses[i]) <==> WellAnswered(slots[i], responses[i]) {
      ProperIsWellAnswered(slots[i], responses[i]);
    }
    hide Proper, WellAnswered, Collected, FailuresOf, RowsOf, DistinctKeys, ReturnedBy, StrictlyOrdered, Publishes,
         MatchLe;
    CollectedIs(slots, responses, n);
    SortedMatchesStrict(Collected(slots, responses, n));
    published := Map(Normalized, all);
    forall k | 0 <= k < |all| ensures Publishes(all[k], published[k]) { NormalizedPublishes(all[k]); }
  }
}
