/** Choosing at most fifty evidence IDs to cite for a list of events. */
module Citations {
  import opened Ordering
  import opened Session
  import opened SmallestFifty

  /** The evidence of the events, each event's in sorted order. */
  function InOrder(events: seq<Prepared>): seq<string> {
    if events == [] then []
    else InOrder(events[..|events| - 1]) + SortBy(StrLe, events[|events| - 1].evidence)
  }

  /** The non-blank IDs of a list, each where it first appears. */
  function FirstSeen(ids: seq<string>): (r: seq<string>)
    ensures NoRepeats(r) && forall x :: x in r <==> x in ids && x != ""
  {
    if ids == [] then []
    else
      var init, last := ids[..|ids| - 1], ids[|ids| - 1];
      assert ids == init + [last];
      var r := FirstSeen(init);
      if last == "" || last in r then r else r + [last]
  }

  /** The inner loop over one event's IDs. */
  method CiteAll(ids: seq<string>, ghost before: seq<string>, kept: seq<string>, known: set<string>, whole: bool)
    returns (result: seq<string>, seen: set<string>, complete: bool)
    requires kept == First(FirstSeen(before), MAX_CITATIONS) && (whole <==> |FirstSeen(before)| <= MAX_CITATIONS)
    requires forall x :: x in known <==> x in FirstSeen(before)
    ensures result == First(FirstSeen(before + ids), MAX_CITATIONS)
    ensures complete <==> |FirstSeen(before + ids)| <= MAX_CITATIONS
    ensures forall x :: x in seen <==> x in FirstSeen(before + ids)
  {
    hide NoRepeats;
    result, seen, complete := kept, known, whole;
    assert before + ids[..0] == before;
    for i := 0 to |ids|
      invariant result == First(FirstSeen(before + ids[..i]), MAX_CITATIONS)
      invariant complete <==> |FirstSeen(before + ids[..i])| <= MAX_CITATIONS
      invariant forall x :: x in seen <==> x in FirstSeen(before + ids[..i])
    {
      var next := before + ids[..i + 1];
      assert next[..|next| - 1] == before + ids[..i] && next[|next| - 1] == ids[i];
      if ids[i] == "" { continue; }
      if ids[i] in seen { continue; }
      seen := seen + {ids[i]};
      if |result| == MAX_CITATIONS {
        complete := false;
        continue;
      }
      result := result + [ids[i]];
    }
    assert before + ids[..|ids|] == before + ids;
  }

  method CitationIDs(events: seq<Prepared>) returns (result: seq<string>, complete: bool)
    ensures result == First(FirstSeen(InOrder(events)), 50)
    ensures complete <==> |FirstSeen(InOrder(events))| <= 50
  {
    hide StrLe, SortBy, FirstSeen, First;
    result, complete := [], true;
    var seen: set<string> := {};
    NothingSeen();
    for i := 0 to |events|
      invariant result == First(FirstSeen(InOrder(events[..i])), MAX_CITATIONS)
      invariant complete <==> |FirstSeen(InOrder(events[..i]))| <= MAX_CITATIONS
      invariant forall x :: x in seen <==> x in FirstSeen(InOrder(events[..i]))
    {
      assert events[..i + 1][..i] == events[..i];
      var ids := SortBy(StrLe, events[i].evidence);
      result, seen, complete := CiteAll(ids, InOrder(events[..i]), result, seen, complete);
    }
    assert events[..|events|] == events;
  }

  lemma NothingSeen()
    ensures FirstSeen([]) == [] && First(FirstSeen([]), MAX_CITATIONS) == []
  {
  }

  /** Some event has this evidence. */
  ghost predicate HasEvidence(events: seq<Prepared>, id: string) {
    exists item :: item in events && id in item.evidence
  }

  lemma {:induction false} InOrderMembers(events: seq<Prepared>, id: string)
    ensures id in InOrder(events) <==> HasEvidence(events, id)
  {
    if events != [] {
      var init, last := events[..|events| - 1], events[|events| - 1];
      InOrderMembers(init, id);
      assert events == init + [last];
      hide StrLe, SortBy;
      BagMembers(SortBy(StrLe, last.evidence), last.evidence);
      assert last in events;
      if HasEvidence(init, id) {
        var item :| item in init && id in item.evidence;
        assert item in events;
      }
    }
  }

  /** Nothing is cited twice, nothing foreign or blank is cited, and a complete citation list leaves
      nothing out. */
  lemma CitationsAreEvidence(events: seq<Prepared>, id: string)
    ensures var cited := First(FirstSeen(InOrder(events)), MAX_CITATIONS);
      NoRepeats(cited) && |cited| <= MAX_CITATIONS && (id in cited ==> id != "" && HasEvidence(events, id))
    ensures |FirstSeen(InOrder(events))| <= MAX_CITATIONS ==>
      (id in First(FirstSeen(InOrder(events)), MAX_CITATIONS) <==> id != "" && HasEvidence(events, id))
  {
    InOrderMembers(events, id);
    hide HasEvidence, InOrder, FirstSeen;
    var all := FirstSeen(InOrder(events));
    if |all| > MAX_CITATIONS { assert forall x | x in all[..MAX_CITATIONS] :: x in all; }
  }

  /** Whether a citation list is complete does not depend on the order of the events. */
  lemma CompletenessIgnoresOrder(a: seq<Prepared>, b: seq<Prepared>)
    requires multiset(a) == multiset(b)
    ensures |FirstSeen(InOrder(a))| == |FirstSeen(InOrder(b))|
  {
    forall id ensures id in FirstSeen(InOrder(a)) <==> id in FirstSeen(InOrder(b)) {
      InOrderMembers(a, id);
      InOrderMembers(b, id);
      SameEvidence(a, b, id);
    }
    hide FirstSeen;
    SubsetShorter(FirstSeen(InOrder(a)), FirstSeen(InOrder(b)));
    SubsetShorter(FirstSeen(InOrder(b)), FirstSeen(InOrder(a)));
  }

  lemma SameEvidence(a: seq<Prepared>, b: seq<Prepared>, id: string)
    requires multiset(a) == multiset(b)
    ensures HasEvidence(a, id) <==> HasEvidence(b, id)
  {
    if HasEvidence(a, id) {
      var item :| item in a && id in item.evidence;
      assert item in multiset(b);
      assert item in b;
    }
    if HasEvidence(b, id) {
      var item :| item in b && id in item.evidence;
      assert item in multiset(a);
      assert item in a;
    }
  }
}
