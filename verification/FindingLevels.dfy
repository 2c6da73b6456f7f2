/** The two levels of a group: what folding the findings one by one computes, and exactly when it is
    the same for every order. */
module FindingLevels {
  import opened Text
  import opened Ordering
  import opened SmallestFifty
  import opened Findings

  lemma LevelsInjective(a: string, b: string)
    ensures SeverityRank(a) == SeverityRank(b) > 0 ==> a == b
    ensures ConfidenceRank(a) == ConfidenceRank(b) > 0 ==> a == b
  {
  }

  /** f comes first, or last, in some order of g. */
  lemma Rearranged(g: seq<Finding>, f: Finding) returns (first: seq<Finding>, last: seq<Finding>)
    requires f in g
    ensures multiset(first) == multiset(g) == multiset(last) && |first| == |last| == |g|
    ensures first[0] == f && last[|g| - 1] == f
  {
    var k :| 0 <= k < |g| && g[k] == f;
    WithoutBag(g, k);
    first, last := [f] + Without(g, k), Without(g, k) + [f];
    assert multiset(first) == multiset{f} + multiset(Without(g, k));
  }

  // ---------------------------------------------------------------- severity

  /** The folded severity is one of the severities, and none ranks higher. */
  lemma {:induction false} SeverityIsHighest(g: seq<Finding>)
    requires g != []
    ensures exists f :: f in g && f.severity == FoldedSeverity(g)
    ensures forall f | f in g :: SeverityRank(f.severity) <= SeverityRank(FoldedSeverity(g))
  {
    hide SeverityRank;
    var n := |g| - 1;
    assert g == g[..n] + [g[n]];
    if n > 0 { SeverityIsHighest(g[..n]); } else { assert g == [g[0]]; }
  }

  lemma {:induction false} UnrankedFirst(g: seq<Finding>)
    requires g != [] && forall f | f in g :: SeverityRank(f.severity) == 0
    ensures FoldedSeverity(g) == g[0].severity
  {
    hide SeverityRank;
    var n := |g| - 1;
    if n > 0 { UnrankedFirst(g[..n]); }
  }

  ghost predicate SeverityFixed(g: seq<Finding>)
    requires g != []
  {
    forall h: seq<Finding> | multiset(h) == multiset(g) && h != [] :: FoldedSeverity(h) == FoldedSeverity(g)
  }

  /** Some severity is known, or all are the same. */
  predicate SeveritySettled(g: seq<Finding>) {
    (exists f | f in g :: SeverityRank(f.severity) > 0) || (forall f, h | f in g && h in g :: f.severity == h.severity)
  }

  lemma SettledSeverity(g: seq<Finding>, h: seq<Finding>)
    requires g != [] && h != [] && SeveritySettled(g) && multiset(h) == multiset(g)
    ensures FoldedSeverity(h) == FoldedSeverity(g)
  {
    BagMembers(g, h);
    SeverityIsHighest(g);
    SeverityIsHighest(h);
    LevelsInjective(FoldedSeverity(g), FoldedSeverity(h));
    hide SeverityRank, FoldedSeverity;
  }

  lemma SeverityOrderExact(g: seq<Finding>)
    requires g != []
    ensures SeverityFixed(g) <==> SeveritySettled(g)
  {
    hide SeverityRank, FoldedSeverity;
    if SeveritySettled(g) {
      forall h: seq<Finding> | multiset(h) == multiset(g) && h != [] ensures FoldedSeverity(h) == FoldedSeverity(g) {
        SettledSeverity(g, h);
      }
    } else {
      var f, other :| f in g && other in g && f.severity != other.severity;
      var a, _ := Rearranged(g, f);
      var b, _ := Rearranged(g, other);
      BagMembers(a, g);
      BagMembers(b, g);
      UnrankedFirst(a);
      UnrankedFirst(b);
      assert FoldedSeverity(a) != FoldedSeverity(b);
    }
  }

  // ---------------------------------------------------------------- confidence

  /** Neither empty nor a known level. */
  predicate StrangeLevel(confidence: string) {
    confidence != "" && ConfidenceRank(confidence) == 0
  }

  predicate Strange(f: Finding) {
    StrangeLevel(f.confidence)
  }

  lemma {:induction false} ConfidenceIsMember(g: seq<Finding>)
    requires g != []
    ensures exists f :: f in g && f.confidence == FoldedConfidence(g)
  {
    hide ConfidenceRank;
    var n := |g| - 1;
    assert g[n] in g;
    if n > 0 {
      ConfidenceIsMember(g[..n]);
      var f :| f in g[..n] && f.confidence == FoldedConfidence(g[..n]);
      assert f in g;
      FoldsLast(g);
      hide FoldedConfidence;
    }
  }

  /** The folded confidence of known levels is the lowest of them. */
  lemma {:induction false} ConfidenceIsLowest(g: seq<Finding>)
    requires g != [] && forall f | f in g :: ConfidenceRank(f.confidence) > 0
    ensures exists f :: f in g && f.confidence == FoldedConfidence(g)
    ensures forall f | f in g :: ConfidenceRank(FoldedConfidence(g)) <= ConfidenceRank(f.confidence)
  {
    assert ConfidenceRank("") == 0;
    hide ConfidenceRank;
    ConfidenceIsMember(g);
    var n := |g| - 1;
    assert g == g[..n] + [g[n]];
    if n > 0 {
      ConfidenceIsMember(g[..n]);
      ConfidenceIsLowest(g[..n]);
    }
  }

  /** The first strange confidence stays. */
  lemma {:induction false} FirstStrangeStays(g: seq<Finding>, i: nat)
    requires i < |g| && Strange(g[i]) && forall k | 0 <= k < i :: !Strange(g[k])
    ensures FoldedConfidence(g) == g[i].confidence
  {
    hide ConfidenceRank;
    var n := |g| - 1;
    if n > 0 {
      ConfidenceIsMember(g[..n]);
      if i < n { FirstStrangeStays(g[..n], i); }
    }
  }

  /** Without strange ones, an empty confidence at the end wins and a known one at the end shows. */
  lemma LastShows(g: seq<Finding>)
    requires g != [] && forall f | f in g :: !Strange(f)
    ensures FoldedConfidence(g) == "" <==> g[|g| - 1].confidence == ""
  {
    var n := |g| - 1;
    assert g[n] in g && !Strange(g[n]);
    if n > 0 {
      forall f | f in g[..n] ensures !Strange(f) { assert f in g; }
      PlainStaysPlain(g[..n]);
      FoldsLast(g);
      hide FoldedConfidence, LowerConfidence, StrangeLevel;
      RightShows(FoldedConfidence(g[..n]), g[n].confidence);
    }
  }

  lemma PlainStaysPlain(g: seq<Finding>)
    requires g != [] && forall f | f in g :: !Strange(f)
    ensures !StrangeLevel(FoldedConfidence(g))
  {
    ConfidenceIsMember(g);
    hide FoldedConfidence, StrangeLevel;
  }

  lemma FoldsLast(g: seq<Finding>)
    requires |g| > 1
    ensures FoldedConfidence(g) == LowerConfidence(FoldedConfidence(g[..|g| - 1]), g[|g| - 1].confidence)
  {
    hide LowerConfidence;
  }

  lemma RightShows(left: string, right: string)
    requires !StrangeLevel(left) && !StrangeLevel(right)
    ensures LowerConfidence(left, right) == "" <==> right == ""
  {
    assert ConfidenceRank("") == 0;
    hide ConfidenceRank;
  }

  ghost predicate ConfidenceFixed(g: seq<Finding>)
    requires g != []
  {
    forall h: seq<Finding> | multiset(h) == multiset(g) && h != [] :: FoldedConfidence(h) == FoldedConfidence(g)
  }

  /** There is one strange confidence, or there is none and not both an empty one and a known one. */
  predicate ConfidenceSettled(g: seq<Finding>) {
    if exists f | f in g :: Strange(f) then
      forall f, h | f in g && h in g && Strange(f) && Strange(h) :: f.confidence == h.confidence
    else (forall f | f in g :: f.confidence == "") || (forall f | f in g :: f.confidence != "")
  }

  lemma {:induction false} FirstStrange(g: seq<Finding>) returns (i: nat)
    requires exists f | f in g :: Strange(f)
    ensures i < |g| && Strange(g[i]) && forall k | 0 <= k < i :: !Strange(g[k])
  {
    hide Strange;
    if Strange(g[0]) {
      i := 0;
    } else {
      var f :| f in g && Strange(f);
      assert g == [g[0]] + g[1..];
      var j := FirstStrange(g[1..]);
      i := j + 1;
    }
  }

  lemma SettledConfidence(g: seq<Finding>, h: seq<Finding>)
    requires g != [] && h != [] && ConfidenceSettled(g) && multiset(h) == multiset(g)
    ensures FoldedConfidence(h) == FoldedConfidence(g)
  {
    BagMembers(g, h);
    if exists f | f in g :: Strange(f) {
      var i := FirstStrange(g);
      var j := FirstStrange(h);
      FirstStrangeStays(g, i);
      FirstStrangeStays(h, j);
      assert g[i] in g && h[j] in g;
    } else if forall f | f in g :: f.confidence == "" {
      ConfidenceIsMember(g);
      ConfidenceIsMember(h);
    } else {
      ConfidenceIsLowest(g);
      ConfidenceIsLowest(h);
      LevelsInjective(FoldedConfidence(g), FoldedConfidence(h));
    }
  }

  /** Two orders that end in different confidences. */
  lemma UnsettledConfidence(g: seq<Finding>)
    requires g != [] && !ConfidenceSettled(g)
    ensures !ConfidenceFixed(g)
  {
    hide ConfidenceRank, FoldedConfidence;
    if exists f | f in g :: Strange(f) {
      var f, other :| f in g && other in g && Strange(f) && Strange(other) && f.confidence != other.confidence;
      var a, _ := Rearranged(g, f);
      var b, _ := Rearranged(g, other);
      FirstStrangeStays(a, 0);
      FirstStrangeStays(b, 0);
      assert FoldedConfidence(a) != FoldedConfidence(b);
    } else {
      var blank :| blank in g && blank.confidence == "";
      var known :| known in g && known.confidence != "";
      var _, a := Rearranged(g, blank);
      var _, b := Rearranged(g, known);
      BagMembers(a, g);
      BagMembers(b, g);
      LastShows(a);
      LastShows(b);
      assert FoldedConfidence(a) != FoldedConfidence(b);
    }
  }

  lemma ConfidenceOrderExact(g: seq<Finding>)
    requires g != []
    ensures ConfidenceFixed(g) <==> ConfidenceSettled(g)
  {
    hide FoldedConfidence, ConfidenceSettled;
    if ConfidenceSettled(g) {
      forall h: seq<Finding> | multiset(h) == multiset(g) && h != []
        ensures FoldedConfidence(h) == FoldedConfidence(g)
      {
        SettledConfidence(g, h);
      }
    } else {
      UnsettledConfidence(g);
    }
  }
}
