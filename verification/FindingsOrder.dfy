/** What of a findings run depends on the order of the findings, and what does not. */
module FindingsOrder {
  import opened Text
  import opened Ordering
  import opened SmallestFifty
  import opened Findings
  import opened FindingsRun
  import opened FindingLevels

  // ---------------------------------------------------------------- untruncated runs

  lemma SameGroups(ctx: Context, a: seq<Finding>, b: seq<Finding>, key: string)
    requires multiset(a) == multiset(b)
    ensures Members(ctx, a, key) == Members(ctx, b, key)
    ensures forall id :: id in Cited(ctx, a, key) <==> id in Cited(ctx, b, key)
  {
    hide KeyOf;
    BagMembers(a, b);
    hide Cited;
    assert Members(ctx, a, key) == Members(ctx, b, key);
    forall id ensures id in Cited(ctx, a, key) <==> id in Cited(ctx, b, key) {
      CitedMembers(ctx, a, key, id);
      CitedMembers(ctx, b, key, id);
    }
  }

  lemma SameKeys(ctx: Context, a: seq<Finding>, b: seq<Finding>)
    requires multiset(a) == multiset(b)
    ensures Keys(ctx, a) == Keys(ctx, b)
  {
    hide KeyOf;
    BagMembers(a, b);
  }

  /** Everything but the two graded levels. */
  ghost predicate Agree(x: Occurrence, y: Occurrence) {
    && x.citations == y.citations && x.complete == y.complete && x.first == y.first && x.last == y.last
    && x.origin == y.origin && x.signal == y.signal
  }

  lemma SameExtent(group: set<Finding>, x: Occurrence, y: Occurrence)
    requires ExtentOf(group, x) && ExtentOf(group, y)
    ensures x.first == y.first && x.last == y.last && x.origin == y.origin
  {
    StrLeOrder();
    hide StrLe;
  }

  lemma SameSignal(ctx: Context, group: set<Finding>, x: Option<string>, y: Option<string>)
    requires SignalOf(ctx, group, x) && SignalOf(ctx, group, y)
    ensures x == y
  {
    hide AllShow;
    if x.Some? { assert AllShow(ctx, group, x.value); }
    if y.Some? { assert AllShow(ctx, group, y.value); }
  }

  ghost predicate Graded(f: Finding) {
    SeverityRank(f.severity) > 0 && ConfidenceRank(f.confidence) > 0
  }

  ghost predicate AllGraded(fs: seq<Finding>) {
    forall f | f in fs :: Graded(f)
  }

  /** The simple form of a group is the same for every order of the findings; its two levels are when
      they are known ones. */
  lemma SummaryIgnoresOrder(ctx: Context, a: seq<Finding>, b: seq<Finding>, key: string, x: Occurrence, y: Occurrence)
    requires multiset(a) == multiset(b) && Summarizes(ctx, a, key, x) && Summarizes(ctx, b, key, y)
    ensures Agree(x, y)
    ensures AllGraded(a) ==> x == y
  {
    SameGroups(ctx, a, b, key);
    SmallestCanonical(Cited(ctx, a, key), Cited(ctx, b, key));
    var group := Members(ctx, a, key);
    SameExtent(group, x, y);
    SameSignal(ctx, group, x.signal, y.signal);
    if AllGraded(a) { SameLevels(ctx, a, b, key); }
    hide Members, Cited, Joined, Smallest, SortedDistinct, ExtentOf, SignalOf, StrLe, AllGraded;
  }

  lemma SameLevels(ctx: Context, a: seq<Finding>, b: seq<Finding>, key: string)
    requires Members(ctx, a, key) == Members(ctx, b, key) && AllGraded(a)
    ensures var g, h := Joined(ctx, a, key), Joined(ctx, b, key);
      g != [] && h != [] ==> FoldedSeverity(g) == FoldedSeverity(h) && FoldedConfidence(g) == FoldedConfidence(h)
  {
    hide KeyOf, FoldedSeverity, FoldedConfidence;
    var g, h := Joined(ctx, a, key), Joined(ctx, b, key);
    forall f ensures (f in g <==> f in h) && (f in g ==> Graded(f)) {
      JoinedMembers(ctx, a, key, f);
      JoinedMembers(ctx, b, key, f);
    }
    hide Joined, Members;
    if g != [] && h != [] { SameMembersSameLevels(g, h); }
  }

  lemma SameMembersSameLevels(g: seq<Finding>, h: seq<Finding>)
    requires g != [] && h != [] && (forall f :: f in g <==> f in h) && AllGraded(g)
    ensures FoldedSeverity(g) == FoldedSeverity(h) && FoldedConfidence(g) == FoldedConfidence(h)
  {
    SeverityIsHighest(g);
    SeverityIsHighest(h);
    ConfidenceIsLowest(g);
    ConfidenceIsLowest(h);
    LevelsInjective(FoldedSeverity(g), FoldedSeverity(h));
    LevelsInjective(FoldedConfidence(g), FoldedConfidence(h));
    hide FoldedSeverity, FoldedConfidence, SeverityRank, ConfidenceRank;
  }

  /** Two untruncated runs over the same findings, in whatever orders, present the same thing. */
  lemma UntruncatedRunsAgree(ctx: Context, a: seq<Finding>, b: seq<Finding>, x: Outcome, y: Outcome)
    requires multiset(a) == multiset(b) && AllGraded(a) && Presents(ctx, a, x) && Presents(ctx, b, y)
    ensures x.keys == y.keys && x.occurrences == y.occurrences
  {
    SameKeys(ctx, a, b);
    StrLeOrder();
    hide StrLe, Keys, Summarizes, StrictlySorted, KeyOf, AllGraded;
    StrictUnique(StrLe, x.keys, y.keys);
    forall i | 0 <= i < |x.keys| ensures x.occurrences[i] == y.occurrences[i] {
      SummaryIgnoresOrder(ctx, a, b, x.keys[i], x.occurrences[i], y.occurrences[i]);
    }
  }

  // ---------------------------------------------------------------- the truncation flag

  lemma {:induction false} SumConcat(a: seq<Finding>, b: seq<Finding>)
    ensures Sum(a + b) == Sum(a) + Sum(b)
  {
    if b == [] {
      assert a + b == a;
    } else {
      assert (a + b)[..|a + b| - 1] == a + b[..|b| - 1];
      SumConcat(a, b[..|b| - 1]);
    }
  }

  lemma SumWithout(fs: seq<Finding>, k: nat)
    requires k < |fs|
    ensures Sum(fs) == Sum(Without(fs, k)) + |fs[k].citations|
  {
    assert fs == fs[..k] + ([fs[k]] + fs[k + 1..]);
    SumConcat(fs[..k], [fs[k]] + fs[k + 1..]);
    SumConcat([fs[k]], fs[k + 1..]);
    assert Without(fs, k) == fs[..k] + fs[k + 1..];
    SumConcat(fs[..k], fs[k + 1..]);
    SumOne(fs[k]);
  }

  lemma {:induction false} SumBag(a: seq<Finding>, b: seq<Finding>)
    requires multiset(a) == multiset(b)
    ensures Sum(a) == Sum(b)
  {
    assert |a| == |multiset(a)| == |multiset(b)| == |b|;
    if a != [] {
      hide Sum, Without;
      assert a[0] in multiset(a);
      var k := Locate(a[0], b);
      WithoutBag(a, 0);
      WithoutBag(b, k);
      SumWithout(a, 0);
      SumWithout(b, k);
      SumBag(Without(a, 0), Without(b, k));
    } else {
      assert b == [];
    }
  }

  /** The allowance can run out early only for a finding without citations after exactly 1000. */
  predicate Sensitive(fs: seq<Finding>) {
    Sum(fs) == CITATION_INPUT_LIMIT && exists f | f in fs :: f.citations == []
  }

  lemma NotSensitive(fs: seq<Finding>)
    requires Sum(fs) <= CITATION_INPUT_LIMIT && !Sensitive(fs)
    ensures NeverExhausted(fs)
  {
    forall i | 0 <= i < |fs| ensures Sum(fs[..i]) < CITATION_INPUT_LIMIT {
      SumMonotone(fs, i + 1);
      SumStep(fs, i);
      assert fs[i] in fs;
    }
  }

  /** A finding without citations, brought to the end. */
  lemma MovedLast(fs: seq<Finding>) returns (moved: seq<Finding>)
    requires Sensitive(fs)
    ensures multiset(moved) == multiset(fs) && !NeverExhausted(moved)
  {
    var f :| f in fs && f.citations == [];
    var k :| 0 <= k < |fs| && fs[k] == f;
    var rest := Without(fs, k);
    moved := rest + [f];
    WithoutBag(fs, k);
    assert multiset(moved) == multiset(rest) + multiset{f};
    SumBag(moved, fs);
    assert moved[..|rest|] == rest;
    assert Sum(moved) == Sum(rest) + |f.citations|;
  }

  /** A finding with citations, brought to the end. */
  lemma CitingLast(fs: seq<Finding>) returns (moved: seq<Finding>)
    requires Sum(fs) == CITATION_INPUT_LIMIT
    ensures multiset(moved) == multiset(fs) && NeverExhausted(moved)
  {
    var k := SomeCites(fs);
    var rest := Without(fs, k);
    moved := rest + [fs[k]];
    WithoutBag(fs, k);
    assert multiset(moved) == multiset(rest) + multiset{fs[k]};
    SumWithout(fs, k);
    forall i | 0 <= i < |moved| ensures Sum(moved[..i]) < CITATION_INPUT_LIMIT {
      assert moved[..i] == rest[..i];
      SumMonotone(rest, i);
    }
  }

  lemma {:induction false} SomeCites(fs: seq<Finding>) returns (k: nat)
    requires Sum(fs) > 0
    ensures k < |fs| && fs[k].citations != []
  {
    var n := |fs| - 1;
    if fs[n].citations != [] { k := n; } else { k := SomeCites(fs[..n]); }
  }

  /** The flag is the same for every order. */
  ghost predicate FlagFixed(ctx: Context, a: seq<Finding>) {
    forall b: seq<Finding> | multiset(b) == multiset(a) :: WithinLimits(ctx, b) == WithinLimits(ctx, a)
  }

  /** All limits but the one on order. */
  ghost predicate Fits(ctx: Context, a: seq<Finding>) {
    ShortLists(a) && Sum(a) <= CITATION_INPUT_LIMIT && |Keys(ctx, a)| <= MAX_GROUPS
  }

  lemma FitsIgnoresOrder(ctx: Context, a: seq<Finding>, b: seq<Finding>)
    requires multiset(a) == multiset(b)
    ensures Fits(ctx, a) == Fits(ctx, b) && Sensitive(a) == Sensitive(b)
  {
    SumBag(a, b);
    SameKeys(ctx, a, b);
    BagMembers(a, b);
    hide Sum, Keys;
  }

  /** The flag depends on the order exactly when the findings fit otherwise and cite exactly 1000
      events, with a finding among them that cites nothing. */
  lemma FlagIgnoresOrder(ctx: Context, a: seq<Finding>)
    ensures FlagFixed(ctx, a) <==> !(Fits(ctx, a) && Sensitive(a))
  {
    hide Keys, Sum;
    if Fits(ctx, a) && Sensitive(a) {
      var b := CitingLast(a);
      var c := MovedLast(a);
      FitsIgnoresOrder(ctx, a, b);
      assert WithinLimits(ctx, b) && !WithinLimits(ctx, c);
      assert !FlagFixed(ctx, a);
    } else {
      forall b: seq<Finding> | multiset(b) == multiset(a) ensures WithinLimits(ctx, b) == WithinLimits(ctx, a) {
        FitsIgnoresOrder(ctx, a, b);
        if Fits(ctx, a) {
          NotSensitive(a);
          NotSensitive(b);
        }
      }
    }
  }

  // ---------------------------------------------------------------- findings as the store keeps them

  ghost predicate AllCite(fs: seq<Finding>) {
    forall f | f in fs :: f.citations != []
  }

  /** When every finding cites something, the flag is a matter of totals alone. */
  lemma CitingFlag(ctx: Context, fs: seq<Finding>)
    requires AllCite(fs)
    ensures WithinLimits(ctx, fs) <==> Fits(ctx, fs)
  {
    hide Keys, Sum;
    if Fits(ctx, fs) { NotSensitive(fs); }
  }

  /** Any two runs over the same citing, graded findings report the same truncation, and without
      truncation the same keys, occurrences and levels. */
  lemma RunsAgree(ctx: Context, a: seq<Finding>, b: seq<Finding>, x: Outcome, y: Outcome)
    requires multiset(a) == multiset(b) && AllCite(a) && RunOf(ctx, a, x) && RunOf(ctx, b, y)
    ensures x.truncated == y.truncated
    ensures AllGraded(a) && !x.truncated ==> x == y
  {
    BagMembers(a, b);
    CitingFlag(ctx, a);
    CitingFlag(ctx, b);
    FitsIgnoresOrder(ctx, a, b);
    hide WithinLimits, Fits, Presents, AllGraded;
    if AllGraded(a) && !x.truncated { UntruncatedRunsAgree(ctx, a, b, x, y); }
  }

  // ---------------------------------------------------------------- concrete orders that differ

  function Repeat(f: Finding, n: nat): (r: seq<Finding>)
    ensures |r| == n && forall i | 0 <= i < n :: r[i] == f
    ensures Sum(r) == n * |f.citations|
  {
    if n == 0 then [] else
      var r := Repeat(f, n - 1);
      assert (r + [f])[..n - 1] == r;
      r + [f]
  }

  /** Twenty findings of fifty citations and one without any: the flag is clear when the bare one comes
      first and set when it comes last, though nothing is dropped either way. */
  lemma TruncatedFlagDependsOnOrder(ctx: Context, full: Finding, bare: Finding)
    requires |full.citations| == MAX_PER_FINDING && bare.citations == []
    ensures WithinLimits(ctx, [bare] + Repeat(full, 20)) && !WithinLimits(ctx, Repeat(full, 20) + [bare])
    ensures multiset([bare] + Repeat(full, 20)) == multiset(Repeat(full, 20) + [bare])
  {
    hide Repeat, WithinLimits;
    BareFirstFits(ctx, full, bare);
    BareLastExceeds(ctx, full, bare);
  }

  lemma BareFirstFits(ctx: Context, full: Finding, bare: Finding)
    requires |full.citations| == MAX_PER_FINDING && bare.citations == []
    ensures WithinLimits(ctx, [bare] + Repeat(full, 20))
  {
    hide Repeat, Keys, Sum;
    var many := Repeat(full, 20);
    SumConcat([bare], many);
    SumOne(bare);
    forall i | 0 <= i < |many| + 1
      ensures Sum(([bare] + many)[..i]) < CITATION_INPUT_LIMIT
    { BareFirst(bare, many, i); }
    TwoKeys(ctx, [bare] + many, full, bare);
  }

  lemma BareLastExceeds(ctx: Context, full: Finding, bare: Finding)
    requires |full.citations| == MAX_PER_FINDING
    ensures !WithinLimits(ctx, Repeat(full, 20) + [bare])
  {
    hide Repeat, Keys, Sum;
    var b := Repeat(full, 20) + [bare];
    assert b[..20] == Repeat(full, 20);
    assert Sum(b[..20]) == CITATION_INPUT_LIMIT;
    assert !NeverExhausted(b);
  }

  lemma SumOne(f: Finding)
    ensures Sum([f]) == |f.citations|
  {
    assert [f][..0] == [];
  }

  lemma BareFirst(bare: Finding, many: seq<Finding>, i: nat)
    requires bare.citations == [] && i <= |many|
    requires Sum(many) <= CITATION_INPUT_LIMIT && forall f | f in many :: f.citations != []
    ensures Sum(([bare] + many)[..i]) < CITATION_INPUT_LIMIT
  {
    if i > 0 {
      assert ([bare] + many)[..i] == [bare] + many[..i - 1];
      assert many[i - 1] in many;
      hide Sum;
      SumConcat([bare], many[..i - 1]);
      SumOne(bare);
      SumStep(many, i - 1);
      SumMonotone(many, i);
    } else {
      assert ([bare] + many)[..0] == [];
    }
  }

  lemma TwoKeys(ctx: Context, fs: seq<Finding>, f: Finding, g: Finding)
    requires forall h | h in fs :: h == f || h == g
    ensures |Keys(ctx, fs)| <= 2
  {
    hide KeyOf;
    var keys := Keys(ctx, fs);
    var both := KeySet(KeyOf(ctx, f, f.citations)) + KeySet(KeyOf(ctx, g, g.citations));
    assert keys <= both;
    SubsetCount(keys, both);
  }

  function KeySet(key: Option<string>): (r: set<string>)
    ensures |r| <= 1
  {
    if key.Some? then {key.value} else {}
  }
}
