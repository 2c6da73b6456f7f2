/** What a narrowing may change, in terms of the two proposals themselves: one of four sets must shrink,
    the expiry may come earlier, and everything else must stay. */
module NarrowingMeaning {
  import opened Text
  import opened Ordering
  import opened NormalForms
  import opened Experience
  import opened Approval

  // ---------------------------------------------------------------- conditions

  /** Some condition of the list has this kind and these values. */
  ghost predicate Has(conditions: seq<Condition>, kind: string, values: set<string>) {
    exists c :: c in conditions && c.kind == kind && TrimmedSet(c.values) == values
  }

  ghost predicate SameConditions(a: seq<Condition>, b: seq<Condition>) {
    forall kind, values :: Has(a, kind, values) <==> Has(b, kind, values)
  }

  lemma HasNormal(conditions: seq<Condition>, c: Condition)
    ensures Has(conditions, c.kind, TrimmedSet(c.values)) <==> NormalCondition(c) in NormalConditionSet(conditions)
  {
    hide TrimmedSet, NormalStrings;
    forall d: Condition
      ensures NormalCondition(d) == NormalCondition(c) <==>
        d.kind == c.kind && TrimmedSet(d.values) == TrimmedSet(c.values)
    {
      NormalCanonical(d.values, c.values);
    }
  }

  lemma ConditionsMean(a: seq<Condition>, b: seq<Condition>)
    ensures NormalConditionSet(a) == NormalConditionSet(b) <==> SameConditions(a, b)
  {
    if SameConditions(a, b) {
      forall x ensures x in NormalConditionSet(a) <==> x in NormalConditionSet(b) {
        if x in NormalConditionSet(a) {
          var c :| c in a && NormalCondition(c) == x;
          SameMember(a, b, c);
        }
        if x in NormalConditionSet(b) {
          var c :| c in b && NormalCondition(c) == x;
          SameMember(b, a, c);
        }
      }
    }
    if NormalConditionSet(a) == NormalConditionSet(b) {
      forall kind, values ensures Has(a, kind, values) <==> Has(b, kind, values) {
        if Has(a, kind, values) { Transfers(a, b, kind, values); }
        if Has(b, kind, values) { Transfers(b, a, kind, values); }
      }
    }
  }

  lemma SameMember(a: seq<Condition>, b: seq<Condition>, c: Condition)
    requires SameConditions(a, b) && c in a
    ensures NormalCondition(c) in NormalConditionSet(b)
  {
    hide TrimmedSet, NormalCondition, NormalConditionSet;
    assert Has(a, c.kind, TrimmedSet(c.values));
    HasNormal(b, c);
  }

  lemma Transfers(a: seq<Condition>, b: seq<Condition>, kind: string, values: set<string>)
    requires NormalConditionSet(a) == NormalConditionSet(b) && Has(a, kind, values)
    ensures Has(b, kind, values)
  {
    hide TrimmedSet, NormalCondition, NormalConditionSet;
    var c :| c in a && c.kind == kind && TrimmedSet(c.values) == values;
    HasNormal(a, c);
    HasNormal(b, c);
  }

  // ---------------------------------------------------------------- the exact meaning

  /** The proposals agree in all but the four scope lists and the expiry. */
  ghost predicate OtherwiseSame(o: Proposal, a: Proposal) {
    && a.kind == o.kind && a.scope.kind == o.scope.kind
    && TrimSpace(a.scope.project) == TrimSpace(o.scope.project)
    && TrimSpace(a.scope.session) == TrimSpace(o.scope.session)
    && SameGuidance(a.guidance, o.guidance) && SameVerifier(a.verifier, o.verifier)
    && TrimSpace(a.applicability.description) == TrimSpace(o.applicability.description)
    && TrimmedSet(a.applicability.exclusions) == TrimmedSet(o.applicability.exclusions)
    && SameConditions(a.applicability.conditions, o.applicability.conditions)
  }

  ghost function Members(values: seq<string>): set<string> {
    set v | v in values
  }

  /** The paths, task families, models and harnesses of the scope; an empty set restricts nothing. */
  ghost function ScopeSets(p: Proposal): (sets: seq<set<string>>)
    ensures |sets| == 4
  {
    [TrimmedSet(p.scope.paths), TrimmedSet(p.scope.families), TrimmedSet(p.scope.models), Members(p.scope.harnesses)]
  }

  ghost predicate Restricts(o: set<string>, a: set<string>) {
    o == {} || (a != {} && a <= o)
  }

  /** No earlier than before, and an expiry stays one. */
  predicate ExpiresNoLater(o: Option<int>, a: Option<int>) {
    o.Some? ==> a.Some? && a.value <= o.value
  }

  lemma OtherwiseExact(o: Proposal, a: Proposal)
    ensures SameOtherwise(o, a) <==> OtherwiseSame(o, a)
  {
    GuidanceCanonical(a.guidance, o.guidance);
    NormalVerifierCanonical(a.verifier, o.verifier);
    NormalCanonical(a.applicability.exclusions, o.applicability.exclusions);
    NormalConditionsCanonical(a.applicability.conditions, o.applicability.conditions);
    ConditionsMean(a.applicability.conditions, o.applicability.conditions);
    hide NormalVerifier, SameVerifier, NormalGuidance, SameGuidance, NormalStrings, TrimmedSet, NormalConditions,
         NormalConditionSet, SameConditions, TrimSpace, SortedDistinct;
  }

  lemma GuidanceCanonical(a: Guidance, b: Guidance)
    ensures NormalGuidance(a) == NormalGuidance(b) <==> SameGuidance(a, b)
  {
    NormalCanonical(a.exceptions, b.exceptions);
    hide NormalStrings, TrimmedSet, TrimSpace;
  }

  /** A list in normal form, and the set it stands for. */
  ghost predicate Lists(values: seq<string>, members: set<string>) {
    NoRepeats(values) && forall v :: v in values <==> v in members
  }

  lemma NormalLists(values: seq<string>)
    ensures Lists(NormalStrings(values), TrimmedSet(values))
  {
    NormalStrict(values);
    StrLeOrder();
    StrictNoRepeats(StrLe, NormalStrings(values));
    hide NormalStrings, TrimmedSet, NoRepeats, StrictlySorted, StrLe;
    forall v ensures v in NormalStrings(values) <==> v in TrimmedSet(values) { NormalMembers(values, v); }
  }

  lemma HarnessLists(values: seq<string>)
    ensures Lists(SortedDistinct(values), Members(values))
  {
    SortedDistinctStrict(values);
    StrLeOrder();
    StrictNoRepeats(StrLe, SortedDistinct(values));
    hide NoRepeats, StrictlySorted, StrLe;
  }

  lemma {:induction false} ListedCount(values: seq<string>, members: set<string>)
    requires Lists(values, members)
    ensures |values| == |members|
  {
    if values != [] {
      var n := |values| - 1;
      assert values == values[..n] + [values[n]];
      ListedCount(values[..n], members - {values[n]});
    } else {
      assert members == {};
    }
  }

  lemma ListMeans(o: seq<string>, a: seq<string>, x: set<string>, y: set<string>)
    requires Lists(o, x) && Lists(a, y)
    ensures NarrowsList(o, a) <==> Restricts(x, y)
    ensures StrictlyNarrows(o, a) <==> Restricts(x, y) && x != y
  {
    ListedCount(o, x);
    ListedCount(a, y);
    hide NoRepeats;
    if o != [] { assert o[0] in x; }
    if a != [] { assert a[0] in y; }
    if y <= x && x != y { ProperSubset(y, x); }
  }

  lemma ProperSubset<T>(a: set<T>, b: set<T>)
    requires a <= b && a != b
    ensures |a| < |b|
  {
    assert b == a + (b - a);
    assert b - a != {};
  }

  lemma ScopeListsAre(p: Proposal)
    ensures forall i | 0 <= i < 4 :: Lists(ScopeLists(p)[i], ScopeSets(p)[i])
  {
    NormalLists(p.scope.paths);
    NormalLists(p.scope.families);
    NormalLists(p.scope.models);
    HarnessLists(p.scope.harnesses);
    hide NormalStrings, TrimmedSet, SortedDistinct, Members, Lists, TrimSpace;
  }

  /** A proposal is a narrowing if and only if it agrees with the original in all else, expires no later,
      keeps within each of the four sets, and differs in one of them. */
  lemma NarrowedExactly(o: Proposal, a: Proposal)
    ensures Narrowed(o, a) <==>
      && OtherwiseSame(o, a) && ExpiresNoLater(o.applicability.expiresAt, a.applicability.expiresAt)
      && (forall i | 0 <= i < 4 :: Restricts(ScopeSets(o)[i], ScopeSets(a)[i]))
      && (exists i | 0 <= i < 4 :: ScopeSets(o)[i] != ScopeSets(a)[i])
  {
    OtherwiseExact(o, a);
    ScopeListsAre(o);
    ScopeListsAre(a);
    hide SameOtherwise, OtherwiseSame, ScopeLists, ScopeSets, Lists, NarrowsList, StrictlyNarrows, Restricts;
    forall i | 0 <= i < 4
      ensures NarrowsList(ScopeLists(o)[i], ScopeLists(a)[i]) <==> Restricts(ScopeSets(o)[i], ScopeSets(a)[i])
      ensures StrictlyNarrows(ScopeLists(o)[i], ScopeLists(a)[i]) <==>
        Restricts(ScopeSets(o)[i], ScopeSets(a)[i]) && ScopeSets(o)[i] != ScopeSets(a)[i]
    {
      ListMeans(ScopeLists(o)[i], ScopeLists(a)[i], ScopeSets(o)[i], ScopeSets(a)[i]);
    }
  }

  /** The canonical payloads of a narrowing and its original are the same once the four scope lists and
      the expiry are set aside. */
  lemma PayloadsAgree(o: Proposal, a: Proposal)
    requires Narrowed(o, a)
    ensures CanonicalPayload(SetAside(o)) == CanonicalPayload(SetAside(a))
  {
    NarrowedExactly(o, a);
    ConditionsMean(a.applicability.conditions, o.applicability.conditions);
    hide TrimmedSet, SameGuidance, SameVerifier, TrimSpace, SameConditions, NormalConditionSet;
    var x, y := SetAside(o), SetAside(a);
    PayloadCanonical(x, y);
    assert SameGuidance(x.guidance, y.guidance) && SameVerifier(x.verifier, y.verifier) by { SameBothWays(o, a); }
  }

  lemma SameBothWays(o: Proposal, a: Proposal)
    requires SameGuidance(a.guidance, o.guidance) && SameVerifier(a.verifier, o.verifier)
    ensures SameGuidance(o.guidance, a.guidance) && SameVerifier(o.verifier, a.verifier)
  {
    hide TrimmedSet, TrimSpace;
  }

  function SetAside(p: Proposal): Proposal {
    p.(scope := p.scope.(paths := [], families := [], models := [], harnesses := []),
       applicability := p.applicability.(expiresAt := None))
  }
}
