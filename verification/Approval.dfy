/** Approving a narrowed proposal, and what narrowing means for later selection. */
module Approval {
  import opened Text
  import opened Ordering
  import opened NormalForms
  import opened Experience
  import opened Selection

  // ---------------------------------------------------------------- the narrowing check

  /** An empty list stands for no restriction. */
  predicate NarrowsList(original: seq<string>, approved: seq<string>) {
    original == [] || (approved != [] && forall v | v in approved :: v in original)
  }

  predicate StrictlyNarrows(original: seq<string>, approved: seq<string>) {
    NarrowsList(original, approved) && if original == [] then approved != [] else |approved| < |original|
  }

  method NarrowedComparableSet(original: seq<string>, approved: seq<string>) returns (valid: bool, strict: bool)
    ensures valid <==> NarrowsList(original, approved)
    ensures strict <==> StrictlyNarrows(original, approved)
  {
    if |original| == 0 { return true, |approved| > 0; }
    if |approved| == 0 { return false, false; }
    var allowed := set v | v in original;
    for i := 0 to |approved|
      invariant forall k | 0 <= k < i :: approved[k] in original
    {
      if approved[i] !in allowed {
        assert approved[i] in approved;
        return false, false;
      }
    }
    return true, |approved| < |original|;
  }

  predicate NarrowsExpiry(original: Option<int>, approved: Option<int>) {
    original == None || (approved.Some? && approved.value <= original.value)
  }

  /** Nothing but the four scope lists and the expiry may differ. */
  predicate SameOtherwise(original: Proposal, approved: Proposal) {
    var o, a := NormalScope(original.scope), NormalScope(approved.scope);
    && approved.kind == original.kind && a.kind == o.kind && a.project == o.project && a.session == o.session
    && NormalGuidance(approved.guidance) == NormalGuidance(original.guidance)
    && NormalVerifier(approved.verifier) == NormalVerifier(original.verifier)
    && NormalApplicability(approved.applicability).(expiresAt := None) ==
         NormalApplicability(original.applicability).(expiresAt := None)
  }

  /** The four scope lists in normal form. */
  function ScopeLists(p: Proposal): (r: seq<seq<string>>)
    ensures |r| == 4
  {
    var scope := NormalScope(p.scope);
    [scope.paths, scope.families, scope.models, scope.harnesses]
  }

  /** Every list narrows its counterpart, and at least one does so strictly. */
  ghost predicate ListsNarrow(o: seq<seq<string>>, a: seq<seq<string>>)
    requires |o| == |a| == 4
  {
    && (forall i | 0 <= i < 4 :: NarrowsList(o[i], a[i]))
    && (exists i | 0 <= i < 4 :: StrictlyNarrows(o[i], a[i]))
  }

  ghost predicate Narrowed(original: Proposal, approved: Proposal) {
    && SameOtherwise(original, approved)
    && ListsNarrow(ScopeLists(original), ScopeLists(approved))
    && NarrowsExpiry(original.applicability.expiresAt, approved.applicability.expiresAt)
  }

  method ValidateNarrowedProposal(original: Proposal, approved: Proposal) returns (accepted: bool)
    ensures accepted <==> Narrowed(original, approved)
  {
    hide ScopeLists, SameOtherwise, StrictlyNarrows;
    if !SameOtherwise(original, approved) { return false; }
    var strictlyNarrower := false;
    var o, a := ScopeLists(original), ScopeLists(approved);
    for i := 0 to 4
      invariant forall k | 0 <= k < i :: NarrowsList(o[k], a[k])
      invariant strictlyNarrower <==> exists k | 0 <= k < i :: StrictlyNarrows(o[k], a[k])
    {
      var valid, strict := NarrowedComparableSet(o[i], a[i]);
      if !valid { return false; }
      strictlyNarrower := strictlyNarrower || strict;
    }
    if !NarrowsExpiry(original.applicability.expiresAt, approved.applicability.expiresAt) { return false; }
    return strictlyNarrower;
  }

  datatype Mode = AsProposed | NarrowedMode | UserEdited

  /** `valid` is the verdict of the validators and `hash` the content hash; nothing is assumed about it. */
  method ValidateApprovedProposal(original: Proposal, approved: Proposal, mode: Mode, valid: bool,
                                  hash: Payload -> string)
    returns (accepted: bool)
    ensures mode == AsProposed ==> !accepted
    ensures accepted ==> valid && !approved.pending && approved.scope.project == original.scope.project
    ensures valid && !approved.pending && approved.scope.project == original.scope.project ==>
      && (mode == NarrowedMode ==> (accepted <==> Narrowed(original, approved)))
      && (mode == UserEdited ==>
           (accepted <==> hash(CanonicalPayload(approved)) != hash(CanonicalPayload(original))))
    ensures accepted && mode == UserEdited ==> CanonicalPayload(approved) != CanonicalPayload(original)
  {
    if mode == AsProposed || !valid || approved.pending { return false; }
    if approved.scope.project != original.scope.project { return false; }
    if mode == UserEdited { return hash(CanonicalPayload(approved)) != hash(CanonicalPayload(original)); }
    accepted := ValidateNarrowedProposal(original, approved);
  }

  // ---------------------------------------------------------------- narrowing is sound for selection

  lemma PathsMatchWider(narrow: seq<string>, wide: seq<string>, paths: seq<string>)
    requires PathsMatch(narrow, paths) && forall v | v in narrow :: v in wide
    ensures PathsMatch(wide, paths)
  {
    hide PathMatch.RelativePathPatternMatches;
  }

  /** What narrowing says about normal forms it says about raw, valid lists. */
  lemma NarrowsWithin(original: seq<string>, approved: seq<string>)
    requires Clean(original) && Clean(approved) && NarrowsList(NormalStrings(original), NormalStrings(approved))
    ensures NarrowsList(original, approved)
  {
    hide NormalStrings, Clean;
    forall x
      ensures (x in NormalStrings(original) <==> x in original) && (x in NormalStrings(approved) <==> x in approved)
    {
      CleanMembers(original, x);
      CleanMembers(approved, x);
    }
    if original != [] { assert original[0] in NormalStrings(original); }
    if original != [] && NormalStrings(approved) != [] { assert NormalStrings(approved)[0] in approved; }
  }

  lemma HarnessesWithin(original: seq<string>, approved: seq<string>)
    requires NarrowsList(SortedDistinct(original), SortedDistinct(approved))
    ensures NarrowsList(original, approved)
  {
    hide SortedDistinct;
    if original != [] { assert original[0] in SortedDistinct(original); }
    if original != [] && SortedDistinct(approved) != [] { assert SortedDistinct(approved)[0] in approved; }
  }

  lemma NarrowedScopes(o: Proposal, a: Proposal)
    requires Narrowed(o, a) && ValidLists(o) && ValidLists(a)
    ensures NarrowsList(o.scope.paths, a.scope.paths) && NarrowsList(o.scope.families, a.scope.families)
    ensures NarrowsList(o.scope.models, a.scope.models) && NarrowsList(o.scope.harnesses, a.scope.harnesses)
    ensures a.scope.kind == o.scope.kind && a.scope.project == o.scope.project && a.scope.session == o.scope.session
  {
    ValidListsClean(o);
    ValidListsClean(a);
    hide NormalStrings, SortedDistinct, ValidLists, Clean, NarrowsList, NormalGuidance, NormalVerifier,
         NormalApplicability, TrimSpace;
    var x, y := ScopeLists(o), ScopeLists(a);
    assert NarrowsList(x[0], y[0]) && NarrowsList(x[1], y[1]) && NarrowsList(x[2], y[2]) && NarrowsList(x[3], y[3]);
    NarrowsWithin(o.scope.paths, a.scope.paths);
    NarrowsWithin(o.scope.families, a.scope.families);
    NarrowsWithin(o.scope.models, a.scope.models);
    HarnessesWithin(o.scope.harnesses, a.scope.harnesses);
  }

  lemma NarrowedInScope(o: Proposal, a: Proposal, r: Request)
    requires Narrowed(o, a) && ValidLists(o) && ValidLists(a) && InScope(a, r)
    ensures InScope(o, r)
  {
    hide Narrowed, ValidLists;
    NarrowedScopes(o, a);
  }

  /** Each condition of one proposal has a counterpart of the same kind and patterns in the other. */
  lemma ConditionsAgree(o: Proposal, a: Proposal, c: Condition) returns (d: Condition)
    requires SameOtherwise(o, a) && ValidLists(o) && ValidLists(a) && c in o.applicability.conditions
    ensures d in a.applicability.conditions && d.kind == c.kind && forall v :: v in d.values <==> v in c.values
  {
    ValidListsClean(o);
    ValidListsClean(a);
    hide ValidLists, NormalScope, NormalGuidance, NormalVerifier, NormalStrings, NormalConditions, Clean, TrimSpace;
    NormalConditionsCanonical(o.applicability.conditions, a.applicability.conditions);
    assert NormalCondition(c) in NormalConditionSet(a.applicability.conditions);
    d :| d in a.applicability.conditions && NormalCondition(d) == NormalCondition(c);
    forall v ensures v in d.values <==> v in c.values {
      CleanMembers(c.values, v);
      CleanMembers(d.values, v);
    }
  }

  lemma OtherwiseSymmetric(o: Proposal, a: Proposal)
    requires SameOtherwise(o, a)
    ensures SameOtherwise(a, o)
  {
    hide NormalScope, NormalGuidance, NormalVerifier, NormalApplicability;
  }

  lemma ConditionsAllow(o: Proposal, a: Proposal, r: Request)
    requires SameOtherwise(o, a) && ValidLists(o) && ValidLists(a)
    requires forall c | c in a.applicability.conditions ::
      c.kind == PATH_PATTERN && (r.paths != [] ==> PathsMatch(c.values, r.paths))
    ensures forall c | c in o.applicability.conditions ::
      c.kind == PATH_PATTERN && (r.paths != [] ==> PathsMatch(c.values, r.paths))
  {
    hide ValidLists, PathsMatch, SameOtherwise;
    forall c | c in o.applicability.conditions
      ensures c.kind == PATH_PATTERN && (r.paths != [] ==> PathsMatch(c.values, r.paths))
    {
      var d := ConditionsAgree(o, a, c);
      if r.paths != [] { PathsMatchWider(d.values, c.values, r.paths); }
    }
  }

  lemma ConditionsEmptyTogether(o: Proposal, a: Proposal)
    requires SameOtherwise(o, a) && ValidLists(o) && ValidLists(a)
    ensures o.applicability.conditions == [] <==> a.applicability.conditions == []
  {
    OtherwiseSymmetric(o, a);
    hide ValidLists, SameOtherwise;
    if o.applicability.conditions != [] { var d := ConditionsAgree(o, a, o.applicability.conditions[0]); }
    if a.applicability.conditions != [] { var d := ConditionsAgree(a, o, a.applicability.conditions[0]); }
  }

  lemma NarrowedOtherwise(o: Proposal, a: Proposal)
    requires Narrowed(o, a)
    ensures SameOtherwise(o, a)
  {
    hide SameOtherwise, ScopeLists;
  }

  lemma NarrowedPathsAllow(o: Proposal, a: Proposal, r: Request)
    requires Narrowed(o, a) && ValidLists(o) && ValidLists(a) && PathsAllow(a, r)
    ensures PathsAllow(o, r)
    ensures o.applicability.conditions == [] <==> a.applicability.conditions == []
  {
    hide Narrowed, ValidLists, PathsMatch, SameOtherwise;
    NarrowedOtherwise(o, a);
    NarrowedScopes(o, a);
    ConditionsAllow(o, a, r);
    ConditionsEmptyTogether(o, a);
    if r.paths != [] && o.scope.paths != [] { PathsMatchWider(a.scope.paths, o.scope.paths, r.paths); }
  }

  /** The terms of the parts a narrowing cannot change. */
  function FixedTerms(lex: Lexicon, p: Proposal): set<string> {
    Terms(lex, p.applicability.description) + Terms(lex, p.guidance.instruction) + Terms(lex, p.guidance.rationale)
  }

  lemma SameTexts(o: Proposal, a: Proposal)
    requires SameOtherwise(o, a)
    ensures TrimSpace(o.applicability.description) == TrimSpace(a.applicability.description)
    ensures TrimSpace(o.guidance.instruction) == TrimSpace(a.guidance.instruction)
    ensures TrimSpace(o.guidance.rationale) == TrimSpace(a.guidance.rationale)
  {
    hide NormalScope, NormalVerifier, NormalStrings, NormalConditions, TrimSpace;
  }

  lemma NarrowedTerms(lex: Lexicon, o: Proposal, a: Proposal)
    requires Narrowed(o, a) && ValidLists(o) && ValidLists(a)
    ensures FixedTerms(lex, o) == FixedTerms(lex, a)
    ensures o.scope.families != [] ==> FamilyTerms(lex, a.scope.families) <= FamilyTerms(lex, o.scope.families)
    ensures TextTerms(lex, o) == FixedTerms(lex, o) + FamilyTerms(lex, o.scope.families)
    ensures TextTerms(lex, a) == FixedTerms(lex, a) + FamilyTerms(lex, a.scope.families)
  {
    hide Narrowed, SameOtherwise, ValidLists, TrimSpace;
    NarrowedOtherwise(o, a);
    NarrowedScopes(o, a);
    SameTexts(o, a);
  }

  /** Narrowing is sound for selection, exactly under a condition that can be read off the two
      proposals and the request: if the approved proposal is eligible, so is the original one, unless
      the approval put task families where there were none, the request carries no path, the original
      restricts paths, and the hint shares no term with the unchanged text. */
  lemma NarrowingSoundness(lex: Lexicon, o: Proposal, a: Proposal, r: Request)
    requires Narrowed(o, a) && ValidLists(o) && ValidLists(a) && Eligible(lex, a, r)
    ensures Eligible(lex, o, r) <==>
      || r.paths != []
      || o.scope.families != []
      || a.scope.families == []
      || (o.scope.paths == [] && o.applicability.conditions == [])
      || Terms(lex, r.hint) * FixedTerms(lex, o) != {}
  {
    hide Narrowed, ValidLists, PathsAllow, InScope, TextTerms, FixedTerms, Terms, FamilyTerms;
    NarrowedInScope(o, a, r);
    NarrowedPathsAllow(o, a, r);
    NarrowedTerms(lex, o, a);
    NarrowedScopes(o, a);
    assert o.scope.families == [] ==> FamilyTerms(lex, o.scope.families) == {} by { NoFamilyTerms(lex); }
  }

  lemma NoFamilyTerms(lex: Lexicon)
    ensures FamilyTerms(lex, []) == {}
  {
  }

  /** An approved proposal that has not expired was narrowed from one that has not expired. */
  lemma NarrowingKeepsExpiry(o: Proposal, a: Proposal, now: int)
    requires Narrowed(o, a) && (a.applicability.expiresAt.Some? ==> a.applicability.expiresAt.value > now)
    ensures o.applicability.expiresAt.Some? ==> o.applicability.expiresAt.value > now
  {
    hide SameOtherwise, ScopeLists;
  }
}
