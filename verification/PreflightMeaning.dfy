/** What an advisory says, in terms of the scopes, the verifiers and the references of the active
    experiences alone. */
module PreflightMeaning {
  import opened Text
  import opened Ordering
  import opened Experience
  import opened Disjointness
  import opened Conflict

  // ---------------------------------------------------------------- scopes

  /** Both lists restrict, and have nothing in common. */
  ghost predicate NoneShared(a: seq<string>, b: seq<string>) {
    a != [] && b != [] && !exists v :: v in a && v in b
  }

  predicate OtherSession(x: Scope, y: Scope) {
    x.kind == y.kind == SessionScope && x.session != y.session
  }

  /** No request is in both scopes. */
  ghost predicate Apart(x: Scope, y: Scope) {
    x.project != y.project || OtherSession(x, y) || NoneShared(x.harnesses, y.harnesses) ||
    NoneShared(x.models, y.models) || NoneShared(x.families, y.families)
  }

  /** The first respect in which two scopes are apart. */
  ghost predicate ApartBy(x: Scope, y: Scope, reason: string) {
    if x.project != y.project then reason == "different_project"
    else if OtherSession(x, y) then reason == "disjoint_session"
    else if NoneShared(x.harnesses, y.harnesses) then reason == "disjoint_harnesses"
    else if NoneShared(x.models, y.models) then reason == "disjoint_models"
    else NoneShared(x.families, y.families) && reason == "disjoint_task_families"
  }

  lemma SharedWhen(a: seq<string>, b: seq<string>)
    ensures SetsDisjoint(a, b) <==> NoneShared(a, b)
  {
    if v :| v in a && v in b { assert !SetsDisjoint(a, b); }
  }

  lemma ApartWhen(x: Scope, y: Scope)
    ensures ScopesProvenDisjoint(x, y).Some? <==> Apart(x, y)
    ensures forall reason :: ScopesProvenDisjoint(x, y) == Some(reason) <==> ApartBy(x, y, reason)
  {
    SharedWhen(x.harnesses, y.harnesses);
    SharedWhen(x.models, y.models);
    SharedWhen(x.families, y.families);
    hide SetsDisjoint, NoneShared;
  }

  // ---------------------------------------------------------------- verifiers

  /** No set of modified files satisfies both verifiers. */
  ghost predicate Irreconcilable(v: Verifier, w: Verifier)
    requires WellFormed(v) && WellFormed(w)
  {
    forall modified: set<string> :: !(SatisfiedBy(v, modified) && SatisfiedBy(w, modified))
  }

  /** One wants a file modified that the other wants untouched. */
  predicate FileAgainstFile(v: Verifier, w: Verifier)
    requires WellFormed(v) && WellFormed(w)
  {
    v.kind == "file_modified" && w.kind == "file_not_modified" && v.spec.path == w.spec.path
  }

  /** One wants a file modified that a pattern of the other forbids to modify. */
  ghost predicate FileAgainstPattern(v: Verifier, w: Verifier)
    requires WellFormed(v) && WellFormed(w)
  {
    && v.kind == "file_modified" && w.kind == "path_pattern_not_modified"
    && exists pattern :: pattern in w.spec.patterns && PathMatch.RelativePathPatternMatches(pattern, v.spec.path)
  }

  ghost predicate OpposedBy(v: Verifier, w: Verifier, reason: string)
    requires WellFormed(v) && WellFormed(w)
  {
    if FileAgainstFile(v, w) || FileAgainstFile(w, v) then reason == "file_verifier_opposition"
    else (FileAgainstPattern(v, w) || FileAgainstPattern(w, v)) && reason == "path_pattern_verifier_opposition"
  }

  lemma KindsDiffer()
    ensures FILE_MODIFIED != FILE_NOT_MODIFIED && FILE_MODIFIED != PATTERN_NOT_MODIFIED
    ensures FILE_NOT_MODIFIED != PATTERN_NOT_MODIFIED
  {
    assert FILE_MODIFIED[5] == 'm' && FILE_NOT_MODIFIED[5] == 'n' && PATTERN_NOT_MODIFIED[5] == 'p';
    assert |FILE_MODIFIED| == 13 && |FILE_NOT_MODIFIED| == 17 && |PATTERN_NOT_MODIFIED| == 25;
  }

  lemma OpposedWhen(v: Verifier, w: Verifier)
    requires WellFormed(v) && WellFormed(w)
    ensures VerifierOpposition(v, w).Some? <==> Irreconcilable(v, w)
    ensures forall reason :: VerifierOpposition(v, w) == Some(reason) <==> OpposedBy(v, w, reason)
  {
    OppositionIsExact(v, w);
    KindsDiffer();
    OppositionReasons(v, w);
    hide VerifierOpposition, OpposedBy, SatisfiedBy;
  }

  lemma OppositionReasons(v: Verifier, w: Verifier)
    requires WellFormed(v) && WellFormed(w)
    ensures forall reason :: VerifierOpposition(v, w) == Some(reason) <==> OpposedBy(v, w, reason)
  {
    KindsDiffer();
    hide PathMatch.RelativePathPatternMatches;
  }

  // ---------------------------------------------------------------- the advisory

  /** The references of the active experiences that are not apart from the proposal. */
  ghost function Touching(p: SemanticProposal, actives: seq<Active>): set<Reference> {
    set x | x in actives && !Apart(p.scope, x.scope) :: x.ref
  }

  predicate Before(x: Reference, y: Reference) {
    (x.id != y.id && StrLe(x.id, y.id)) || (x.id == y.id && x.version < y.version)
  }

  /** The first 64 of the references, in the order of ID and version. */
  ghost predicate ListsTouching(refs: seq<Reference>, touching: set<Reference>) {
    && (forall i, j | 0 <= i < j < |refs| :: Before(refs[i], refs[j])) && |refs| <= 64
    && (forall ref | ref in refs :: ref in touching)
    && (forall ref, listed | ref in touching && ref !in refs && listed in refs :: Before(listed, ref))
    && (forall ref | ref in touching && ref !in refs :: |refs| == 64)
  }

  /** Why this reason is given. */
  ghost predicate CalledFor(p: SemanticProposal, actives: seq<Active>, reason: string)
    requires WellFormed(p.verifier) && AllValid(actives)
  {
    if actives == [] then reason == "no_active_experiences"
    else if AllApart(p, actives) then exists x :: x in actives && ApartBy(p.scope, x.scope, reason)
    else
      (exists x :: x in actives && !Apart(p.scope, x.scope) && TouchReason(p, x, reason)) ||
      (reason == "experience_refs_truncated" && |Touching(p, actives)| > 64)
  }

  ghost predicate TouchReason(p: SemanticProposal, x: Active, reason: string)
    requires WellFormed(p.verifier) && (x.Valid() || WellFormed(x.verifier))
  {
    if Irreconcilable(p.verifier, x.verifier) then OpposedBy(p.verifier, x.verifier, reason)
    else reason == "overlapping_scope"
  }

  ghost predicate AllApart(p: SemanticProposal, actives: seq<Active>) {
    forall x | x in actives :: Apart(p.scope, x.scope)
  }

  /** Some experience not apart has a verifier that no outcome can satisfy together with the proposal's. */
  ghost predicate SomeContradicts(p: SemanticProposal, actives: seq<Active>)
    requires WellFormed(p.verifier) && AllValid(actives)
  {
    exists x :: x in actives && !Apart(p.scope, x.scope) && Irreconcilable(p.verifier, x.verifier)
  }

  lemma ValidWellFormed(actives: seq<Active>)
    requires AllValid(actives)
    ensures forall x | x in actives :: WellFormed(x.verifier)
  {
  }

  lemma OneActive(p: SemanticProposal, x: Active)
    requires WellFormed(p.verifier) && WellFormed(x.verifier)
    ensures Overlaps(p, x) <==> !Apart(p.scope, x.scope)
    ensures Opposes(p, x) <==> !Apart(p.scope, x.scope) && Irreconcilable(p.verifier, x.verifier)
    ensures !Overlaps(p, x) ==> forall reason :: ReasonOf(p, x) == reason <==> ApartBy(p.scope, x.scope, reason)
    ensures Overlaps(p, x) ==> forall reason :: ReasonOf(p, x) == reason <==> TouchReason(p, x, reason)
  {
    ApartWhen(p.scope, x.scope);
    OpposedWhen(p.verifier, x.verifier);
    hide ScopesProvenDisjoint, VerifierOpposition, Apart, ApartBy, Irreconcilable, OpposedBy, WellFormed;
  }

  lemma AllActives(p: SemanticProposal, actives: seq<Active>)
    requires WellFormed(p.verifier) && AllValid(actives)
    ensures OverlappingRefs(p, actives) == Touching(p, actives)
    ensures AnyOpposes(p, actives) <==> SomeContradicts(p, actives)
    ensures (exists x | x in actives :: Overlaps(p, x)) <==> !AllApart(p, actives)
  {
    ValidWellFormed(actives);
    forall x | x in actives { OneActive(p, x); }
    hide Overlaps, Opposes, Apart, Irreconcilable, AllValid, WellFormed, ReasonOf;
  }

  /** The state: no conflict when all are apart, a contradiction when some experience not apart cannot be
      satisfied together with the proposal, otherwise an overlap. */
  lemma StateMeans(p: SemanticProposal, actives: seq<Active>, a: Advisory)
    requires WellFormed(p.verifier) && AllValid(actives) && Advises(p, actives, a)
    ensures a.proposal == p.id && (a.state == NoConflict <==> AllApart(p, actives))
    ensures a.state == PossibleContradiction <==> SomeContradicts(p, actives)
  {
    AllActives(p, actives);
    ValidWellFormed(actives);
    hide AnyOpposes, Overlaps, Apart, Irreconcilable, AllValid, WellFormed, OverlappingRefs, ReasonsFor, ListsFirst;
  }

  lemma RefsMean(p: SemanticProposal, actives: seq<Active>, a: Advisory)
    requires WellFormed(p.verifier) && AllValid(actives) && Advises(p, actives, a)
    ensures ListsTouching(a.refs, Touching(p, actives))
  {
    AllActives(p, actives);
    hide AllValid, WellFormed, OverlappingRefs, Touching, ReasonsFor, StateFor, RefLe, StrLe, Before;
    var all :|
      && Lists(RefLe, all, OverlappingRefs(p, actives))
      && a.refs == if |all| > MAX_REFS then all[..MAX_REFS] else all;
    FirstInOrder(all, a.refs, Touching(p, actives));
  }

  lemma StrictlyBefore(x: Reference, y: Reference)
    requires RefLe(x, y) && x != y
    ensures Before(x, y)
  {
    hide StrLe;
  }

  lemma LateWhen(all: seq<Reference>, n: nat, k: nat)
    requires n <= |all| && k < |all| && all[k] !in all[..n]
    ensures k >= n
  {
    assert forall i | 0 <= i < n :: all[..n][i] in all[..n];
  }

  lemma FirstInOrder(all: seq<Reference>, refs: seq<Reference>, touching: set<Reference>)
    requires Lists(RefLe, all, touching) && refs == if |all| > 64 then all[..64] else all
    ensures ListsTouching(refs, touching)
  {
    RefLeOrder();
    StrictNoRepeats(RefLe, all);
    hide RefLe, Before;
    forall i, j | 0 <= i < j < |all| ensures Before(all[i], all[j]) { StrictlyBefore(all[i], all[j]); }
    forall ref | ref in touching && ref !in refs
      ensures |refs| == 64 && forall listed | listed in refs :: Before(listed, ref)
    {
      var k :| 0 <= k < |all| && all[k] == ref;
      LateWhen(all, 64, k);
      forall listed | listed in refs ensures Before(listed, ref) {
        var i :| 0 <= i < |refs| && refs[i] == listed;
        assert all[i] == listed;
      }
    }
  }

  /** A reason is given exactly when it is called for. */
  lemma ReasonsMean(p: SemanticProposal, actives: seq<Active>, a: Advisory, reason: string)
    requires WellFormed(p.verifier) && AllValid(actives) && Advises(p, actives, a)
    ensures reason in a.reasons <==> CalledFor(p, actives, reason)
  {
    hide AllValid, WellFormed, StateFor, ListsFirst, StrictlySorted, ReasonsFor, CalledFor;
    ReasonCases(p, actives, reason);
  }

  lemma TouchingNone(p: SemanticProposal, actives: seq<Active>)
    ensures Touching(p, actives) == {} <==> AllApart(p, actives)
  {
    hide Apart;
    forall x | x in actives && !Apart(p.scope, x.scope) ensures x.ref in Touching(p, actives) {}
  }

  lemma ReasonCases(p: SemanticProposal, actives: seq<Active>, reason: string)
    requires WellFormed(p.verifier) && AllValid(actives)
    ensures reason in ReasonsFor(p, actives) <==> CalledFor(p, actives, reason)
  {
    AllActives(p, actives);
    ValidWellFormed(actives);
    TouchingNone(p, actives);
    forall x | x in actives { OneActive(p, x); }
    hide Overlaps, Apart, ApartBy, Irreconcilable, AllValid, WellFormed, ReasonOf, Touching, OverlappingRefs,
         TouchReason;
  }
}
