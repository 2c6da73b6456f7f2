/** The conflict preflight of a proposal against the active experiences. */
module Conflict {
  import opened Text
  import opened Ordering
  import opened Experience
  import opened Selection
  import opened Disjointness

  datatype Reference = Reference(id: string, version: int)

  predicate RefLe(x: Reference, y: Reference) {
    if x.id != y.id then StrLe(x.id, y.id) else x.version <= y.version
  }

  lemma RefLeOrder()
    ensures TotalPreorder(RefLe)
    ensures forall x, y :: RefLe(x, y) && RefLe(y, x) ==> x == y
  {
    StrLeOrder();
    hide StrLe;
  }

  predicate ValidRef(ref: Reference) {
    ValidIdentifier(ref.id) && ref.version >= 1
  }

  /** `checked` is the verdict of the validator on the fields that play no part here. */
  datatype Active = Active(ref: Reference, scope: Scope, verifier: Verifier, checked: bool) {
    predicate Valid() {
      checked && ValidRef(ref) && ValidScope(scope) && WellFormed(verifier)
    }
  }

  datatype SemanticProposal = SemanticProposal(id: string, scope: Scope, verifier: Verifier, checked: bool) {
    predicate Valid() {
      checked && ValidIdentifier(id) && ValidScope(scope) && WellFormed(verifier)
    }
  }

  datatype State = NoConflict | PossibleOverlap | PossibleContradiction

  datatype Advisory = Advisory(proposal: string, state: State, refs: seq<Reference>, reasons: seq<string>)

  const MAX_REFS := 64
  const MAX_REASONS := 16

  const NO_ACTIVE := "no_active_experiences"
  const OVERLAPPING_SCOPE := "overlapping_scope"
  const REFS_TRUNCATED := "experience_refs_truncated"
  const QUERY_CAP := "active_experience_query_cap_reached"

  const REASONS: seq<string> := [
    NO_ACTIVE, DIFFERENT_PROJECT, DISJOINT_SESSION, DISJOINT_HARNESSES, DISJOINT_MODELS, DISJOINT_TASK_FAMILIES,
    OVERLAPPING_SCOPE, FILE_OPPOSITION, PATTERN_OPPOSITION, REFS_TRUNCATED, QUERY_CAP
  ]

  /** Advisory.Validate. */
  predicate ValidAdvisory(a: Advisory) {
    && ValidIdentifier(a.proposal) && |a.refs| <= MAX_REFS && 0 < |a.reasons| <= MAX_REASONS
    && (a.state == NoConflict ==> a.refs == [] && QUERY_CAP !in a.reasons)
    && (forall ref | ref in a.refs :: ValidRef(ref)) && NoRepeats(a.refs)
    && (forall reason | reason in a.reasons :: reason in REASONS) && NoRepeats(a.reasons)
    && (a.state == PossibleOverlap && a.refs == [] ==> QUERY_CAP in a.reasons)
    && (a.state == PossibleContradiction ==> a.refs != [])
  }

  // ---------------------------------------------------------------- what the preflight finds

  predicate Overlaps(p: SemanticProposal, a: Active) {
    ScopesProvenDisjoint(p.scope, a.scope) == None
  }

  predicate Opposes(p: SemanticProposal, a: Active) {
    Overlaps(p, a) && WellFormed(p.verifier) && WellFormed(a.verifier) &&
      VerifierOpposition(p.verifier, a.verifier).Some?
  }

  /** The reason recorded for one active experience. */
  function ReasonOf(p: SemanticProposal, a: Active): string
    requires WellFormed(p.verifier) && WellFormed(a.verifier)
  {
    if !Overlaps(p, a) then ScopesProvenDisjoint(p.scope, a.scope).value
    else if Opposes(p, a) then VerifierOpposition(p.verifier, a.verifier).value
    else OVERLAPPING_SCOPE
  }

  ghost function OverlappingRefs(p: SemanticProposal, actives: seq<Active>): set<Reference> {
    set a | a in actives && Overlaps(p, a) :: a.ref
  }

  ghost function DisjointReasons(p: SemanticProposal, actives: seq<Active>): set<string>
    requires WellFormed(p.verifier) && AllValid(actives)
  {
    set a | a in actives && !Overlaps(p, a) :: ReasonOf(p, a)
  }

  ghost function ConflictReasons(p: SemanticProposal, actives: seq<Active>): set<string>
    requires WellFormed(p.verifier) && AllValid(actives)
  {
    set a | a in actives && Overlaps(p, a) :: ReasonOf(p, a)
  }

  ghost predicate AllValid(actives: seq<Active>) {
    forall a | a in actives :: a.Valid()
  }

  /** The first `cap` members of a set in order. */
  ghost predicate ListsFirst<T(!new)>(le: (T, T) -> bool, s: seq<T>, members: set<T>, cap: nat) {
    exists all :: Lists(le, all, members) && s == if |all| > cap then all[..cap] else all
  }

  ghost predicate AnyOpposes(p: SemanticProposal, actives: seq<Active>) {
    exists a | a in actives :: Opposes(p, a)
  }

  ghost function StateFor(p: SemanticProposal, actives: seq<Active>): State {
    if AnyOpposes(p, actives) then PossibleContradiction
    else if exists a | a in actives :: Overlaps(p, a) then PossibleOverlap
    else NoConflict
  }

  ghost function ReasonsFor(p: SemanticProposal, actives: seq<Active>): set<string>
    requires WellFormed(p.verifier) && AllValid(actives)
  {
    if actives == [] then {NO_ACTIVE}
    else if OverlappingRefs(p, actives) == {} then DisjointReasons(p, actives)
    else ConflictReasons(p, actives) + if |OverlappingRefs(p, actives)| > MAX_REFS then {REFS_TRUNCATED} else {}
  }

  /** The advisory that the set of active experiences calls for. */
  ghost predicate Advises(p: SemanticProposal, actives: seq<Active>, a: Advisory)
    requires WellFormed(p.verifier) && AllValid(actives)
  {
    && a.proposal == p.id && a.state == StateFor(p, actives)
    && ListsFirst(RefLe, a.refs, OverlappingRefs(p, actives), MAX_REFS)
    && Lists(StrLe, a.reasons, ReasonsFor(p, actives))
  }

  // ---------------------------------------------------------------- the preflight

  /** What the loop has found among the experiences it has seen. */
  ghost predicate Found(p: SemanticProposal, seen: seq<Active>, refs: set<Reference>,
                        disjoint: set<string>, conflict: set<string>, contradiction: bool)
    requires WellFormed(p.verifier)
  {
    && AllValid(seen) && refs == OverlappingRefs(p, seen) && disjoint == DisjointReasons(p, seen)
    && conflict == ConflictReasons(p, seen) && (contradiction <==> AnyOpposes(p, seen))
  }

  lemma FoundNothing(p: SemanticProposal)
    requires WellFormed(p.verifier)
    ensures Found(p, [], {}, {}, {}, false)
  {
  }

  lemma ExtendFindings(p: SemanticProposal, s: seq<Active>, a: Active)
    requires WellFormed(p.verifier) && AllValid(s) && a.Valid()
    ensures AllValid(s + [a]) && WellFormed(a.verifier)
    ensures OverlappingRefs(p, s + [a]) == OverlappingRefs(p, s) + if Overlaps(p, a) then {a.ref} else {}
    ensures DisjointReasons(p, s + [a]) == DisjointReasons(p, s) + if Overlaps(p, a) then {} else {ReasonOf(p, a)}
    ensures ConflictReasons(p, s + [a]) == ConflictReasons(p, s) + if Overlaps(p, a) then {ReasonOf(p, a)} else {}
    ensures AnyOpposes(p, s + [a]) <==> AnyOpposes(p, s) || Opposes(p, a)
  {
    hide Overlaps, ReasonOf, Opposes, WellFormed;
    assert forall x | x in s :: x in s + [a];
    assert a in s + [a];
  }

  /** One more experience, whichever of the three things it turns out to be. */
  lemma FoundDisjoint(p: SemanticProposal, seen: seq<Active>, a: Active, refs: set<Reference>,
                      disjoint: set<string>, conflict: set<string>, contradiction: bool)
    requires WellFormed(p.verifier) && Found(p, seen, refs, disjoint, conflict, contradiction)
    requires a.Valid() && !Overlaps(p, a)
    ensures Found(p, seen + [a], refs, disjoint + {ReasonOf(p, a)}, conflict, contradiction)
  {
    ExtendFindings(p, seen, a);
    hide Overlaps, ReasonOf, OverlappingRefs, DisjointReasons, ConflictReasons, AnyOpposes, AllValid, WellFormed,
         VerifierOpposition;
    assert refs + {} == refs && conflict + {} == conflict;
  }

  lemma FoundOverlap(p: SemanticProposal, seen: seq<Active>, a: Active, refs: set<Reference>,
                     disjoint: set<string>, conflict: set<string>, contradiction: bool)
    requires WellFormed(p.verifier) && Found(p, seen, refs, disjoint, conflict, contradiction)
    requires a.Valid() && Overlaps(p, a)
    ensures WellFormed(a.verifier)
    ensures Found(p, seen + [a], refs + {a.ref}, disjoint, conflict + {ReasonOf(p, a)}, contradiction || Opposes(p, a))
  {
    ExtendFindings(p, seen, a);
    hide Overlaps, ReasonOf, Opposes, OverlappingRefs, DisjointReasons, ConflictReasons, AnyOpposes, AllValid,
         WellFormed;
    assert disjoint + {} == disjoint;
  }

  lemma FoundStep(p: SemanticProposal, actives: seq<Active>, i: nat, refs: set<Reference>,
                  disjoint: set<string>, conflict: set<string>, contradiction: bool)
    requires WellFormed(p.verifier) && i < |actives| && Found(p, actives[..i], refs, disjoint, conflict, contradiction)
    requires actives[i].Valid()
    ensures WellFormed(actives[i].verifier)
    ensures !Overlaps(p, actives[i]) ==>
      Found(p, actives[..i + 1], refs, disjoint + {ReasonOf(p, actives[i])}, conflict, contradiction)
    ensures Overlaps(p, actives[i]) ==>
      Found(p, actives[..i + 1], refs + {actives[i].ref}, disjoint, conflict + {ReasonOf(p, actives[i])},
            contradiction || Opposes(p, actives[i]))
  {
    hide Found, Overlaps, ReasonOf, Opposes, WellFormed;
    assert actives[..i + 1] == actives[..i] + [actives[i]];
    if Overlaps(p, actives[i]) {
      FoundOverlap(p, actives[..i], actives[i], refs, disjoint, conflict, contradiction);
    } else {
      FoundDisjoint(p, actives[..i], actives[i], refs, disjoint, conflict, contradiction);
    }
  }

  lemma InvalidMember(p: SemanticProposal, actives: seq<Active>, i: nat, refs: set<Reference>,
                      disjoint: set<string>, conflict: set<string>, contradiction: bool)
    requires WellFormed(p.verifier) && i < |actives| && Found(p, actives[..i], refs, disjoint, conflict, contradiction)
    requires !actives[i].Valid()
    ensures !AllValid(actives)
  {
    assert actives[i] in actives;
  }

  /** None stands for the validation error. */
  method Preflight(p: SemanticProposal, actives: seq<Active>) returns (r: Option<Advisory>)
    ensures r.Some? <==> p.Valid() && AllValid(actives)
    ensures r.Some? ==> Advises(p, actives, r.value)
  {
    hide ValidIdentifier, ValidScope, ScopesProvenDisjoint, VerifierOpposition, StrLe, RefLe, TotalPreorder,
         StrictlySorted, ValidRef;
    hide AllValid, OverlappingRefs, DisjointReasons, ConflictReasons, AnyOpposes, Lists, ListsFirst, StateFor,
         WellFormed, Found;
    RefLeOrder();
    StrLeOrder();
    if !p.Valid() { return None; }
    if |actives| == 0 {
      EmptyAdvice(p);
      return Some(Advisory(p.id, NoConflict, [], [NO_ACTIVE]));
    }
    var disjointReasons: set<string> := {};
    var conflictReasons: set<string> := {};
    var refs: set<Reference> := {};
    var contradiction := false;
    FoundNothing(p);
    for i := 0 to |actives|
      invariant Found(p, actives[..i], refs, disjointReasons, conflictReasons, contradiction)
    {
      var active := actives[i];
      if !active.Valid() {
        InvalidMember(p, actives, i, refs, disjointReasons, conflictReasons, contradiction);
        return None;
      }
      FoundStep(p, actives, i, refs, disjointReasons, conflictReasons, contradiction);
      var disjoint := ScopesProvenDisjoint(p.scope, active.scope);
      if disjoint.Some? {
        disjointReasons := disjointReasons + {disjoint.value};
        continue;
      }
      refs := refs + {active.ref};
      var opposed := VerifierOpposition(p.verifier, active.verifier);
      if opposed.Some? {
        contradiction := true;
        conflictReasons := conflictReasons + {opposed.value};
        continue;
      }
      conflictReasons := conflictReasons + {OVERLAPPING_SCOPE};
    }
    assert actives[..|actives|] == actives;
    FoundAll(p, actives, refs, disjointReasons, conflictReasons, contradiction);
    if refs == {} {
      var reasons := SortedMembers(StrLe, disjointReasons);
      NothingListed(RefLe, MAX_REFS);
      return Some(Advisory(p.id, NoConflict, [], reasons));
    }
    var sortedRefs := SortedMembers(RefLe, refs);
    FirstListed(RefLe, sortedRefs, refs, MAX_REFS);
    if |sortedRefs| > MAX_REFS {
      sortedRefs := sortedRefs[..MAX_REFS];
      conflictReasons := conflictReasons + {REFS_TRUNCATED};
    }
    var reasons := SortedMembers(StrLe, conflictReasons);
    return Some(Advisory(p.id, if contradiction then PossibleContradiction else PossibleOverlap, sortedRefs, reasons));
  }

  lemma EmptyAdvice(p: SemanticProposal)
    requires p.Valid()
    ensures AllValid([]) && Advises(p, [], Advisory(p.id, NoConflict, [], [NO_ACTIVE]))
  {
    hide StrLe, RefLe, ValidScope, ValidIdentifier, WellFormed, AllValid, OverlappingRefs, StateFor, ListsFirst, Lists,
         AnyOpposes;
    FoundNothing(p);
    StateByFindings(p, []);
    NothingListed(RefLe, MAX_REFS);
    OneListed(StrLe, NO_ACTIVE);
  }

  lemma OneListed<T(!new)>(le: (T, T) -> bool, x: T)
    ensures Lists(le, [x], {x})
  {
  }

  lemma FirstListed<T(!new)>(le: (T, T) -> bool, all: seq<T>, members: set<T>, cap: nat)
    requires Lists(le, all, members)
    ensures ListsFirst(le, if |all| > cap then all[..cap] else all, members, cap)
  {
    hide Lists;
  }

  lemma NothingListed<T(!new)>(le: (T, T) -> bool, cap: nat)
    ensures ListsFirst(le, [], {}, cap)
  {
    var none: seq<T> := [];
    assert Lists(le, none, {});
  }

  lemma FoundAll(p: SemanticProposal, actives: seq<Active>, refs: set<Reference>,
                 disjoint: set<string>, conflict: set<string>, contradiction: bool)
    requires WellFormed(p.verifier) && actives != [] && Found(p, actives, refs, disjoint, conflict, contradiction)
    ensures AllValid(actives) && refs == OverlappingRefs(p, actives)
    ensures ReasonsFor(p, actives) ==
      if refs == {} then disjoint else conflict + if |refs| > MAX_REFS then {REFS_TRUNCATED} else {}
    ensures StateFor(p, actives) ==
      if refs == {} then NoConflict else if contradiction then PossibleContradiction else PossibleOverlap
  {
    StateByFindings(p, actives);
    hide StateFor, AnyOpposes, OverlappingRefs, DisjointReasons, ConflictReasons, AllValid;
  }

  lemma StateByFindings(p: SemanticProposal, actives: seq<Active>)
    ensures StateFor(p, actives) == NoConflict <==> OverlappingRefs(p, actives) == {}
    ensures StateFor(p, actives) == PossibleContradiction <==> AnyOpposes(p, actives)
  {
    hide Overlaps, Disjointness.VerifierOpposition;
    if a :| a in actives && Overlaps(p, a) { assert a.ref in OverlappingRefs(p, actives); }
  }

  // ---------------------------------------------------------------- what the advisory is worth

  lemma ListsUnique<T(!new)>(le: (T, T) -> bool, a: seq<T>, b: seq<T>, members: set<T>)
    requires Lists(le, a, members) && Lists(le, b, members)
    requires forall x, y :: le(x, y) && le(y, x) ==> x == y
    ensures a == b
  {
    StrictUnique(le, a, b);
  }

  /** The advisory depends only on which experiences are active: neither their order nor repetitions
      nor the order in which maps are walked matter. */
  lemma AdvisoryDeterminate(p: SemanticProposal, a: seq<Active>, b: seq<Active>, x: Advisory, y: Advisory)
    requires p.Valid() && AllValid(a) && AllValid(b) && Advises(p, a, x) && Advises(p, b, y)
    requires forall active :: active in a <==> active in b
    ensures x == y
  {
    hide StrLe, RefLe, Overlaps, Opposes, ReasonOf, StrictlySorted, Lists, AllValid, ValidScope, ValidIdentifier,
         WellFormed;
    RefLeOrder();
    StrLeOrder();
    assert OverlappingRefs(p, a) == OverlappingRefs(p, b);
    assert DisjointReasons(p, a) == DisjointReasons(p, b) && ConflictReasons(p, a) == ConflictReasons(p, b);
    assert a == [] <==> b == [] by {
      if a != [] { assert a[0] in b; }
      if b != [] { assert b[0] in a; }
    }
    assert StateFor(p, a) == StateFor(p, b);
    ListsUnique(StrLe, x.reasons, y.reasons, ReasonsFor(p, a));
    var refs := OverlappingRefs(p, a);
    var s :| Lists(RefLe, s, refs) && x.refs == if |s| > MAX_REFS then s[..MAX_REFS] else s;
    var t :| Lists(RefLe, t, refs) && y.refs == if |t| > MAX_REFS then t[..MAX_REFS] else t;
    ListsUnique(RefLe, s, t, refs);
  }

  /** No conflict is claimed only when no request can reach the proposal and an active experience
      together without the help of a shared term. */
  lemma NoConflictIsSound(lex: Lexicon, p: SemanticProposal, actives: seq<Active>, a: Active,
                          proposed: Proposal, active: Proposal, r: Request)
    requires p.Valid() && AllValid(actives) && a in actives && StateFor(p, actives) == NoConflict
    requires proposed.scope == p.scope && active.scope == a.scope
    requires Eligible(lex, proposed, r) && Eligible(lex, active, r)
    ensures SharedTerms(lex, proposed, r) != {} || SharedTerms(lex, active, r) != {}
    ensures ScopesProvenDisjoint(p.scope, a.scope) == Some(DISJOINT_TASK_FAMILIES)
  {
    hide Eligible, SharedTerms, ScopesProvenDisjoint;
    assert !Overlaps(p, a);
    DisjointIsSound(lex, proposed, active, r);
  }

  // ---------------------------------------------------------------- the advisory validates

  const CONFLICT_REASONS: set<string> := {OVERLAPPING_SCOPE, FILE_OPPOSITION, PATTERN_OPPOSITION}
  const DISJOINT_REASONS: set<string> := {
    DIFFERENT_PROJECT, DISJOINT_SESSION, DISJOINT_HARNESSES, DISJOINT_MODELS, DISJOINT_TASK_FAMILIES
  }

  lemma ReasonKnown(p: SemanticProposal, a: Active)
    requires WellFormed(p.verifier) && WellFormed(a.verifier)
    ensures Overlaps(p, a) ==> ReasonOf(p, a) in CONFLICT_REASONS
    ensures !Overlaps(p, a) ==> ReasonOf(p, a) in DISJOINT_REASONS
  {
    hide MatchesAny, SetsDisjoint;
  }

  lemma Known(reason: string)
    requires reason in CONFLICT_REASONS + DISJOINT_REASONS + {NO_ACTIVE, REFS_TRUNCATED}
    ensures reason in REASONS && reason != QUERY_CAP
  {
    assert REASONS[0] == NO_ACTIVE && REASONS[1] == DIFFERENT_PROJECT && REASONS[2] == DISJOINT_SESSION &&
      REASONS[3] == DISJOINT_HARNESSES;
    assert REASONS[4] == DISJOINT_MODELS && REASONS[5] == DISJOINT_TASK_FAMILIES && REASONS[6] == OVERLAPPING_SCOPE;
    assert REASONS[7] == FILE_OPPOSITION && REASONS[8] == PATTERN_OPPOSITION && REASONS[9] == REFS_TRUNCATED;
    assert |QUERY_CAP| == 35;
  }

  lemma ReasonsKnown(p: SemanticProposal, actives: seq<Active>, reason: string)
    requires WellFormed(p.verifier) && AllValid(actives) && reason in ReasonsFor(p, actives)
    ensures reason in REASONS && reason != QUERY_CAP
  {
    hide Overlaps, ReasonOf, ValidScope, ValidRef, WellFormed;
    if reason != NO_ACTIVE && reason != REFS_TRUNCATED {
      var a :| a in actives && ReasonOf(p, a) == reason;
      ReasonKnown(p, a);
    }
    Known(reason);
  }

  lemma ReasonsExist(p: SemanticProposal, actives: seq<Active>)
    requires WellFormed(p.verifier) && AllValid(actives)
    ensures ReasonsFor(p, actives) != {}
  {
    hide Overlaps, ReasonOf, ValidScope, ValidRef, WellFormed;
    var refs := OverlappingRefs(p, actives);
    if refs != {} {
      var ref :| ref in refs;
      var a :| a in actives && Overlaps(p, a) && a.ref == ref;
      assert ReasonOf(p, a) in ConflictReasons(p, actives);
    } else if actives != [] {
      var a := actives[0];
      assert a in actives;
      assert a.ref !in refs;
      assert ReasonOf(p, a) in DisjointReasons(p, actives);
    }
  }

  lemma ReasonsValid(p: SemanticProposal, actives: seq<Active>, reasons: seq<string>)
    requires WellFormed(p.verifier) && AllValid(actives) && Lists(StrLe, reasons, ReasonsFor(p, actives))
    ensures 0 < |reasons| <= MAX_REASONS && NoRepeats(reasons)
    ensures forall reason | reason in reasons :: reason in REASONS && reason != QUERY_CAP
  {
    StrictNoRepeats(StrLe, reasons);
    ReasonsExist(p, actives);
    hide ReasonsFor, StrictlySorted, NoRepeats, AllValid, WellFormed;
    assert reasons != [] by { var reason :| reason in ReasonsFor(p, actives); assert reason in reasons; }
    forall reason | reason in reasons
      ensures reason in REASONS && reason != QUERY_CAP
    { ReasonsKnown(p, actives, reason); }
    SubsetShorter(reasons, REASONS);
  }

  lemma RefsValid(p: SemanticProposal, actives: seq<Active>, refs: seq<Reference>)
    requires AllValid(actives) && ListsFirst(RefLe, refs, OverlappingRefs(p, actives), MAX_REFS)
    ensures |refs| <= MAX_REFS && NoRepeats(refs)
    ensures forall ref | ref in refs :: ValidRef(ref)
    ensures refs == [] <==> OverlappingRefs(p, actives) == {}
  {
    hide RefLe, ValidScope, WellFormed, ValidIdentifier, Overlaps;
    var members := OverlappingRefs(p, actives);
    var all :| Lists(RefLe, all, members) && refs == if |all| > MAX_REFS then all[..MAX_REFS] else all;
    StrictNoRepeats(RefLe, all);
    hide StrictlySorted;
    forall ref | ref in refs ensures ValidRef(ref) {
      assert ref in all;
      var a :| a in actives && a.ref == ref;
      assert a.Valid();
    }
    if members != {} {
      var ref :| ref in members;
      assert ref in all;
    }
    if all != [] { assert all[0] in members; }
  }

  /** Whatever the preflight finds, its own final validation accepts: the only errors are invalid inputs. */
  lemma AdvisoryValidates(p: SemanticProposal, actives: seq<Active>, a: Advisory)
    requires p.Valid() && AllValid(actives) && Advises(p, actives, a)
    ensures ValidAdvisory(a)
  {
    hide AllValid, ListsFirst, Lists, ReasonsFor, OverlappingRefs, StateFor, WellFormed, ValidScope, ValidIdentifier,
         ValidRef, NoRepeats, AnyOpposes;
    ReasonsValid(p, actives, a.reasons);
    RefsValid(p, actives, a.refs);
    StateByFindings(p, actives);
  }

  // ---------------------------------------------------------------- an incomplete active set

  /** MarkConflictActiveQueryCapReached; None stands for the validation error. */
  method MarkQueryCap(a: Advisory) returns (r: Option<Advisory>)
    ensures r.Some? <==> ValidAdvisory(a)
    ensures r.Some? ==> ValidAdvisory(r.value)
    ensures r.Some? ==> r.value.proposal == a.proposal && r.value.refs == a.refs
    ensures r.Some? ==> r.value.state == if a.state == NoConflict then PossibleOverlap else a.state
    ensures r.Some? ==> forall reason :: reason in r.value.reasons <==> reason in a.reasons || reason == QUERY_CAP
  {
    hide ValidAdvisory;
    if !ValidAdvisory(a) { return None; }
    ReasonsListed(a);
    var value := a.(state := if a.state == NoConflict then PossibleOverlap else a.state);
    var found := false;
    for i := 0 to |value.reasons|
      invariant !found && QUERY_CAP !in value.reasons[..i]
    {
      if value.reasons[i] == QUERY_CAP {
        found := true;
        break;
      }
    }
    if !found {
      assert value.reasons[..|value.reasons|] == value.reasons;
      WithQueryCap(a);
      value := value.(reasons := SortBy(StrLe, value.reasons + [QUERY_CAP]));
    }
    MarkedValidates(a, value);
    return Some(value);
  }

  lemma MarkedValidates(a: Advisory, b: Advisory)
    requires ValidAdvisory(a) && b.proposal == a.proposal && b.refs == a.refs
    requires b.state == if a.state == NoConflict then PossibleOverlap else a.state
    requires QUERY_CAP in b.reasons && |b.reasons| <= MAX_REASONS && NoRepeats(b.reasons)
    requires forall reason | reason in b.reasons :: reason in REASONS
    ensures ValidAdvisory(b)
  {
    hide ValidIdentifier, ValidRef, NoRepeats;
  }

  lemma ReasonsListed(a: Advisory)
    requires ValidAdvisory(a)
    ensures NoRepeats(a.reasons) && |a.reasons| <= MAX_REASONS
    ensures forall reason | reason in a.reasons :: reason in REASONS
  {
  }

  lemma WithQueryCap(a: Advisory)
    requires ValidAdvisory(a) && QUERY_CAP !in a.reasons
    ensures var r := SortBy(StrLe, a.reasons + [QUERY_CAP]);
      NoRepeats(r) && |r| <= MAX_REASONS && forall reason :: reason in r <==> reason in a.reasons || reason == QUERY_CAP
    ensures QUERY_CAP in REASONS
  {
    ReasonsListed(a);
    hide ValidAdvisory;
    assert REASONS[10] == QUERY_CAP;
    var s := a.reasons + [QUERY_CAP];
    StrLeOrder();
    assert NoRepeats(s);
    StrictFromDistinct(StrLe, s);
    StrictNoRepeats(StrLe, SortBy(StrLe, s));
    hide NoRepeats, StrLe, StrictlySorted, TotalPreorder;
    assert |SortBy(StrLe, s)| == |multiset(SortBy(StrLe, s))| == |multiset(s)| == |s|;
    SubsetShorter(s, REASONS);
  }
}
