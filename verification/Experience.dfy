/** Experiences, what their validators demand, and their canonical content. */
module Experience {
  import opened Text
  import opened Ordering
  import opened NormalForms
  import Fingerprints

  datatype ScopeKind = ProjectScope | SessionScope

  datatype Scope = Scope(
    kind: ScopeKind, project: string, session: string,
    paths: seq<string>, families: seq<string>, harnesses: seq<string>, models: seq<string>)

  datatype Condition = Condition(kind: string, values: seq<string>)

  const PATH_PATTERN := "path_pattern"

  /** `expiresAt` is in nanoseconds. */
  datatype Applicability = Applicability(
    description: string, conditions: seq<Condition>, exclusions: seq<string>, expiresAt: Option<int>)

  datatype Guidance = Guidance(instruction: string, rationale: string, exceptions: seq<string>, strength: string)

  /** A valid verifier carries exactly one specification. */
  datatype Spec =
    | CommandSpec(command: string, commandClass: string, scrubbing: string)
    | FileSpec(path: string)
    | PatternSpec(patterns: seq<string>)
    | AfterEditSpec(classes: seq<string>, requireSuccess: bool)
    | RepeatSpec(commandClass: string, pattern: string, window: int)
    | CorrectionSpec(markers: seq<string>)
    | ObservationSpec(explanation: string)

  datatype Verifier = Verifier(kind: string, coverage: seq<string>, spec: Spec)

  datatype Proposal = Proposal(
    kind: string, scope: Scope, applicability: Applicability, guidance: Guidance, verifier: Verifier, pending: bool)

  // ---------------------------------------------------------------- validators

  const MAX_LIST_ITEMS := 128
  const MAX_IDENTIFIER_BYTES := 256
  const MAX_PATH_BYTES := 512

  predicate HasControl(s: string) {
    exists i | 0 <= i < |s| :: s[i] < ' ' || s[i] == '\U{7F}'
  }

  predicate ValidIdentifier(s: string) {
    TrimSpace(s) != "" && s == TrimSpace(s) && |s| <= MAX_IDENTIFIER_BYTES && !HasControl(s)
  }

  predicate PatternChar(c: char) {
    'a' <= c <= 'z' || 'A' <= c <= 'Z' || '0' <= c <= '9' || c in "_-.@+*?"
  }

  predicate ValidPattern(s: string) {
    && TrimSpace(s) != "" && s == TrimSpace(s) && |s| <= MAX_PATH_BYTES
    && forall piece | piece in Split(s, '/') ::
         piece !in {"", ".", ".."} && forall i | 0 <= i < |piece| :: PatternChar(piece[i])
  }

  predicate ValidHarness(s: string) {
    s == "claude" || s == "codex"
  }

  predicate ValidScope(scope: Scope) {
    && ValidIdentifier(scope.project)
    && (if scope.kind == SessionScope then ValidIdentifier(scope.session) else scope.session == "")
    && |scope.paths| <= MAX_LIST_ITEMS && |scope.families| <= MAX_LIST_ITEMS
    && |scope.harnesses| <= MAX_LIST_ITEMS && |scope.models| <= MAX_LIST_ITEMS
    && (forall v | v in scope.paths :: ValidPattern(v)) && (forall v | v in scope.families :: ValidIdentifier(v))
    && (forall v | v in scope.harnesses :: ValidHarness(v)) && (forall v | v in scope.models :: ValidIdentifier(v))
  }

  predicate ValidCondition(c: Condition) {
    && 0 < |c.values| <= MAX_LIST_ITEMS
    && forall v | v in c.values :: if c.kind == PATH_PATTERN then ValidPattern(v) else ValidIdentifier(v)
  }

  /** The part of the proposal validator that the selection theorems rest on. */
  predicate ValidLists(p: Proposal) {
    ValidScope(p.scope) && forall c | c in p.applicability.conditions :: ValidCondition(c)
  }

  lemma ValidListsClean(p: Proposal)
    requires ValidLists(p)
    ensures Clean(p.scope.paths) && Clean(p.scope.families) && Clean(p.scope.models)
    ensures forall c | c in p.applicability.conditions :: Clean(c.values)
    ensures TrimSpace(p.scope.project) == p.scope.project && TrimSpace(p.scope.session) == p.scope.session
  {
    hide Split;
  }

  // ---------------------------------------------------------------- canonical content

  function NormalScope(scope: Scope): Scope {
    Scope(scope.kind, TrimSpace(scope.project), TrimSpace(scope.session), NormalStrings(scope.paths),
          NormalStrings(scope.families), SortedDistinct(scope.harnesses), NormalStrings(scope.models))
  }

  function NormalCondition(c: Condition): Condition {
    Condition(c.kind, NormalStrings(c.values))
  }

  /** Conditions are ordered by an injective encoding of theirs. */
  function ConditionText(c: Condition): string {
    Fingerprints.DimensionKey([Fingerprints.Dimension(c.kind, "")] +
      seq(|c.values|, i requires 0 <= i < |c.values| => Fingerprints.Dimension("", c.values[i])))
  }

  predicate ConditionLe(x: Condition, y: Condition) {
    StrLe(ConditionText(x), ConditionText(y))
  }

  function NormalConditions(conditions: seq<Condition>): seq<Condition> {
    Compact(SortBy(ConditionLe, Map(NormalCondition, conditions)))
  }

  function NormalApplicability(a: Applicability): Applicability {
    Applicability(TrimSpace(a.description), NormalConditions(a.conditions), NormalStrings(a.exclusions), a.expiresAt)
  }

  function NormalGuidance(g: Guidance): Guidance {
    Guidance(TrimSpace(g.instruction), TrimSpace(g.rationale), NormalStrings(g.exceptions), g.strength)
  }

  function NormalSpec(spec: Spec): Spec {
    match spec
    case PatternSpec(patterns) => PatternSpec(NormalStrings(patterns))
    case AfterEditSpec(classes, success) => AfterEditSpec(NormalStrings(classes), success)
    case CorrectionSpec(markers) => CorrectionSpec(NormalStrings(markers))
    case _ => spec
  }

  function NormalVerifier(v: Verifier): Verifier {
    Verifier(v.kind, SortedDistinct(v.coverage), NormalSpec(v.spec))
  }

  /** What CanonicalContentHash hashes. */
  datatype Payload = Payload(kind: string, scope: Scope, applicability: Applicability, guidance: Guidance,
                    verifier: Verifier)

  function CanonicalPayload(p: Proposal): Payload {
    Payload(p.kind, NormalScope(p.scope), NormalApplicability(p.applicability), NormalGuidance(p.guidance),
            NormalVerifier(p.verifier))
  }

  // ---------------------------------------------------------------- what the payload stands for

  ghost function NormalConditionSet(conditions: seq<Condition>): set<Condition> {
    set c | c in conditions :: NormalCondition(c)
  }

  lemma ConditionTextInjective(x: Condition, y: Condition)
    requires ConditionText(x) == ConditionText(y)
    ensures x == y
  {
    hide Fingerprints.DimensionKey;
    var ds := [Fingerprints.Dimension(x.kind, "")] +
      seq(|x.values|, i requires 0 <= i < |x.values| => Fingerprints.Dimension("", x.values[i]));
    var es := [Fingerprints.Dimension(y.kind, "")] +
      seq(|y.values|, i requires 0 <= i < |y.values| => Fingerprints.Dimension("", y.values[i]));
    Fingerprints.DimensionKeyInjective(ds, es);
    assert ds[0] == es[0] && |ds| == |es|;
    forall i | 0 <= i < |x.values| ensures x.values[i] == y.values[i] { assert ds[i + 1] == es[i + 1]; }
  }

  lemma ConditionLeOrder()
    ensures TotalPreorder(ConditionLe)
    ensures forall x, y :: ConditionLe(x, y) && ConditionLe(y, x) ==> x == y
  {
    StrLeOrder();
    hide ConditionText, StrLe;
    forall x, y | ConditionLe(x, y) && ConditionLe(y, x) ensures x == y { ConditionTextInjective(x, y); }
  }

  lemma NormalConditionMembers(conditions: seq<Condition>, x: Condition)
    ensures x in NormalConditions(conditions) <==> x in NormalConditionSet(conditions)
  {
    hide NormalCondition, ConditionLe;
    var mapped := Map(NormalCondition, conditions);
    BagMembers(SortBy(ConditionLe, mapped), mapped);
    if x in mapped {
      var i :| 0 <= i < |mapped| && mapped[i] == x;
      assert conditions[i] in conditions;
    }
    if x in NormalConditionSet(conditions) {
      var c :| c in conditions && NormalCondition(c) == x;
      var i :| 0 <= i < |conditions| && conditions[i] == c;
      assert mapped[i] == x;
    }
  }

  lemma NormalConditionsCanonical(a: seq<Condition>, b: seq<Condition>)
    ensures NormalConditions(a) == NormalConditions(b) <==> NormalConditionSet(a) == NormalConditionSet(b)
  {
    forall x ensures x in NormalConditions(a) <==> x in NormalConditionSet(a) { NormalConditionMembers(a, x); }
    forall x ensures x in NormalConditions(b) <==> x in NormalConditionSet(b) { NormalConditionMembers(b, x); }
    if NormalConditionSet(a) == NormalConditionSet(b) {
      ConditionLeOrder();
      NormalConditionsStrict(a);
      NormalConditionsStrict(b);
      hide NormalConditions, NormalConditionSet, ConditionLe;
      StrictUnique(ConditionLe, NormalConditions(a), NormalConditions(b));
    }
  }

  lemma NormalConditionsStrict(conditions: seq<Condition>)
    ensures StrictlySorted(ConditionLe, NormalConditions(conditions))
  {
    ConditionLeOrder();
    hide ConditionLe;
    var mapped := Map(NormalCondition, conditions);
    SortBySorted(ConditionLe, mapped);
    CompactStrict(ConditionLe, SortBy(ConditionLe, mapped));
  }

  ghost predicate SameScope(a: Scope, b: Scope) {
    && a.kind == b.kind && TrimSpace(a.project) == TrimSpace(b.project) && TrimSpace(a.session) == TrimSpace(b.session)
    && TrimmedSet(a.paths) == TrimmedSet(b.paths) && TrimmedSet(a.families) == TrimmedSet(b.families)
    && TrimmedSet(a.models) == TrimmedSet(b.models)
    && (forall h :: h in a.harnesses <==> h in b.harnesses)
  }

  ghost predicate SameApplicability(a: Applicability, b: Applicability) {
    && TrimSpace(a.description) == TrimSpace(b.description) && a.expiresAt == b.expiresAt
    && TrimmedSet(a.exclusions) == TrimmedSet(b.exclusions)
    && NormalConditionSet(a.conditions) == NormalConditionSet(b.conditions)
  }

  ghost predicate SameGuidance(a: Guidance, b: Guidance) {
    && TrimSpace(a.instruction) == TrimSpace(b.instruction) && TrimSpace(a.rationale) == TrimSpace(b.rationale)
    && TrimmedSet(a.exceptions) == TrimmedSet(b.exceptions) && a.strength == b.strength
  }

  ghost predicate SameSpec(a: Spec, b: Spec) {
    match (a, b)
    case (PatternSpec(x), PatternSpec(y)) => TrimmedSet(x) == TrimmedSet(y)
    case (AfterEditSpec(x, s), AfterEditSpec(y, t)) => TrimmedSet(x) == TrimmedSet(y) && s == t
    case (CorrectionSpec(x), CorrectionSpec(y)) => TrimmedSet(x) == TrimmedSet(y)
    case _ => a == b
  }

  ghost predicate SameVerifier(a: Verifier, b: Verifier) {
    a.kind == b.kind && (forall c :: c in a.coverage <==> c in b.coverage) && SameSpec(a.spec, b.spec)
  }

  lemma NormalScopeCanonical(a: Scope, b: Scope)
    ensures NormalScope(a) == NormalScope(b) <==> SameScope(a, b)
  {
    hide NormalStrings, TrimmedSet, SortedDistinct, TrimSpace;
    NormalCanonical(a.paths, b.paths);
    NormalCanonical(a.families, b.families);
    NormalCanonical(a.models, b.models);
    SortedDistinctCanonical(a.harnesses, b.harnesses);
  }

  lemma NormalVerifierCanonical(a: Verifier, b: Verifier)
    ensures NormalVerifier(a) == NormalVerifier(b) <==> SameVerifier(a, b)
  {
    hide NormalStrings, TrimmedSet, SortedDistinct;
    SortedDistinctCanonical(a.coverage, b.coverage);
    match (a.spec, b.spec) {
      case (PatternSpec(x), PatternSpec(y)) => NormalCanonical(x, y);
      case (AfterEditSpec(x, _), AfterEditSpec(y, _)) => NormalCanonical(x, y);
      case (CorrectionSpec(x), CorrectionSpec(y)) => NormalCanonical(x, y);
      case _ =>
    }
  }

  /** Two proposals have one canonical payload exactly when they agree up to surrounding white space
      in texts and up to order, repetitions and blanks in every list. */
  lemma PayloadCanonical(a: Proposal, b: Proposal)
    ensures CanonicalPayload(a) == CanonicalPayload(b) <==>
      a.kind == b.kind && SameScope(a.scope, b.scope) && SameApplicability(a.applicability, b.applicability) &&
      SameGuidance(a.guidance, b.guidance) && SameVerifier(a.verifier, b.verifier)
  {
    NormalScopeCanonical(a.scope, b.scope);
    NormalVerifierCanonical(a.verifier, b.verifier);
    NormalCanonical(a.applicability.exclusions, b.applicability.exclusions);
    NormalConditionsCanonical(a.applicability.conditions, b.applicability.conditions);
    NormalCanonical(a.guidance.exceptions, b.guidance.exceptions);
    hide NormalScope, SameScope, NormalVerifier, SameVerifier, NormalStrings, TrimmedSet, NormalConditions,
         NormalConditionSet, TrimSpace;
  }
}
