/** Which findings form a group, and what its occurrence says of them, in terms of the findings alone. */
module FindingMeaning {
  import opened Text
  import opened Ordering
  import opened SmallestFifty
  import opened Findings
  import opened FindingsRun
  import opened FindingLevels

  // ---------------------------------------------------------------- which findings form a group

  /** The known types of the events that a finding cites. */
  ghost function CitedTypes(ctx: Context, f: Finding): set<string> {
    set id | id in f.citations && id in ctx.types && ctx.types[id] != "" :: ctx.types[id]
  }

  /** The finding's own hint of its scope, unless hints conflict or it has none. */
  function ScopeOf(ctx: Context, f: Finding): string {
    if ctx.conflict || f.hint == "" then ctx.scope else f.hint
  }

  /** Two findings of the same rule and version, in the same scope, about the same types of events. */
  ghost predicate Alike(ctx: Context, f: Finding, g: Finding) {
    && f.ruleID == g.ruleID && f.ruleVersion == g.ruleVersion && ScopeOf(ctx, f) == ScopeOf(ctx, g)
    && CitedTypes(ctx, f) == CitedTypes(ctx, g)
  }

  /** The hash that names groups does not collide. */
  ghost predicate CollisionFree(ctx: Context) {
    forall s, t: string, x, y: seq<string> | ctx.derive(s, x).Some? && ctx.derive(s, x) == ctx.derive(t, y) ::
      s == t && x == y
  }

  function Material(f: Finding, types: seq<string>): seq<string> {
    ["rule_id", f.ruleID, "rule_version", f.ruleVersion] + TypeMaterial(types)
  }

  lemma {:induction false} TypeMaterialInjective(a: seq<string>, b: seq<string>)
    requires TypeMaterial(a) == TypeMaterial(b)
    ensures a == b
  {
    TypeMaterialLength(a);
    TypeMaterialLength(b);
    if a != [] {
      var n := |a| - 1;
      var x, y := TypeMaterial(a), TypeMaterial(b);
      assert x[..2 * n] == TypeMaterial(a[..n]) && y[..2 * n] == TypeMaterial(b[..n]);
      assert x[2 * n + 1] == a[n] && y[2 * n + 1] == b[n];
      TypeMaterialInjective(a[..n], b[..n]);
      assert a == a[..n] + [a[n]] && b == b[..n] + [b[n]];
    }
  }

  lemma {:induction false} TypeMaterialLength(a: seq<string>)
    ensures |TypeMaterial(a)| == 2 * |a|
  {
    if a != [] { TypeMaterialLength(a[..|a| - 1]); }
  }

  lemma TypesSet(ctx: Context, f: Finding, t: string)
    ensures t in TypesOf(ctx.types, f.citations) <==> t in CitedTypes(ctx, f)
  {
    TypesMembers(ctx.types, f.citations, t);
  }

  lemma SameTypes(ctx: Context, f: Finding, g: Finding)
    ensures SortedDistinct(TypesOf(ctx.types, f.citations)) == SortedDistinct(TypesOf(ctx.types, g.citations)) <==>
      CitedTypes(ctx, f) == CitedTypes(ctx, g)
  {
    hide TypesOf, SortedDistinct, CitedTypes;
    SortedDistinctCanonical(TypesOf(ctx.types, f.citations), TypesOf(ctx.types, g.citations));
    forall t ensures t in TypesOf(ctx.types, f.citations) <==> t in CitedTypes(ctx, f) { TypesSet(ctx, f, t); }
    forall t ensures t in TypesOf(ctx.types, g.citations) <==> t in CitedTypes(ctx, g) { TypesSet(ctx, g, t); }
  }

  lemma KeyIs(ctx: Context, f: Finding)
    ensures KeyOf(ctx, f, f.citations) ==
      ctx.derive(ScopeOf(ctx, f), Material(f, SortedDistinct(TypesOf(ctx.types, f.citations))))
  {
    hide SortedDistinct, TypesOf, TypeMaterial;
  }

  /** Two findings join the same group if and only if they are alike. */
  lemma GroupsAreAlike(ctx: Context, f: Finding, g: Finding)
    requires CollisionFree(ctx) && KeyOf(ctx, f, f.citations).Some?
    ensures KeyOf(ctx, f, f.citations) == KeyOf(ctx, g, g.citations) <==> Alike(ctx, f, g)
  {
    KeyIs(ctx, f);
    KeyIs(ctx, g);
    SameTypes(ctx, f, g);
    var a, b := SortedDistinct(TypesOf(ctx.types, f.citations)), SortedDistinct(TypesOf(ctx.types, g.citations));
    hide KeyOf, SortedDistinct, TypesOf, TypeMaterial, CitedTypes;
    var x, y := Material(f, a), Material(g, b);
    if x == y {
      assert x[1] == f.ruleID && y[1] == g.ruleID && x[3] == f.ruleVersion && y[3] == g.ruleVersion;
      assert x[4..] == TypeMaterial(a) && y[4..] == TypeMaterial(b);
      TypeMaterialInjective(a, b);
    }
  }

  // ---------------------------------------------------------------- what the occurrence says

  /** The smallest cited IDs, in order, at most fifty; and whether that is all of them. */
  ghost predicate CitesSmallest(group: set<Finding>, o: Occurrence) {
    && StrictlySorted(StrLe, o.citations) && |o.citations| <= 50
    && (forall id | id in o.citations :: CitedBy(group, id))
    && (forall id, shown | CitedBy(group, id) && id !in o.citations && shown in o.citations :: StrLe(shown, id))
    && (forall id | CitedBy(group, id) && id !in o.citations :: |o.citations| == 50)
    && (o.complete <==> forall id | CitedBy(group, id) :: id in o.citations)
  }

  lemma SmallestShows(ctx: Context, fs: seq<Finding>, key: string, o: Occurrence)
    requires EvidenceOf(Cited(ctx, fs, key), o)
    ensures CitesSmallest(Members(ctx, fs, key), o)
  {
    var cited, group := Cited(ctx, fs, key), Members(ctx, fs, key);
    var all := SortedDistinct(cited);
    SortedDistinctStrict(cited);
    StrLeOrder();
    hide SortedDistinct, Cited, Members, CitedBy, StrLe;
    forall id ensures id in cited <==> CitedBy(group, id) { CitedMembers(ctx, fs, key, id); }
    FirstOfSorted(all, o.citations, o.complete);
  }

  /** The first fifty of a strictly sorted list. */
  lemma FirstOfSorted(all: seq<string>, shown: seq<string>, complete: bool)
    requires StrictlySorted(StrLe, all) && shown == First(all, 50) && (complete <==> |all| <= 50)
    ensures StrictlySorted(StrLe, shown) && |shown| <= 50 && (forall id | id in shown :: id in all)
    ensures forall id, s | id in all && id !in shown && s in shown :: StrLe(s, id)
    ensures forall id | id in all && id !in shown :: |shown| == 50
    ensures complete <==> forall id | id in all :: id in shown
  {
    StrLeOrder();
    hide StrLe;
    if |all| > 50 {
      StrictNoRepeats(StrLe, all);
      assert all[50] in all && all[50] !in all[..50];
      forall id, s | id in all && id !in shown && s in shown ensures StrLe(s, id) {
        var i :| 0 <= i < |all| && all[i] == id;
        NotEarly(all, 50, i);
        var j :| 0 <= j < 50 && all[j] == s;
      }
    }
  }

  const SEVERITIES := ["info", "low", "medium", "high", "critical"]
  const CONFIDENCES := ["low", "medium", "high"]

  /** b is listed, and a is not or stands before it. */
  predicate Higher(levels: seq<string>, a: string, b: string) {
    exists j | 0 <= j < |levels| :: levels[j] == b && forall i | j <= i < |levels| :: levels[i] != a
  }

  lemma SeverityLevels(a: string, b: string)
    ensures SeverityRank(a) < SeverityRank(b) <==> Higher(SEVERITIES, a, b)
  {
    assert SEVERITIES[0] == "info" && SEVERITIES[1] == "low" && SEVERITIES[2] == "medium";
    assert SEVERITIES[3] == "high" && SEVERITIES[4] == "critical";
  }

  lemma ConfidenceLevels(a: string, b: string)
    ensures ConfidenceRank(a) < ConfidenceRank(b) <==> Higher(CONFIDENCES, a, b)
    ensures ConfidenceRank(a) > 0 <==> a in CONFIDENCES
  {
    assert CONFIDENCES[0] == "low" && CONFIDENCES[1] == "medium" && CONFIDENCES[2] == "high";
  }

  /** The severity of some finding than which none has a higher one; the confidence, when all are known
      levels, of some finding than which none has a lower one. */
  ghost predicate GradesExtreme(group: set<Finding>, o: Occurrence) {
    && (exists f :: f in group && f.severity == o.severity)
    && (forall f | f in group :: !Higher(SEVERITIES, o.severity, f.severity))
    && (exists f :: f in group && f.confidence == o.confidence)
    && ((forall f | f in group :: f.confidence in CONFIDENCES) ==>
          forall f | f in group :: !Higher(CONFIDENCES, f.confidence, o.confidence))
  }

  lemma SeverityExtreme(g: seq<Finding>, severity: string)
    requires g != [] && severity == FoldedSeverity(g)
    ensures exists f :: f in g && f.severity == severity
    ensures forall f | f in g :: !Higher(SEVERITIES, severity, f.severity)
  {
    SeverityIsHighest(g);
    hide FoldedSeverity, SeverityRank, Higher;
    forall f | f in g ensures !Higher(SEVERITIES, severity, f.severity) { SeverityLevels(severity, f.severity); }
  }

  ghost predicate AllListed(g: seq<Finding>) {
    forall f | f in g :: f.confidence in CONFIDENCES
  }

  lemma ConfidenceExtreme(g: seq<Finding>, confidence: string)
    requires g != [] && confidence == FoldedConfidence(g) && AllListed(g)
    ensures forall f | f in g :: !Higher(CONFIDENCES, f.confidence, confidence)
  {
    hide ConfidenceRank, Higher;
    forall f | f in g ensures ConfidenceRank(f.confidence) > 0 { ConfidenceLevels(f.confidence, f.confidence); }
    ConfidenceIsLowest(g);
    hide FoldedConfidence;
    forall f | f in g
      ensures !Higher(CONFIDENCES, f.confidence, confidence)
    { ConfidenceLevels(f.confidence, confidence); }
  }

  lemma LevelsExtreme(ctx: Context, fs: seq<Finding>, key: string, o: Occurrence)
    requires LevelsOf(Joined(ctx, fs, key), o)
    ensures GradesExtreme(Members(ctx, fs, key), o)
  {
    var g, group := Joined(ctx, fs, key), Members(ctx, fs, key);
    forall f ensures f in g <==> f in group { JoinedMembers(ctx, fs, key, f); }
    hide Joined, Members, FoldedSeverity, FoldedConfidence, Higher;
    SeverityExtreme(g, o.severity);
    ConfidenceIsMember(g);
    if AllListed(g) { ConfidenceExtreme(g, o.confidence); }
  }

  ghost predicate Says(ctx: Context, group: set<Finding>, o: Occurrence) {
    CitesSmallest(group, o) && GradesExtreme(group, o) && ExtentOf(group, o) && SignalOf(ctx, group, o.signal)
  }

  /** Every occurrence of an untruncated run: its key names a group of findings, and it says of them the
      smallest citations, the extent, the extreme levels and the rule name they agree on. */
  lemma PresentsGroups(ctx: Context, fs: seq<Finding>, o: Outcome, i: nat)
    requires Presents(ctx, fs, o) && i < |o.keys|
    ensures Says(ctx, Members(ctx, fs, o.keys[i]), o.occurrences[i])
  {
    hide Members, Cited, Joined, Keys, EvidenceOf, ExtentOf, SignalOf, LevelsOf, CitesSmallest, GradesExtreme,
         StrictlySorted;
    SmallestShows(ctx, fs, o.keys[i], o.occurrences[i]);
    LevelsExtreme(ctx, fs, o.keys[i], o.occurrences[i]);
  }

  /** And every finding is in the group of exactly one of them. */
  lemma EveryFindingPresented(ctx: Context, fs: seq<Finding>, o: Outcome, f: Finding) returns (i: nat)
    requires Presents(ctx, fs, o) && f in fs && KeyOf(ctx, f, f.citations).Some?
    ensures i < |o.keys| && f in Members(ctx, fs, o.keys[i])
    ensures forall j | 0 <= j < |o.keys| && f in Members(ctx, fs, o.keys[j]) :: j == i
  {
    hide KeyOf, Summarizes, StrLe;
    var key := KeyOf(ctx, f, f.citations).value;
    assert key in Keys(ctx, fs);
    StrLeOrder();
    StrictNoRepeats(StrLe, o.keys);
    i :| 0 <= i < |o.keys| && o.keys[i] == key;
  }
}
