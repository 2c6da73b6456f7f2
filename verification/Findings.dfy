/** Grouping findings into occurrences under bounds on findings, groups and citations. */
module Findings {
  import opened Text
  import opened Ordering
  import opened SmallestFifty

  const MAX_PER_FINDING := 50
  const CITATION_INPUT_LIMIT := 1000
  const MAX_GROUPS := 100

  datatype Finding = Finding(
    id: string, ruleID: string, ruleVersion: string, hint: string, at: int,
    severity: string, confidence: string, citations: seq<string>)

  /** What the session gives: event types, its scope, the hash that names groups (None is its error), and
      which rule names may be shown. */
  datatype Context = Context(
    types: map<string, string>, scope: string, conflict: bool,
    derive: (string, seq<string>) -> Option<string>, signal: string -> Option<string>)

  datatype Occurrence = Occurrence(
    citations: seq<string>, complete: bool, first: int, last: int, origin: string,
    severity: string, confidence: string, signal: Option<string>)

  // ---------------------------------------------------------------- the group of a finding

  function TypesOf(types: map<string, string>, cited: seq<string>): seq<string> {
    if cited == [] then []
    else
      var id := cited[|cited| - 1];
      TypesOf(types, cited[..|cited| - 1]) + if id in types && types[id] != "" then [types[id]] else []
  }

  function TypeMaterial(types: seq<string>): seq<string> {
    if types == [] then [] else TypeMaterial(types[..|types| - 1]) + ["event_type", types[|types| - 1]]
  }

  function KeyOf(ctx: Context, f: Finding, cited: seq<string>): Option<string> {
    ctx.derive(if !ctx.conflict && f.hint != "" then f.hint else ctx.scope,
               ["rule_id", f.ruleID, "rule_version", f.ruleVersion] +
                 TypeMaterial(SortedDistinct(TypesOf(ctx.types, cited))))
  }

  method DeriveKey(ctx: Context, f: Finding, cited: seq<string>) returns (key: Option<string>)
    ensures key == KeyOf(ctx, f, cited)
  {
    hide SortedDistinct;
    var scope := ctx.scope;
    if !ctx.conflict && f.hint != "" { scope := f.hint; }
    var types: seq<string> := [];
    for i := 0 to |cited|
      invariant types == TypesOf(ctx.types, cited[..i])
    {
      assert cited[..i + 1][..i] == cited[..i];
      if cited[i] in ctx.types && ctx.types[cited[i]] != "" { types := types + [ctx.types[cited[i]]]; }
    }
    assert cited[..|cited|] == cited;
    types := SortedDistinct(types);
    var material := ["rule_id", f.ruleID, "rule_version", f.ruleVersion];
    for i := 0 to |types|
      invariant material == ["rule_id", f.ruleID, "rule_version", f.ruleVersion] + TypeMaterial(types[..i])
    {
      assert types[..i + 1][..i] == types[..i];
      material := material + ["event_type", types[i]];
    }
    assert types[..|types|] == types;
    key := ctx.derive(scope, material);
  }

  lemma {:induction false} TypesMembers(types: map<string, string>, cited: seq<string>, t: string)
    ensures t in TypesOf(types, cited) <==> t != "" && exists id :: id in cited && id in types && types[id] == t
  {
    if cited != [] {
      TypesMembers(types, cited[..|cited| - 1], t);
      assert cited == cited[..|cited| - 1] + [cited[|cited| - 1]];
    }
  }

  /** Which group a finding joins does not depend on the order or repetition of its citations. */
  lemma KeyIgnoresCitationOrder(ctx: Context, f: Finding, a: seq<string>, b: seq<string>)
    requires forall id :: id in a <==> id in b
    ensures KeyOf(ctx, f, a) == KeyOf(ctx, f, b)
  {
    hide SortedDistinct;
    forall t ensures t in TypesOf(ctx.types, a) <==> t in TypesOf(ctx.types, b) {
      TypesMembers(ctx.types, a, t);
      TypesMembers(ctx.types, b, t);
    }
    SortedDistinctCanonical(TypesOf(ctx.types, a), TypesOf(ctx.types, b));
  }

  // ---------------------------------------------------------------- merging one finding

  function SeverityRank(s: string): nat {
    if s == "info" then 1 else if s == "low" then 2 else if s == "medium" then 3
    else if s == "high" then 4 else if s == "critical" then 5 else 0
  }

  function ConfidenceRank(s: string): nat {
    if s == "low" then 1 else if s == "medium" then 2 else if s == "high" then 3 else 0
  }

  function HigherSeverity(left: string, right: string): string {
    if SeverityRank(right) > SeverityRank(left) then right else left
  }

  function LowerConfidence(left: string, right: string): string {
    if left == "" || ConfidenceRank(right) < ConfidenceRank(left) then right else left
  }

  function Start(ctx: Context, f: Finding): Occurrence {
    Occurrence([], true, f.at, f.at, f.id, f.severity, f.confidence, ctx.signal(f.ruleID))
  }

  /** The occurrence `o` after one more finding with these citations. */
  ghost predicate Merges(ctx: Context, start: Occurrence, f: Finding, cited: seq<string>, o: Occurrence) {
    && o.citations == Smallest(start.citations + cited)
    && (o.complete <==> start.complete && |SortedDistinct(start.citations + cited)| <= MAX_CITATIONS)
    && o.first == (if f.at < start.first then f.at else start.first)
    && o.last == (if f.at > start.last then f.at else start.last)
    && o.origin == (if StrLe(start.origin, f.id) then start.origin else f.id)
    && o.severity == HigherSeverity(start.severity, f.severity)
    && o.confidence == LowerConfidence(start.confidence, f.confidence)
    && o.signal == if start.signal == ctx.signal(f.ruleID) then start.signal else None
  }

  method MergeFinding(ctx: Context, start: Occurrence, f: Finding, cited: seq<string>) returns (o: Occurrence)
    ensures Merges(ctx, start, f, cited, o)
  {
    hide SortedDistinct, StrLe, SeverityRank, ConfidenceRank;
    o := start;
    if o.signal != ctx.signal(f.ruleID) { o := o.(signal := None); }
    if f.at < o.first { o := o.(first := f.at); }
    if f.at > o.last { o := o.(last := f.at); }
    if !StrLe(o.origin, f.id) { o := o.(origin := f.id); }
    o := o.(severity := HigherSeverity(o.severity, f.severity),
            confidence := LowerConfidence(o.confidence, f.confidence));
    var citations := SortedDistinct(o.citations + cited);
    if |citations| > MAX_CITATIONS {
      citations := citations[..MAX_CITATIONS];
      o := o.(complete := false);
    }
    o := o.(citations := citations);
  }

  // ---------------------------------------------------------------- the simple form of a group

  /** Some finding of the group cites this. */
  ghost predicate CitedBy(group: set<Finding>, id: string) {
    exists f :: f in group && id in f.citations
  }

  lemma CitedByMore(group: set<Finding>, f: Finding, id: string)
    ensures CitedBy(group + {f}, id) <==> CitedBy(group, id) || id in f.citations
  {
    if id in f.citations { assert f in group + {f}; }
  }

  /** The findings of one group. */
  ghost function Members(ctx: Context, fs: seq<Finding>, key: string): set<Finding> {
    set f | f in fs && KeyOf(ctx, f, f.citations) == Some(key)
  }

  /** The findings of one group, in the order they came. */
  function Joined(ctx: Context, fs: seq<Finding>, key: string): seq<Finding> {
    if fs == [] then []
    else
      var f := fs[|fs| - 1];
      var init := Joined(ctx, fs[..|fs| - 1], key);
      if KeyOf(ctx, f, f.citations) == Some(key) then init + [f] else init
  }

  lemma {:induction false} JoinedMembers(ctx: Context, fs: seq<Finding>, key: string, f: Finding)
    ensures f in Joined(ctx, fs, key) <==> f in Members(ctx, fs, key)
  {
    hide KeyOf;
    if fs != [] {
      JoinedMembers(ctx, fs[..|fs| - 1], key, f);
      assert fs == fs[..|fs| - 1] + [fs[|fs| - 1]];
    }
  }

  /** All citations of a group, one finding after the other. */
  function Cited(ctx: Context, fs: seq<Finding>, key: string): seq<string> {
    if fs == [] then []
    else
      var f := fs[|fs| - 1];
      Cited(ctx, fs[..|fs| - 1], key) + if KeyOf(ctx, f, f.citations) == Some(key) then f.citations else []
  }

  lemma {:induction false} CitedMembers(ctx: Context, fs: seq<Finding>, key: string, id: string)
    ensures id in Cited(ctx, fs, key) <==> CitedBy(Members(ctx, fs, key), id)
  {
    hide *;
    if fs == [] {
      NothingCited(ctx, key, id);
    } else {
      var init, f := fs[..|fs| - 1], fs[|fs| - 1];
      assert fs == init + [f];
      CitedMembers(ctx, init, key, id);
      GroupGrows(ctx, init, f, key);
      CitedByMore(Members(ctx, init, key), f, id);
    }
  }

  lemma NothingCited(ctx: Context, key: string, id: string)
    ensures Cited(ctx, [], key) == [] && !CitedBy(Members(ctx, [], key), id)
  {
  }

  /** The evidence of a group: the fifty smallest of its citations, and whether these are all. */
  ghost predicate EvidenceOf(cited: seq<string>, o: Occurrence) {
    && o.citations == Smallest(cited)
    && (o.complete <==> |SortedDistinct(cited)| <= MAX_CITATIONS)
  }

  /** The extent of a group: earliest and latest time, smallest finding ID. */
  ghost predicate ExtentOf(group: set<Finding>, o: Occurrence) {
    && (exists f :: f in group && f.at == o.first)
    && (exists f :: f in group && f.at == o.last)
    && (exists f :: f in group && f.id == o.origin)
    && (forall f | f in group :: o.first <= f.at <= o.last && StrLe(o.origin, f.id))
  }

  /** The rule name to show, if all findings of the group agree on one. */
  ghost predicate SignalOf(ctx: Context, group: set<Finding>, signal: Option<string>) {
    forall name :: signal == Some(name) <==> AllShow(ctx, group, name)
  }

  ghost predicate AllShow(ctx: Context, group: set<Finding>, name: string) {
    forall f | f in group :: ctx.signal(f.ruleID) == Some(name)
  }

  // The two levels of a group are read off its findings in the order they came.

  function FoldedSeverity(g: seq<Finding>): string
    requires g != []
  {
    var n := |g| - 1;
    if n == 0 then g[0].severity else HigherSeverity(FoldedSeverity(g[..n]), g[n].severity)
  }

  function FoldedConfidence(g: seq<Finding>): string
    requires g != []
  {
    var n := |g| - 1;
    if n == 0 then g[0].confidence else LowerConfidence(FoldedConfidence(g[..n]), g[n].confidence)
  }

  ghost predicate LevelsOf(g: seq<Finding>, o: Occurrence) {
    g != [] && o.severity == FoldedSeverity(g) && o.confidence == FoldedConfidence(g)
  }

  ghost predicate Summarizes(ctx: Context, fs: seq<Finding>, key: string, o: Occurrence) {
    var group := Members(ctx, fs, key);
    && EvidenceOf(Cited(ctx, fs, key), o) && ExtentOf(group, o) && SignalOf(ctx, group, o.signal)
    && LevelsOf(Joined(ctx, fs, key), o)
  }

  // ---------------------------------------------------------------- one step keeps the simple form

  lemma GroupGrows(ctx: Context, fs: seq<Finding>, f: Finding, key: string)
    ensures Members(ctx, fs + [f], key) ==
      if KeyOf(ctx, f, f.citations) == Some(key) then Members(ctx, fs, key) + {f} else Members(ctx, fs, key)
    ensures Cited(ctx, fs + [f], key) ==
      if KeyOf(ctx, f, f.citations) == Some(key) then Cited(ctx, fs, key) + f.citations else Cited(ctx, fs, key)
    ensures Joined(ctx, fs + [f], key) ==
      if KeyOf(ctx, f, f.citations) == Some(key) then Joined(ctx, fs, key) + [f] else Joined(ctx, fs, key)
  {
    hide KeyOf;
    assert (fs + [f])[..|fs|] == fs;
  }

  lemma OtherGroupKept(ctx: Context, fs: seq<Finding>, f: Finding, key: string, o: Occurrence)
    requires Summarizes(ctx, fs, key, o) && KeyOf(ctx, f, f.citations) != Some(key)
    ensures Summarizes(ctx, fs + [f], key, o)
  {
    GroupGrows(ctx, fs, f, key);
    hide Members, Cited, Joined, KeyOf, EvidenceOf, ExtentOf, SignalOf, LevelsOf;
  }

  /** The occurrence that a step starts from: the group so far, or an empty one at the finding. */
  ghost predicate StartsFrom(ctx: Context, fs: seq<Finding>, key: string, f: Finding, start: Occurrence) {
    if Members(ctx, fs, key) == {} then start == Start(ctx, f) else Summarizes(ctx, fs, key, start)
  }

  lemma NothingJoined(ctx: Context, fs: seq<Finding>, key: string)
    requires Members(ctx, fs, key) == {}
    ensures Cited(ctx, fs, key) == [] && Joined(ctx, fs, key) == []
  {
    hide Members, Cited, Joined;
    if Joined(ctx, fs, key) != [] { JoinedMembers(ctx, fs, key, Joined(ctx, fs, key)[0]); }
    if Cited(ctx, fs, key) != [] { CitedMembers(ctx, fs, key, Cited(ctx, fs, key)[0]); }
  }

  lemma MergedEvidence(ctx: Context, start: Occurrence, f: Finding, a: seq<string>, cited: seq<string>, o: Occurrence)
    requires Merges(ctx, start, f, cited, o)
    requires if a == [] then start == Start(ctx, f) || EvidenceOf(a, start) else EvidenceOf(a, start)
    ensures EvidenceOf(a + cited, o)
  {
    hide StrLe, SeverityRank, ConfidenceRank;
    assert SortedDistinct([]) == [];
    assert EvidenceOf(a, start);
    hide Smallest, SortedDistinct;
    SmallestAbsorbs(a, cited);
  }

  lemma MergedExtent(ctx: Context, group: set<Finding>, f: Finding, start: Occurrence, o: Occurrence)
    requires Merges(ctx, start, f, f.citations, o)
    requires if group == {} then start == Start(ctx, f) else ExtentOf(group, start)
    ensures ExtentOf(group + {f}, o)
  {
    StrLeOrder();
    hide StrLe, SeverityRank, ConfidenceRank, Smallest, SortedDistinct;
    assert f in group + {f};
  }

  lemma MergedSignal(ctx: Context, group: set<Finding>, f: Finding, start: Option<string>)
    requires if group == {} then start == ctx.signal(f.ruleID) else SignalOf(ctx, group, start)
    ensures SignalOf(ctx, group + {f}, if start == ctx.signal(f.ruleID) then start else None)
  {
    var signal := if start == ctx.signal(f.ruleID) then start else None;
    forall name ensures signal == Some(name) <==> AllShow(ctx, group + {f}, name) {
      assert f in group + {f};
      assert AllShow(ctx, group + {f}, name) <==> AllShow(ctx, group, name) && ctx.signal(f.ruleID) == Some(name);
    }
  }

  lemma MergedLevels(ctx: Context, g: seq<Finding>, f: Finding, start: Occurrence, o: Occurrence)
    requires Merges(ctx, start, f, f.citations, o) && if g == [] then start == Start(ctx, f) else LevelsOf(g, start)
    ensures LevelsOf(g + [f], o)
  {
    hide StrLe, ConfidenceRank, SeverityRank, Smallest, SortedDistinct;
    assert (g + [f])[..|g|] == g;
    if g == [] { FirstLevels(f); }
  }

  lemma FirstLevels(f: Finding)
    ensures HigherSeverity(f.severity, f.severity) == f.severity
    ensures LowerConfidence(f.confidence, f.confidence) == f.confidence
  {
  }

  /** One merge keeps the simple form of the group. */
  lemma MergedSummarizes(ctx: Context, fs: seq<Finding>, key: string, f: Finding, start: Occurrence, o: Occurrence)
    requires KeyOf(ctx, f, f.citations) == Some(key) && StartsFrom(ctx, fs, key, f, start)
    requires Merges(ctx, start, f, f.citations, o)
    ensures Summarizes(ctx, fs + [f], key, o)
  {
    var group := Members(ctx, fs, key);
    hide Members, Cited, Joined, Merges, EvidenceOf, ExtentOf, SignalOf, LevelsOf, KeyOf;
    GroupGrows(ctx, fs, f, key);
    if group == {} { NothingJoined(ctx, fs, key); } else { SomethingJoined(ctx, fs, key, start); }
    MergedEvidence(ctx, start, f, Cited(ctx, fs, key), f.citations, o);
    MergedExtent(ctx, group, f, start, o);
    MergedSignalOf(ctx, group, f, start, o);
    MergedLevels(ctx, Joined(ctx, fs, key), f, start, o);
  }

  lemma SomethingJoined(ctx: Context, fs: seq<Finding>, key: string, o: Occurrence)
    requires Summarizes(ctx, fs, key, o)
    ensures Joined(ctx, fs, key) != []
  {
    hide Members, Cited, Joined, EvidenceOf, ExtentOf, SignalOf, KeyOf;
  }

  lemma MergedSignalOf(ctx: Context, group: set<Finding>, f: Finding, start: Occurrence, o: Occurrence)
    requires Merges(ctx, start, f, f.citations, o)
    requires if group == {} then start == Start(ctx, f) else SignalOf(ctx, group, start.signal)
    ensures SignalOf(ctx, group + {f}, o.signal)
  {
    hide StrLe, SeverityRank, ConfidenceRank, Smallest, SortedDistinct, SignalOf, AllShow;
    MergedSignal(ctx, group, f, start.signal);
  }
}
