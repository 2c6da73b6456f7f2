/** Which experiences are eligible for a request, and with what score. */
module Selection {
  import opened Text
  import opened Ordering
  import opened Experience
  import opened PathMatch

  /** The tokenizer: the significant terms of a text.  It ignores surrounding white space, so it is
      a function of the trimmed text; and terms never span the space that joins two texts. */
  type Lexicon = string -> set<string>

  function Terms(lex: Lexicon, s: string): set<string> {
    lex(TrimSpace(s))
  }

  datatype Request = Request(
    project: string, session: string, harness: string, family: string, hint: string, paths: seq<string>, model: string)

  const MAX_OVERLAP := 10

  function FamilyTerms(lex: Lexicon, families: seq<string>): set<string> {
    set f, t | f in families && t in Terms(lex, f) :: t
  }

  /** The terms of the description, the guidance and task families, joined by spaces. */
  function TextTerms(lex: Lexicon, p: Proposal): set<string> {
    Terms(lex, p.applicability.description) + Terms(lex, p.guidance.instruction) +
    Terms(lex, p.guidance.rationale) + FamilyTerms(lex, p.scope.families)
  }

  function SharedTerms(lex: Lexicon, p: Proposal, r: Request): set<string> {
    Terms(lex, r.hint) * TextTerms(lex, p)
  }

  function Overlap(lex: Lexicon, p: Proposal, r: Request): nat {
    var n := |SharedTerms(lex, p, r)|;
    if n < MAX_OVERLAP then n else MAX_OVERLAP
  }

  /** Counts shared terms in the order a map yields them and stops at ten. */
  method LexicalOverlap(hint: set<string>, text: set<string>) returns (overlap: nat)
    ensures overlap == if |hint * text| < MAX_OVERLAP then |hint * text| else MAX_OVERLAP
  {
    overlap := 0;
    var rest := hint;
    while rest != {}
      invariant rest <= hint && overlap < MAX_OVERLAP && overlap + |rest * text| == |hint * text|
      decreases |rest|
    {
      var term :| term in rest;
      assert rest * text == ((rest - {term}) * text) + if term in text then {term} else {};
      rest := rest - {term};
      if term in text {
        overlap := overlap + 1;
        if overlap == MAX_OVERLAP { return; }
      }
    }
  }

  // ---------------------------------------------------------------- eligibility

  predicate PathsMatch(patterns: seq<string>, paths: seq<string>) {
    exists pattern, path | pattern in patterns && path in paths :: RelativePathPatternMatches(pattern, path)
  }

  /** An empty list admits every request; any other list demands that the request names a member. */
  predicate Admits(values: seq<string>, value: string) {
    values == [] || (value != "" && value in values)
  }

  predicate FamilyNamed(p: Proposal, r: Request) {
    r.family != "" && r.family in p.scope.families
  }

  /** The request leaves a task family or a path restriction undecided. */
  predicate Unresolved(p: Proposal, r: Request) {
    (p.scope.families != [] && !FamilyNamed(p, r)) ||
    (r.paths == [] && (p.scope.paths != [] || p.applicability.conditions != []))
  }

  predicate InScope(p: Proposal, r: Request) {
    && p.scope.project == r.project
    && (p.scope.kind == SessionScope ==> r.session != "" && p.scope.session == r.session)
    && Admits(p.scope.harnesses, r.harness) && Admits(p.scope.models, r.model)
  }

  predicate PathsAllow(p: Proposal, r: Request) {
    && (forall c | c in p.applicability.conditions :: c.kind == PATH_PATTERN)
    && (r.paths != [] ==>
          && (p.scope.paths != [] ==> PathsMatch(p.scope.paths, r.paths))
          && forall c | c in p.applicability.conditions :: PathsMatch(c.values, r.paths))
  }

  /** Every explicit restriction admits the request, and what it leaves undecided is backed by at
      least one term that the hint shares with the experience. */
  predicate Eligible(lex: Lexicon, p: Proposal, r: Request) {
    InScope(p, r) && PathsAllow(p, r) && (Unresolved(p, r) ==> SharedTerms(lex, p, r) != {})
  }

  function ScoreOf(lex: Lexicon, p: Proposal, r: Request): nat {
    10 + (if p.scope.kind == SessionScope then 50 else 0)
    + (if p.scope.harnesses != [] then 20 else 0)
    + (if FamilyNamed(p, r) then 30 else 0)
    + (if p.scope.paths != [] && r.paths != [] then 30 else 0)
    + (if p.scope.models != [] then 20 else 0)
    + Overlap(lex, p, r)
  }

  method SelectionPathsMatch(patterns: seq<string>, paths: seq<string>) returns (ok: bool)
    ensures ok <==> PathsMatch(patterns, paths)
  {
    hide RelativePathPatternMatches;
    if |paths| == 0 { return false; }
    for i := 0 to |patterns|
      invariant forall a, b | 0 <= a < i && 0 <= b < |paths| :: !RelativePathPatternMatches(patterns[a], paths[b])
    {
      for j := 0 to |paths|
        invariant forall b | 0 <= b < j :: !RelativePathPatternMatches(patterns[i], paths[b])
      {
        if RelativePathPatternMatches(patterns[i], paths[j]) {
          assert patterns[i] in patterns && paths[j] in paths;
          return true;
        }
      }
    }
    forall pattern, path | pattern in patterns && path in paths ensures !RelativePathPatternMatches(pattern, path) {
      var a :| 0 <= a < |patterns| && patterns[a] == pattern;
      var b :| 0 <= b < |paths| && paths[b] == path;
    }
    ok := false;
  }

  /** The checks in the order the program makes them. */
  method ScoreSelection(lex: Lexicon, p: Proposal, r: Request) returns (score: nat, eligible: bool)
    ensures eligible <==> Eligible(lex, p, r)
    ensures eligible ==> score == ScoreOf(lex, p, r)
  {
    hide PathsMatch, TextTerms, Terms;
    score, eligible := 0, false;
    if p.scope.project != r.project { return; }
    score := 10;
    if p.scope.kind == SessionScope {
      if r.session == "" || p.scope.session != r.session { return; }
      score := score + 50;
    }
    if |p.scope.harnesses| > 0 {
      if r.harness == "" || r.harness !in p.scope.harnesses { return; }
      score := score + 20;
    }
    var overlap := LexicalOverlap(Terms(lex, r.hint), TextTerms(lex, p));
    assert overlap == Overlap(lex, p, r) && (overlap == 0 <==> SharedTerms(lex, p, r) == {});
    hide SharedTerms, Overlap;
    var unresolved := false;
    if |p.scope.families| > 0 {
      if r.family != "" && r.family in p.scope.families {
        score := score + 30;
      } else if overlap == 0 {
        return;
      } else {
        unresolved := true;
      }
    }
    if |p.scope.paths| > 0 {
      if |r.paths| == 0 {
        unresolved := true;
      } else {
        var matched := SelectionPathsMatch(p.scope.paths, r.paths);
        if !matched { return; }
        score := score + 30;
      }
    }
    if |p.scope.models| > 0 {
      if r.model == "" || r.model !in p.scope.models { return; }
      score := score + 20;
    }
    var conditions := p.applicability.conditions;
    for i := 0 to |conditions|
      invariant forall k | 0 <= k < i ::
        conditions[k].kind == PATH_PATTERN && (r.paths != [] ==> PathsMatch(conditions[k].values, r.paths))
      invariant unresolved <==>
        (p.scope.families != [] && !FamilyNamed(p, r)) || (r.paths == [] && (p.scope.paths != [] || i > 0))
    {
      if conditions[i].kind != PATH_PATTERN { return; }
      if |r.paths| == 0 {
        unresolved := true;
        continue;
      }
      var matched := SelectionPathsMatch(conditions[i].values, r.paths);
      if !matched { return; }
    }
    if unresolved && overlap == 0 { return; }
    score := score + overlap;
    eligible := true;
  }
}
