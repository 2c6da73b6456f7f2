/** The conservative scope and verifier comparisons, and what they mean: disjoint scopes are those no
    plain request can select together, opposed verifiers are those no outcome can satisfy together. */
module Disjointness {
  import opened Text
  import opened Ordering
  import opened NormalForms
  import opened Experience
  import opened PathMatch
  import opened Selection

  // ---------------------------------------------------------------- scopes

  const DIFFERENT_PROJECT := "different_project"
  const DISJOINT_SESSION := "disjoint_session"
  const DISJOINT_HARNESSES := "disjoint_harnesses"
  const DISJOINT_MODELS := "disjoint_models"
  const DISJOINT_TASK_FAMILIES := "disjoint_task_families"

  predicate SetsDisjoint(left: seq<string>, right: seq<string>) {
    left != [] && right != [] && forall v | v in left :: v !in right
  }

  method ExactSetsDisjoint(left: seq<string>, right: seq<string>) returns (disjoint: bool)
    ensures disjoint <==> SetsDisjoint(left, right)
  {
    if |left| == 0 || |right| == 0 { return false; }
    var values := set v | v in left;
    for i := 0 to |right|
      invariant forall k | 0 <= k < i :: right[k] !in left
    {
      if right[i] in values {
        assert right[i] in left && right[i] in right;
        return false;
      }
    }
    return true;
  }

  /** The first reason, in the order of the checks, why two scopes cannot apply together. */
  function ScopesProvenDisjoint(left: Scope, right: Scope): Option<string> {
    if left.project != right.project then Some(DIFFERENT_PROJECT)
    else if left.kind == SessionScope && right.kind == SessionScope && left.session != right.session then
      Some(DISJOINT_SESSION)
    else if SetsDisjoint(left.harnesses, right.harnesses) then Some(DISJOINT_HARNESSES)
    else if SetsDisjoint(left.models, right.models) then Some(DISJOINT_MODELS)
    else if SetsDisjoint(left.families, right.families) then Some(DISJOINT_TASK_FAMILIES)
    else None
  }

  /** Sound for selection: no request at all finds both eligible, except that scopes disjoint only by
      task family may both be reached when one of them shares a term with the hint. */
  lemma DisjointIsSound(lex: Lexicon, p: Proposal, q: Proposal, r: Request)
    requires ScopesProvenDisjoint(p.scope, q.scope).Some?
    requires Eligible(lex, p, r) && Eligible(lex, q, r)
    ensures ScopesProvenDisjoint(p.scope, q.scope) == Some(DISJOINT_TASK_FAMILIES)
    ensures SharedTerms(lex, p, r) != {} || SharedTerms(lex, q, r) != {}
  {
    hide SharedTerms, PathsAllow;
  }

  // ---------------------------------------------------------------- and exact

  /** A file name that a path pattern matches: a letter in place of every wildcard. */
  function Concrete(pattern: string): (r: string)
    ensures |r| == |pattern|
    ensures forall i | 0 <= i < |r| :: r[i] == if pattern[i] in "*?" then 'x' else pattern[i]
  {
    seq(|pattern|, i requires 0 <= i < |pattern| => if pattern[i] in "*?" then 'x' else pattern[i])
  }

  function ConcreteAll(pattern: seq<string>): seq<string> {
    if pattern == [] then [] else [Concrete(pattern[0])] + ConcreteAll(pattern[1..])
  }

  lemma {:induction false} SegmentMatchesConcrete(segment: string)
    ensures SegmentMatches(segment, Concrete(segment))
  {
    if segment != "" {
      SegmentMatchesConcrete(segment[1..]);
      assert Concrete(segment)[1..] == Concrete(segment[1..]);
    }
  }

  lemma {:induction false} MatchesConcrete(pattern: seq<string>)
    ensures Matches(pattern, ConcreteAll(pattern))
  {
    hide Matches, SegmentMatches, Concrete;
    var file := ConcreteAll(pattern);
    MatchesUnfold(pattern, file);
    if pattern != [] {
      MatchesConcrete(pattern[1..]);
      SegmentMatchesConcrete(pattern[0]);
      assert file[1..] == ConcreteAll(pattern[1..]);
      MatchesUnfold(pattern, file[1..]);
    }
  }

  lemma {:induction false} SplitConcrete(pattern: string)
    ensures Split(Concrete(pattern), '/') == ConcreteAll(Split(pattern, '/'))
  {
    var file := Concrete(pattern);
    if pattern != [] {
      SplitConcrete(pattern[1..]);
      assert file[1..] == Concrete(pattern[1..]);
      var pieces := Split(pattern[1..], '/');
      if pattern[0] != '/' {
        assert Concrete([pattern[0]] + pieces[0]) == [file[0]] + Concrete(pieces[0]);
      } else {
        assert Concrete([]) == [];
      }
    }
  }

  lemma PatternMatchesConcrete(pattern: string)
    ensures RelativePathPatternMatches(pattern, Concrete(pattern))
  {
    hide Matches;
    SplitConcrete(pattern);
    MatchesConcrete(Split(pattern, '/'));
  }

  /** What a request demands of its paths: relative, clean, without wildcards. */
  predicate ValidFile(s: string) {
    && TrimSpace(s) != "" && s == TrimSpace(s) && |s| <= MAX_PATH_BYTES
    && forall piece | piece in Split(s, '/') :: ValidFilePiece(piece)
  }

  predicate ValidFilePiece(piece: string) {
    piece !in {"", ".", ".."} && forall i | 0 <= i < |piece| :: piece[i] >= ' ' && piece[i] !in "\\*?[]{}\U{7F}"
  }

  lemma TrimmedEnds(s: string)
    requires s != ""
    ensures TrimSpace(s) == s <==> !IsSpace(s[0]) && !IsSpace(s[|s| - 1])
  {
    TrimLeftEnds(s);
    TrimRightEnds(TrimLeft(s));
    TrimLeftShorter(s);
  }

  lemma {:induction false} TrimLeftShorter(s: string)
    ensures |TrimLeft(s)| <= |s|
  {
    if s != [] && IsSpace(s[0]) { TrimLeftShorter(s[1..]); }
  }

  lemma ConcreteDots(s: string)
    requires s != "." && s != ".."
    ensures Concrete(s) != "." && Concrete(s) != ".."
  {
    var r := Concrete(s);
    assert |s| == 1 ==> s[0] != '.' && r[0] != '.';
    assert |s| == 2 ==> r[0] != '.' || r[1] != '.';
  }

  lemma ConcretePiece(s: string)
    requires s !in {"", ".", ".."} && forall i | 0 <= i < |s| :: PatternChar(s[i])
    ensures ValidFilePiece(Concrete(s))
  {
    ConcreteDots(s);
  }

  lemma {:induction false} ConcretePieces(pieces: seq<string>, piece: string)
    requires forall p | p in pieces :: p !in {"", ".", ".."} && forall i | 0 <= i < |p| :: PatternChar(p[i])
    requires piece in ConcreteAll(pieces)
    ensures ValidFilePiece(piece)
  {
    hide PatternChar, ValidFilePiece;
    if piece == Concrete(pieces[0]) {
      assert pieces[0] in pieces;
      ConcretePiece(pieces[0]);
    } else {
      ConcretePieces(pieces[1..], piece);
    }
  }

  lemma ConcreteTrimmed(pattern: string)
    requires pattern != "" && TrimSpace(pattern) == pattern
    ensures TrimSpace(Concrete(pattern)) == Concrete(pattern)
  {
    hide TrimSpace;
    TrimmedEnds(pattern);
    TrimmedEnds(Concrete(pattern));
  }

  /** The concrete file of a valid pattern is one that a request may carry. */
  lemma ConcreteIsValidFile(pattern: string)
    requires ValidPattern(pattern)
    ensures ValidFile(Concrete(pattern))
  {
    hide Split, TrimSpace, ValidFilePiece, PatternChar, ConcreteAll;
    SplitConcrete(pattern);
    forall piece | piece in Split(Concrete(pattern), '/') ensures ValidFilePiece(piece) {
      ConcretePieces(Split(pattern, '/'), piece);
    }
    EmptyTrim();
    ConcreteTrimmed(pattern);
  }

  lemma EmptyTrim()
    ensures TrimSpace("") == ""
  {
  }

  /** One concrete file for the first pattern of every list. */
  function Files(lists: seq<seq<string>>): (r: seq<string>)
    ensures |r| <= |lists|
    ensures forall l | l in lists && l != [] :: Concrete(l[0]) in r
  {
    if lists == [] then [] else (if lists[0] == [] then [] else [Concrete(lists[0][0])]) + Files(lists[1..])
  }

  /** Every list of path patterns that an experience restricts a request with. */
  function PathLists(p: Proposal): (r: seq<seq<string>>)
    ensures |r| == 1 + |p.applicability.conditions|
    ensures p.scope.paths in r
    ensures forall c | c in p.applicability.conditions :: c.values in r
  {
    [p.scope.paths] + ValueLists(p.applicability.conditions)
  }

  function ValueLists(conditions: seq<Condition>): (r: seq<seq<string>>)
    ensures |r| == |conditions|
    ensures forall c | c in conditions :: c.values in r
  {
    if conditions == [] then [] else [conditions[0].values] + ValueLists(conditions[1..])
  }

  /** A member of both lists where both restrict, else a member of the one that does. */
  function Common(left: seq<string>, right: seq<string>): (r: string)
    requires !SetsDisjoint(left, right)
    ensures left != [] ==> r in left
    ensures right != [] ==> r in right
  {
    if left == [] && right == [] then ""
    else if left == [] then right[0]
    else if right == [] then left[0]
    else
      PickFirst(left, right)
  }

  function PickFirst(left: seq<string>, right: seq<string>): (r: string)
    requires exists v :: v in left && v in right
    ensures r in left && r in right
  {
    if left[0] in right then left[0] else PickFirst(left[1..], right)
  }

  /** A request that both scopes admit, with no task hint. */
  function JointRequest(p: Proposal, q: Proposal): Request
    requires ScopesProvenDisjoint(p.scope, q.scope) == None
  {
    Request(p.scope.project, if p.scope.kind == SessionScope then p.scope.session else q.scope.session,
            Common(p.scope.harnesses, q.scope.harnesses), Common(p.scope.families, q.scope.families), "",
            Files(PathLists(p) + PathLists(q)), Common(p.scope.models, q.scope.models))
  }

  /** What the converse needs of an experience: valid lists, and no condition of a kind that keeps it
      from ever being selected. */
  ghost predicate Selectable(p: Proposal) {
    ValidLists(p) && forall c | c in p.applicability.conditions :: c.kind == PATH_PATTERN
  }

  lemma FilesAllow(p: Proposal, lists: seq<seq<string>>, r: Request)
    requires Selectable(p) && r.paths == Files(lists) && forall l | l in PathLists(p) :: l in lists
    ensures PathsAllow(p, r)
    ensures r.paths == [] ==> p.scope.paths == [] && p.applicability.conditions == []
  {
    hide RelativePathPatternMatches, Files, PathLists, Concrete, ValidScope, ValidPattern, ValidIdentifier;
    if p.scope.paths != [] { FileFound(p.scope.paths, lists); }
    forall c | c in p.applicability.conditions ensures c.values != [] && PathsMatch(c.values, r.paths) {
      assert ValidCondition(c);
      FileFound(c.values, lists);
    }
    if p.applicability.conditions != [] { assert p.applicability.conditions[0].values != []; }
  }

  lemma FileFound(patterns: seq<string>, lists: seq<seq<string>>)
    requires patterns in lists && patterns != []
    ensures PathsMatch(patterns, Files(lists)) && Files(lists) != []
  {
    hide RelativePathPatternMatches, Files, Concrete;
    PatternMatchesConcrete(patterns[0]);
    assert patterns[0] in patterns && Concrete(patterns[0]) in Files(lists);
  }

  ghost predicate ValidPatterns(patterns: seq<string>) {
    forall v | v in patterns :: ValidPattern(v)
  }

  lemma {:induction false} FilesValid(lists: seq<seq<string>>)
    requires forall l | l in lists :: ValidPatterns(l)
    ensures forall path | path in Files(lists) :: ValidFile(path)
  {
    hide ValidPattern, ValidFile, Concrete;
    if lists != [] {
      forall l | l in lists[1..] ensures ValidPatterns(l) { assert l in lists; }
      FilesValid(lists[1..]);
      assert lists[0] in lists;
      if lists[0] != [] { ConcreteIsValidFile(lists[0][0]); }
    }
  }

  lemma {:induction false} ValueListsMembers(conditions: seq<Condition>, l: seq<string>)
    requires l in ValueLists(conditions)
    ensures exists c :: c in conditions && c.values == l
  {
    if l == conditions[0].values {
      assert conditions[0] in conditions;
    } else {
      ValueListsMembers(conditions[1..], l);
      var c :| c in conditions[1..] && c.values == l;
      assert c in conditions;
    }
  }

  lemma PathListsValid(p: Proposal, l: seq<string>)
    requires Selectable(p) && l in PathLists(p)
    ensures ValidPatterns(l)
  {
    hide ValidPattern, ValidIdentifier, ValueLists;
    if l != p.scope.paths {
      ValueListsMembers(p.applicability.conditions, l);
      var c :| c in p.applicability.conditions && c.values == l;
      assert ValidCondition(c) && c.kind == PATH_PATTERN;
    }
  }

  lemma JointPathsValid(p: Proposal, q: Proposal)
    requires Selectable(p) && Selectable(q)
    ensures forall path | path in Files(PathLists(p) + PathLists(q)) :: ValidFile(path)
  {
    hide Selectable, PathLists, Files, ValidPatterns, ValidFile;
    var lists := PathLists(p) + PathLists(q);
    forall l | l in lists ensures ValidPatterns(l) {
      if l in PathLists(p) { PathListsValid(p, l); } else { PathListsValid(q, l); }
    }
    FilesValid(lists);
  }

  lemma JointInScope(p: Proposal, q: Proposal)
    requires Selectable(p) && Selectable(q) && ScopesProvenDisjoint(p.scope, q.scope) == None
    ensures var r := JointRequest(p, q); InScope(p, r) && InScope(q, r)
    ensures p.scope.families != [] ==> FamilyNamed(p, JointRequest(p, q))
    ensures q.scope.families != [] ==> FamilyNamed(q, JointRequest(p, q))
  {
    ValidListsClean(p);
    ValidListsClean(q);
    hide Clean, Files, PathLists, Common, TrimSpace, ValidPattern, ValidCondition, HasControl;
    EmptyTrim();
    var r := JointRequest(p, q);
    NotBlank(p.scope.families, q.scope.families);
    NotBlank(p.scope.models, q.scope.models);
    assert r.harness != "" || (p.scope.harnesses == [] && q.scope.harnesses == []);
  }

  lemma NotBlank(left: seq<string>, right: seq<string>)
    requires Clean(left) && Clean(right) && !SetsDisjoint(left, right)
    ensures Common(left, right) != "" || (left == [] && right == [])
  {
    hide TrimSpace;
  }

  const MAX_REQUEST_PATHS := 128

  /** The paths are ones that a request may carry. */
  ghost predicate CarriesValid(r: Request) {
    |r.paths| <= MAX_REQUEST_PATHS && forall path | path in r.paths :: ValidFile(path)
  }

  ghost predicate FindsBoth(lex: Lexicon, p: Proposal, q: Proposal, r: Request) {
    Eligible(lex, p, r) && Eligible(lex, q, r)
  }

  ghost predicate NoneFindsBoth(lex: Lexicon, p: Proposal, q: Proposal) {
    forall r: Request | Terms(lex, r.hint) == {} :: !FindsBoth(lex, p, q, r)
  }

  ghost predicate NoValidFindsBoth(lex: Lexicon, p: Proposal, q: Proposal) {
    forall r: Request | Terms(lex, r.hint) == {} && CarriesValid(r) :: !FindsBoth(lex, p, q, r)
  }

  /** Exact for requests without a usable hint: two selectable experiences have disjoint scopes if and
      only if no request whose hint has no terms finds both eligible.  Up to 126 conditions together,
      this is so for the requests that carry at most 128 valid paths. */
  lemma DisjointIsExact(lex: Lexicon, p: Proposal, q: Proposal)
    requires Selectable(p) && Selectable(q) && Terms(lex, "") == {}
    ensures ScopesProvenDisjoint(p.scope, q.scope).Some? <==> NoneFindsBoth(lex, p, q)
    ensures 2 + |p.applicability.conditions| + |q.applicability.conditions| <= MAX_REQUEST_PATHS ==>
      (ScopesProvenDisjoint(p.scope, q.scope).Some? <==> NoValidFindsBoth(lex, p, q))
  {
    hide Terms, Selectable, Eligible, ScopesProvenDisjoint, JointRequest, ValidFile;
    if ScopesProvenDisjoint(p.scope, q.scope).Some? {
      forall r: Request | Terms(lex, r.hint) == {} ensures !FindsBoth(lex, p, q, r) {
        if FindsBoth(lex, p, q, r) { DisjointIsSound(lex, p, q, r); }
      }
    } else {
      JointlyEligible(lex, p, q);
      assert FindsBoth(lex, p, q, JointRequest(p, q));
    }
  }

  /** The paths meet every path restriction of the experience. */
  predicate Meets(p: Proposal, paths: seq<string>) {
    && (p.scope.paths != [] ==> PathsMatch(p.scope.paths, paths))
    && forall c | c in p.applicability.conditions :: PathsMatch(c.values, paths)
  }

  ghost predicate Covers(p: Proposal, q: Proposal, paths: seq<string>) {
    && |paths| <= MAX_REQUEST_PATHS && (forall path | path in paths :: ValidFile(path))
    && Meets(p, paths) && Meets(q, paths)
  }

  /** At most 128 valid paths meet all path restrictions of both. */
  ghost predicate Coverable(p: Proposal, q: Proposal) {
    exists paths: seq<string> :: Covers(p, q, paths)
  }

  lemma MeetsAllows(lex: Lexicon, p: Proposal, r: Request)
    requires Selectable(p) && InScope(p, r) && Meets(p, r.paths) && (p.scope.families != [] ==> FamilyNamed(p, r))
    ensures Eligible(lex, p, r)
  {
    hide InScope, ValidLists, RelativePathPatternMatches, FamilyNamed, SharedTerms;
    if p.applicability.conditions != [] { assert p.applicability.conditions[0] in p.applicability.conditions; }
  }

  lemma EligibleMeets(lex: Lexicon, p: Proposal, r: Request)
    requires Eligible(lex, p, r) && Terms(lex, r.hint) == {}
    ensures Meets(p, r.paths)
  {
    hide InScope, PathsMatch, FamilyNamed, TextTerms, Terms;
    assert !Unresolved(p, r);
  }

  lemma CoveredRequest(lex: Lexicon, p: Proposal, q: Proposal, paths: seq<string>)
    requires Selectable(p) && Selectable(q) && ScopesProvenDisjoint(p.scope, q.scope) == None && Covers(p, q, paths)
    ensures var r := JointRequest(p, q).(paths := paths); FindsBoth(lex, p, q, r) && CarriesValid(r) && r.hint == ""
  {
    JointInScope(p, q);
    hide Selectable, Meets, ScopesProvenDisjoint, Eligible, ValidFile, Files, PathLists, Common;
    var r := JointRequest(p, q).(paths := paths);
    assert InScope(p, r) && InScope(q, r);
    assert (p.scope.families != [] ==> FamilyNamed(p, r)) && (q.scope.families != [] ==> FamilyNamed(q, r));
    MeetsAllows(lex, p, r);
    MeetsAllows(lex, q, r);
  }

  /** Exact for the requests that can be made, whatever the number of conditions: none without a usable
      hint finds both if and only if the scopes are disjoint or no 128 paths meet all restrictions. */
  lemma NoneFindsBothExactly(lex: Lexicon, p: Proposal, q: Proposal)
    requires Selectable(p) && Selectable(q) && Terms(lex, "") == {}
    ensures NoValidFindsBoth(lex, p, q) <==> ScopesProvenDisjoint(p.scope, q.scope).Some? || !Coverable(p, q)
  {
    hide Terms, Selectable, Eligible, ScopesProvenDisjoint, JointRequest, ValidFile, Meets;
    if ScopesProvenDisjoint(p.scope, q.scope) == None && Coverable(p, q) {
      var paths: seq<string> :| Covers(p, q, paths);
      CoveredRequest(lex, p, q, paths);
      assert FindsBoth(lex, p, q, JointRequest(p, q).(paths := paths));
    } else {
      forall r: Request | Terms(lex, r.hint) == {} && CarriesValid(r) ensures !FindsBoth(lex, p, q, r) {
        if FindsBoth(lex, p, q, r) {
          EligibleMeets(lex, p, r);
          EligibleMeets(lex, q, r);
          assert Covers(p, q, r.paths);
          DisjointIsSound(lex, p, q, r);
        }
      }
    }
  }

  /** The witness carries only paths that a request may carry; their number is within the limit of 128
      when the two experiences together have at most 128 lists of path patterns. */
  lemma JointlyEligible(lex: Lexicon, p: Proposal, q: Proposal)
    requires Selectable(p) && Selectable(q) && ScopesProvenDisjoint(p.scope, q.scope) == None
    ensures var r := JointRequest(p, q); Eligible(lex, p, r) && Eligible(lex, q, r)
    ensures JointRequest(p, q).hint == ""
    ensures forall path | path in JointRequest(p, q).paths :: ValidFile(path)
    ensures |JointRequest(p, q).paths| <= 2 + |p.applicability.conditions| + |q.applicability.conditions|
  {
    hide Selectable, InScope, PathsAllow, SharedTerms, Files, PathLists, Common, FamilyNamed, ScopesProvenDisjoint,
         ValidFile;
    var r := JointRequest(p, q);
    JointPathsValid(p, q);
    JointInScope(p, q);
    FilesAllow(p, PathLists(p) + PathLists(q), r);
    FilesAllow(q, PathLists(p) + PathLists(q), r);
  }

  // ---------------------------------------------------------------- verifiers

  const FILE_MODIFIED := "file_modified"
  const FILE_NOT_MODIFIED := "file_not_modified"
  const PATTERN_NOT_MODIFIED := "path_pattern_not_modified"

  const FILE_OPPOSITION := "file_verifier_opposition"
  const PATTERN_OPPOSITION := "path_pattern_verifier_opposition"

  /** The specification that the kind of a valid verifier calls for. */
  predicate WellFormed(v: Verifier) {
    && (v.kind == FILE_MODIFIED || v.kind == FILE_NOT_MODIFIED ==> v.spec.FileSpec?)
    && (v.kind == PATTERN_NOT_MODIFIED ==> v.spec.PatternSpec?)
  }

  predicate MatchesAny(file: string, patterns: seq<string>) {
    exists pattern | pattern in patterns :: RelativePathPatternMatches(pattern, file)
  }

  function VerifierOpposition(left: Verifier, right: Verifier): Option<string>
    requires WellFormed(left) && WellFormed(right)
  {
    if left.kind == FILE_MODIFIED && right.kind == FILE_NOT_MODIFIED && left.spec.path == right.spec.path then
      Some(FILE_OPPOSITION)
    else if right.kind == FILE_MODIFIED && left.kind == FILE_NOT_MODIFIED && right.spec.path == left.spec.path then
      Some(FILE_OPPOSITION)
    else if left.kind == FILE_MODIFIED && right.kind == PATTERN_NOT_MODIFIED &&
      MatchesAny(left.spec.path, right.spec.patterns) then
      Some(PATTERN_OPPOSITION)
    else if right.kind == FILE_MODIFIED && left.kind == PATTERN_NOT_MODIFIED &&
      MatchesAny(right.spec.path, left.spec.patterns) then
      Some(PATTERN_OPPOSITION)
    else None
  }

  /** Whether the set of files a session modified satisfies a verifier of one of the file kinds; other
      kinds do not look at modified files. */
  predicate SatisfiedBy(v: Verifier, modified: set<string>)
    requires WellFormed(v)
  {
    if v.kind == FILE_MODIFIED then v.spec.path in modified
    else if v.kind == FILE_NOT_MODIFIED then v.spec.path !in modified
    else if v.kind == PATTERN_NOT_MODIFIED then forall file | file in modified :: !MatchesAny(file, v.spec.patterns)
    else true
  }

  /** Opposed exactly when no set of modified files satisfies both. */
  lemma OppositionIsExact(left: Verifier, right: Verifier)
    requires WellFormed(left) && WellFormed(right)
    ensures VerifierOpposition(left, right).Some? <==>
      forall modified: set<string> :: !(SatisfiedBy(left, modified) && SatisfiedBy(right, modified))
    ensures VerifierOpposition(left, right) == VerifierOpposition(right, left)
  {
    hide MatchesAny;
    if VerifierOpposition(left, right) == None {
      var modified := Demanded(left) + Demanded(right);
      assert SatisfiedBy(left, modified) && SatisfiedBy(right, modified);
    }
  }

  function Demanded(v: Verifier): set<string>
    requires WellFormed(v)
  {
    if v.kind == FILE_MODIFIED then {v.spec.path} else {}
  }
}
