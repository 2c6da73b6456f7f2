/** A narrowing that is eligible where its original is not: the case that the soundness theorem excludes
    does occur. */
module NarrowingWitness {
  import opened Text
  import opened Ordering
  import opened NormalForms
  import opened Experience
  import opened PathMatch
  import opened Selection
  import opened Approval
  import Disjointness

  /** A tokenizer that knows one term. */
  function OneTerm(text: string): set<string> {
    if text == "x" then {"x"} else {}
  }

  function WithFamilies(families: seq<string>): Proposal {
    Proposal(
      "rule", Scope(ProjectScope, "p", "", [PATH], families, [], []), Applicability("d", [], [], None),
      Guidance("i", "r", [], "suggest"), Verifier("observation_only", [], ObservationSpec("e")), false)
  }

  /** Restricted to a path, and to no task family. */
  function Original(): Proposal {
    WithFamilies([])
  }

  /** The approval adds a task family. */
  function Approved(): Proposal {
    WithFamilies(["x"])
  }

  /** Names the family, says its term, and carries no path. */
  function Asking(): Request {
    Request("p", "", "", "x", "x", [], "")
  }

  lemma OneLetter(c: char)
    requires !IsSpace(c)
    ensures TrimSpace([c]) == [c]
  {
    assert [c][..1] == [c];
  }

  lemma ShortIdentifier(c: char)
    requires 'a' <= c <= 'z'
    ensures ValidIdentifier([c])
  {
    OneLetter(c);
  }

  lemma {:induction false} NoSlash(s: string)
    requires '/' !in s
    ensures Split(s, '/') == [s]
  {
    if s != [] {
      assert '/' !in s[1..];
      NoSlash(s[1..]);
      assert s == [s[0]] + s[1..];
    }
  }

  const PATH := "src"

  lemma PathValid()
    ensures ValidPattern(PATH)
  {
    var s := PATH;
    assert s == ['s', 'r', 'c'];
    NoSlash(s);
    Disjointness.TrimmedEnds(s);
    Disjointness.EmptyTrim();
    hide TrimSpace, Split;
    assert forall i | 0 <= i < |s| :: PatternChar(s[i]);
    assert s !in {"", ".", ".."};
  }

  lemma ProjectValid()
    ensures ValidIdentifier("p")
  {
    ShortIdentifier('p');
    assert ['p'] == "p";
  }

  lemma ScopeValid(families: seq<string>)
    requires |families| <= 1 && forall f | f in families :: ValidIdentifier(f)
    ensures ValidScope(WithFamilies(families).scope)
  {
    hide ValidPattern, ValidIdentifier, ValidHarness;
    PathValid();
    ProjectValid();
    var scope := WithFamilies(families).scope;
    assert scope.paths == [PATH] && scope.families == families && scope.harnesses == [] && scope.models == [];
    forall v | v in scope.paths ensures ValidPattern(v) { assert v == PATH; }
  }

  lemma NoConditions(families: seq<string>)
    ensures WithFamilies(families).applicability.conditions == []
  {
  }

  lemma BothValid()
    ensures ValidLists(Original()) && ValidLists(Approved())
  {
    hide ValidIdentifier, ValidScope, ValidCondition, WithFamilies;
    ShortIdentifier('x');
    assert ['x'] == "x";
    ScopeValid([]);
    ScopeValid(["x"]);
    NoConditions([]);
    NoConditions(["x"]);
  }

  lemma FamilyListed()
    ensures NormalStrings([]) == [] && NormalStrings(["x"]) != []
  {
    OneLetter('x');
    hide TrimSpace;
    var values := ["x"];
    assert values[0] in values;
    assert "x" in TrimmedSet(values);
    NormalMembers(values, "x");
  }

  lemma ApprovedNarrows()
    ensures Narrowed(Original(), Approved())
  {
    FamilyListed();
    hide NormalStrings, SortedDistinct, TrimSpace, NormalGuidance, NormalVerifier, NormalApplicability;
    var o, a := ScopeLists(Original()), ScopeLists(Approved());
    assert o[0] == a[0] && o[2] == a[2] && o[3] == a[3] && o[1] == [];
    assert StrictlyNarrows(o[1], a[1]);
    forall i | 0 <= i < 4 ensures NarrowsList(o[i], a[i]) {}
  }

  lemma AskedTerms()
    ensures Terms(OneTerm, "x") == {"x"} && FixedTerms(OneTerm, Original()) == FixedTerms(OneTerm, Approved()) == {}
  {
    OneLetter('x');
    OneLetter('d');
    OneLetter('i');
    OneLetter('r');
    assert "d" != "x" && "i" != "x" && "r" != "x";
    hide TrimSpace;
  }

  lemma ScopeAndPaths(families: seq<string>)
    ensures InScope(WithFamilies(families), Asking()) && PathsAllow(WithFamilies(families), Asking())
    ensures Unresolved(WithFamilies(families), Asking())
  {
    hide PathsMatch;
  }

  lemma ApprovedShares()
    ensures SharedTerms(OneTerm, Approved(), Asking()) != {}
  {
    AskedTerms();
    var families := Approved().scope.families;
    assert families[0] == "x" && "x" in families;
    hide Terms, TrimSpace;
    assert "x" in FamilyTerms(OneTerm, families);
    assert "x" in SharedTerms(OneTerm, Approved(), Asking());
  }

  lemma OriginalSharesNothing()
    ensures SharedTerms(OneTerm, Original(), Asking()) == {}
  {
    AskedTerms();
    hide Terms, TrimSpace;
    assert FamilyTerms(OneTerm, []) == {};
  }

  /** Everything the soundness theorem asks for holds, the approved proposal is eligible, and the
      original is not. */
  lemma NarrowingCanWiden()
    ensures Narrowed(Original(), Approved()) && ValidLists(Original()) && ValidLists(Approved())
    ensures Eligible(OneTerm, Approved(), Asking()) && !Eligible(OneTerm, Original(), Asking())
  {
    hide InScope, PathsAllow, Unresolved, SharedTerms, Narrowed, ValidLists, WithFamilies, Asking, OneTerm;
    ApprovedNarrows();
    BothValid();
    ScopeAndPaths([]);
    ScopeAndPaths(["x"]);
    ApprovedShares();
    OriginalSharesNothing();
  }
}
