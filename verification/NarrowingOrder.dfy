/** Narrowing is a strict partial order, and only finitely many narrowings can follow one another. */
module NarrowingOrder {
  import opened Ordering
  import opened NormalForms
  import opened Experience
  import opened Approval

  // ---------------------------------------------------------------- lists

  lemma ScopeListsNoRepeats(p: Proposal)
    ensures forall i | 0 <= i < 4 :: NoRepeats(ScopeLists(p)[i])
  {
    hide NormalStrings, SortedDistinct, StrictlySorted, NoRepeats;
    NormalStrict(p.scope.paths);
    NormalStrict(p.scope.families);
    NormalStrict(p.scope.models);
    SortedDistinctStrict(p.scope.harnesses);
    StrictNoRepeats(StrLe, NormalStrings(p.scope.paths));
    StrictNoRepeats(StrLe, NormalStrings(p.scope.families));
    StrictNoRepeats(StrLe, NormalStrings(p.scope.models));
    StrictNoRepeats(StrLe, SortedDistinct(p.scope.harnesses));
  }

  lemma NarrowsListTransitive(a: seq<string>, b: seq<string>, c: seq<string>)
    requires NarrowsList(a, b) && NarrowsList(b, c)
    ensures NarrowsList(a, c)
  {
  }

  lemma StrictlyNarrowsTransitive(a: seq<string>, b: seq<string>, c: seq<string>)
    requires NarrowsList(a, b) && NarrowsList(b, c) && (StrictlyNarrows(a, b) || StrictlyNarrows(b, c))
    requires NoRepeats(b) && NoRepeats(c)
    ensures StrictlyNarrows(a, c)
  {
    NarrowsListTransitive(a, b, c);
    if a != [] {
      SubsetShorter(b, a);
      SubsetShorter(c, b);
    }
  }

  // ---------------------------------------------------------------- a strict partial order

  lemma NarrowingIrreflexive(p: Proposal)
    ensures !Narrowed(p, p)
  {
    hide ScopeLists, SameOtherwise;
  }

  lemma ListsNarrowTransitive(x: seq<seq<string>>, y: seq<seq<string>>, z: seq<seq<string>>)
    requires |x| == |y| == |z| == 4 && ListsNarrow(x, y) && ListsNarrow(y, z)
    requires forall i | 0 <= i < 4 :: NoRepeats(y[i]) && NoRepeats(z[i])
    ensures ListsNarrow(x, z)
  {
    hide NoRepeats;
    forall i | 0 <= i < 4 ensures NarrowsList(x[i], z[i]) { NarrowsListTransitive(x[i], y[i], z[i]); }
    var k :| 0 <= k < 4 && StrictlyNarrows(x[k], y[k]);
    StrictlyNarrowsTransitive(x[k], y[k], z[k]);
  }

  lemma OtherwiseTransitive(p: Proposal, q: Proposal, r: Proposal)
    requires SameOtherwise(p, q) && SameOtherwise(q, r)
    ensures SameOtherwise(p, r)
  {
    hide NormalScope, NormalGuidance, NormalVerifier, NormalApplicability;
  }

  lemma NarrowingTransitive(p: Proposal, q: Proposal, r: Proposal)
    requires Narrowed(p, q) && Narrowed(q, r)
    ensures Narrowed(p, r)
  {
    hide ScopeLists, SameOtherwise, ListsNarrow, NoRepeats;
    OtherwiseTransitive(p, q, r);
    ScopeListsNoRepeats(q);
    ScopeListsNoRepeats(r);
    ListsNarrowTransitive(ScopeLists(p), ScopeLists(q), ScopeLists(r));
  }

  // ---------------------------------------------------------------- every chain is short

  const HARNESS_KINDS := 2

  /** The longest normal form each of the four lists of a valid proposal can have. */
  const LIST_CAPS: seq<nat> := [MAX_LIST_ITEMS, MAX_LIST_ITEMS, MAX_LIST_ITEMS, HARNESS_KINDS]

  /** No restriction outranks every list. */
  function ListRank(cap: nat, values: seq<string>): nat {
    if values == [] then cap + 1 else |values|
  }

  function ListsRank(x: seq<seq<string>>): nat
    requires |x| == 4
  {
    ListRank(LIST_CAPS[0], x[0]) + ListRank(LIST_CAPS[1], x[1]) + ListRank(LIST_CAPS[2], x[2]) +
      ListRank(LIST_CAPS[3], x[3])
  }

  function Rank(p: Proposal): nat {
    ListsRank(ScopeLists(p))
  }

  lemma HarnessesFew(harnesses: seq<string>)
    requires forall v | v in harnesses :: ValidHarness(v)
    ensures |SortedDistinct(harnesses)| <= HARNESS_KINDS
  {
    SortedDistinctStrict(harnesses);
    hide SortedDistinct;
    StrictNoRepeats(StrLe, SortedDistinct(harnesses));
    var kinds := ["claude", "codex"];
    assert kinds[0] == "claude" && kinds[1] == "codex";
    SubsetShorter(SortedDistinct(harnesses), kinds);
  }

  lemma WithinCaps(p: Proposal)
    requires ValidLists(p)
    ensures forall i | 0 <= i < 4 :: |ScopeLists(p)[i]| <= LIST_CAPS[i]
  {
    hide NormalStrings, SortedDistinct, ValidPattern, ValidIdentifier, ValidCondition;
    NormalLength(p.scope.paths);
    NormalLength(p.scope.families);
    NormalLength(p.scope.models);
    HarnessesFew(p.scope.harnesses);
  }

  lemma RankBounds(p: Proposal)
    requires ValidLists(p)
    ensures 4 <= Rank(p) <= 390
  {
    hide ValidLists, ScopeLists;
    WithinCaps(p);
  }

  lemma ListRankFalls(cap: nat, wide: seq<string>, narrow: seq<string>)
    requires NarrowsList(wide, narrow) && NoRepeats(narrow) && |narrow| <= cap
    ensures ListRank(cap, narrow) <= ListRank(cap, wide)
    ensures StrictlyNarrows(wide, narrow) ==> ListRank(cap, narrow) < ListRank(cap, wide)
  {
    if wide != [] { SubsetShorter(narrow, wide); }
  }

  lemma ListsRankFalls(x: seq<seq<string>>, y: seq<seq<string>>)
    requires |x| == |y| == 4 && ListsNarrow(x, y)
    requires forall i | 0 <= i < 4 :: NoRepeats(y[i]) && |y[i]| <= LIST_CAPS[i]
    ensures ListsRank(y) < ListsRank(x)
  {
    hide NoRepeats, ListRank, NarrowsList, StrictlyNarrows;
    ListRankFalls(LIST_CAPS[0], x[0], y[0]);
    ListRankFalls(LIST_CAPS[1], x[1], y[1]);
    ListRankFalls(LIST_CAPS[2], x[2], y[2]);
    ListRankFalls(LIST_CAPS[3], x[3], y[3]);
  }

  lemma RankFalls(p: Proposal, q: Proposal)
    requires Narrowed(p, q) && ValidLists(q)
    ensures Rank(q) < Rank(p)
  {
    hide ScopeLists, SameOtherwise, ValidLists, NoRepeats, ListsNarrow, NarrowsExpiry, ListsRank;
    WithinCaps(q);
    ScopeListsNoRepeats(q);
    ListsRankFalls(ScopeLists(p), ScopeLists(q));
  }

  /** Each proposal of the chain was approved as a narrowing of the one before it. */
  ghost predicate NarrowingChain(chain: seq<Proposal>) {
    && (forall i | 0 <= i < |chain| :: ValidLists(chain[i]))
    && (forall i | 0 < i < |chain| :: Narrowed(chain[i - 1], chain[i]))
  }

  lemma {:induction false} ChainRank(chain: seq<Proposal>)
    requires NarrowingChain(chain) && chain != []
    ensures |chain| - 1 + Rank(chain[|chain| - 1]) <= Rank(chain[0])
  {
    hide Narrowed, Rank, ValidLists;
    if |chain| > 1 {
      var n := |chain| - 1;
      RankFalls(chain[n - 1], chain[n]);
      var init := chain[..n];
      assert init[n - 1] == chain[n - 1] && init[0] == chain[0];
      assert NarrowingChain(init) by {
        assert forall i | 0 <= i < |init| :: init[i] == chain[i];
      }
      ChainRank(init);
    }
  }

  /** At most 386 narrowings of valid proposals can follow one another. */
  lemma ChainsAreShort(chain: seq<Proposal>)
    requires NarrowingChain(chain)
    ensures |chain| <= 387
  {
    hide Rank;
    if chain != [] {
      assert ValidLists(chain[0]) && ValidLists(chain[|chain| - 1]);
      hide ValidLists;
      ChainRank(chain);
      RankBounds(chain[0]);
      RankBounds(chain[|chain| - 1]);
    }
  }
}
