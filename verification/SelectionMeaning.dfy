/** What a selection guarantees, in terms of scores, references and tokens: the best experiences that fit. */
module SelectionMeaning {
  import opened Text
  import opened Ordering
  import opened Experience
  import opened Selection
  import opened Conflict
  import opened SelectionBudget

  // ---------------------------------------------------------------- candidates

  /** Weight w if the condition holds. */
  function If(condition: bool, w: nat): nat {
    if condition then w else 0
  }

  /** The term occurs in the description, the guidance or a task family. */
  predicate Mentions(lex: Lexicon, p: Proposal, t: string) {
    || t in Terms(lex, p.applicability.description) || t in Terms(lex, p.guidance.instruction)
    || t in Terms(lex, p.guidance.rationale) || exists f | f in p.scope.families :: t in Terms(lex, f)
  }

  function SharedWith(lex: Lexicon, p: Proposal, r: Request): set<string> {
    set t | t in Terms(lex, r.hint) && Mentions(lex, p, t)
  }

  lemma SharedAre(lex: Lexicon, p: Proposal, r: Request)
    ensures SharedTerms(lex, p, r) == SharedWith(lex, p, r)
  {
    forall t ensures t in SharedTerms(lex, p, r) <==> t in SharedWith(lex, p, r) {
      if f :| f in p.scope.families && t in Terms(lex, f) { assert t in FamilyTerms(lex, p.scope.families); }
    }
  }

  /** The points of an eligible experience: ten for the project, and more for every restriction that the
      request meets explicitly, and for the terms they share. */
  function Points(lex: Lexicon, p: Proposal, r: Request): nat {
    var shared := |SharedWith(lex, p, r)|;
    10 + If(p.scope.kind == SessionScope, 50) + If(p.scope.harnesses != [], 20) + If(p.scope.models != [], 20)
    + If(r.family != "" && r.family in p.scope.families, 30) + If(r.paths != [] && p.scope.paths != [], 30)
    + if shared > 10 then 10 else shared
  }

  /** The experience is active, not expired, and eligible for the request. */
  predicate Available(lex: Lexicon, r: Request, stored: Stored, now: int) {
    && stored.lifecycle == LifecycleActive && (stored.expiresAt == None || now < stored.expiresAt.value)
    && Eligible(lex, stored.experience, r)
  }

  /** A request that leaves out its session, harness or model meets no restriction on it, even one that
      lists the empty text. */
  lemma UnnamedMeetsNothing(lex: Lexicon, p: Proposal, r: Request)
    requires Eligible(lex, p, r)
    ensures p.scope.project == r.project && (r.session == "" ==> p.scope.kind == ProjectScope)
    ensures (r.harness == "" ==> p.scope.harnesses == []) && (r.model == "" ==> p.scope.models == [])
  {
    hide SharedTerms, PathsAllow, Unresolved;
  }

  /** What a reference stands for as a candidate. */
  ghost predicate Candidate(lex: Lexicon, encode: Encoder, r: Request, store: map<Reference, Stored>, now: int,
                            refs: seq<Reference>, item: Item) {
    && item.ref in refs && item.ref in store && Available(lex, r, store[item.ref], now)
    && item.experience == store[item.ref].experience && item.score == Points(lex, item.experience, r)
    && TokensOf(encode, item.experience) == Some(item.tokens)
  }

  /** The better score; of equal ones, the smaller experience ID, and then the smaller version. */
  predicate Better(x: Item, y: Item) {
    x.score > y.score ||
    (x.score == y.score &&
     ((x.ref.id != y.ref.id && StrLe(x.ref.id, y.ref.id)) || (x.ref.id == y.ref.id && x.ref.version < y.ref.version)))
  }

  function TokenSum(items: seq<Item>): nat {
    if items == [] then 0 else TokenSum(items[..|items| - 1]) + items[|items| - 1].tokens
  }

  lemma PointsAre(lex: Lexicon, p: Proposal, r: Request)
    ensures ScoreOf(lex, p, r) == Points(lex, p, r)
  {
    SharedAre(lex, p, r);
    hide SharedTerms, SharedWith;
  }

  // ---------------------------------------------------------------- the ranked list holds the candidates

  lemma JudgeWhen(lex: Lexicon, encode: Encoder, r: Request, store: map<Reference, Stored>, now: int,
                  refs: seq<Reference>, ref: Reference)
    requires ref in refs && Judge(lex, encode, r, store, now, ref) != Damaged
    ensures ref in store
    ensures forall item ::
      Judge(lex, encode, r, store, now, ref) == Ranked(item) <==>
        item.ref == ref && Candidate(lex, encode, r, store, now, refs, item)
    ensures Available(lex, r, store[ref], now) <==> Judge(lex, encode, r, store, now, ref).Ranked?
  {
    if ref in store { PointsAre(lex, store[ref].experience, r); }
    hide Eligible, TokensOf, Sound, Points, ScoreOf;
  }

  lemma {:induction false} ItemsComplete(lex: Lexicon, encode: Encoder, r: Request, store: map<Reference, Stored>,
                                         now: int, refs: seq<Reference>, ref: Reference)
    requires ref in refs && Judge(lex, encode, r, store, now, ref).Ranked?
    ensures Judge(lex, encode, r, store, now, ref).item in Items(lex, encode, r, store, now, refs)
  {
    hide Judge;
    var n := |refs| - 1;
    if ref != refs[n] {
      assert ref in refs[..n];
      ItemsComplete(lex, encode, r, store, now, refs[..n], ref);
    }
  }

  ghost predicate DistinctRefs(items: seq<Item>) {
    forall i, j | 0 <= i < j < |items| :: items[i].ref != items[j].ref
  }

  lemma JudgeNames(lex: Lexicon, encode: Encoder, r: Request, store: map<Reference, Stored>, now: int, ref: Reference)
    ensures var verdict := Judge(lex, encode, r, store, now, ref); verdict.Ranked? ==> verdict.item.ref == ref
  {
    hide Selection.Eligible, TokensOf, Sound, ScoreOf;
  }

  lemma {:induction false} ItemsDistinct(lex: Lexicon, encode: Encoder, r: Request, store: map<Reference, Stored>,
                                         now: int, refs: seq<Reference>)
    requires NoRepeats(refs)
    ensures DistinctRefs(Items(lex, encode, r, store, now, refs))
  {
    hide Judge;
    if refs != [] {
      var n := |refs| - 1;
      ItemsDistinct(lex, encode, r, store, now, refs[..n]);
      JudgeNames(lex, encode, r, store, now, refs[n]);
      var init := Items(lex, encode, r, store, now, refs[..n]);
      forall i | 0 <= i < |init| ensures init[i].ref != refs[n] {
        assert init[i] in init;
        assert init[i].ref in refs[..n];
      }
    }
  }

  lemma DistinctSorted(items: seq<Item>)
    requires DistinctRefs(items)
    ensures DistinctRefs(SortBy(RankLe, items))
  {
    var f := (item: Item) => item.ref;
    var sorted := SortBy(RankLe, items);
    hide RankLe;
    MapBag(f, items, sorted);
    NoRepeatsBag(Map(f, items), Map(f, sorted));
    forall i, j | 0 <= i < j < |sorted| ensures sorted[i].ref != sorted[j].ref {
      assert Map(f, sorted)[i] != Map(f, sorted)[j];
    }
  }

  ghost predicate BestFirst(items: seq<Item>) {
    forall i, j | 0 <= i < j < |items| :: Better(items[i], items[j])
  }

  lemma RankedBetter(x: Item, y: Item)
    requires RankLe(x, y) && x.ref != y.ref
    ensures Better(x, y)
  {
    hide StrLe;
  }

  lemma RankingBestFirst(lex: Lexicon, encode: Encoder, r: Request, store: map<Reference, Stored>, now: int,
                         refs: seq<Reference>)
    requires NoRepeats(refs)
    ensures BestFirst(Ranking(lex, encode, r, store, now, refs))
  {
    var sorted := SortBy(RefLe, refs);
    var items := Items(lex, encode, r, store, now, sorted);
    RankLeOrder();
    NoRepeatsBag(refs, sorted);
    hide Items, RefLe;
    ItemsDistinct(lex, encode, r, store, now, sorted);
    DistinctSorted(items);
    SortBySorted(RankLe, items);
    var ranking := SortBy(RankLe, items);
    hide RankLe, Better;
    forall i, j | 0 <= i < j < |ranking|
      ensures Better(ranking[i], ranking[j])
    { RankedBetter(ranking[i], ranking[j]); }
  }

  lemma RankingComplete(lex: Lexicon, encode: Encoder, r: Request, store: map<Reference, Stored>, now: int,
                        refs: seq<Reference>, ref: Reference)
    requires ref in refs && Judge(lex, encode, r, store, now, ref).Ranked?
    ensures Judge(lex, encode, r, store, now, ref).item in Ranking(lex, encode, r, store, now, refs)
  {
    var sorted := SortBy(RefLe, refs);
    BagMembers(refs, sorted);
    hide Judge, Items, RefLe, RankLe;
    ItemsComplete(lex, encode, r, store, now, sorted, ref);
    var items := Items(lex, encode, r, store, now, sorted);
    BagMembers(SortBy(RankLe, items), items);
  }

  // ---------------------------------------------------------------- what the greedy rule picks

  lemma SumAppend(items: seq<Item>, x: Item)
    ensures TokenSum(items + [x]) == TokenSum(items) + x.tokens
  {
    assert (items + [x])[..|items|] == items;
  }

  lemma {:induction false} WeightIsSum(items: seq<Item>, mask: seq<bool>)
    requires |mask| <= |items|
    ensures Weight(items, mask) == TokenSum(Picked(items, mask))
  {
    if mask != [] {
      var n := |mask| - 1;
      WeightIsSum(items, mask[..n]);
      var before := Picked(items, mask[..n]);
      SumAppend(before, items[n]);
      hide TokenSum;
      assert Picked(items, mask) == if mask[n] then before + [items[n]] else before;
    }
  }

  /** The items picked before position t come first among the picked ones. */
  lemma {:induction false} PickedSplits(items: seq<Item>, mask: seq<bool>, t: nat)
    requires t <= |mask| <= |items|
    ensures Count(mask[..t]) <= |Picked(items, mask)|
    ensures Picked(items, mask)[..Count(mask[..t])] == Picked(items, mask[..t])
    ensures forall k | Count(mask[..t]) <= k < |Picked(items, mask)| :: Later(items, t, Picked(items, mask)[k])
    ensures forall k | 0 <= k < Count(mask[..t]) :: Earlier(items, t, Picked(items, mask)[k])
    decreases |mask|
  {
    if t == |mask| {
      assert mask[..t] == mask;
      PickedEarlier(items, mask);
    } else {
      var init := mask[..|mask| - 1];
      PickedSplits(items, init, t);
      assert init[..t] == mask[..t];
      hide Count;
      assert Picked(items, mask) == Picked(items, init) + if mask[|mask| - 1] then [items[|mask| - 1]] else [];
    }
  }

  ghost predicate Later(items: seq<Item>, t: nat, item: Item) {
    exists i :: t <= i < |items| && items[i] == item
  }

  ghost predicate Earlier(items: seq<Item>, t: nat, item: Item) {
    exists i :: 0 <= i < t && i < |items| && items[i] == item
  }

  lemma {:induction false} PickedEarlier(items: seq<Item>, mask: seq<bool>)
    requires |mask| <= |items|
    ensures forall k | 0 <= k < |Picked(items, mask)| :: Earlier(items, |mask|, Picked(items, mask)[k])
  {
    if mask != [] {
      var n := |mask| - 1;
      PickedEarlier(items, mask[..n]);
      var before := Picked(items, mask[..n]);
      forall k | 0 <= k < |Picked(items, mask)| ensures Earlier(items, |mask|, Picked(items, mask)[k]) {
        if k < |before| { assert Earlier(items, n, before[k]); } else { assert items[n] == Picked(items, mask)[k]; }
      }
    }
  }

  lemma SortedSides(ranking: seq<Item>, t: nat, item: Item)
    requires BestFirst(ranking) && t < |ranking|
    ensures Earlier(ranking, t, item) ==> Better(item, ranking[t])
    ensures Later(ranking, t + 1, item) ==> Better(ranking[t], item)
  {
    hide Better;
  }

  lemma {:induction false} PickedInOrder(ranking: seq<Item>, mask: seq<bool>)
    requires BestFirst(ranking) && |mask| <= |ranking|
    ensures BestFirst(Picked(ranking, mask))
  {
    hide Better;
    if mask != [] {
      var n := |mask| - 1;
      PickedInOrder(ranking, mask[..n]);
      PickedEarlier(ranking, mask[..n]);
      var before := Picked(ranking, mask[..n]);
      forall k | 0 <= k < |before| ensures Better(before[k], ranking[n]) {
        assert Earlier(ranking, n, before[k]);
        SortedSides(ranking, n, before[k]);
      }
    }
  }

  /** The candidate that was left out comes after n selected items that are better, and before the rest;
      these are three, or leave too few tokens for it. */
  ghost predicate Excluded(items: seq<Item>, item: Item, n: nat) {
    && n <= |items| && (forall k | 0 <= k < n :: Better(items[k], item))
    && (forall k | n <= k < |items| :: Better(item, items[k]))
    && (n == 3 || TokenSum(items[..n]) + item.tokens > 600)
  }

  lemma LeftOut(ranking: seq<Item>, mask: seq<bool>, t: nat)
    requires BestFirst(ranking) && Greedy(ranking, mask) && t < |ranking| && !mask[t]
    ensures Excluded(Picked(ranking, mask), ranking[t], Count(mask[..t]))
  {
    hide Better, Picked, Weight;
    var items, n := Picked(ranking, mask), Count(mask[..t]);
    PickedSplits(ranking, mask, t);
    NotLater(ranking, mask, t);
    WeightIsSum(ranking, mask[..t]);
    GreedyBounded(ranking, mask, t);
    assert !Fits(ranking, mask[..t]);
    hide Count, Greedy;
    forall k | 0 <= k < n ensures Better(items[k], ranking[t]) {
      assert Earlier(ranking, t, items[k]);
      SortedSides(ranking, t, items[k]);
    }
    forall k | n <= k < |items| ensures Better(ranking[t], items[k]) {
      assert Later(ranking, t + 1, items[k]);
      SortedSides(ranking, t, items[k]);
    }
  }

  lemma NotLater(ranking: seq<Item>, mask: seq<bool>, t: nat)
    requires t < |mask| <= |ranking| && !mask[t]
    ensures forall k | Count(mask[..t]) <= k < |Picked(ranking, mask)| ::
      Later(ranking, t + 1, Picked(ranking, mask)[k])
  {
    PickedSplits(ranking, mask, t + 1);
    assert mask[..t + 1][..t] == mask[..t];
    hide Picked;
  }

  lemma {:induction false} PickedWhen(items: seq<Item>, mask: seq<bool>, t: nat)
    requires t < |mask| <= |items| && mask[t]
    ensures items[t] in Picked(items, mask)
  {
    if t < |mask| - 1 { PickedWhen(items, mask[..|mask| - 1], t); }
  }

  // ---------------------------------------------------------------- the selection

  /** The selected candidates, best first, at most three and at most 600 tokens. */
  ghost predicate WellChosen(lex: Lexicon, encode: Encoder, r: Request, store: map<Reference, Stored>, now: int,
                             refs: seq<Reference>, s: Selected) {
    && (forall item | item in s.items :: Candidate(lex, encode, r, store, now, refs, item))
    && BestFirst(s.items) && |s.items| <= 3 && s.tokens == TokenSum(s.items) <= 600
  }

  lemma SelectedWell(lex: Lexicon, encode: Encoder, r: Request, store: map<Reference, Stored>, now: int,
                     refs: seq<Reference>, s: Selected)
    requires NoRepeats(refs) && Selects(lex, encode, r, store, now, refs, s)
    requires AllSound(lex, encode, r, store, now, refs)
    ensures WellChosen(lex, encode, r, store, now, refs, s)
  {
    hide Ranking, Judge, RefLe, Better, Candidate, SelectedBy;
    var ranking := Ranking(lex, encode, r, store, now, refs);
    var mask :| SelectedBy(ranking, mask, s);
    RankingBestFirst(lex, encode, r, store, now, refs);
    SelectedParts(ranking, mask, s);
    SelectedBounds(ranking, mask, s);
    forall item | item in s.items ensures Candidate(lex, encode, r, store, now, refs, item) {
      RankingMember(lex, encode, r, store, now, refs, item);
      JudgeWhen(lex, encode, r, store, now, refs, item.ref);
    }
  }

  lemma SelectedParts(ranking: seq<Item>, mask: seq<bool>, s: Selected)
    requires BestFirst(ranking) && SelectedBy(ranking, mask, s)
    ensures BestFirst(s.items) && s.tokens == TokenSum(s.items)
  {
    hide Better;
    PickedInOrder(ranking, mask);
    WeightIsSum(ranking, mask);
  }

  /** Every available experience of the generation is a candidate; it is selected, or shut out by better
      ones: three of them, or so many that too few tokens are left for it. */
  lemma EveryCandidateHasItsPlace(lex: Lexicon, encode: Encoder, r: Request, store: map<Reference, Stored>, now: int,
                                  refs: seq<Reference>, s: Selected, ref: Reference) returns (item: Item)
    requires NoRepeats(refs) && Selects(lex, encode, r, store, now, refs, s)
    requires AllSound(lex, encode, r, store, now, refs)
    requires ref in refs && ref in store && Available(lex, r, store[ref], now)
    ensures item.ref == ref && Candidate(lex, encode, r, store, now, refs, item)
    ensures item in s.items || exists n :: Excluded(s.items, item, n)
  {
    hide Ranking, Judge, RefLe, Better, Candidate, Available, SelectedBy, Excluded;
    JudgeWhen(lex, encode, r, store, now, refs, ref);
    item := Judge(lex, encode, r, store, now, ref).item;
    RankingComplete(lex, encode, r, store, now, refs, ref);
    RankingBestFirst(lex, encode, r, store, now, refs);
    var ranking := Ranking(lex, encode, r, store, now, refs);
    var mask :| SelectedBy(ranking, mask, s);
    PlaceOf(ranking, mask, s, item);
  }

  lemma PlaceOf(ranking: seq<Item>, mask: seq<bool>, s: Selected, item: Item)
    requires BestFirst(ranking) && SelectedBy(ranking, mask, s) && item in ranking
    ensures item in s.items || exists n :: Excluded(s.items, item, n)
  {
    hide Better, Excluded;
    var t :| 0 <= t < |ranking| && ranking[t] == item;
    if mask[t] { PickedWhen(ranking, mask, t); } else { LeftOut(ranking, mask, t); }
  }

  // ---------------------------------------------------------------- damage and size

  /** The stored experience passed its validators and is the one that is named, with one expiry. */
  predicate Intact(project: string, ref: Reference, stored: Stored) {
    && stored.checked && stored.ref.id == ref.id && stored.ref.version == ref.version
    && stored.experience.scope.project == project && stored.lifecycle in {LifecycleActive, LifecycleOther}
    && stored.expiresAt == stored.experience.applicability.expiresAt
  }

  /** A reference damages the whole selection exactly when its experience is missing or not intact, or is
      available and has no text. */
  lemma DamagedExactly(lex: Lexicon, encode: Encoder, r: Request, store: map<Reference, Stored>, now: int,
                       ref: Reference)
    ensures Judge(lex, encode, r, store, now, ref) == Damaged <==>
      ref !in store || !Intact(r.project, ref, store[ref]) ||
      (Available(lex, r, store[ref], now) && TokensOf(encode, store[ref].experience) == None)
  {
    hide Eligible, TokensOf, ScoreOf;
  }

  function Concatenated(texts: seq<string>): string {
    if texts == [] then "" else texts[0] + Concatenated(texts[1..])
  }

  lemma {:induction false} ConcatenatedLast(texts: seq<string>)
    requires texts != []
    ensures Concatenated(texts) == Concatenated(texts[..|texts| - 1]) + texts[|texts| - 1]
  {
    var n := |texts| - 1;
    if n > 0 {
      ConcatenatedLast(texts[1..]);
      assert texts[1..][..n - 1] == texts[..n][1..];
    }
  }

  lemma {:induction false} ExceptionBytesAre(exceptions: seq<string>)
    ensures ExceptionBytes(exceptions) == |Concatenated(exceptions)|
  {
    if exceptions != [] {
      ExceptionBytesAre(exceptions[..|exceptions| - 1]);
      ConcatenatedLast(exceptions);
    }
  }

  /** Four times the estimate covers all bytes of the guidance and of the canonical verifier, and no more
      than three besides. */
  lemma TokensCover(encode: Encoder, p: Proposal)
    ensures TokensOf(encode, p).Some? <==> encode(NormalVerifier(p.verifier)).Some?
    ensures TokensOf(encode, p).Some? ==>
      var bytes := |p.guidance.instruction + p.guidance.rationale + Concatenated(p.guidance.exceptions)| +
                   encode(NormalVerifier(p.verifier)).value;
      bytes <= 4 * TokensOf(encode, p).value <= bytes + 3
  {
    hide NormalVerifier;
    ExceptionBytesAre(p.guidance.exceptions);
  }
}
