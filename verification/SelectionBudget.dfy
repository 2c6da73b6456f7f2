/** Selecting experiences for a request: the generation's references, the ranking and the budget. */
module SelectionBudget {
  import opened Text
  import opened Ordering
  import opened Experience
  import opened Selection
  import opened Conflict

  const MAX_SELECTED := 3
  const MAX_TOKENS := 600
  const MAX_GENERATION_REFS := 500

  datatype Item = Item(ref: Reference, experience: Proposal, score: nat, tokens: nat)

  // ---------------------------------------------------------------- the greedy budget

  function Count(mask: seq<bool>): nat {
    if mask == [] then 0 else Count(mask[..|mask| - 1]) + if mask[|mask| - 1] then 1 else 0
  }

  /** The tokens of the items that the mask takes from the front of the list. */
  function Weight(items: seq<Item>, mask: seq<bool>): nat
    requires |mask| <= |items|
  {
    if mask == [] then 0
    else Weight(items, mask[..|mask| - 1]) + if mask[|mask| - 1] then items[|mask| - 1].tokens else 0
  }

  function Picked(items: seq<Item>, mask: seq<bool>): (r: seq<Item>)
    requires |mask| <= |items|
    ensures |r| == Count(mask)
  {
    if mask == [] then []
    else Picked(items, mask[..|mask| - 1]) + if mask[|mask| - 1] then [items[|mask| - 1]] else []
  }

  /** Item |mask| still fits after the choices made before it. */
  predicate Fits(items: seq<Item>, mask: seq<bool>)
    requires |mask| < |items|
  {
    Count(mask) < MAX_SELECTED && Weight(items, mask) + items[|mask|].tokens <= MAX_TOKENS
  }

  /** The greedy rule: an item is taken exactly when fewer than three items ranked above it were taken
      and their tokens and its own stay within the budget. */
  ghost predicate GreedySoFar(items: seq<Item>, mask: seq<bool>) {
    |mask| <= |items| && forall i | 0 <= i < |mask| :: mask[i] <==> Fits(items, mask[..i])
  }

  ghost predicate Greedy(items: seq<Item>, mask: seq<bool>) {
    |mask| == |items| && GreedySoFar(items, mask)
  }

  lemma GreedyExtend(items: seq<Item>, mask: seq<bool>, taken: bool)
    requires GreedySoFar(items, mask) && |mask| < |items| && (taken <==> Fits(items, mask))
    ensures var next := mask + [taken]; GreedySoFar(items, next)
    ensures Picked(items, mask + [taken]) == Picked(items, mask) + if taken then [items[|mask|]] else []
    ensures Weight(items, mask + [taken]) == Weight(items, mask) + if taken then items[|mask|].tokens else 0
    ensures Count(mask + [taken]) == Count(mask) + if taken then 1 else 0
  {
    var next := mask + [taken];
    assert next[..|mask|] == mask;
    hide Fits, Picked, Weight, Count;
    forall i | 0 <= i < |next| ensures next[i] <==> Fits(items, next[..i]) {
      if i < |mask| { assert next[..i] == mask[..i] && next[i] == mask[i]; }
    }
  }

  /** The choices that the rule leads to, item by item. */
  ghost function GreedyMask(items: seq<Item>, n: nat): (mask: seq<bool>)
    requires n <= |items|
    ensures |mask| == n && GreedySoFar(items, mask)
  {
    if n == 0 then []
    else
      var before := GreedyMask(items, n - 1);
      GreedyExtend(items, before, Fits(items, before));
      before + [Fits(items, before)]
  }

  /** The loop over the ranked items. */
  method SelectWithinBudget(items: seq<Item>) returns (selected: seq<Item>, total: nat)
    ensures var mask := GreedyMask(items, |items|); selected == Picked(items, mask) && total == Weight(items, mask)
  {
    hide GreedySoFar, Weight, Picked, Count, GreedyMask;
    ghost var mask: seq<bool>;
    selected, total, mask := [], 0, [];
    assert GreedySoFar(items, mask) && selected == Picked(items, mask) && total == Weight(items, mask) by {
      NothingTaken(items);
    }
    for i := 0 to |items|
      invariant |mask| == i && selected == Picked(items, mask) && total == Weight(items, mask)
      invariant GreedySoFar(items, mask)
    {
      if |selected| == MAX_SELECTED {
        mask := FillFull(items, mask);
        break;
      }
      var tokens := items[i].tokens;
      NeverOver(items, mask);
      if tokens > MAX_TOKENS || total + tokens > MAX_TOKENS {
        GreedyExtend(items, mask, false);
        mask := mask + [false];
        continue;
      }
      GreedyExtend(items, mask, true);
      selected := selected + [items[i]];
      total := total + tokens;
      mask := mask + [true];
    }
    GreedyUnique(items, mask, GreedyMask(items, |items|));
  }

  lemma NothingTaken(items: seq<Item>)
    ensures GreedySoFar(items, []) && Picked(items, []) == [] && Weight(items, []) == 0
  {
  }

  lemma NeverOver(items: seq<Item>, mask: seq<bool>)
    requires GreedySoFar(items, mask)
    ensures Count(mask) <= MAX_SELECTED
  {
    GreedyBounded(items, mask, |mask|);
    assert mask[..|mask|] == mask;
  }

  lemma {:induction false} GreedyBounded(items: seq<Item>, mask: seq<bool>, n: nat)
    requires GreedySoFar(items, mask) && n <= |mask|
    ensures Count(mask[..n]) <= MAX_SELECTED && Weight(items, mask[..n]) <= MAX_TOKENS
  {
    if n > 0 {
      GreedyBounded(items, mask, n - 1);
      assert mask[..n][..n - 1] == mask[..n - 1];
      assert mask[n - 1] <==> Fits(items, mask[..n - 1]);
    }
  }

  /** Once three items are taken, nothing more is. */
  lemma FillFull(items: seq<Item>, mask: seq<bool>) returns (full: seq<bool>)
    requires GreedySoFar(items, mask) && Count(mask) == MAX_SELECTED
    ensures Greedy(items, full) && Picked(items, full) == Picked(items, mask)
    ensures Weight(items, full) == Weight(items, mask)
    decreases |items| - |mask|
  {
    full := mask;
    if |mask| < |items| {
      GreedyExtend(items, mask, false);
      hide GreedySoFar, Picked, Weight, Count;
      full := FillFull(items, mask + [false]);
    }
  }

  // ---------------------------------------------------------------- what the greedy rule amounts to

  predicate Feasible(items: seq<Item>, mask: seq<bool>) {
    |mask| == |items| && Count(mask) <= MAX_SELECTED && Weight(items, mask) <= MAX_TOKENS
  }

  lemma {:induction false} PrefixMonotone(items: seq<Item>, mask: seq<bool>, i: nat)
    requires i <= |mask| <= |items|
    ensures Count(mask[..i]) <= Count(mask) && Weight(items, mask[..i]) <= Weight(items, mask)
    decreases |mask|
  {
    if i < |mask| {
      var init := mask[..|mask| - 1];
      PrefixMonotone(items, init, i);
      assert init[..i] == mask[..i];
    } else {
      assert mask[..i] == mask;
    }
  }

  /** The two choices agree before position i and differ there. */
  ghost predicate FirstDifference(a: seq<bool>, b: seq<bool>, i: nat) {
    i < |a| && i < |b| && a[..i] == b[..i] && a[i] != b[i]
  }

  lemma {:induction false} Difference(a: seq<bool>, b: seq<bool>) returns (i: nat)
    requires |a| == |b| && a != b
    ensures FirstDifference(a, b, i)
  {
    i := 0;
    while i < |a| && a[i] == b[i]
      invariant i <= |a| && a[..i] == b[..i]
    {
      i := i + 1;
    }
    assert a[..|a|] == a && b[..|b|] == b;
  }

  lemma GreedyTakes(items: seq<Item>, greedy: seq<bool>, other: seq<bool>, i: nat)
    requires Greedy(items, greedy) && Feasible(items, other) && i < |items| && greedy[..i] == other[..i]
    ensures other[i] ==> greedy[i]
  {
    PrefixMonotone(items, other, i + 1);
    var next := other[..i + 1];
    assert next[..i] == other[..i] && next[i] == other[i];
    assert greedy[i] <==> Fits(items, greedy[..i]);
  }

  /** Among all choices within the limits, the greedy one prefers higher ranks: against any other
      feasible choice, at the first rank where they differ, greedy takes the item. */
  lemma GreedyIsFirst(items: seq<Item>, greedy: seq<bool>, other: seq<bool>) returns (i: nat)
    requires Greedy(items, greedy) && Feasible(items, other) && other != greedy
    ensures Feasible(items, greedy)
    ensures FirstDifference(greedy, other, i) && greedy[i]
  {
    GreedyBounded(items, greedy, |greedy|);
    assert greedy[..|greedy|] == greedy;
    i := Difference(greedy, other);
    GreedyTakes(items, greedy, other, i);
  }

  /** The rule has one solution, so the selection is a function of the ranked list. */
  lemma GreedyUnique(items: seq<Item>, a: seq<bool>, b: seq<bool>)
    requires Greedy(items, a) && Greedy(items, b)
    ensures a == b
  {
    if a != b { var i := Difference(a, b); }
  }

  /** With room for another item, every item left out would exceed the token budget. */
  lemma GreedyMaximal(items: seq<Item>, mask: seq<bool>, i: nat)
    requires Greedy(items, mask) && Count(mask) < MAX_SELECTED && i < |items| && !mask[i]
    ensures Weight(items, mask) + items[i].tokens > MAX_TOKENS
  {
    PrefixMonotone(items, mask, i);
    assert !Fits(items, mask[..i]);
  }

  // ---------------------------------------------------------------- one reference of the generation

  datatype Lifecycle = LifecycleActive | LifecycleOther | LifecycleInvalid

  /** `checked` is the verdict of the validators on what plays no part here. */
  datatype Stored = Stored(
    ref: Reference, experience: Proposal, checked: bool, lifecycle: Lifecycle, expiresAt: Option<int>)

  datatype Generation = Generation(project: string, refs: seq<Reference>, checked: bool)

  datatype Error = InvalidRequest | Corrupt

  datatype Result<+T> = Ok(value: T) | Err(error: Error)

  /** What a reference leads to: a damaged source, nothing, or a ranked item. */
  datatype Verdict = Damaged | Skipped | Ranked(item: Item)

  /** The size of the verifier's JSON text; None when it cannot be encoded. */
  type Encoder = Verifier -> Option<nat>

  function ExceptionBytes(exceptions: seq<string>): nat {
    if exceptions == [] then 0 else ExceptionBytes(exceptions[..|exceptions| - 1]) + |exceptions[|exceptions| - 1]|
  }

  /** A quarter of the bytes of guidance and canonical verifier, rounded up. */
  function TokensOf(encode: Encoder, p: Proposal): Option<nat> {
    var verifier := encode(NormalVerifier(p.verifier));
    if verifier == None then None
    else Some((|p.guidance.instruction| + |p.guidance.rationale| + verifier.value +
      ExceptionBytes(p.guidance.exceptions) + 3) / 4)
  }

  method EstimateTokens(encode: Encoder, p: Proposal) returns (tokens: Option<nat>)
    ensures tokens == TokensOf(encode, p)
  {
    hide NormalVerifier;
    var verifier := encode(NormalVerifier(p.verifier));
    if verifier == None { return None; }
    var bytes := |p.guidance.instruction| + |p.guidance.rationale| + verifier.value;
    var exceptions := p.guidance.exceptions;
    for i := 0 to |exceptions|
      invariant bytes ==
        |p.guidance.instruction| + |p.guidance.rationale| + verifier.value + ExceptionBytes(exceptions[..i])
    {
      assert exceptions[..i + 1][..i] == exceptions[..i];
      bytes := bytes + |exceptions[i]|;
    }
    assert exceptions[..|exceptions|] == exceptions;
    return Some((bytes + 3) / 4);
  }

  /** The estimate does not depend on how the verifier's lists are ordered or repeated. */
  lemma TokensIgnoreListOrder(encode: Encoder, p: Proposal, q: Proposal)
    requires p.guidance == q.guidance && SameVerifier(p.verifier, q.verifier)
    ensures TokensOf(encode, p) == TokensOf(encode, q)
  {
    hide NormalVerifier, SameVerifier;
    NormalVerifierCanonical(p.verifier, q.verifier);
  }

  predicate Unexpired(expiresAt: Option<int>, now: int) {
    expiresAt.Some? ==> expiresAt.value > now
  }

  /** The stored experience is the one that the reference and the generation name. */
  predicate Sound(project: string, ref: Reference, stored: Stored) {
    && stored.checked && stored.ref == ref && stored.experience.scope.project == project
    && stored.lifecycle != LifecycleInvalid && stored.expiresAt == stored.experience.applicability.expiresAt
  }

  predicate Selectable(lex: Lexicon, r: Request, stored: Stored, now: int) {
    stored.lifecycle == LifecycleActive && Unexpired(stored.expiresAt, now) && Eligible(lex, stored.experience, r)
  }

  function Judge(lex: Lexicon, encode: Encoder, r: Request, store: map<Reference, Stored>, now: int,
                 ref: Reference): Verdict {
    if ref !in store || !Sound(r.project, ref, store[ref]) then Damaged
    else if !Selectable(lex, r, store[ref], now) then Skipped
    else
      var p, tokens := store[ref].experience, TokensOf(encode, store[ref].experience);
      if tokens == None then Damaged else Ranked(Item(ref, p, ScoreOf(lex, p, r), tokens.value))
  }

  /** The ranked items of a list of references. */
  function Items(lex: Lexicon, encode: Encoder, r: Request, store: map<Reference, Stored>, now: int,
                 refs: seq<Reference>): (items: seq<Item>)
    ensures forall item | item in items ::
      item.ref in refs && Judge(lex, encode, r, store, now, item.ref) == Ranked(item)
  {
    if refs == [] then []
    else
      var last := refs[|refs| - 1];
      var verdict := Judge(lex, encode, r, store, now, last);
      Items(lex, encode, r, store, now, refs[..|refs| - 1]) + if verdict.Ranked? then [verdict.item] else []
  }

  predicate AllSound(lex: Lexicon, encode: Encoder, r: Request, store: map<Reference, Stored>, now: int,
                     refs: seq<Reference>) {
    forall ref | ref in refs :: Judge(lex, encode, r, store, now, ref) != Damaged
  }

  /** Higher scores first, then the order of references. */
  predicate RankLe(x: Item, y: Item) {
    if x.score != y.score then x.score > y.score else RefLe(x.ref, y.ref)
  }

  /** One reference, in the order of the program's checks. */
  method Consider(lex: Lexicon, encode: Encoder, r: Request, generation: Generation, store: map<Reference, Stored>,
                  now: int, ref: Reference) returns (verdict: Verdict)
    requires generation.project == r.project
    ensures verdict == Judge(lex, encode, r, store, now, ref)
  {
    hide Eligible, ScoreOf, TokensOf;
    if ref !in store { return Damaged; }
    var stored := store[ref];
    var value := stored.experience;
    if !stored.checked { return Damaged; }
    if stored.ref != ref || value.scope.project != generation.project || value.scope.project != r.project {
      return Damaged;
    }
    if stored.lifecycle == LifecycleInvalid { return Damaged; }
    if stored.expiresAt != value.applicability.expiresAt { return Damaged; }
    if stored.lifecycle != LifecycleActive { return Skipped; }
    if stored.expiresAt.Some? && !(stored.expiresAt.value > now) { return Skipped; }
    var score, eligibleForRequest := ScoreSelection(lex, value, r);
    if !eligibleForRequest { return Skipped; }
    var tokens := EstimateTokens(encode, value);
    if tokens == None { return Damaged; }
    verdict := Ranked(Item(ref, value, score, tokens.value));
  }

  /** The loop over the references; None stands for a damaged source. */
  method CollectEligible(lex: Lexicon, encode: Encoder, r: Request, generation: Generation,
                         store: map<Reference, Stored>,
                         now: int, refs: seq<Reference>) returns (eligible: Option<seq<Item>>)
    requires generation.project == r.project
    ensures eligible.Some? <==> AllSound(lex, encode, r, store, now, refs)
    ensures eligible.Some? ==> eligible.value == Items(lex, encode, r, store, now, refs)
  {
    hide Judge;
    var items: seq<Item> := [];
    for i := 0 to |refs|
      invariant forall k | 0 <= k < i :: Judge(lex, encode, r, store, now, refs[k]) != Damaged
      invariant items == Items(lex, encode, r, store, now, refs[..i])
    {
      var ref := refs[i];
      assert ref in refs && refs[..i + 1][..i] == refs[..i];
      var verdict := Consider(lex, encode, r, generation, store, now, ref);
      if verdict == Damaged { return None; }
      if verdict == Skipped { continue; }
      items := items + [verdict.item];
    }
    assert refs[..|refs|] == refs;
    return Some(items);
  }

  // ---------------------------------------------------------------- the whole selection

  datatype Selected = Selected(refs: seq<Reference>, items: seq<Item>, tokens: nat)

  predicate SoundRefs(generation: Generation, project: string) {
    && generation.checked && generation.project == project && |generation.refs| <= MAX_GENERATION_REFS
    && (forall ref | ref in generation.refs :: ValidRef(ref)) && NoRepeats(generation.refs)
  }

  /** The ranked list of a generation. */
  function Ranking(lex: Lexicon, encode: Encoder, r: Request, store: map<Reference, Stored>, now: int,
                   refs: seq<Reference>): seq<Item> {
    SortBy(RankLe, Items(lex, encode, r, store, now, SortBy(RefLe, refs)))
  }

  /** What a selection must be, apart from its order of work. */
  ghost predicate Selects(lex: Lexicon, encode: Encoder, r: Request, store: map<Reference, Stored>, now: int,
                          refs: seq<Reference>, s: Selected) {
    var ranking := Ranking(lex, encode, r, store, now, refs);
    s.refs == SortBy(RefLe, refs) && exists mask :: SelectedBy(ranking, mask, s)
  }

  ghost predicate SelectedBy(ranking: seq<Item>, mask: seq<bool>, s: Selected) {
    Greedy(ranking, mask) && s.items == Picked(ranking, mask) && s.tokens == Weight(ranking, mask)
  }

  method ValidateRefs(generation: Generation, project: string) returns (ok: bool)
    ensures ok <==> SoundRefs(generation, project)
  {
    hide ValidRef;
    if !generation.checked || generation.project != project || |generation.refs| > MAX_GENERATION_REFS { return false; }
    var refs := generation.refs;
    var seen: set<Reference> := {};
    for i := 0 to |refs|
      invariant forall k | 0 <= k < i :: ValidRef(refs[k]) && refs[k] in seen
      invariant forall ref | ref in seen :: ref in refs[..i]
      invariant NoRepeats(refs[..i])
    {
      if !ValidRef(refs[i]) {
        assert refs[i] in refs;
        return false;
      }
      if refs[i] in seen {
        assert refs[i] in refs[..i];
        return false;
      }
      seen := seen + {refs[i]};
      assert refs[..i + 1] == refs[..i] + [refs[i]];
    }
    assert refs[..|refs|] == refs;
    return true;
  }

  /** `now` is None when the clock is unset. */
  method Select(lex: Lexicon, encode: Encoder, r: Request, generation: Generation, store: map<Reference, Stored>,
                now: Option<int>)
    returns (result: Result<Selected>)
    ensures
      if !SoundRefs(generation, r.project) then result == Err(Corrupt)
      else if now == None then result == Err(InvalidRequest)
      else if !AllSound(lex, encode, r, store, now.value, generation.refs) then result == Err(Corrupt)
      else result.Ok? && Selects(lex, encode, r, store, now.value, generation.refs, result.value)
  {
    hide SoundRefs, AllSound, Items, RankLe, RefLe, Judge, Selects, Picked, Weight, GreedyMask, GreedySoFar;
    var ok := ValidateRefs(generation, r.project);
    if !ok { return Err(Corrupt); }
    var refs := SortBy(RefLe, generation.refs);
    if now == None { return Err(InvalidRequest); }
    assert generation.project == r.project by { SoundProject(generation, r.project); }
    var eligible := CollectEligible(lex, encode, r, generation, store, now.value, refs);
    SoundInAnyOrder(lex, encode, r, store, now.value, generation.refs, refs);
    if eligible == None { return Err(Corrupt); }
    var ranking := SortBy(RankLe, eligible.value);
    var selected, total := SelectWithinBudget(ranking);
    var s := Selected(refs, selected, total);
    SelectsWith(lex, encode, r, store, now.value, generation.refs, s);
    return Ok(s);
  }

  lemma SelectsWith(lex: Lexicon, encode: Encoder, r: Request, store: map<Reference, Stored>, now: int,
                    refs: seq<Reference>, s: Selected)
    requires var ranking := Ranking(lex, encode, r, store, now, refs); var mask := GreedyMask(ranking, |ranking|);
      s == Selected(SortBy(RefLe, refs), Picked(ranking, mask), Weight(ranking, mask))
    ensures Selects(lex, encode, r, store, now, refs, s)
  {
    hide Ranking, GreedyMask, Picked, Weight, GreedySoFar, RefLe;
    var ranking := Ranking(lex, encode, r, store, now, refs);
    assert SelectedBy(ranking, GreedyMask(ranking, |ranking|), s);
  }

  lemma SoundProject(generation: Generation, project: string)
    requires SoundRefs(generation, project)
    ensures generation.project == project
  {
  }

  lemma SoundInAnyOrder(lex: Lexicon, encode: Encoder, r: Request, store: map<Reference, Stored>, now: int,
                        a: seq<Reference>, b: seq<Reference>)
    requires multiset(a) == multiset(b)
    ensures AllSound(lex, encode, r, store, now, a) <==> AllSound(lex, encode, r, store, now, b)
  {
    hide Judge;
    BagMembers(a, b);
  }

  // ---------------------------------------------------------------- what a selection guarantees

  lemma RankLeOrder()
    ensures TotalPreorder(RankLe)
  {
    RefLeOrder();
    hide RefLe;
  }

  /** The order in which a generation lists its references does not matter. */
  lemma SelectionIgnoresOrder(lex: Lexicon, encode: Encoder, r: Request, store: map<Reference, Stored>, now: int,
                              a: seq<Reference>, b: seq<Reference>, x: Selected, y: Selected)
    requires multiset(a) == multiset(b)
    requires Selects(lex, encode, r, store, now, a, x) && Selects(lex, encode, r, store, now, b, y)
    ensures x == y
  {
    RefLeOrder();
    assert TieFree(RefLe, a);
    hide Items, RankLe, RefLe, SelectedBy, TotalPreorder, TieFree;
    SortByPermutation(RefLe, a, b);
    var ranking := Ranking(lex, encode, r, store, now, a);
    var m :| SelectedBy(ranking, m, x);
    var n :| SelectedBy(ranking, n, y);
    SelectedOnce(ranking, m, n, x, y);
  }

  lemma SelectedOnce(ranking: seq<Item>, m: seq<bool>, n: seq<bool>, x: Selected, y: Selected)
    requires SelectedBy(ranking, m, x) && SelectedBy(ranking, n, y)
    ensures x.items == y.items && x.tokens == y.tokens
  {
    GreedyUnique(ranking, m, n);
  }

  /** Distinct references make the ranking free of ties, so an unstable sort gives the same list. */
  lemma RankingIsDetermined(lex: Lexicon, encode: Encoder, r: Request, store: map<Reference, Stored>, now: int,
                            refs: seq<Reference>, other: seq<Item>)
    requires multiset(other) == multiset(Items(lex, encode, r, store, now, SortBy(RefLe, refs)))
    requires Sorted(RankLe, other)
    ensures other == Ranking(lex, encode, r, store, now, refs)
  {
    RankLeOrder();
    RefLeOrder();
    var items := Items(lex, encode, r, store, now, SortBy(RefLe, refs));
    hide Items, RefLe, TotalPreorder, Judge;
    SortBySorted(RankLe, items);
    assert TieFree(RankLe, other) by {
      forall x, y | x in other && y in other && RankLe(x, y) && RankLe(y, x) ensures x == y {
        assert x in multiset(other) && y in multiset(other);
        assert x in items && y in items;
        assert x.ref == y.ref;
      }
    }
    hide RankLe;
    SortedUnique(RankLe, other, SortBy(RankLe, items));
  }

  lemma {:induction false} PickedMember(items: seq<Item>, mask: seq<bool>, item: Item)
    requires |mask| <= |items| && item in Picked(items, mask)
    ensures item in items
  {
    if item !in Picked(items, mask[..|mask| - 1]) {
      assert item == items[|mask| - 1];
    } else {
      PickedMember(items, mask[..|mask| - 1], item);
    }
  }

  lemma RankingMember(lex: Lexicon, encode: Encoder, r: Request, store: map<Reference, Stored>, now: int,
                      refs: seq<Reference>, item: Item)
    requires item in Ranking(lex, encode, r, store, now, refs)
    ensures item.ref in refs && Judge(lex, encode, r, store, now, item.ref) == Ranked(item)
  {
    hide Judge, RankLe, RefLe;
    var sorted := SortBy(RefLe, refs);
    var items := Items(lex, encode, r, store, now, sorted);
    hide Items;
    assert item in multiset(SortBy(RankLe, items));
    assert item in items;
    assert item.ref in multiset(sorted);
  }

  lemma RankedItem(lex: Lexicon, encode: Encoder, r: Request, store: map<Reference, Stored>, now: int, item: Item)
    requires Judge(lex, encode, r, store, now, item.ref) == Ranked(item)
    ensures item.ref in store && Selectable(lex, r, store[item.ref], now)
    ensures item.experience == store[item.ref].experience
  {
    hide Selectable, TokensOf, ScoreOf, Sound;
  }

  /** Every selected experience is one of the generation's, active, unexpired and eligible; at most
      three are selected, with at most 600 estimated tokens. */
  lemma SelectedAreEligible(lex: Lexicon, encode: Encoder, r: Request, store: map<Reference, Stored>, now: int,
                            refs: seq<Reference>, s: Selected)
    requires Selects(lex, encode, r, store, now, refs, s)
    ensures |s.items| <= MAX_SELECTED && s.tokens <= MAX_TOKENS
    ensures forall item | item in s.items ::
      item.ref in refs && item.ref in store && Selectable(lex, r, store[item.ref], now)
  {
    hide Ranking, Selectable, Judge, RefLe, SelectedBy;
    var ranking := Ranking(lex, encode, r, store, now, refs);
    var mask :| SelectedBy(ranking, mask, s);
    SelectedBounds(ranking, mask, s);
    forall item | item in s.items
      ensures item.ref in refs && item.ref in store && Selectable(lex, r, store[item.ref], now)
    {
      RankingMember(lex, encode, r, store, now, refs, item);
      RankedItem(lex, encode, r, store, now, item);
    }
  }

  lemma SelectedBounds(ranking: seq<Item>, mask: seq<bool>, s: Selected)
    requires SelectedBy(ranking, mask, s)
    ensures |s.items| <= MAX_SELECTED && s.tokens <= MAX_TOKENS
    ensures forall item | item in s.items :: item in ranking
  {
    GreedyBounded(ranking, mask, |mask|);
    assert mask[..|mask|] == mask;
    hide Greedy, Picked, Weight;
    forall item | item in s.items ensures item in ranking { PickedMember(ranking, mask, item); }
  }
}
