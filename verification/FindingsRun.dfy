/** The bounded run over all findings of a session. */
module FindingsRun {
  import opened Text
  import opened Ordering
  import opened SmallestFifty
  import opened Findings

  // ---------------------------------------------------------------- what fits the limits

  function Sum(fs: seq<Finding>): nat {
    if fs == [] then 0 else Sum(fs[..|fs| - 1]) + |fs[|fs| - 1].citations|
  }

  ghost function Keys(ctx: Context, fs: seq<Finding>): set<string> {
    set f | f in fs && KeyOf(ctx, f, f.citations).Some? :: KeyOf(ctx, f, f.citations).value
  }

  /** No finding comes when the allowance of citations is already used up. */
  ghost predicate NeverExhausted(fs: seq<Finding>) {
    forall i | 0 <= i < |fs| :: Sum(fs[..i]) < 1000
  }

  ghost predicate ShortLists(fs: seq<Finding>) {
    forall f | f in fs :: |f.citations| <= 50
  }

  ghost predicate WithinLimits(ctx: Context, fs: seq<Finding>) {
    ShortLists(fs) && NeverExhausted(fs) && Sum(fs) <= 1000 && |Keys(ctx, fs)| <= 100
  }

  lemma SumStep(fs: seq<Finding>, i: nat)
    requires i < |fs|
    ensures Sum(fs[..i + 1]) == Sum(fs[..i]) + |fs[i].citations|
  {
    assert fs[..i + 1][..i] == fs[..i];
  }

  lemma {:induction false} SumMonotone(fs: seq<Finding>, i: nat)
    requires i <= |fs|
    ensures Sum(fs[..i]) <= Sum(fs)
    decreases |fs| - i
  {
    if i < |fs| {
      SumStep(fs, i);
      SumMonotone(fs, i + 1);
    } else {
      assert fs[..i] == fs;
    }
  }

  lemma KeysGrow(ctx: Context, fs: seq<Finding>, i: nat)
    requires i < |fs|
    ensures Keys(ctx, fs[..i + 1]) == Keys(ctx, fs[..i]) +
      match KeyOf(ctx, fs[i], fs[i].citations) { case Some(key) => {key} case None => {} }
    ensures |Keys(ctx, fs[..i + 1])| <= |Keys(ctx, fs)|
  {
    hide KeyOf;
    assert fs[..i + 1] == fs[..i] + [fs[i]];
    forall f | f in fs[..i + 1] ensures f in fs {}
    SubsetCount(Keys(ctx, fs[..i + 1]), Keys(ctx, fs));
  }

  // ---------------------------------------------------------------- the run

  type Groups = map<string, Occurrence>

  /** The bounds that always hold. */
  ghost predicate Bounded(grouped: Groups, consumed: nat) {
    && |grouped| <= MAX_GROUPS && consumed <= CITATION_INPUT_LIMIT
    && forall key | key in grouped :: |grouped[key].citations| <= MAX_CITATIONS
  }

  /** An untruncated state is the simple form of the findings seen. */
  ghost predicate Refines(ctx: Context, seen: seq<Finding>, grouped: Groups, consumed: nat) {
    && consumed == Sum(seen) && ShortLists(seen) && NeverExhausted(seen) && grouped.Keys == Keys(ctx, seen)
    && AllSummarized(ctx, seen, grouped)
  }

  ghost predicate AllSummarized(ctx: Context, seen: seq<Finding>, grouped: Groups) {
    forall key | key in grouped :: Summarizes(ctx, seen, key, grouped[key])
  }

  lemma SummariesStep(ctx: Context, seen: seq<Finding>, f: Finding, grouped: Groups, key: string, start: Occurrence,
                      o: Occurrence)
    requires AllSummarized(ctx, seen, grouped) && grouped.Keys == Keys(ctx, seen)
    requires KeyOf(ctx, f, f.citations) == Some(key)
    requires start == if key in grouped then grouped[key] else Start(ctx, f)
    requires Merges(ctx, start, f, f.citations, o)
    ensures AllSummarized(ctx, seen + [f], grouped[key := o])
  {
    GroupedIffMembers(ctx, seen, key);
    hide Merges, KeyOf, Summarizes, Members, Keys, Start;
    assert StartsFrom(ctx, seen, key, f, start);
    hide StartsFrom;
    MergedSummarizes(ctx, seen, key, f, start, o);
    forall k | k in grouped && k != key ensures Summarizes(ctx, seen + [f], k, grouped[k]) {
      OtherGroupKept(ctx, seen, f, k, grouped[k]);
    }
  }

  lemma RefinesStep(ctx: Context, fs: seq<Finding>, i: nat, grouped: Groups, key: string, start: Occurrence,
                    o: Occurrence)
    requires i < |fs| && Refines(ctx, fs[..i], grouped, Sum(fs[..i])) && KeyOf(ctx, fs[i], fs[i].citations) == Some(key)
    requires |fs[i].citations| <= MAX_PER_FINDING && Sum(fs[..i]) < CITATION_INPUT_LIMIT
    requires start == if key in grouped then grouped[key] else Start(ctx, fs[i])
    requires Merges(ctx, start, fs[i], fs[i].citations, o)
    ensures Refines(ctx, fs[..i + 1], grouped[key := o], Sum(fs[..i + 1]))
  {
    hide Merges, KeyOf, Keys, NeverExhausted, ShortLists, AllSummarized, Start, Sum;
    assert fs[..i + 1] == fs[..i] + [fs[i]];
    ShortStep(fs, i);
    KeysGrow(ctx, fs, i);
    SummariesStep(ctx, fs[..i], fs[i], grouped, key, start, o);
    assert grouped[key := o].Keys == grouped.Keys + {key};
  }

  lemma ShortStep(fs: seq<Finding>, i: nat)
    requires i < |fs| && ShortLists(fs[..i]) && NeverExhausted(fs[..i])
    requires |fs[i].citations| <= MAX_PER_FINDING && Sum(fs[..i]) < CITATION_INPUT_LIMIT
    ensures ShortLists(fs[..i + 1]) && NeverExhausted(fs[..i + 1])
  {
    var next := fs[..i + 1];
    assert next == fs[..i] + [fs[i]];
    forall k | 0 <= k < |next| ensures Sum(next[..k]) < CITATION_INPUT_LIMIT {
      assert next[..k] == fs[..k];
      if k < i { assert fs[..i][..k] == fs[..k]; }
    }
  }

  lemma GroupedIffMembers(ctx: Context, fs: seq<Finding>, key: string)
    ensures key in Keys(ctx, fs) <==> Members(ctx, fs, key) != {}
  {
    hide KeyOf;
    if key in Keys(ctx, fs) {
      var f :| f in fs && KeyOf(ctx, f, f.citations) == Some(key);
      assert f in Members(ctx, fs, key);
    }
  }

  /** Each of the four ways to be truncated shows that the findings exceed the limits. */
  lemma ExceedsLimits(ctx: Context, fs: seq<Finding>, i: nat)
    requires i < |fs|
    requires |fs[i].citations| > MAX_PER_FINDING || Sum(fs[..i]) >= CITATION_INPUT_LIMIT ||
      Sum(fs[..i]) + |fs[i].citations| > CITATION_INPUT_LIMIT || |Keys(ctx, fs[..i + 1])| > MAX_GROUPS
    ensures !WithinLimits(ctx, fs)
  {
    assert fs[i] in fs;
    SumStep(fs, i);
    SumMonotone(fs, i + 1);
    KeysGrow(ctx, fs, i);
    hide Keys;
  }

  lemma NewGroupExceeds(ctx: Context, fs: seq<Finding>, i: nat, grouped: Groups, key: string)
    requires i < |fs| && KeyOf(ctx, fs[i], fs[i].citations) == Some(key)
    requires grouped.Keys == Keys(ctx, fs[..i]) && key !in grouped && |grouped| >= MAX_GROUPS
    ensures !WithinLimits(ctx, fs)
  {
    KeysGrow(ctx, fs, i);
    hide Keys, WithinLimits;
    assert |grouped.Keys| == |grouped|;
    ExceedsLimits(ctx, fs, i);
  }

  /** What is known before each finding. */
  ghost predicate Progress(ctx: Context, fs: seq<Finding>, i: nat, grouped: Groups, consumed: nat, truncated: bool)
    requires i <= |fs|
  {
    && Bounded(grouped, consumed)
    && (if truncated then !WithinLimits(ctx, fs)
        else Refines(ctx, fs[..i], grouped, consumed) && consumed == Sum(fs[..i]))
  }

  lemma StartProgress(ctx: Context, fs: seq<Finding>)
    ensures Progress(ctx, fs, 0, map[], 0, false)
  {
    assert fs[..0] == [];
  }

  lemma KeepBounded(grouped: Groups, consumed: nat, key: string, o: Occurrence, cited: nat)
    requires Bounded(grouped, consumed) && |o.citations| <= MAX_CITATIONS && consumed + cited <= CITATION_INPUT_LIMIT
    requires key in grouped || |grouped| < MAX_GROUPS
    ensures Bounded(grouped[key := o], consumed + cited)
  {
    var after := grouped[key := o];
    assert after.Keys == grouped.Keys + {key};
    assert |after.Keys| == |after| && |grouped.Keys| == |grouped|;
    assert key in grouped ==> after.Keys == grouped.Keys;
  }

  /** The citations that one finding may still bring in. */
  method Admit(ctx: Context, fs: seq<Finding>, i: nat, ghost grouped: Groups, consumed: nat, truncated: bool)
    returns (cited: seq<string>, exhausted: bool, cut: bool)
    requires i < |fs| && Progress(ctx, fs, i, grouped, consumed, truncated)
    ensures |cited| <= |fs[i].citations| && cited == fs[i].citations[..|cited|]
    ensures cut ==> !WithinLimits(ctx, fs)
    ensures exhausted ==> cut
    ensures !exhausted ==> consumed + |cited| <= CITATION_INPUT_LIMIT
    ensures !cut ==>
      !truncated && cited == fs[i].citations && |cited| <= MAX_PER_FINDING && consumed < CITATION_INPUT_LIMIT
  {
    hide WithinLimits, Refines;
    cited, exhausted, cut := fs[i].citations, false, truncated;
    if |cited| > MAX_PER_FINDING {
      cited := cited[..MAX_PER_FINDING];
      cut := true;
      ExceedsLimits(ctx, fs, i);
    }
    var remaining := CITATION_INPUT_LIMIT - consumed;
    if remaining == 0 {
      if !truncated { ExceedsLimits(ctx, fs, i); }
      return cited, true, true;
    }
    if |cited| > remaining {
      if !truncated { ExceedsLimits(ctx, fs, i); }
      cited := cited[..remaining];
      cut := true;
    }
  }

  lemma CutProgress(ctx: Context, fs: seq<Finding>, i: nat, j: nat, grouped: Groups, consumed: nat)
    requires i <= |fs| && j <= |fs| && Bounded(grouped, consumed) && !WithinLimits(ctx, fs)
    ensures Progress(ctx, fs, j, grouped, consumed, true)
  {
  }

  lemma MergeProgress(ctx: Context, fs: seq<Finding>, i: nat, grouped: Groups, consumed: nat, cut: bool,
                      cited: seq<string>, key: string, start: Occurrence, o: Occurrence)
    requires i < |fs| && Bounded(grouped, consumed) && consumed + |cited| <= CITATION_INPUT_LIMIT
    requires cut ==> !WithinLimits(ctx, fs)
    requires !cut ==>
      Progress(ctx, fs, i, grouped, consumed, false) && cited == fs[i].citations && |cited| <= MAX_PER_FINDING
    requires !cut ==> consumed < CITATION_INPUT_LIMIT && KeyOf(ctx, fs[i], fs[i].citations) == Some(key)
    requires start == (if key in grouped then grouped[key] else Start(ctx, fs[i]))
    requires (key in grouped || |grouped| < MAX_GROUPS)
    requires Merges(ctx, start, fs[i], cited, o)
    ensures Progress(ctx, fs, i + 1, grouped[key := o], consumed + |cited|, cut)
  {
    hide WithinLimits, Refines, Merges, Bounded, KeyOf, Start, Sum;
    MergedBounded(ctx, start, fs[i], cited, o);
    KeepBounded(grouped, consumed, key, o, |cited|);
    if !cut {
      SumStep(fs, i);
      assert consumed == Sum(fs[..i]);
      RefinesStep(ctx, fs, i, grouped, key, start, o);
    }
  }

  lemma MergedBounded(ctx: Context, start: Occurrence, f: Finding, cited: seq<string>, o: Occurrence)
    requires Merges(ctx, start, f, cited, o)
    ensures |o.citations| <= MAX_CITATIONS
  {
    hide StrLe, SortedDistinct, Smallest;
  }

  lemma ProgressBounded(ctx: Context, fs: seq<Finding>, i: nat, grouped: Groups, consumed: nat, truncated: bool)
    requires i <= |fs| && Progress(ctx, fs, i, grouped, consumed, truncated)
    ensures Bounded(grouped, consumed) && consumed <= CITATION_INPUT_LIMIT
  {
    hide WithinLimits, Refines;
  }

  lemma KeepCount(grouped: Groups, consumed: nat, cited: nat)
    requires Bounded(grouped, consumed) && consumed + cited <= CITATION_INPUT_LIMIT
    ensures Bounded(grouped, consumed + cited)
  {
  }

  lemma NewGroupCuts(ctx: Context, fs: seq<Finding>, i: nat, grouped: Groups, consumed: nat, key: string)
    requires i < |fs| && Progress(ctx, fs, i, grouped, consumed, false)
    requires KeyOf(ctx, fs[i], fs[i].citations) == Some(key)
    requires key !in grouped && |grouped| >= MAX_GROUPS
    ensures !WithinLimits(ctx, fs)
  {
    hide WithinLimits, Keys, KeyOf;
    NewGroupExceeds(ctx, fs, i, grouped, key);
  }

  datatype Outcome = Outcome(keys: seq<string>, occurrences: seq<Occurrence>, truncated: bool)

  /** The outcome is the simple form of every group, in the order of their keys. */
  ghost predicate Presents(ctx: Context, fs: seq<Finding>, o: Outcome) {
    && Lists(StrLe, o.keys, Keys(ctx, fs)) && |o.occurrences| == |o.keys|
    && forall i | 0 <= i < |o.keys| :: Summarizes(ctx, fs, o.keys[i], o.occurrences[i])
  }

  /** What every run over `fs` reports: within the bounds, truncated exactly when the findings exceed
      the limits, and otherwise the simple form. */
  ghost predicate RunOf(ctx: Context, fs: seq<Finding>, o: Outcome) {
    && StrictlySorted(StrLe, o.keys) && |o.keys| == |o.occurrences| <= MAX_GROUPS
    && (forall i | 0 <= i < |o.occurrences| :: |o.occurrences[i].citations| <= MAX_CITATIONS)
    && (o.truncated <==> !WithinLimits(ctx, fs))
    && (!o.truncated ==> Presents(ctx, fs, o))
  }

  lemma FinalProgress(ctx: Context, fs: seq<Finding>, grouped: Groups, consumed: nat, o: Outcome)
    requires Progress(ctx, fs, |fs|, grouped, consumed, o.truncated)
    requires Lists(StrLe, o.keys, grouped.Keys) && |o.keys| == |grouped.Keys| == |o.occurrences|
    requires forall k | 0 <= k < |o.keys| :: o.keys[k] in grouped && o.occurrences[k] == grouped[o.keys[k]]
    ensures o.truncated <==> !WithinLimits(ctx, fs)
    ensures |o.keys| <= MAX_GROUPS && forall k | 0 <= k < |o.keys| :: |o.occurrences[k].citations| <= MAX_CITATIONS
    ensures !o.truncated ==> Presents(ctx, fs, o) && consumed == Sum(fs)
    ensures consumed <= CITATION_INPUT_LIMIT
  {
    hide StrLe, Summarizes, StrictlySorted, WithinLimits, Refines, Presents, Lists;
    assert fs[..|fs|] == fs;
    assert |grouped.Keys| == |grouped|;
    if !o.truncated { FinalRefines(ctx, fs, grouped, consumed, o); }
  }

  lemma ListsSorted<T(!new)>(le: (T, T) -> bool, s: seq<T>, members: set<T>)
    requires Lists(le, s, members)
    ensures StrictlySorted(le, s) && forall x | x in s :: x in members
  {
  }

  lemma FinalRefines(ctx: Context, fs: seq<Finding>, grouped: Groups, consumed: nat, o: Outcome)
    requires Refines(ctx, fs, grouped, consumed) && Bounded(grouped, consumed)
    requires Lists(StrLe, o.keys, grouped.Keys) && |o.keys| == |grouped.Keys| == |o.occurrences|
    requires forall k | 0 <= k < |o.keys| :: o.keys[k] in grouped && o.occurrences[k] == grouped[o.keys[k]]
    ensures WithinLimits(ctx, fs) && Presents(ctx, fs, o) && consumed == Sum(fs)
  {
    hide StrLe, Summarizes, StrictlySorted, Lists, Keys, ShortLists, NeverExhausted, Sum;
    assert |grouped.Keys| == |grouped|;
  }

  /** None stands for an error of the hash.  `consumed` counts the citations read in. */
  method NumbatOccurrences(ctx: Context, fs: seq<Finding>) returns (r: Option<Outcome>, ghost consumed: nat)
    ensures r == None ==> exists f, n: nat :: f in fs && n <= |f.citations| && KeyOf(ctx, f, f.citations[..n]) == None
    ensures consumed <= CITATION_INPUT_LIMIT
    ensures r.Some? ==> RunOf(ctx, fs, r.value)
    ensures r.Some? && !r.value.truncated ==> consumed == Sum(fs)
  {
    hide StrLe, KeyOf, WithinLimits, Progress, Merges, Bounded, Summarizes, Presents, Lists, TotalPreorder,
         StrictlySorted, Sum, Start;
    var grouped: Groups := map[];
    var truncated := false;
    var count: nat := 0;
    StartProgress(ctx, fs);
    var i := 0;
    while i < |fs|
      invariant i <= |fs| && Progress(ctx, fs, i, grouped, count, truncated)
    {
      var f := fs[i];
      ghost var before := truncated;
      assert Bounded(grouped, count) by { ProgressBounded(ctx, fs, i, grouped, count, truncated); }
      var cited, exhausted;
      cited, exhausted, truncated := Admit(ctx, fs, i, grouped, count, truncated);
      if exhausted {
        CutProgress(ctx, fs, i, |fs|, grouped, count);
        i := |fs|;
        break;
      }
      assert count + |cited| <= CITATION_INPUT_LIMIT;
      var key := DeriveKey(ctx, f, cited);
      if key == None {
        assert f in fs && KeyOf(ctx, f, f.citations[..|cited|]) == None;
        consumed := 0;
        return None, consumed;
      }
      if key.value !in grouped && |grouped| >= MAX_GROUPS {
        if !truncated { assert cited == f.citations; NewGroupCuts(ctx, fs, i, grouped, count, key.value); }
        truncated := true;
        KeepCount(grouped, count, |cited|);
        CutProgress(ctx, fs, i, i + 1, grouped, count + |cited|);
        count := count + |cited|;
        i := i + 1;
        continue;
      }
      var start := if key.value in grouped then grouped[key.value] else Start(ctx, f);
      var merged := MergeFinding(ctx, start, f, cited);
      MergeProgress(ctx, fs, i, grouped, count, truncated, cited, key.value, start, merged);
      count := count + |cited|;
      grouped := grouped[key.value := merged];
      i := i + 1;
    }
    StrLeOrder();
    var keys := SortedMembers(StrLe, grouped.Keys);
    ListsSorted(StrLe, keys, grouped.Keys);
    var occurrences: seq<Occurrence> := [];
    for k := 0 to |keys|
      invariant |occurrences| == k && forall n | 0 <= n < k :: keys[n] in grouped && occurrences[n] == grouped[keys[n]]
    {
      assert keys[k] in keys;
      occurrences := occurrences + [grouped[keys[k]]];
    }
    consumed := count;
    r := Some(Outcome(keys, occurrences, truncated));
    FinalProgress(ctx, fs, grouped, count, r.value);
  }
}
