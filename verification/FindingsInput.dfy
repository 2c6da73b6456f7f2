/** Reading the findings of a session page by page, and what that says about the whole projection. */
module FindingsInput {
  import opened Text
  import opened Ordering
  import opened SmallestFifty
  import opened Findings
  import opened FindingsRun
  import opened FindingsOrder

  const PAGE_SIZE := 101
  const FINDING_INPUT_LIMIT := 1000

  // ---------------------------------------------------------------- the store

  /** A stored finding under the text of its time. */
  datatype Row = Row(detected: string, finding: Finding)

  /** Where a page ended: the time and the ID of its last finding. */
  datatype Position = Position(detected: string, id: string)

  function At(row: Row): Position {
    Position(row.detected, row.finding.id)
  }

  predicate Less(a: string, b: string) {
    StrLe(a, b) && a != b
  }

  predicate Below(row: Row, p: Position) {
    Less(row.detected, p.detected) || (row.detected == p.detected && Less(row.finding.id, p.id))
  }

  /** The latest finding first, and no two in the same place. */
  ghost predicate Descending(rows: seq<Row>) {
    forall i, j | 0 <= i < j < |rows| :: Below(rows[j], At(rows[i]))
  }

  function Selected(rows: seq<Row>, cursor: Option<Position>): seq<Row> {
    if rows == [] then []
    else
      var rest := Selected(rows[1..], cursor);
      if cursor == None || Below(rows[0], cursor.value) then [rows[0]] + rest else rest
  }

  /** At most fifty citations of a stored finding are read. */
  function Cut(f: Finding): Finding {
    f.(citations := First(f.citations, MAX_PER_FINDING))
  }

  function Cuts(rows: seq<Row>): (r: seq<Finding>)
    ensures |r| == |rows| && forall i | 0 <= i < |r| :: r[i] == Cut(rows[i].finding)
  {
    seq(|rows|, i requires 0 <= i < |rows| => Cut(rows[i].finding))
  }

  function FindingsOf(rows: seq<Row>): (r: seq<Finding>)
    ensures |r| == |rows| && forall i | 0 <= i < |r| :: r[i] == rows[i].finding
  {
    seq(|rows|, i requires 0 <= i < |rows| => rows[i].finding)
  }

  predicate AnyOversized(rows: seq<Row>) {
    exists row | row in rows :: |row.finding.citations| > MAX_PER_FINDING
  }

  /** One page, and whether a list of citations on it was cut. */
  function Query(rows: seq<Row>, cursor: Option<Position>, limit: nat): (seq<Row>, bool) {
    var page := First(Selected(rows, cursor), limit);
    (page, AnyOversized(page))
  }

  // ---------------------------------------------------------------- pages are consecutive

  lemma LessIsStrict(a: string, b: string)
    ensures !(Less(a, b) && Less(b, a)) && !Less(a, a)
  {
    StrLeTotal(a, b);
    hide StrLe;
  }

  lemma NotBelowEarlier(a: Row, b: Row)
    requires Below(b, At(a))
    ensures !Below(a, At(b)) && !Below(b, At(b))
  {
    LessIsStrict(a.detected, b.detected);
    LessIsStrict(b.detected, b.detected);
    LessIsStrict(a.finding.id, b.finding.id);
    LessIsStrict(b.finding.id, b.finding.id);
    hide Less;
  }

  lemma NotBelowItself(a: Row)
    ensures !Below(a, At(a))
  {
    LessIsStrict(a.detected, a.detected);
    LessIsStrict(a.finding.id, a.finding.id);
    hide Less;
  }

  lemma {:induction false} SelectedSuffix(rows: seq<Row>, cursor: Option<Position>, k: nat)
    requires k <= |rows|
    requires forall i | 0 <= i < k :: cursor.Some? && !Below(rows[i], cursor.value)
    requires forall i | k <= i < |rows| :: cursor == None || Below(rows[i], cursor.value)
    ensures Selected(rows, cursor) == rows[k..]
  {
    hide Below;
    if rows != [] {
      if k == 0 {
        SelectedSuffix(rows[1..], cursor, 0);
        assert rows == [rows[0]] + rows[1..];
      } else {
        SelectedSuffix(rows[1..], cursor, k - 1);
        assert rows[1..][k - 1..] == rows[k..];
      }
    }
  }

  function Cursor(rows: seq<Row>, k: nat): Option<Position>
    requires k <= |rows|
  {
    if k == 0 then None else Some(At(rows[k - 1]))
  }

  lemma NotBelowCursor(rows: seq<Row>, i: nat, k: nat)
    requires Descending(rows) && i <= k < |rows|
    ensures !Below(rows[i], At(rows[k]))
  {
    hide Below, At;
    if i < k { NotBelowEarlier(rows[i], rows[k]); } else { NotBelowItself(rows[k]); }
  }

  /** A cursor after k findings selects the rest. */
  lemma CursorSelects(rows: seq<Row>, k: nat)
    requires Descending(rows) && k <= |rows|
    ensures Selected(rows, Cursor(rows, k)) == rows[k..]
  {
    hide Below, At, Selected;
    if k > 0 {
      forall i | 0 <= i < k ensures !Below(rows[i], At(rows[k - 1])) { NotBelowCursor(rows, i, k - 1); }
    }
    SelectedSuffix(rows, Cursor(rows, k), k);
  }

  // ---------------------------------------------------------------- what is delivered

  /** The same finding, perhaps with fewer citations. */
  predicate Shortened(whole: Finding, f: Finding) {
    |f.citations| <= |whole.citations| && f == whole.(citations := whole.citations[..|f.citations|])
  }

  /** `d` is `stored` up to the first limit met: 1000 findings, or 1000 citations, the last finding
      shortened to fit. */
  ghost predicate Delivers(stored: seq<Finding>, d: seq<Finding>) {
    var n := |d| - 1;
    && |d| <= |stored| && |d| <= FINDING_INPUT_LIMIT && Sum(d) <= CITATION_INPUT_LIMIT && NeverExhausted(d)
    && (forall i | 0 <= i < n :: d[i] == stored[i])
    && (d != [] ==> Shortened(stored[n], d[n]) && (d[n] == stored[n] || Sum(d) == CITATION_INPUT_LIMIT))
    && (|d| == |stored| || |d| == FINDING_INPUT_LIMIT || Sum(d) == CITATION_INPUT_LIMIT)
  }

  lemma SumUpTo(d: seq<Finding>, n: nat)
    requires n + 1 == |d|
    ensures Sum(d) == Sum(d[..n]) + |d[n].citations|
  {
    hide Sum;
    assert d[..n + 1] == d;
    SumStep(d, n);
  }

  lemma LastAtMost(stored: seq<Finding>, d: seq<Finding>)
    requires Delivers(stored, d)
    ensures Sum(d) <= Sum(stored[..|d|])
  {
    if d != [] {
      var n := |d| - 1;
      var part := stored[..|d|];
      SumUpTo(d, n);
      SumUpTo(part, n);
      assert d[..n] == part[..n];
      hide Sum, NeverExhausted;
    } else {
      assert stored[..|d|] == d;
    }
  }

  lemma EarlyPart(stored: seq<Finding>, e: seq<Finding>, k: nat)
    requires Delivers(stored, e) && k < |e|
    ensures Sum(stored[..k]) < CITATION_INPUT_LIMIT
  {
    assert e[..k] == stored[..k];
  }

  lemma NotLonger(stored: seq<Finding>, d: seq<Finding>, e: seq<Finding>)
    requires Delivers(stored, d) && Delivers(stored, e)
    ensures |e| <= |d|
  {
    LastAtMost(stored, d);
    if |d| < |e| { EarlyPart(stored, e, |d|); }
  }

  /** What is delivered is determined by what is stored. */
  lemma DeliveryUnique(stored: seq<Finding>, d: seq<Finding>, e: seq<Finding>)
    requires Delivers(stored, d) && Delivers(stored, e)
    ensures d == e
  {
    NotLonger(stored, d, e);
    NotLonger(stored, e, d);
    if d != [] {
      var n := |d| - 1;
      assert d[..n] == e[..n];
      SumUpTo(d, n);
      SumUpTo(e, n);
      hide Sum, NeverExhausted;
      assert |d[n].citations| == |e[n].citations|;
      assert d[n] == e[n];
      assert d == d[..n] + [d[n]] && e == e[..n] + [e[n]];
    }
  }

  // ---------------------------------------------------------------- the pages

  /** After k findings, all of them delivered whole. */
  ghost predicate Reading(rows: seq<Row>, result: seq<Finding>, count: nat) {
    && |result| <= |rows| && |result| <= FINDING_INPUT_LIMIT
    && result == Cuts(rows[..|result|]) && count == Sum(result) <= CITATION_INPUT_LIMIT && NeverExhausted(result)
  }

  lemma ReadingDelivers(rows: seq<Row>, result: seq<Finding>, count: nat)
    requires Reading(rows, result, count)
    requires |result| == |rows| || |result| == FINDING_INPUT_LIMIT || count == CITATION_INPUT_LIMIT
    ensures Delivers(Cuts(rows), result)
  {
    hide Sum, Cut, NeverExhausted;
    var stored := Cuts(rows);
    if result != [] {
      assert result[|result| - 1] == stored[|result| - 1];
      assert stored[|result| - 1].citations[..|stored[|result| - 1].citations|] == stored[|result| - 1].citations;
    }
  }

  lemma SumAppend(result: seq<Finding>, f: Finding)
    ensures Sum(result + [f]) == Sum(result) + |f.citations|
    ensures Sum(result) < CITATION_INPUT_LIMIT && NeverExhausted(result) ==> NeverExhausted(result + [f])
  {
    var next := result + [f];
    assert next[..|result|] == result;
    forall i | 0 <= i < |result| ensures next[..i] == result[..i] {}
  }

  lemma ReadingStep(rows: seq<Row>, result: seq<Finding>, count: nat)
    requires Reading(rows, result, count) && |result| < |rows| && |result| < FINDING_INPUT_LIMIT
    requires count < CITATION_INPUT_LIMIT && count + |Cut(rows[|result|].finding).citations| <= CITATION_INPUT_LIMIT
    ensures var f := Cut(rows[|result|].finding);
      count + |f.citations| <= CITATION_INPUT_LIMIT && Reading(rows, result + [f], count + |f.citations|)
  {
    var f := Cut(rows[|result|].finding);
    SumAppend(result, f);
    hide Sum, Cut, NeverExhausted;
    assert result + [f] == Cuts(rows[..|result| + 1]);
  }

  lemma ShortenedDelivers(rows: seq<Row>, result: seq<Finding>, count: nat, f: Finding)
    requires Reading(rows, result, count) && |result| < |rows| && |result| < FINDING_INPUT_LIMIT
    requires count < CITATION_INPUT_LIMIT == count + |f.citations| && Shortened(Cut(rows[|result|].finding), f)
    ensures Delivers(Cuts(rows), result + [f])
  {
    SumAppend(result, f);
    hide Sum, Cut, NeverExhausted, Shortened;
  }

  lemma CutChanges(f: Finding)
    ensures |Cut(f).citations| <= MAX_PER_FINDING
    ensures Cut(f) == f <==> |f.citations| <= MAX_PER_FINDING
  {
  }

  lemma CutsShort(rows: seq<Row>)
    ensures ShortLists(Cuts(rows))
  {
    forall f: Finding ensures |Cut(f).citations| <= MAX_PER_FINDING { CutChanges(f); }
    hide Cut;
  }

  lemma WholeWhenShort(rows: seq<Row>)
    ensures Cuts(rows) == FindingsOf(rows) <==> !AnyOversized(rows)
    ensures ShortLists(FindingsOf(rows)) <==> !AnyOversized(rows)
  {
    hide Cut;
    if AnyOversized(rows) {
      var row :| row in rows && |row.finding.citations| > MAX_PER_FINDING;
      var i :| 0 <= i < |rows| && rows[i] == row;
      CutChanges(row.finding);
      assert FindingsOf(rows)[i] == row.finding && Cuts(rows)[i] == Cut(row.finding);
    } else {
      forall i | 0 <= i < |rows| ensures Cut(rows[i].finding) == rows[i].finding {
        assert rows[i] in rows;
        CutChanges(rows[i].finding);
      }
      forall f | f in FindingsOf(rows) ensures |f.citations| <= MAX_PER_FINDING {
        var i :| 0 <= i < |rows| && FindingsOf(rows)[i] == f;
        assert rows[i] in rows;
      }
    }
  }

  lemma StartReading(rows: seq<Row>)
    ensures Reading(rows, [], 0) && !AnyOversized(rows[..0])
  {
    assert Cuts(rows[..0]) == [];
  }

  lemma PageIs(rows: seq<Row>, k: nat, limit: nat)
    requires Descending(rows) && k <= |rows|
    ensures var (page, cut) := Query(rows, Cursor(rows, k), limit);
      var end := if |rows| - k > limit then k + limit else |rows|;
      page == rows[k..end] && AnyOversized(rows[..end]) == (AnyOversized(rows[..k]) || cut)
  {
    CursorSelects(rows, k);
    hide Selected, Cursor, Descending, AnyOversized;
    var end := if |rows| - k > limit then k + limit else |rows|;
    assert rows[k..][..end - k] == rows[k..end];
    assert rows[..end] == rows[..k] + rows[k..end];
    OversizedConcat(rows[..k], rows[k..end]);
  }

  lemma AllRead(rows: seq<Row>, result: seq<Finding>, count: nat)
    requires Reading(rows, result, count) && |result| == |rows|
    ensures Delivers(Cuts(rows), result) && (result == FindingsOf(rows) <==> !AnyOversized(rows))
  {
    hide Sum, NeverExhausted, Delivers;
    assert rows[..|rows|] == rows;
    WholeWhenShort(rows);
    ReadingDelivers(rows, result, count);
  }

  lemma OversizedConcat(a: seq<Row>, b: seq<Row>)
    ensures AnyOversized(a + b) == (AnyOversized(a) || AnyOversized(b))
  {
    if AnyOversized(a) {
      var row :| row in a && |row.finding.citations| > MAX_PER_FINDING;
      assert row in a + b;
    }
    if AnyOversized(b) {
      var row :| row in b && |row.finding.citations| > MAX_PER_FINDING;
      assert row in a + b;
    }
  }

  lemma ShorterDiffers(rows: seq<Row>, result: seq<Finding>, short: Finding)
    requires |result| < |rows| && |short.citations| < |Cut(rows[|result|].finding).citations|
    ensures result + [short] != FindingsOf(rows)
  {
    assert (result + [short])[|result|] == short;
  }

  /** The findings of a session, latest first, up to 1000 findings and 1000 citations.  The flag is set
      exactly when anything stored is missing from the result. */
  method SessionFindings(rows: seq<Row>) returns (result: seq<Finding>, truncated: bool)
    requires Descending(rows)
    ensures Delivers(Cuts(rows), result)
    ensures truncated <==> result != FindingsOf(rows)
  {
    hide Reading, Delivers, Cut, Selected, Descending, AnyOversized, Sum;
    result, truncated := [], false;
    var count: nat := 0;
    var cursor: Option<Position> := None;
    StartReading(rows);
    while |result| <= FINDING_INPUT_LIMIT
      invariant Reading(rows, result, count) && |result| <= |rows| && |result| <= FINDING_INPUT_LIMIT
      invariant count <= CITATION_INPUT_LIMIT
      invariant cursor == Cursor(rows, |result|) && truncated == AnyOversized(rows[..|result|])
      decreases |rows| - |result|
    {
      var limit := PAGE_SIZE;
      if FINDING_INPUT_LIMIT + 1 - |result| < limit { limit := FINDING_INPUT_LIMIT + 1 - |result|; }
      ghost var start := |result|;
      var (page, cut) := Query(rows, cursor, limit);
      truncated := truncated || cut;
      PageIs(rows, start, limit);
      for k := 0 to |page|
        invariant |result| == start + k <= FINDING_INPUT_LIMIT
        invariant count <= CITATION_INPUT_LIMIT && Reading(rows, result, count)
      {
        if |result| == FINDING_INPUT_LIMIT {
          ReadingDelivers(rows, result, count);
          return result, true;
        }
        var remaining := CITATION_INPUT_LIMIT - count;
        if remaining == 0 {
          ReadingDelivers(rows, result, count);
          return result, true;
        }
        var finding := Cut(page[k].finding);
        if |finding.citations| > remaining {
          var short := finding.(citations := finding.citations[..remaining]);
          ShortenedDelivers(rows, result, count, short);
          ShorterDiffers(rows, result, short);
          return result + [short], true;
        }
        ReadingStep(rows, result, count);
        count := count + |finding.citations|;
        result := result + [finding];
      }
      if |page| < limit {
        assert rows[..|rows|] == rows;
        AllRead(rows, result, count);
        return;
      }
      cursor := Some(At(page[|page| - 1]));
    }
    assert false;
  }

  // ---------------------------------------------------------------- the projection of the findings

  lemma DeliveredShort(rows: seq<Row>, d: seq<Finding>)
    requires Delivers(Cuts(rows), d)
    ensures ShortLists(d)
  {
    hide Cut, Sum, NeverExhausted;
    CutsShort(rows);
    var stored := Cuts(rows);
    forall f | f in d ensures |f.citations| <= MAX_PER_FINDING {
      var i :| 0 <= i < |d| && d[i] == f;
      assert stored[i] in stored && |f.citations| <= |stored[i].citations|;
    }
  }

  /** Whatever is delivered keeps every limit but the number of groups. */
  lemma DeliveredFits(ctx: Context, rows: seq<Row>, d: seq<Finding>)
    requires Delivers(Cuts(rows), d)
    ensures WithinLimits(ctx, d) <==> |Keys(ctx, d)| <= MAX_GROUPS
  {
    hide Keys, Cut, Sum, NeverExhausted, ShortLists;
    DeliveredShort(rows, d);
  }

  /** All stored findings are delivered as they are exactly when they fit. */
  lemma DeliveredWhole(rows: seq<Row>, d: seq<Finding>)
    requires Delivers(Cuts(rows), d)
    ensures var all := FindingsOf(rows);
      d == all <==>
        |all| <= FINDING_INPUT_LIMIT && ShortLists(all) && NeverExhausted(all) && Sum(all) <= CITATION_INPUT_LIMIT
  {
    hide Cut, Sum, NeverExhausted, ShortLists;
    var all := FindingsOf(rows);
    WholeWhenShort(rows);
    DeliveredShort(rows, d);
    if |all| <= FINDING_INPUT_LIMIT && ShortLists(all) && NeverExhausted(all) && Sum(all) <= CITATION_INPUT_LIMIT {
      assert Reading(rows, all, Sum(all)) by { assert rows[..|rows|] == rows; }
      ReadingDelivers(rows, all, Sum(all));
      DeliveryUnique(Cuts(rows), d, all);
    }
  }

  /** Findings that all cite something are no more than their citations. */
  lemma {:induction false} CitingSum(fs: seq<Finding>)
    requires AllCite(fs)
    ensures |fs| <= Sum(fs)
  {
    if fs != [] {
      assert fs[|fs| - 1] in fs;
      CitingSum(fs[..|fs| - 1]);
    }
  }

  /** The findings of one session and their occurrences.  The analysis counts as truncated when either
      step left something out. */
  method ProjectFindings(ctx: Context, rows: seq<Row>) returns (r: Option<Outcome>, truncated: bool)
    requires Descending(rows)
    ensures r.Some? ==>
      (truncated <==> !(|rows| <= FINDING_INPUT_LIMIT && WithinLimits(ctx, FindingsOf(rows))))
    ensures r.Some? && !truncated ==> Presents(ctx, FindingsOf(rows), r.value)
    ensures r.Some? && AllCite(FindingsOf(rows)) ==> (truncated <==> !Fits(ctx, FindingsOf(rows)))
  {
    var findings, cut := SessionFindings(rows);
    DeliveredFits(ctx, rows, findings);
    DeliveredWhole(rows, findings);
    if AllCite(FindingsOf(rows)) {
      CitingSum(FindingsOf(rows));
      CitingFlag(ctx, FindingsOf(rows));
    }
    hide Keys, Delivers, Cut, Sum, NeverExhausted, Presents, Descending;
    ghost var consumed;
    r, consumed := NumbatOccurrences(ctx, findings);
    truncated := cut || (r.Some? && r.value.truncated);
  }
}
