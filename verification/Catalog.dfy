/** Aggregating the detectors' answers: all or nothing. */
module Catalog {
  import opened Text
  import opened Ordering
  import opened Fingerprints
  import opened SmallestFifty

  const MAX_MATCHES := 100

  datatype Slot = Slot(id: string, version: string, fingerprintVersion: string)

  /** Times are nanoseconds since the zero time. */
  datatype Match = Match(
    detector: string, version: string, fingerprintVersion: string, category: string, title: string,
    severity: string, confidence: string, first: int, last: int, cited: seq<string>, complete: bool,
    fingerprint: seq<Dimension>)

  datatype Absence = Supported | NotApplicable | Incomplete

  /** What running one detector returns: its result, or the code of its failure. */
  datatype Response = Completed(matches: seq<Match>, absence: Absence, reason: string) | Broken(code: string)

  datatype Row = Row(slot: Slot, absence: Absence, reason: string)

  datatype Failure = Failure(detector: string, code: string)

  datatype Status = Current | Failed | Truncated

  datatype CatalogResult = CatalogResult(status: Status, matches: seq<Match>, failures: seq<Failure>, rows: seq<Row>)

  /** The session, too many events, or a preparation error. */
  datatype Preparation = Prepared | OverLimit | NotPrepared(code: string)

  const INVALID_OUTPUT := "detector_invalid_output"

  // ---------------------------------------------------------------- one match

  predicate HeaderOK(slot: Slot, m: Match) {
    && m.detector == slot.id && m.version == slot.version && m.fingerprintVersion == slot.fingerprintVersion
    && m.category != "" && m.title != "" && m.severity != "" && m.confidence != ""
    && m.first != 0 && m.first <= m.last && m.fingerprint != []
  }

  predicate DimensionsOK(dims: seq<Dimension>) {
    forall d | d in dims :: d.name != "" && d.value != ""
  }

  predicate ValidMatch(slot: Slot, m: Match) {
    HeaderOK(slot, m) && DimensionsOK(m.fingerprint)
  }

  /** At most the first fifty citations, and the fingerprint in its canonical order. */
  function Normalized(m: Match): Match {
    var cited := if |m.cited| > MAX_CITATIONS then m.cited[..MAX_CITATIONS] else m.cited;
    m.(cited := SortedDistinct(cited), complete := m.complete && |m.cited| <= MAX_CITATIONS,
       fingerprint := SortBy(DimensionLe, m.fingerprint))
  }

  method ValidateMatch(slot: Slot, m: Match) returns (r: Option<Match>)
    ensures r == if ValidMatch(slot, m) then Some(Normalized(m)) else None
  {
    if !HeaderOK(slot, m) { return None; }
    var cited, complete := m.cited, m.complete;
    if |cited| > MAX_CITATIONS {
      cited, complete := cited[..MAX_CITATIONS], false;
    }
    for i := 0 to |m.fingerprint|
      invariant forall k | 0 <= k < i :: m.fingerprint[k].name != "" && m.fingerprint[k].value != ""
    {
      if m.fingerprint[i].name == "" || m.fingerprint[i].value == "" { return None; }
    }
    r := Some(m.(cited := SortedDistinct(cited), complete := complete,
                 fingerprint := SortBy(DimensionLe, m.fingerprint)));
  }

  // ---------------------------------------------------------------- what is collected

  /** The matches before the first invalid one, normalized. */
  function ValidPrefix(slot: Slot, matches: seq<Match>): (r: seq<Match>)
    ensures |r| <= |matches|
  {
    if matches == [] || !ValidMatch(slot, matches[0]) then []
    else [Normalized(matches[0])] + ValidPrefix(slot, matches[1..])
  }

  function Contribution(slot: Slot, response: Response): seq<Match> {
    match response
    case Broken(_) => []
    case Completed(matches, _, _) => ValidPrefix(slot, matches)
  }

  /** A detector answers properly when it completes and every match it returns is valid. */
  predicate Proper(slot: Slot, response: Response) {
    response.Completed? && |ValidPrefix(slot, response.matches)| == |response.matches|
  }

  function FailureOf(slot: Slot, response: Response): seq<Failure> {
    match response
    case Broken(code) => [Failure(slot.id, code)]
    case Completed(matches, _, _) =>
      if |ValidPrefix(slot, matches)| == |matches| then [] else [Failure(slot.id, INVALID_OUTPUT)]
  }

  function RowOf(slot: Slot, response: Response): (r: Row)
    ensures r.slot == slot
  {
    match response
    case Broken(code) => Row(slot, Incomplete, code)
    case Completed(_, absence, reason) => Row(slot, absence, reason)
  }

  function Collected(slots: seq<Slot>, responses: seq<Response>, k: nat): seq<Match>
    requires k <= |slots| == |responses|
  {
    if k == 0 then [] else Collected(slots, responses, k - 1) + Contribution(slots[k - 1], responses[k - 1])
  }

  function FailuresOf(slots: seq<Slot>, responses: seq<Response>, k: nat): seq<Failure>
    requires k <= |slots| == |responses|
  {
    if k == 0 then [] else FailuresOf(slots, responses, k - 1) + FailureOf(slots[k - 1], responses[k - 1])
  }

  function RowsOf(slots: seq<Slot>, responses: seq<Response>, k: nat): (r: seq<Row>)
    requires k <= |slots| == |responses|
    ensures |r| == k && forall i | 0 <= i < k :: r[i] == RowOf(slots[i], responses[i])
  {
    seq(k, i requires 0 <= i < k => RowOf(slots[i], responses[i]))
  }

  lemma {:induction false} CollectedGrows(slots: seq<Slot>, responses: seq<Response>, k: nat)
    requires k <= |slots| == |responses|
    ensures |Collected(slots, responses, k)| <= |Collected(slots, responses, |slots|)|
    decreases |slots| - k
  {
    hide Contribution;
    if k < |slots| { CollectedGrows(slots, responses, k + 1); }
  }

  lemma {:induction false} NoFailures(slots: seq<Slot>, responses: seq<Response>, k: nat)
    requires k <= |slots| == |responses|
    ensures FailuresOf(slots, responses, k) == [] <==> forall i | 0 <= i < k :: Proper(slots[i], responses[i])
  {
    hide ValidPrefix;
    if k > 0 { NoFailures(slots, responses, k - 1); }
  }

  // ---------------------------------------------------------------- duplicates and order

  function KeyOf(m: Match): string {
    MatchKey(m.detector, m.fingerprint)
  }

  ghost predicate DistinctKeys(matches: seq<Match>) {
    forall i, j | 0 <= i < j < |matches| :: KeyOf(matches[i]) != KeyOf(matches[j])
  }

  method DuplicateMatch(matches: seq<Match>) returns (duplicate: bool)
    ensures duplicate <==> !DistinctKeys(matches)
  {
    hide KeyOf;
    var seen: set<string> := {};
    for k := 0 to |matches|
      invariant DistinctKeys(matches[..k])
      invariant forall key :: key in seen <==> exists i | 0 <= i < k :: KeyOf(matches[i]) == key
    {
      var key := KeyOf(matches[k]);
      if key in seen {
        var i :| 0 <= i < k && KeyOf(matches[i]) == key;
        return true;
      }
      seen := seen + {key};
    }
    assert matches[..|matches|] == matches;
    duplicate := false;
  }

  predicate MatchLe(x: Match, y: Match) {
    if x.detector != y.detector then StrLe(x.detector, y.detector)
    else if DimensionKey(x.fingerprint) != DimensionKey(y.fingerprint) then
      StrLe(DimensionKey(x.fingerprint), DimensionKey(y.fingerprint))
    else if x.first != y.first then x.first < y.first
    else x.last <= y.last
  }

  lemma MatchLeOrder()
    ensures TotalPreorder(MatchLe)
    ensures forall x, y :: MatchLe(x, y) && MatchLe(y, x) ==> KeyOf(x) == KeyOf(y)
  {
    hide DimensionKey;
    StrLeOrder();
    hide StrLe;
  }

  // ---------------------------------------------------------------- the run

  /** The result that the answers call for: all or nothing. */
  ghost predicate Aggregates(preparation: Preparation, slots: seq<Slot>, responses: seq<Response>, r: CatalogResult)
    requires |responses| == |slots|
  {
    match preparation
    case OverLimit => r == CatalogResult(Truncated, [], [], [])
    case NotPrepared(code) => r == CatalogResult(Failed, [], [Failure("", code)], [])
    case Prepared =>
      var all, failures := Collected(slots, responses, |slots|), FailuresOf(slots, responses, |slots|);
      if |all| > MAX_MATCHES then
        && r.status == Truncated && r.matches == [] && r.failures == [] && |r.rows| <= |slots|
        && forall i | 0 <= i < |r.rows| :: r.rows[i] == Row(slots[i], Incomplete, "catalog_truncated")
      else
        && r.rows == RowsOf(slots, responses, |slots|)
        && if failures != [] then r.status == Failed && r.matches == [] && r.failures == failures
           else if !DistinctKeys(all) then
             r.status == Failed && r.matches == [] && r.failures == [Failure("", INVALID_OUTPUT)]
           else r.status == Current && r.failures == [] && r.matches == SortBy(MatchLe, all)
  }

  method Run(preparation: Preparation, slots: seq<Slot>, responses: seq<Response>) returns (r: CatalogResult)
    requires |responses| == |slots|
    ensures Aggregates(preparation, slots, responses, r)
  {
    hide DistinctKeys, RowOf, Collected, FailuresOf;
    if preparation == OverLimit { return CatalogResult(Truncated, [], [], []); }
    if preparation.NotPrepared? { return CatalogResult(Failed, [], [Failure("", preparation.code)], []); }
    var overflow, matches, failures, rows := Collect(slots, responses);
    if overflow {
      return CatalogResult(Truncated, [], [],
          seq(|rows|, i requires 0 <= i < |rows| => Row(rows[i].slot, Incomplete, "catalog_truncated")));
    }
    if |failures| > 0 { return CatalogResult(Failed, [], failures, rows); }
    var duplicate := DuplicateMatch(matches);
    if duplicate { return CatalogResult(Failed, [], [Failure("", INVALID_OUTPUT)], rows); }
    r := CatalogResult(Current, SortBy(MatchLe, matches), [], rows);
  }

  /** What the loop has gathered from the first k detectors. */
  ghost predicate Gathered(slots: seq<Slot>, responses: seq<Response>, k: nat, matches: seq<Match>,
                           failures: seq<Failure>, rows: seq<Row>)
    requires k <= |slots| == |responses|
  {
    && matches == Collected(slots, responses, k) && failures == FailuresOf(slots, responses, k)
    && rows == RowsOf(slots, responses, k)
  }

  lemma GatheredStep(slots: seq<Slot>, responses: seq<Response>, k: nat, matches: seq<Match>, failures: seq<Failure>,
                     rows: seq<Row>)
    requires k < |slots| == |responses| && Gathered(slots, responses, k, matches, failures, rows)
    ensures Gathered(slots, responses, k + 1, matches + Contribution(slots[k], responses[k]),
                     failures + FailureOf(slots[k], responses[k]), rows + [RowOf(slots[k], responses[k])])
    ensures |matches| + |Contribution(slots[k], responses[k])| <= |Collected(slots, responses, |slots|)|
  {
    hide Contribution, FailureOf, RowOf;
    CollectedGrows(slots, responses, k + 1);
  }

  lemma GatheredRows(slots: seq<Slot>, responses: seq<Response>, k: nat, matches: seq<Match>, failures: seq<Failure>,
                     rows: seq<Row>)
    requires k <= |slots| == |responses| && Gathered(slots, responses, k, matches, failures, rows)
    ensures |rows| == k && RowsFor(slots, rows)
    ensures k < |slots| ==> RowsFor(slots, rows + [RowOf(slots[k], responses[k])])
  {
    hide Collected, FailuresOf;
  }

  /** One row per detector, for as many as were reached. */
  ghost predicate RowsFor(slots: seq<Slot>, rows: seq<Row>) {
    |rows| <= |slots| && forall i | 0 <= i < |rows| :: rows[i].slot == slots[i]
  }

  /** The loop over the detectors; stops when more than a hundred matches have been collected. */
  method Collect(slots: seq<Slot>, responses: seq<Response>)
    returns (overflow: bool, matches: seq<Match>, failures: seq<Failure>, rows: seq<Row>)
    requires |responses| == |slots|
    ensures overflow <==> |Collected(slots, responses, |slots|)| > MAX_MATCHES
    ensures !overflow ==> Gathered(slots, responses, |slots|, matches, failures, rows)
    ensures RowsFor(slots, rows)
  {
    matches, failures, rows := [], [], [];
    assert Gathered(slots, responses, 0, matches, failures, rows);
    hide Gathered, RowOf, ValidPrefix, RowsOf, FailuresOf, Collected, RowsFor;
    for k := 0 to |slots|
      invariant Gathered(slots, responses, k, matches, failures, rows) && |matches| <= MAX_MATCHES
    {
      var response := responses[k];
      GatheredRows(slots, responses, k, matches, failures, rows);
      GatheredStep(slots, responses, k, matches, failures, rows);
      rows := rows + [RowOf(slots[k], response)];
      if response.Broken? {
        failures := failures + [Failure(slots[k].id, response.code)];
        assert matches + [] == matches;
        continue;
      }
      var contribution, tooMany := Validate(slots[k], response.matches, |matches|);
      matches := matches + contribution;
      if |contribution| < |response.matches| { failures := failures + [Failure(slots[k].id, INVALID_OUTPUT)]; }
      if tooMany {
        return true, matches, failures, rows;
      }
    }
    GatheredRows(slots, responses, |slots|, matches, failures, rows);
    GatheredAll(slots, responses, matches, failures, rows);
    overflow := false;
  }

  lemma GatheredAll(slots: seq<Slot>, responses: seq<Response>, matches: seq<Match>, failures: seq<Failure>,
                    rows: seq<Row>)
    requires |slots| == |responses| && Gathered(slots, responses, |slots|, matches, failures, rows)
    ensures matches == Collected(slots, responses, |slots|)
  {
  }

  /** The loop over one detector's matches: stops at the first invalid one, or when more than a
      hundred have been collected in all. */
  method Validate(slot: Slot, found: seq<Match>, before: nat) returns (contribution: seq<Match>, overflow: bool)
    requires before <= MAX_MATCHES
    ensures overflow <==> before + |ValidPrefix(slot, found)| > MAX_MATCHES
    ensures !overflow ==> contribution == ValidPrefix(slot, found)
  {
    hide ValidMatch, Normalized;
    contribution := [];
    for i := 0 to |found|
      invariant ValidPrefix(slot, found) == contribution + ValidPrefix(slot, found[i..])
      invariant before + |contribution| <= MAX_MATCHES
    {
      assert found[i..][1..] == found[i + 1..];
      var m := ValidateMatch(slot, found[i]);
      if m == None { return contribution, false; }
      contribution := contribution + [m.value];
      if before + |contribution| > MAX_MATCHES { return contribution, true; }
    }
    overflow := false;
  }

  // ---------------------------------------------------------------- what a current result promises

  /** Strictly increasing in (detector, fingerprint key), hence pairwise distinct. */
  ghost predicate StrictlyOrdered(matches: seq<Match>) {
    forall i, j | 0 <= i < j < |matches| ::
      var x, y := matches[i], matches[j];
      if x.detector != y.detector then StrLe(x.detector, y.detector)
      else DimensionKey(x.fingerprint) != DimensionKey(y.fingerprint) &&
           StrLe(DimensionKey(x.fingerprint), DimensionKey(y.fingerprint))
  }

  lemma SortedMatchesStrict(all: seq<Match>)
    requires DistinctKeys(all)
    ensures StrictlyOrdered(SortBy(MatchLe, all))
  {
    var r := SortBy(MatchLe, all);
    MatchLeOrder();
    SortBySorted(MatchLe, all);
    DistinctAfterSort(all);
    hide StrLe, DimensionKey;
  }

  lemma DistinctBag(a: seq<Match>, b: seq<Match>)
    requires multiset(a) == multiset(b) && DistinctKeys(a)
    ensures DistinctKeys(b)
  {
    hide KeyOf;
    var f := (m: Match) => KeyOf(m);
    MapBag(f, a, b);
    assert NoRepeats(Map(f, a));
    NoRepeatsBag(Map(f, a), Map(f, b));
    forall i, j | 0 <= i < j < |b| ensures KeyOf(b[i]) != KeyOf(b[j]) {
      assert Map(f, b)[i] != Map(f, b)[j];
    }
  }

  lemma DistinctAfterSort(all: seq<Match>)
    requires DistinctKeys(all)
    ensures DistinctKeys(SortBy(MatchLe, all))
  {
    DistinctBag(all, SortBy(MatchLe, all));
  }

  /** A current result does not depend on the order the matches were produced in. */
  lemma CurrentIgnoresOrder(a: seq<Match>, b: seq<Match>)
    requires multiset(a) == multiset(b) && DistinctKeys(a)
    ensures DistinctKeys(b) && SortBy(MatchLe, a) == SortBy(MatchLe, b)
  {
    hide KeyOf, MatchLe;
    DistinctBag(a, b);
    MatchLeOrder();
    forall x, y | x in a && y in a && MatchLe(x, y) && MatchLe(y, x) ensures x == y { }
    SortByPermutation(MatchLe, a, b);
  }

  /** With detector IDs free of NUL, only two matches of one detector with the same dimensions make
      a run fail as duplicated. */
  lemma DuplicatesAreReal(matches: seq<Match>)
    requires forall m | m in matches :: '\0' !in m.detector
    ensures DistinctKeys(matches) <==>
      forall i, j | 0 <= i < j < |matches| ::
        matches[i].detector != matches[j].detector || matches[i].fingerprint != matches[j].fingerprint
  {
    hide MatchKey;
    forall i, j | 0 <= i < j < |matches| && KeyOf(matches[i]) == KeyOf(matches[j])
      ensures matches[i].detector == matches[j].detector && matches[i].fingerprint == matches[j].fingerprint
    {
      MatchKeyInjective(matches[i].detector, matches[i].fingerprint, matches[j].detector, matches[j].fingerprint);
    }
  }
}
