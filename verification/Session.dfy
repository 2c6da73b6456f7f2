/** Canonical events, prepared events, and the time arithmetic of the detection package. */
module Session {
  import opened Text
  import opened Ordering

  datatype Resource = Resource(kind: string, name: string)

  /** The fields of a canonical event that detection reads.  `toolIdentity` is the validated tool
      identity, empty when the event has none. */
  datatype Event = Event(
    id: string, at: int, sequence: int, source: string, sessionKey: string,
    kind: string, actor: string, outcome: string, exitCode: Option<int>,
    resource: Option<Resource>, toolIdentity: string, toolCall: Option<string>,
    depth: string, confidence: string, historical: bool)

  datatype Enrichment = Enrichment(signature: string, commandClass: string, permission: string, version: string)

  datatype Prepared = Prepared(
    event: Event, enrichment: Enrichment, evidence: seq<string>, historical: bool, live: bool)

  function ToolCallID(event: Event): string {
    match event.toolCall
    case None => ""
    case Some(id) => TrimSpace(id)
  }

  // ---------------------------------------------------------------- session order

  /** Sequence, then time, then event ID. */
  predicate EventLe(x: Prepared, y: Prepared) {
    var a, b := x.event, y.event;
    if a.sequence != b.sequence then a.sequence < b.sequence
    else if a.at != b.at then a.at < b.at
    else StrLe(a.id, b.id)
  }

  lemma EventLeOrder()
    ensures TotalPreorder(EventLe)
    ensures forall x, y :: EventLe(x, y) && EventLe(y, x) ==> x.event.id == y.event.id
  {
    StrLeOrder();
  }

  function SortEvents(events: seq<Prepared>): (r: seq<Prepared>)
    ensures multiset(r) == multiset(events)
  {
    SortBy(EventLe, events)
  }

  ghost predicate DistinctIDs(events: seq<Prepared>) {
    forall i, j | 0 <= i < j < |events| :: events[i].event.id != events[j].event.id
  }

  lemma DistinctTieFree(events: seq<Prepared>)
    requires DistinctIDs(events)
    ensures TieFree(EventLe, events)
  {
    EventLeOrder();
  }

  // ---------------------------------------------------------------- durations

  const SECOND: int := 1_000_000_000
  const MAX_DURATION: int := 0x7fff_ffff_ffff_ffff
  const MIN_DURATION: int := -0x8000_0000_0000_0000

  /** time.Time.Sub: nanoseconds, saturating at the 64-bit limits. */
  function Sub(a: int, b: int): int {
    if a - b < MIN_DURATION then MIN_DURATION
    else if a - b > MAX_DURATION then MAX_DURATION
    else a - b
  }

  /** Negation in 64 bits leaves the least value negative. */
  function DurationAbsolute(d: int): int {
    if d < 0 then (if d == MIN_DURATION then d else -d) else d
  }

  predicate WithinWindow(a: int, b: int, window: int) {
    DurationAbsolute(Sub(a, b)) <= window
  }

  function Distance(a: int, b: int): nat {
    if a < b then b - a else a - b
  }

  /** The window test accepts times at most `window` apart, and also any a that is 2^63 ns or more
      before b: the saturated difference negates to itself. */
  lemma WithinWindowExact(a: int, b: int, window: int)
    requires 0 <= window < MAX_DURATION
    ensures WithinWindow(a, b, window) <==> Distance(a, b) <= window || a - b <= MIN_DURATION
  {
  }

  // ---------------------------------------------------------------- cancellation

  /** The signal is looked at before every 64th of n events. */
  ghost predicate Cancelled(done: nat -> bool, n: nat) {
    exists i: nat | i < n :: i % 64 == 0 && done(i)
  }
}
