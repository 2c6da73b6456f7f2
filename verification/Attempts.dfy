/** Folding a prepared session into command attempts. */
module Attempts {
  import opened Text
  import opened Session
  import opened AttemptPairs

  datatype Outcome = Unknown | Succeeded | Failed

  datatype Trust = UnpairedResult | ExecObservation | AdjacentPair | ToolCallPair

  datatype Attempt = Attempt(
    signature: string, commandClass: string, events: seq<Prepared>, first: int, last: int,
    firstPos: nat, lastPos: nat, outcome: Outcome, conflict: bool, trust: Trust,
    repetitionEligible: bool, classConflict: bool)

  datatype AttemptsResult = Canceled | Folded(attempts: seq<Attempt>)

  function KindOf(event: Event): Kind {
    match event.kind
    case "command.exec" => Exec
    case "command.result" => Result
    case _ => Other
  }

  function CommandOf(item: Prepared): Command {
    Command(KindOf(item.event), ToolCallID(item.event), item.enrichment.signature, item.event.at)
  }

  function CommandsOf(events: seq<Prepared>): (r: seq<Command>)
    ensures |r| == |events| && forall i | 0 <= i < |events| :: r[i] == CommandOf(events[i])
  {
    seq(|events|, i requires 0 <= i < |events| => CommandOf(events[i]))
  }

  // ---------------------------------------------------------------- outcomes and classes

  /** The exit code or the textual outcome says that the command ended this way. */
  predicate Says(event: Event, outcome: Outcome) {
    match outcome
    case Unknown => false
    case Succeeded => event.exitCode == Some(0) || Lower(TrimSpace(event.outcome)) == "succeeded"
    case Failed => (event.exitCode.Some? && event.exitCode.value != 0) || Lower(TrimSpace(event.outcome)) == "failed"
  }

  /** The outcome that one of them says and neither contradicts. */
  function ExplicitOutcome(event: Event): (r: (Outcome, bool))
    ensures r.1 <==> Says(event, Succeeded) && Says(event, Failed)
    ensures r.0 == Succeeded <==> Says(event, Succeeded) && !Says(event, Failed)
    ensures r.0 == Failed <==> Says(event, Failed) && !Says(event, Succeeded)
  {
    var fromCode := match event.exitCode
      case None => Unknown
      case Some(code) => if code == 0 then Succeeded else Failed;
    var value := Lower(TrimSpace(event.outcome));
    var fromValue := if value == "succeeded" then Succeeded else if value == "failed" then Failed else Unknown;
    if fromCode != Unknown && fromValue != Unknown && fromCode != fromValue then (Unknown, true)
    else if fromCode != Unknown then (fromCode, false)
    else (fromValue, false)
  }

  function NormalizedClass(value: string): string {
    var v := Lower(TrimSpace(value));
    if v in {"test", "build", "typecheck", "lint", "format_check", "other"} then v else "unknown"
  }

  // ---------------------------------------------------------------- one attempt

  predicate AdjacentExecWithoutID(cmds: seq<Command>, position: nat)
    requires position < |cmds|
  {
    && position > 0 && cmds[position - 1].kind == Exec && cmds[position - 1].id == ""
    && WithinWindow(cmds[position].at, cmds[position - 1].at, ADJACENT_PAIR_WINDOW)
  }

  /** A result does not count as a repetition when an execution it could belong to is in sight. */
  predicate Repeats(cmds: seq<Command>, position: nat)
    requires position < |cmds|
  {
    var c := cmds[position];
    c.kind == Exec ||
    !((c.id != "" && Occurrences(cmds, Exec, c.id) > 0) || AdjacentExecWithoutID(cmds, position))
  }

  function NewAttempt(item: Prepared, position: nat): Attempt {
    var (outcome, conflict) := ExplicitOutcome(item.event);
    var trust := if KindOf(item.event) == Exec then ExecObservation else UnpairedResult;
    Attempt(item.enrichment.signature, NormalizedClass(item.enrichment.commandClass), [item],
            item.event.at, item.event.at, position, position, outcome, conflict, trust, true, false)
  }

  function Opening(events: seq<Prepared>, position: nat): Attempt
    requires position < |events|
  {
    NewAttempt(events[position], position).(repetitionEligible := Repeats(CommandsOf(events), position))
  }

  function JoinedOutcome(a: Attempt, event: Event): (Outcome, bool) {
    var (outcome, conflict) := ExplicitOutcome(event);
    if conflict then (Unknown, true)
    else if outcome == Unknown then (a.outcome, a.conflict)
    else if a.conflict then (Unknown, true)
    else if a.outcome == Unknown then (outcome, false)
    else if a.outcome != outcome then (Unknown, true)
    else (a.outcome, false)
  }

  function JoinedClass(a: Attempt, item: Prepared): (string, bool) {
    var incoming := NormalizedClass(item.enrichment.commandClass);
    if item.enrichment.signature == "" then (a.commandClass, a.classConflict)
    else if a.classConflict then ("unknown", true)
    else if a.commandClass == "unknown" then (incoming, false)
    else if incoming != "unknown" && incoming != a.commandClass then ("unknown", true)
    else (a.commandClass, false)
  }

  function MergedAttempt(a: Attempt, item: Prepared, position: nat, trust: Trust): Attempt {
    var (outcome, conflict) := JoinedOutcome(a, item.event);
    var (commandClass, classConflict) := JoinedClass(a, item);
    Attempt(a.signature, commandClass, a.events + [item],
            if item.event.at < a.first then item.event.at else a.first,
            if item.event.at > a.last then item.event.at else a.last,
            a.firstPos, position, outcome, conflict, trust, a.repetitionEligible, classConflict)
  }

  method MergeOutcome(before: Attempt, event: Event) returns (outcome: Outcome, conflict: bool)
    ensures (outcome, conflict) == JoinedOutcome(before, event)
  {
    hide ExplicitOutcome, Says;
    outcome, conflict := before.outcome, before.conflict;
    var (incoming, contradictory) := ExplicitOutcome(event);
    if contradictory {
      outcome, conflict := Unknown, true;
    } else if incoming != Unknown {
      if conflict { outcome := Unknown; }
      else if outcome == Unknown { outcome := incoming; }
      else if outcome != incoming { outcome, conflict := Unknown, true; }
    }
  }

  method MergeClass(before: Attempt, item: Prepared) returns (commandClass: string, classConflict: bool)
    ensures (commandClass, classConflict) == JoinedClass(before, item)
  {
    hide NormalizedClass;
    commandClass, classConflict := before.commandClass, before.classConflict;
    if item.enrichment.signature != "" {
      var incoming := NormalizedClass(item.enrichment.commandClass);
      if classConflict { commandClass := "unknown"; }
      else if commandClass == "unknown" { commandClass := incoming; }
      else if incoming != "unknown" && incoming != commandClass {
        commandClass, classConflict := "unknown", true;
      }
    }
  }

  /** Updates the attempt field by field. */
  method MergeAttempt(before: Attempt, item: Prepared, position: nat, trust: Trust) returns (a: Attempt)
    ensures a == MergedAttempt(before, item, position, trust)
  {
    hide JoinedOutcome, JoinedClass;
    var first, last := before.first, before.last;
    if item.event.at < first { first := item.event.at; }
    if item.event.at > last { last := item.event.at; }
    var outcome, conflict := MergeOutcome(before, item.event);
    var commandClass, classConflict := MergeClass(before, item);
    a := Attempt(before.signature, commandClass, before.events + [item], first, last, before.firstPos, position,
                 outcome, conflict, trust, before.repetitionEligible, classConflict);
  }

  // ---------------------------------------------------------------- the declarative fold

  function TrustOf(cmds: seq<Command>, i: nat, j: nat): Trust {
    if ToolPaired(cmds, i, j) then ToolCallPair else AdjacentPair
  }

  /** The attempt opened at position i, when the session has been read up to k. */
  function AttemptAt(events: seq<Prepared>, i: nat, k: nat): Attempt
    requires i < |events| && k <= |events|
  {
    var cmds := CommandsOf(events);
    match ResultOf(cmds, i, k)
    case None => Opening(events, i)
    case Some(j) => MergedAttempt(Opening(events, i), events[j], j, TrustOf(cmds, i, j))
  }

  /** One attempt for each opening position, in order, with its result if it has one. */
  function AttemptsOf(events: seq<Prepared>, k: nat): (r: seq<Attempt>)
    requires k <= |events|
    ensures |r| == |Openings(CommandsOf(events), k)|
    ensures forall a | 0 <= a < |r| :: r[a] == AttemptAt(events, Openings(CommandsOf(events), k)[a], k)
  {
    var openings := Openings(CommandsOf(events), k);
    seq(|openings|, a requires 0 <= a < |openings| => AttemptAt(events, openings[a], k))
  }

  // ---------------------------------------------------------------- the loop

  ghost predicate Counted(cmds: seq<Command>, k: nat, counts: map<string, (nat, nat)>)
    requires k <= |cmds|
  {
    forall id | id != "" ::
      CountOf(counts, id) == (Occurrences(cmds[..k], Exec, id), Occurrences(cmds[..k], Result, id))
  }

  function CountOf(counts: map<string, (nat, nat)>, id: string): (nat, nat) {
    if id in counts then counts[id] else (0, 0)
  }

  lemma CountedNone(cmds: seq<Command>)
    ensures Counted(cmds, 0, map[])
  {
    assert cmds[..0] == [];
  }

  lemma CountedStep(cmds: seq<Command>, k: nat, counts: map<string, (nat, nat)>)
    requires k < |cmds| && Counted(cmds, k, counts)
    ensures var c := cmds[k]; var n := CountOf(counts, c.id);
      && (c.id == "" || c.kind == Other ==> Counted(cmds, k + 1, counts))
      && (c.id != "" && c.kind == Exec ==> Counted(cmds, k + 1, counts[c.id := (n.0 + 1, n.1)]))
      && (c.id != "" && c.kind == Result ==> Counted(cmds, k + 1, counts[c.id := (n.0, n.1 + 1)]))
  {
    var c := cmds[k];
    var n := CountOf(counts, c.id);
    var updated :=
      if c.id == "" || c.kind == Other then counts
      else if c.kind == Exec then counts[c.id := (n.0 + 1, n.1)] else counts[c.id := (n.0, n.1 + 1)];
    forall id | id != ""
      ensures CountOf(updated, id) == (Occurrences(cmds[..k + 1], Exec, id), Occurrences(cmds[..k + 1], Result, id))
    {
      assert CountOf(counts, id) == (Occurrences(cmds[..k], Exec, id), Occurrences(cmds[..k], Result, id));
      OccurrencesStep(cmds, k, Exec, id);
      OccurrencesStep(cmds, k, Result, id);
    }
    assert Counted(cmds, k + 1, updated);
  }

  method CommandToolCallMultiplicity(events: seq<Prepared>, done: nat -> bool)
    returns (cancelled: bool, counts: map<string, (nat, nat)>)
    ensures cancelled <==> Cancelled(done, |events|)
    ensures !cancelled ==> Counted(CommandsOf(events), |events|, counts)
  {
    hide Session.ToolCallID, Counted;
    ghost var cmds := CommandsOf(events);
    counts := map[];
    assert Counted(cmds, 0, counts) by { CountedNone(cmds); }
    for index := 0 to |events|
      invariant !Cancelled(done, index) && Counted(cmds, index, counts)
    {
      if index % 64 == 0 && done(index) { return true, counts; }
      CountedStep(cmds, index, counts);
      var id := ToolCallID(events[index].event);
      if id == "" { continue; }
      var (execs, results) := CountOf(counts, id);
      match KindOf(events[index].event) {
        case Exec => counts := counts[id := (execs + 1, results)];
        case Result => counts := counts[id := (execs, results + 1)];
        case Other =>
      }
    }
    cancelled := false;
  }

  /** Opening m is an execution waiting under this ID. */
  ghost predicate WaitsUnder(cmds: seq<Command>, k: nat, id: string, m: nat)
    requires k <= |cmds|
  {
    m < |Openings(cmds, k)| && Waits(cmds, Openings(cmds, k)[m], k) && cmds[Openings(cmds, k)[m]].id == id
  }

  ghost predicate Listed(cmds: seq<Command>, k: nat, pending: map<string, nat>, i: nat)
    requires k <= |cmds|
  {
    i < |cmds| && cmds[i].id in pending && WaitsUnder(cmds, k, cmds[i].id, pending[cmds[i].id]) &&
    Openings(cmds, k)[pending[cmds[i].id]] == i
  }

  /** The pending map holds exactly the waiting executions, each under its ID. */
  ghost predicate PendingOK(cmds: seq<Command>, k: nat, pending: map<string, nat>)
    requires k <= |cmds|
  {
    && (forall id | id in pending :: WaitsUnder(cmds, k, id, pending[id]))
    && (forall i: nat | Waits(cmds, i, k) :: Listed(cmds, k, pending, i))
  }

  /** An event that answers nothing leaves every attempt as it is, and may open one. */
  lemma FoldOpens(events: seq<Prepared>, k: nat)
    requires k < |events| && !Answers(CommandsOf(events), k)
    ensures AttemptsOf(events, k + 1) ==
      AttemptsOf(events, k) + if Opens(CommandsOf(events), k) then [Opening(events, k)] else []
  {
    hide Opening, MergedAttempt, Paired, CommandOf, Opens;
    var cmds := CommandsOf(events);
    var openings := Openings(cmds, k);
    NoEarlyResult(cmds, k, k + 1);
    forall a | 0 <= a < |openings| ensures AttemptAt(events, openings[a], k + 1) == AttemptAt(events, openings[a], k) {
      assert !Paired(cmds, openings[a], k);
    }
  }

  /** A result that answers an execution joins that execution's attempt. */
  lemma FoldJoins(events: seq<Prepared>, m: nat, k: nat)
    requires k < |events| && m < |Openings(CommandsOf(events), k)|
    requires Paired(CommandsOf(events), Openings(CommandsOf(events), k)[m], k)
    ensures var i := Openings(CommandsOf(events), k)[m];
      && AttemptAt(events, i, k) == Opening(events, i)
      && AttemptsOf(events, k + 1) == AttemptsOf(events, k)[m :=
           MergedAttempt(Opening(events, i), events[k], k, TrustOf(CommandsOf(events), i, k))]
  {
    hide Opening, MergedAttempt, CommandOf, Paired, TrustOf;
    var cmds := CommandsOf(events);
    var openings := Openings(cmds, k);
    var i := openings[m];
    if ResultOf(cmds, i, k).Some? { PairedUnique(cmds, i, ResultOf(cmds, i, k).value, k); }
    assert Answers(cmds, k);
    assert Openings(cmds, k + 1) == openings;
    forall a | 0 <= a < |openings| && a != m
      ensures AttemptAt(events, openings[a], k + 1) == AttemptAt(events, openings[a], k)
    {
      PairedUnique(cmds, openings[a], openings[m], k);
    }
  }

  // ---------------------------------------------------------------- pending executions

  lemma KeepsWaiting(cmds: seq<Command>, i: nat, k: nat)
    requires i < k < |cmds| && !Answers(cmds, k)
    ensures Waits(cmds, i, k + 1) <==> Waits(cmds, i, k)
  {
    hide Waits, Paired;
    WaitsStep(cmds, i, k);
    assert !Paired(cmds, i, k);
  }

  /** The new execution, if it is one that waits, is recorded under the attempt it opens. */
  lemma PendingOpens(cmds: seq<Command>, k: nat, pending: map<string, nat>)
    requires k < |cmds| && PendingOK(cmds, k, pending) && !Answers(cmds, k)
    ensures if Waits(cmds, k, k + 1) then PendingOK(cmds, k + 1, pending[cmds[k].id := |Openings(cmds, k)|])
            else PendingOK(cmds, k + 1, pending)
  {
    hide Waits, Paired, Opens, Answers;
    var n := k + 1;
    var openings, next := Openings(cmds, k), Openings(cmds, n);
    forall i: nat | i < k ensures Waits(cmds, i, n) <==> Waits(cmds, i, k) { KeepsWaiting(cmds, i, k); }
    forall i: nat | Waits(cmds, i, n) ensures i < n && (i == k ==> Opens(cmds, k)) { WaitingOpens(cmds, i, n); }
    if Waits(cmds, k, n) {
      forall i: nat | Waits(cmds, i, n) && i != k ensures cmds[i].id != cmds[k].id {
        if cmds[i].id == cmds[k].id { WaitsUnique(cmds, i, k, n); }
      }
    }
    forall id | id in pending ensures next[pending[id]] == openings[pending[id]] { }
  }

  lemma WaitingOpens(cmds: seq<Command>, i: nat, k: nat)
    requires Waits(cmds, i, k)
    ensures i < k <= |cmds| && Opens(cmds, i)
  {
    hide Occurrences, ResultOf;
    ExecOpens(cmds, i);
  }

  lemma WaitsAfterJoin(cmds: seq<Command>, i: nat, k: nat, j: nat)
    requires k < |cmds| && Paired(cmds, i, k)
    ensures Waits(cmds, j, k + 1) <==> j < k && Waits(cmds, j, k) && j != i
    ensures Waits(cmds, j, k) && j != i ==> j < k && cmds[j].id != "" && cmds[j].id != cmds[i].id
  {
    hide Paired, Once, ResultOf;
    PairedIDs(cmds, i, k);
    if j < k {
      WaitsStep(cmds, j, k);
      PairedUnique(cmds, i, j, k);
      if cmds[k].id != "" {
        ToolResultAnswers(cmds, k, i);
        if Waits(cmds, j, k) && cmds[j].id == cmds[i].id { WaitsUnique(cmds, i, j, k); }
      }
    }
  }

  /** An answered execution stops waiting. */
  lemma PendingJoins(cmds: seq<Command>, i: nat, k: nat, pending: map<string, nat>)
    requires k < |cmds| && PendingOK(cmds, k, pending) && Paired(cmds, i, k)
    ensures PendingOK(cmds, k + 1, pending - {cmds[i].id}) && Openings(cmds, k + 1) == Openings(cmds, k)
    ensures cmds[i].id == "" ==> PendingOK(cmds, k + 1, pending)
  {
    hide Waits, Paired, Opens, Openings, WaitsUnder;
    var n := k + 1;
    OnlyResultsAnswer(cmds, i, k);
    assert Answers(cmds, k);
    AnswerOpensNothing(cmds, k);
    hide Answers;
    forall j: nat
      ensures Waits(cmds, j, n) <==> j < k && Waits(cmds, j, k) && j != i
      ensures Waits(cmds, j, k) && j != i ==> j < k && cmds[j].id != "" && cmds[j].id != cmds[i].id
    {
      WaitsAfterJoin(cmds, i, k, j);
    }
    var rest := pending - {cmds[i].id};
    forall id | id in rest ensures WaitsUnder(cmds, n, id, rest[id]) {
      StillWaits(cmds, i, k, id, pending[id]);
    }
    forall j: nat | Waits(cmds, j, n) ensures Listed(cmds, n, rest, j) {
      assert Listed(cmds, k, pending, j);
      StillWaits(cmds, i, k, cmds[j].id, pending[cmds[j].id]);
    }
    if cmds[i].id == "" {
      forall id | id in pending ensures id != "" { WaitsNamed(cmds, k, id, pending[id]); }
      assert rest == pending;
    }
  }

  lemma StillWaits(cmds: seq<Command>, i: nat, k: nat, id: string, m: nat)
    requires k < |cmds| && Paired(cmds, i, k) && Openings(cmds, k + 1) == Openings(cmds, k)
    requires WaitsUnder(cmds, k, id, m) && id != cmds[i].id
    ensures WaitsUnder(cmds, k + 1, id, m)
  {
    hide Waits, Paired, Openings;
    WaitsAfterJoin(cmds, i, k, Openings(cmds, k)[m]);
  }

  lemma WaitsNamed(cmds: seq<Command>, k: nat, id: string, m: nat)
    requires k <= |cmds| && WaitsUnder(cmds, k, id, m)
    ensures id != ""
  {
  }

  // ---------------------------------------------------------------- the tests of the loop

  predicate ResultMatches(item: Prepared, a: Attempt) {
    a.signature != "" && (item.enrichment.signature == "" || item.enrichment.signature == a.signature)
  }

  lemma AttemptSignature(events: seq<Prepared>, i: nat, k: nat)
    requires i < |events| && k <= |events|
    ensures AttemptAt(events, i, k).signature == events[i].enrichment.signature
    ensures AttemptAt(events, i, k).lastPos ==
      (match ResultOf(CommandsOf(events), i, k) case None => i case Some(j) => j)
  {
    hide ExplicitOutcome, NormalizedClass, JoinedOutcome, JoinedClass, CommandOf, Repeats, ResultOf;
  }

  /** Result k, with a tool-call ID, answers the pending execution with that ID or none. */
  lemma ToolDecision(events: seq<Prepared>, k: nat, pending: map<string, nat>)
    requires k < |events| && PendingOK(CommandsOf(events), k, pending)
    requires CommandsOf(events)[k].kind == Result && CommandsOf(events)[k].id != ""
    ensures var cmds := CommandsOf(events); var id := cmds[k].id; var openings := Openings(cmds, k);
      if Once(cmds, id) && id in pending && ResultMatches(events[k], AttemptAt(events, openings[pending[id]], k))
      then Paired(cmds, openings[pending[id]], k)
      else !Answers(cmds, k)
  {
    hide Paired, ToolCallID, AttemptAt, ResultOf, Occurrences;
    var cmds := CommandsOf(events);
    var id := cmds[k].id;
    if id in pending {
      var i := Openings(cmds, k)[pending[id]];
      AttemptSignature(events, i, k);
      ToolResultAnswers(cmds, k, i);
    }
    forall i: nat | i < k && Paired(cmds, i, k)
      ensures Once(cmds, id) && id in pending && Openings(cmds, k)[pending[id]] == i
    {
      ToolResultAnswers(cmds, k, i);
    }
  }

  /** Result k, without a tool-call ID, answers the execution just before it or none. */
  lemma PlainDecision(events: seq<Prepared>, k: nat)
    requires k < |events| && CommandsOf(events)[k].kind == Result && CommandsOf(events)[k].id == ""
    ensures var cmds := CommandsOf(events); var attempts := AttemptsOf(events, k);
      if k > 0 && |attempts| > 0 && cmds[k - 1].kind == Exec && cmds[k - 1].id == ""
        && attempts[|attempts| - 1].lastPos == k - 1 && ResultMatches(events[k], attempts[|attempts| - 1])
        && WithinWindow(cmds[k].at, cmds[k - 1].at, ADJACENT_PAIR_WINDOW)
      then Openings(cmds, k)[|attempts| - 1] == k - 1 && Paired(cmds, k - 1, k)
      else !Answers(cmds, k)
  {
    hide ToolCallID, AttemptAt, ResultOf, Occurrences, Session.WithinWindow, AttemptsOf, Opens;
    var cmds, attempts := CommandsOf(events), AttemptsOf(events, k);
    var openings := Openings(cmds, k);
    if |attempts| > 0 {
      var i := openings[|attempts| - 1];
      AttemptSignature(events, i, k);
      if ResultOf(cmds, i, k).Some? { PairedIDs(cmds, i, ResultOf(cmds, i, k).value); }
    }
    forall i: nat | i < k && Paired(cmds, i, k)
      ensures i == k - 1 && |openings| > 0 && openings[|openings| - 1] == i && ResultOf(cmds, i, k) == None
    {
      PlainResultAnswers(cmds, k, i);
      ExecOpens(cmds, i);
      NoEarlyResult(cmds, i, k);
    }
  }

  /** The attempts of a session are exactly its declarative fold. */
  method CommandAttempts(events: seq<Prepared>, done: nat -> bool) returns (r: AttemptsResult)
    ensures r == if Cancelled(done, |events|) then Canceled else Folded(AttemptsOf(events, |events|))
  {
    hide ToolCallID, AttemptAt, Paired, Answers, Opens, MergedAttempt, PendingOK, Repeats, AttemptsOf;
    ghost var cmds := CommandsOf(events);
    var attempts: seq<Attempt> := [];
    var pending: map<string, nat> := map[];
    var cancelled, counts := CommandToolCallMultiplicity(events, done);
    if cancelled { return Canceled; }
    assert PendingOK(cmds, 0, pending) && attempts == AttemptsOf(events, 0) by { NothingPending(events); }
    for k := 0 to |events|
      invariant attempts == AttemptsOf(events, k) && PendingOK(cmds, k, pending) && !Cancelled(done, k)
    {
      if k % 64 == 0 && done(k) { return Canceled; }
      attempts, pending := Step(events, counts, k, attempts, pending);
    }
    r := Folded(attempts);
  }

  lemma NothingPending(events: seq<Prepared>)
    ensures PendingOK(CommandsOf(events), 0, map[]) && AttemptsOf(events, 0) == []
  {
  }

  lemma CountAtEnd(cmds: seq<Command>, counts: map<string, (nat, nat)>, id: string)
    requires Counted(cmds, |cmds|, counts) && id != ""
    ensures CountOf(counts, id) == (Occurrences(cmds, Exec, id), Occurrences(cmds, Result, id))
  {
    assert cmds[..|cmds|] == cmds;
  }

  /** What joining a result does to the attempts and to the waiting executions. */
  lemma Joins(events: seq<Prepared>, m: nat, k: nat, waiting: map<string, nat>)
    requires k < |events| && PendingOK(CommandsOf(events), k, waiting) && m < |Openings(CommandsOf(events), k)|
    requires Paired(CommandsOf(events), Openings(CommandsOf(events), k)[m], k)
    ensures var cmds := CommandsOf(events); var before := AttemptsOf(events, k);
      var trust := if cmds[k].id != "" then ToolCallPair else AdjacentPair;
      && Answers(cmds, k) && PendingOK(cmds, k + 1, if cmds[k].id != "" then waiting - {cmds[k].id} else waiting)
      && AttemptsOf(events, k + 1) == before[m := MergedAttempt(before[m], events[k], k, trust)]
  {
    hide AttemptAt, Paired, Opens, MergedAttempt, PendingOK, CommandsOf, TrustOf, Opening;
    var cmds := CommandsOf(events);
    var i := Openings(cmds, k)[m];
    FoldJoins(events, m, k);
    PairedIDs(cmds, i, k);
    PendingJoins(cmds, i, k, waiting);
    TrustByID(cmds, i, k);
  }

  /** Merging a result into the attempt of the execution it answers, if there is one. */
  method JoinResult(events: seq<Prepared>, counts: map<string, (nat, nat)>, k: nat, before: seq<Attempt>,
                    waiting: map<string, nat>)
    returns (attempts: seq<Attempt>, pending: map<string, nat>, joined: bool)
    requires k < |events| && Counted(CommandsOf(events), |events|, counts) && CommandsOf(events)[k].kind == Result
    requires before == AttemptsOf(events, k) && PendingOK(CommandsOf(events), k, waiting)
    ensures joined == Answers(CommandsOf(events), k)
    ensures joined ==> attempts == AttemptsOf(events, k + 1) && PendingOK(CommandsOf(events), k + 1, pending)
    ensures !joined ==> attempts == before && pending == waiting
  {
    hide ToolCallID, AttemptAt, Paired, Opens, MergedAttempt, Repeats, AttemptsOf, Session.WithinWindow, Counted, Waits;
    ghost var cmds := CommandsOf(events);
    attempts, pending, joined := before, waiting, false;
    var item := events[k];
    var id := ToolCallID(item.event);
    if id != "" {
      ToolDecision(events, k, waiting);
      CountAtEnd(cmds, counts, id);
      if CountOf(counts, id) == (1, 1) && id in pending {
        var index := pending[id];
        if ResultMatches(item, attempts[index]) {
          Joins(events, index, k, waiting);
          var merged := MergeAttempt(attempts[index], item, k, ToolCallPair);
          attempts := attempts[index := merged];
          pending := pending - {id};
          joined := true;
        }
      }
    } else {
      PlainDecision(events, k);
      if k > 0 && |attempts| > 0 {
        var previous, index := events[k - 1], |attempts| - 1;
        if KindOf(previous.event) == Exec && ToolCallID(previous.event) == "" && attempts[index].lastPos == k - 1
          && ResultMatches(item, attempts[index])
          && DurationAbsolute(Sub(item.event.at, previous.event.at)) <= ADJACENT_PAIR_WINDOW {
          assert WithinWindow(item.event.at, previous.event.at, ADJACENT_PAIR_WINDOW) by {
            WindowIs(item.event.at, previous.event.at);
          }
          Joins(events, index, k, waiting);
          var merged := MergeAttempt(attempts[index], item, k, AdjacentPair);
          attempts := attempts[index := merged];
          joined := true;
        } else {
          assert !WithinWindow(item.event.at, previous.event.at, ADJACENT_PAIR_WINDOW) ||
            !(KindOf(previous.event) == Exec && ToolCallID(previous.event) == "" && attempts[index].lastPos == k - 1
              && ResultMatches(item, attempts[index])) by { WindowIs(item.event.at, previous.event.at); }
        }
      }
    }
  }

  lemma WindowIs(a: int, b: int)
    ensures WithinWindow(a, b, ADJACENT_PAIR_WINDOW) <==> DurationAbsolute(Sub(a, b)) <= ADJACENT_PAIR_WINDOW
  {
  }

  lemma TrustByID(cmds: seq<Command>, i: nat, k: nat)
    requires Paired(cmds, i, k)
    ensures TrustOf(cmds, i, k) == if cmds[k].id != "" then ToolCallPair else AdjacentPair
  {
    hide Once, Session.WithinWindow;
  }

  /** The body of the loop: a result joins its execution's attempt, any other command opens one. */
  method Step(events: seq<Prepared>, counts: map<string, (nat, nat)>, k: nat, before: seq<Attempt>,
              waiting: map<string, nat>)
    returns (attempts: seq<Attempt>, pending: map<string, nat>)
    requires k < |events| && Counted(CommandsOf(events), |events|, counts)
    requires before == AttemptsOf(events, k) && PendingOK(CommandsOf(events), k, waiting)
    ensures attempts == AttemptsOf(events, k + 1) && PendingOK(CommandsOf(events), k + 1, pending)
  {
    hide ToolCallID, AttemptAt, Paired, Opens, MergedAttempt, AttemptsOf, Session.WithinWindow, Counted, Waits,
         PendingOK,
      ExplicitOutcome, NormalizedClass, Occurrences;
    ghost var cmds := CommandsOf(events);
    attempts, pending := before, waiting;
    var item := events[k];
    var kind, id := KindOf(item.event), ToolCallID(item.event);
    if kind == Result {
      var joined;
      attempts, pending, joined := JoinResult(events, counts, k, attempts, pending);
      if joined { return; }
    } else {
      forall i: nat | i < k ensures !Paired(cmds, i, k) { OnlyResultsAnswer(cmds, i, k); }
    }
    FoldOpens(events, k);
    PendingOpens(cmds, k, pending);
    WaitsAtOnce(cmds, k);
    OpensWhen(cmds, k);
    if kind == Other || item.enrichment.signature == "" { return; }
    var attempt := NewAttempt(item, k);
    if id != "" { CountAtEnd(cmds, counts, id); }
    if kind == Result {
      if id != "" && CountOf(counts, id).0 > 0 {
        attempt := attempt.(repetitionEligible := false);
      } else if AdjacentExecWithoutID(CommandsOf(events), k) {
        attempt := attempt.(repetitionEligible := false);
      }
    }
    assert attempt == Opening(events, k);
    attempts := attempts + [attempt];
    if kind == Exec && id != "" && CountOf(counts, id) == (1, 1) {
      pending := pending[id := |attempts| - 1];
    }
  }

  lemma WaitsAtOnce(cmds: seq<Command>, k: nat)
    requires k < |cmds|
    ensures Waits(cmds, k, k + 1) <==>
      cmds[k].kind == Exec && cmds[k].id != "" && cmds[k].signature != "" &&
      (Occurrences(cmds, Exec, cmds[k].id), Occurrences(cmds, Result, cmds[k].id)) == (1, 1)
  {
    hide Occurrences, ResultOf;
    WaitsStep(cmds, k, k);
  }

  lemma OpensWhen(cmds: seq<Command>, k: nat)
    requires k < |cmds| && !Answers(cmds, k)
    ensures Opens(cmds, k) <==> cmds[k].kind != Other && cmds[k].signature != ""
  {
  }
}
