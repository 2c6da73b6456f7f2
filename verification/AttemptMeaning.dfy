/** What every attempt says, in terms of the events it is made of, and which events those are. */
module AttemptMeaning {
  import opened Text
  import opened Session
  import opened AttemptPairs
  import opened Attempts
  import opened AttemptLaws

  // ---------------------------------------------------------------- what an attempt says

  /** Some event of the attempt says that the command ended this way. */
  ghost predicate SomeSays(a: Attempt, outcome: Outcome) {
    exists x :: x in a.events && Says(x.event, outcome)
  }

  /** The outcome on which all events that speak agree; a contradiction when they do not. */
  ghost predicate OutcomeAgreed(a: Attempt) {
    && (a.conflict <==> SomeSays(a, Succeeded) && SomeSays(a, Failed))
    && (a.outcome == Succeeded <==> SomeSays(a, Succeeded) && !SomeSays(a, Failed))
    && (a.outcome == Failed <==> SomeSays(a, Failed) && !SomeSays(a, Succeeded))
  }

  const CLASSES := {"test", "build", "typecheck", "lint", "format_check", "other"}

  /** An event that carries a signature gives the command this class. */
  predicate Classed(x: Prepared, c: string) {
    x.enrichment.signature != "" && c in CLASSES && Lower(TrimSpace(x.enrichment.commandClass)) == c
  }

  ghost predicate SomeClass(a: Attempt, c: string) {
    exists x :: x in a.events && Classed(x, c)
  }

  ghost predicate TwoClasses(a: Attempt) {
    exists c, d :: c != d && SomeClass(a, c) && SomeClass(a, d)
  }

  /** The one class that its events give; unknown when none does or two differ. */
  ghost predicate ClassAgreed(a: Attempt) {
    && (a.classConflict <==> TwoClasses(a))
    && (forall c :: a.commandClass == c && c != "unknown" <==> SomeClass(a, c) && !TwoClasses(a))
  }

  /** From the earliest to the latest of its events. */
  ghost predicate Spans(a: Attempt) {
    && (exists x :: x in a.events && x.event.at == a.first) && (exists x :: x in a.events && x.event.at == a.last)
    && forall x | x in a.events :: a.first <= x.event.at <= a.last
  }

  /** An execution without a tool-call ID stands right before it, and passes the five-second test. */
  ghost predicate FollowsPlainExec(events: seq<Prepared>, j: nat)
    requires j < |events|
  {
    && j > 0 && events[j - 1].event.kind == "command.exec" && ToolCallID(events[j - 1].event) == ""
    && Soon(events[j - 1].event.at, events[j].event.at)
  }

  /** At most five seconds apart, or 2^63 ns and more before. */
  predicate Soon(exec: int, result: int) {
    Distance(result, exec) <= 5 * SECOND || result - exec <= MIN_DURATION
  }

  ghost predicate ExecWithID(events: seq<Prepared>, id: string) {
    exists i | 0 <= i < |events| :: events[i].event.kind == "command.exec" && ToolCallID(events[i].event) == id
  }

  /** A result counts as a repetition of its command unless an execution it could belong to is in sight. */
  ghost predicate EligibleWhen(events: seq<Prepared>, a: Attempt)
    requires a.firstPos < |events|
  {
    var e := events[a.firstPos].event;
    a.repetitionEligible <==>
      e.kind == "command.exec" ||
      ((ToolCallID(e) == "" || !ExecWithID(events, ToolCallID(e))) && !FollowsPlainExec(events, a.firstPos))
  }

  /** How far an attempt is to be trusted, by what it is made of. */
  ghost predicate TrustedAs(events: seq<Prepared>, a: Attempt)
    requires a.firstPos <= a.lastPos < |events|
  {
    && (a.trust == ExecObservation <==> a.firstPos == a.lastPos && events[a.firstPos].event.kind == "command.exec")
    && (a.trust == UnpairedResult <==> a.firstPos == a.lastPos && events[a.firstPos].event.kind == "command.result")
    && (a.trust == ToolCallPair <==> a.firstPos < a.lastPos && ToolCallID(events[a.firstPos].event) != "")
    && (a.trust == AdjacentPair <==> a.firstPos < a.lastPos && ToolCallID(events[a.firstPos].event) == "")
  }

  ghost predicate MadeOf(events: seq<Prepared>, a: Attempt) {
    && a.firstPos <= a.lastPos < |events|
    && a.events == (if a.firstPos == a.lastPos then [events[a.firstPos]] else [events[a.firstPos], events[a.lastPos]])
    && a.signature == events[a.firstPos].enrichment.signature && a.signature != ""
    && TrustedAs(events, a)
  }

  // ---------------------------------------------------------------- one event, and two

  lemma NormalizedClassIs(x: Prepared)
    ensures var c := NormalizedClass(x.enrichment.commandClass);
      && (c != "unknown" <==> c in CLASSES) &&
           (c in CLASSES <==> Lower(TrimSpace(x.enrichment.commandClass)) in CLASSES)
      && (c in CLASSES ==> c == Lower(TrimSpace(x.enrichment.commandClass)))
  {
    UnknownIsNone();
    hide TrimSpace, Lower;
  }

  lemma KindIs(e: Event)
    ensures KindOf(e) == Exec <==> e.kind == "command.exec"
    ensures KindOf(e) == Result <==> e.kind == "command.result"
  {
  }

  /** The class of an event with a signature. */
  lemma ClassedWhen(x: Prepared, c: string)
    requires x.enrichment.signature != ""
    ensures Classed(x, c) <==> c != "unknown" && NormalizedClass(x.enrichment.commandClass) == c
  {
    NormalizedClassIs(x);
    hide TrimSpace, Lower, NormalizedClass;
    UnknownIsNone();
  }

  lemma UnknownIsNone()
    ensures "unknown" !in CLASSES
  {
    assert "unknown"[0] == 'u' && "test"[0] == 't' && "build"[0] == 'b' && "typecheck"[0] == 't' && "lint"[0] == 'l';
    assert "format_check"[0] == 'f' && "other"[0] == 'o';
  }

  lemma OpeningMeans(events: seq<Prepared>, i: nat)
    requires i < |events| && events[i].enrichment.signature != ""
    ensures var a := Opening(events, i);
      && a.events == [events[i]] && OutcomeAgreed(a) && ClassAgreed(a) && Spans(a)
      && a.commandClass == OwnClass(events[i]) && !a.classConflict
  {
    hide ExplicitOutcome, NormalizedClass, Says, Repeats, Classed, CommandsOf;
    var a, x := Opening(events, i), events[i];
    OneSays(a, x);
    assert x in a.events && forall y | y in a.events :: y == x;
    forall c ensures Classed(x, c) <==> c != "unknown" && OwnClass(x) == c { OwnClassIs(x, c); }
    hide SomeClass, SomeSays;
    ClassesJoined(a, OwnClass(x), OwnClass(x));
  }

  lemma TwoEvents(a: Attempt, x: Prepared, y: Prepared)
    requires a.events == [x, y]
    ensures forall o :: SomeSays(a, o) <==> Says(x.event, o) || Says(y.event, o)
    ensures forall c :: SomeClass(a, c) <==> Classed(x, c) || Classed(y, c)
  {
    hide Says, Classed;
    assert x in a.events && y in a.events && forall z | z in a.events :: z == x || z == y;
  }

  lemma JoinedOutcomeAgreed(before: Attempt, y: Prepared, a: Attempt, x: Prepared)
    requires before.events == [x] && OutcomeAgreed(before) && a.events == [x, y]
    requires (a.outcome, a.conflict) == JoinedOutcome(before, y.event)
    ensures OutcomeAgreed(a)
  {
    TwoEvents(a, x, y);
    OneSays(before, x);
    hide Says, SomeSays, ExplicitOutcome;
  }

  lemma OneSays(a: Attempt, x: Prepared)
    requires a.events == [x]
    ensures forall o :: SomeSays(a, o) <==> Says(x.event, o)
    ensures forall c :: SomeClass(a, c) <==> Classed(x, c)
  {
    hide Says, Classed;
    assert x in a.events && forall z | z in a.events :: z == x;
  }

  /** Two classes, either of which may be unknown, joined. */
  lemma ClassesJoined(a: Attempt, u: string, v: string)
    requires forall c :: SomeClass(a, c) <==> c != "unknown" && (c == u || c == v)
    requires (a.commandClass, a.classConflict) ==
      if u == "unknown" then (v, false) else if v != "unknown" && v != u then ("unknown", true) else (u, false)
    ensures ClassAgreed(a)
  {
    hide SomeClass;
    if u != "unknown" && v != "unknown" && u != v { assert SomeClass(a, u) && SomeClass(a, v); }
  }

  /** The class that an event counts with: none without a signature. */
  function OwnClass(x: Prepared): string {
    if x.enrichment.signature == "" then "unknown" else NormalizedClass(x.enrichment.commandClass)
  }

  lemma OwnClassIs(x: Prepared, c: string)
    ensures Classed(x, c) <==> c != "unknown" && OwnClass(x) == c
  {
    if x.enrichment.signature != "" { ClassedWhen(x, c); }
    hide TrimSpace, Lower, NormalizedClass;
  }

  lemma JoinedClassAgreed(before: Attempt, y: Prepared, a: Attempt, x: Prepared)
    requires before.commandClass == OwnClass(x) && !before.classConflict && a.events == [x, y]
    requires (a.commandClass, a.classConflict) == JoinedClass(before, y)
    ensures ClassAgreed(a)
  {
    TwoEvents(a, x, y);
    hide SomeClass, NormalizedClass, TrimSpace, Lower, Classed;
    forall c ensures SomeClass(a, c) <==> c != "unknown" && (c == OwnClass(x) || c == OwnClass(y)) {
      OwnClassIs(x, c);
      OwnClassIs(y, c);
    }
    ClassesJoined(a, OwnClass(x), OwnClass(y));
  }

  lemma JoinedSpans(before: Attempt, y: Prepared, a: Attempt, x: Prepared)
    requires before.events == [x] && before.first == x.event.at == before.last && a.events == [x, y]
    requires a.first == (if y.event.at < before.first then y.event.at else before.first)
    requires a.last == if y.event.at > before.last then y.event.at else before.last
    ensures Spans(a)
  {
    assert x in a.events && y in a.events && forall z | z in a.events :: z == x || z == y;
  }

  lemma JoinedMeans(events: seq<Prepared>, i: nat, j: nat, trust: Trust)
    requires i < |events| && j < |events| && events[i].enrichment.signature != ""
    ensures var a := MergedAttempt(Opening(events, i), events[j], j, trust);
      OutcomeAgreed(a) && ClassAgreed(a) && Spans(a)
  {
    var before := Opening(events, i);
    var a := MergedAttempt(before, events[j], j, trust);
    OpeningMeans(events, i);
    hide ExplicitOutcome, NormalizedClass, Repeats, CommandsOf, OutcomeAgreed, ClassAgreed, Spans, JoinedOutcome,
         JoinedClass;
    assert a.events == [events[i], events[j]];
    JoinedOutcomeAgreed(before, events[j], a, events[i]);
    JoinedClassAgreed(before, events[j], a, events[i]);
    JoinedSpans(before, events[j], a, events[i]);
  }

  // ---------------------------------------------------------------- every attempt

  lemma {:induction false} OccursWhen(cmds: seq<Command>, kind: Kind, id: string)
    ensures Occurrences(cmds, kind, id) > 0 <==> exists i :: 0 <= i < |cmds| && cmds[i].kind == kind && cmds[i].id == id
  {
    if cmds != [] {
      var n := |cmds| - 1;
      OccursWhen(cmds[..n], kind, id);
      assert forall i | 0 <= i < n :: cmds[..n][i] == cmds[i];
    }
  }

  lemma RepeatsWhen(events: seq<Prepared>, j: nat)
    requires j < |events| && KindOf(events[j].event) != Other
    ensures Repeats(CommandsOf(events), j) <==>
      events[j].event.kind == "command.exec" ||
      ((ToolCallID(events[j].event) == "" || !ExecWithID(events, ToolCallID(events[j].event))) &&
       !FollowsPlainExec(events, j))
  {
    var cmds, id := CommandsOf(events), ToolCallID(events[j].event);
    OccursWhen(cmds, Exec, id);
    forall i | 0 <= i < |events| ensures cmds[i].kind == Exec <==> events[i].event.kind == "command.exec" {
      KindIs(events[i].event);
    }
    if j > 0 { WithinWindowExact(events[j].event.at, events[j - 1].event.at, ADJACENT_PAIR_WINDOW); }
    hide KindOf, ToolCallID, Occurrences, Session.WithinWindow;
    if ExecWithID(events, id) {
      var i :| 0 <= i < |events| && events[i].event.kind == "command.exec" && ToolCallID(events[i].event) == id;
      assert cmds[i].kind == Exec && cmds[i].id == id;
    }
  }

  lemma AttemptMade(events: seq<Prepared>, i: nat, k: nat)
    requires i < |events| && k <= |events| && Opens(CommandsOf(events), i)
    ensures var a := AttemptAt(events, i, k); MadeOf(events, a) && EligibleWhen(events, a)
  {
    var cmds, a := CommandsOf(events), AttemptAt(events, i, k);
    AttemptShape(events, i, k);
    AttemptSignature(events, i, k);
    RepeatsWhen(events, i);
    KindIs(events[i].event);
    AttemptTrust(events, i, k);
    hide AttemptAt, Repeats, ToolCallID, Occurrences, Session.WithinWindow, KindOf, ExecWithID, FollowsPlainExec;
  }

  lemma AttemptTrust(events: seq<Prepared>, i: nat, k: nat)
    requires i < |events| && k <= |events| && Opens(CommandsOf(events), i)
    ensures AttemptAt(events, i, k).repetitionEligible == Repeats(CommandsOf(events), i)
    ensures AttemptAt(events, i, k).trust ==
      match ResultOf(CommandsOf(events), i, k)
      case None => if KindOf(events[i].event) == Exec then ExecObservation else UnpairedResult
      case Some(j) => if ToolCallID(events[i].event) != "" then ToolCallPair else AdjacentPair
  {
    var cmds := CommandsOf(events);
    if ResultOf(cmds, i, k).Some? {
      TrustByID(cmds, i, ResultOf(cmds, i, k).value);
      PairedIDs(cmds, i, ResultOf(cmds, i, k).value);
    }
    hide Repeats, ToolCallID, Paired, KindOf, ExplicitOutcome, NormalizedClass, JoinedOutcome, JoinedClass, TrustOf;
  }

  lemma AttemptSays(events: seq<Prepared>, i: nat, k: nat)
    requires i < |events| && k <= |events| && Opens(CommandsOf(events), i)
    ensures var a := AttemptAt(events, i, k); OutcomeAgreed(a) && ClassAgreed(a) && Spans(a)
  {
    var cmds := CommandsOf(events);
    OpeningSays(events, i);
    hide Paired, Opening, MergedAttempt, OutcomeAgreed, ClassAgreed, Spans, TrustOf, Opens;
    if ResultOf(cmds, i, k).Some? {
      var j := ResultOf(cmds, i, k).value;
      JoinedMeans(events, i, j, TrustOf(cmds, i, j));
    }
  }

  lemma OpeningSays(events: seq<Prepared>, i: nat)
    requires i < |events| && Opens(CommandsOf(events), i)
    ensures events[i].enrichment.signature != ""
    ensures var a := Opening(events, i); OutcomeAgreed(a) && ClassAgreed(a) && Spans(a)
  {
    assert events[i].enrichment.signature != "" by { hide Answers; }
    OpeningMeans(events, i);
  }

  /** Every attempt of a session: what it is made of, the outcome and the class on which its events agree,
      its extent, its trust, and whether it counts as a repetition. */
  lemma AttemptsMean(events: seq<Prepared>, n: nat)
    requires n < |AttemptsOf(events, |events|)|
    ensures var a := AttemptsOf(events, |events|)[n];
      OutcomeAgreed(a) && ClassAgreed(a) && Spans(a) && MadeOf(events, a) && EligibleWhen(events, a)
  {
    hide AttemptAt, OutcomeAgreed, ClassAgreed, Spans, MadeOf, EligibleWhen, Opens, CommandsOf;
    AttemptSays(events, Openings(CommandsOf(events), |events|)[n], |events|);
    AttemptMade(events, Openings(CommandsOf(events), |events|)[n], |events|);
  }

  // ---------------------------------------------------------------- which events it joins

  /** Execution i and result j belong together: by a tool-call ID that no other execution and no other
      result carries, or, neither having one, by standing next to each other in time. */
  ghost predicate Belongs(events: seq<Prepared>, i: nat, j: nat) {
    && i < j < |events| && events[i].event.kind == "command.exec" && events[j].event.kind == "command.result"
    && var x, y := events[i], events[j];
       && x.enrichment.signature != "" && y.enrichment.signature in {"", x.enrichment.signature}
       && ToolCallID(x.event) == ToolCallID(y.event)
       && if ToolCallID(x.event) == "" then j == i + 1 && Soon(x.event.at, y.event.at)
          else OnlyOne(events, "command.exec", i) && OnlyOne(events, "command.result", j)
  }

  /** No other event of the kind carries the tool-call ID of event i. */
  ghost predicate OnlyOne(events: seq<Prepared>, kind: string, i: nat)
    requires i < |events|
  {
    forall k | 0 <= k < |events| ::
      events[k].event.kind == kind && ToolCallID(events[k].event) == ToolCallID(events[i].event) ==> k == i
  }

  lemma {:induction false} OnceWhen(cmds: seq<Command>, kind: Kind, id: string, i: nat)
    requires i < |cmds| && cmds[i].kind == kind && cmds[i].id == id
    ensures Occurrences(cmds, kind, id) == 1 <==>
      forall k | 0 <= k < |cmds| && cmds[k].kind == kind && cmds[k].id == id :: k == i
  {
    OccursAt(cmds, kind, id, i);
    var n := |cmds| - 1;
    if k :| 0 <= k < |cmds| && cmds[k].kind == kind && cmds[k].id == id && k != i {
      OccursOnce(cmds, kind, id, if i < k then i else k, if i < k then k else i);
    } else if i < n {
      OnceWhen(cmds[..n], kind, id, i);
    } else {
      OccursWhen(cmds[..n], kind, id);
    }
  }

  lemma KindsAre(events: seq<Prepared>)
    ensures var cmds := CommandsOf(events);
      forall k | 0 <= k < |events| ::
        && cmds[k].id == ToolCallID(events[k].event) && cmds[k].signature == events[k].enrichment.signature
        && cmds[k].at == events[k].event.at
        && (cmds[k].kind == Exec <==> events[k].event.kind == "command.exec")
        && (cmds[k].kind == Result <==> events[k].event.kind == "command.result")
  {
    forall k | 0 <= k < |events| { KindIs(events[k].event); }
    hide KindOf, ToolCallID;
  }

  lemma PairedWhen(events: seq<Prepared>, i: nat, j: nat)
    ensures Paired(CommandsOf(events), i, j) <==> Belongs(events, i, j)
  {
    var cmds := CommandsOf(events);
    KindsAre(events);
    if i < j < |events| {
      WithinWindowExact(cmds[j].at, cmds[i].at, ADJACENT_PAIR_WINDOW);
      if cmds[i].kind == Exec { OnceWhen(cmds, Exec, cmds[i].id, i); }
      if cmds[j].kind == Result { OnceWhen(cmds, Result, cmds[j].id, j); }
    }
    hide CommandsOf, Occurrences, Session.WithinWindow, ToolCallID;
  }

  ghost predicate JoinedIn(all: seq<Attempt>, i: nat, j: nat) {
    exists n :: 0 <= n < |all| && all[n].firstPos == i && all[n].lastPos == j
  }

  /** An execution and a result are in one attempt if and only if they belong together. */
  lemma JoinsWhatBelongs(events: seq<Prepared>, i: nat, j: nat)
    requires i < j
    ensures JoinedIn(AttemptsOf(events, |events|), i, j) <==> Belongs(events, i, j)
  {
    hide Belongs, Paired, AttemptAt;
    var all := AttemptsOf(events, |events|);
    PairedWhen(events, i, j);
    if Paired(CommandsOf(events), i, j) {
      var n := PairsJoin(events, i, j);
      assert JoinedIn(all, i, j);
    }
    if JoinedIn(all, i, j) {
      var n :| 0 <= n < |all| && all[n].firstPos == i && all[n].lastPos == j;
      AttemptsShaped(events);
      assert WellShaped(events, all[n]);
      assert Paired(CommandsOf(events), i, j) by { ShapedPair(events, all[n]); }
    }
  }

  lemma ShapedPair(events: seq<Prepared>, a: Attempt)
    requires WellShaped(events, a) && a.firstPos < a.lastPos
    ensures Paired(CommandsOf(events), a.firstPos, a.lastPos)
  {
    hide ToolPaired, AdjacentPaired, CommandsOf;
  }
}
