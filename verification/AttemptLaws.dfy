/** The attempts of a session partition its command events. */
module AttemptLaws {
  import opened Text
  import opened Session
  import opened AttemptPairs
  import opened Attempts

  ghost predicate Covers(a: Attempt, j: nat) {
    j == a.firstPos || j == a.lastPos
  }

  /** A single event, or an execution followed by its one result. */
  ghost predicate WellShaped(events: seq<Prepared>, a: Attempt) {
    var cmds := CommandsOf(events);
    && a.firstPos <= a.lastPos < |events|
    && (a.firstPos == a.lastPos ==>
         a.events == [events[a.firstPos]] && (a.trust == ExecObservation || a.trust == UnpairedResult))
    && (a.firstPos < a.lastPos ==>
          && a.events == [events[a.firstPos], events[a.lastPos]]
          && cmds[a.firstPos].kind == Exec && cmds[a.lastPos].kind == Result
          && (a.trust == ToolCallPair ==> ToolPaired(cmds, a.firstPos, a.lastPos))
          && (a.trust == AdjacentPair ==> AdjacentPaired(cmds, a.firstPos, a.lastPos))
          && (a.trust == ToolCallPair || a.trust == AdjacentPair))
    && (a.conflict ==> a.outcome == Unknown)
  }

  lemma AttemptShape(events: seq<Prepared>, i: nat, k: nat)
    requires i < |events| && k <= |events|
    ensures WellShaped(events, AttemptAt(events, i, k)) && AttemptAt(events, i, k).firstPos == i
  {
    hide Session.WithinWindow, Occurrences, NormalizedClass, Lower, TrimSpace, Repeats, ToolCallID;
    var cmds := CommandsOf(events);
    match ResultOf(cmds, i, k) {
      case None =>
      case Some(j) =>
        PairedIDs(cmds, i, j);
        OnlyResultsAnswer(cmds, i, j);
    }
  }

  /** Every attempt is well shaped, and attempts come in the order of their first events. */
  lemma AttemptsShaped(events: seq<Prepared>)
    ensures var all := AttemptsOf(events, |events|);
      && (forall a | 0 <= a < |all| :: WellShaped(events, all[a]))
      && (forall a, b | 0 <= a < b < |all| :: all[a].firstPos < all[b].firstPos)
  {
    hide WellShaped, AttemptAt, CommandsOf;
    var all, openings := AttemptsOf(events, |events|), Openings(CommandsOf(events), |events|);
    forall a | 0 <= a < |all| ensures WellShaped(events, all[a]) && all[a].firstPos == openings[a] {
      AttemptShape(events, openings[a], |events|);
    }
  }

  lemma CoversMeans(events: seq<Prepared>, a: nat, j: nat)
    requires a < |AttemptsOf(events, |events|)|
    ensures var i := Openings(CommandsOf(events), |events|)[a];
      Covers(AttemptsOf(events, |events|)[a], j) <==> j == i || (j < |events| && Paired(CommandsOf(events), i, j))
  {
    hide Paired, CommandsOf, ExplicitOutcome, NormalizedClass, Repeats, ResultOf;
    var cmds := CommandsOf(events);
    var i := Openings(cmds, |events|)[a];
    AttemptSignature(events, i, |events|);
    AttemptShape(events, i, |events|);
    if j < |events| && Paired(cmds, i, j) { ResultOfFinds(cmds, i, j, |events|); }
  }

  /** Two attempts never share an event. */
  lemma AttemptsDisjoint(events: seq<Prepared>, a: nat, b: nat, j: nat)
    requires a < |AttemptsOf(events, |events|)| && b < |AttemptsOf(events, |events|)|
    requires Covers(AttemptsOf(events, |events|)[a], j) && Covers(AttemptsOf(events, |events|)[b], j)
    ensures a == b && j < |events| && CommandsOf(events)[j].kind != Other
  {
    hide Paired, CommandsOf, Covers;
    var cmds := CommandsOf(events);
    var openings := Openings(cmds, |events|);
    var x, y := openings[a], openings[b];
    CoversMeans(events, a, j);
    CoversMeans(events, b, j);
    PairedUnique(cmds, x, y, j);
    OnlyResultsAnswer(cmds, x, j);
    OnlyResultsAnswer(cmds, y, j);
    OpeningAnswersNothing(cmds, x, y);
    OpeningAnswersNothing(cmds, y, x);
  }

  lemma OpeningAnswersNothing(cmds: seq<Command>, i: nat, j: nat)
    requires Opens(cmds, i) && Opens(cmds, j)
    ensures !Paired(cmds, i, j)
  {
    hide Occurrences, Session.WithinWindow;
  }

  /** Every command event with a signature belongs to an attempt. */
  lemma AttemptsCover(events: seq<Prepared>, j: nat) returns (a: nat)
    requires j < |events| && CommandsOf(events)[j].kind != Other && events[j].enrichment.signature != ""
    ensures a < |AttemptsOf(events, |events|)| && Covers(AttemptsOf(events, |events|)[a], j)
  {
    hide Paired, Covers;
    var cmds := CommandsOf(events);
    var i := j;
    if Answers(cmds, j) {
      i :| 0 <= i < j && Paired(cmds, i, j);
      OnlyResultsAnswer(cmds, i, j);
    } else {
      OpensWhen(cmds, j);
    }
    OpeningsComplete(cmds, |events|, i);
    a :| 0 <= a < |Openings(cmds, |events|)| && Openings(cmds, |events|)[a] == i;
    CoversMeans(events, a, j);
  }

  /** Executions and results that belong together always end up in one attempt. */
  lemma PairsJoin(events: seq<Prepared>, i: nat, j: nat) returns (a: nat)
    requires Paired(CommandsOf(events), i, j)
    ensures a < |AttemptsOf(events, |events|)|
    ensures AttemptsOf(events, |events|)[a].firstPos == i && AttemptsOf(events, |events|)[a].lastPos == j
  {
    var cmds := CommandsOf(events);
    OnlyResultsAnswer(cmds, i, j);
    hide Paired, CommandsOf, ExplicitOutcome, NormalizedClass, Repeats;
    OpeningsComplete(cmds, |events|, i);
    a :| 0 <= a < |Openings(cmds, |events|)| && Openings(cmds, |events|)[a] == i;
    ResultOfFinds(cmds, i, j, |events|);
    AttemptSignature(events, i, |events|);
    AttemptShape(events, i, |events|);
  }
}
