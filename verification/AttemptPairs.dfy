/** Which command result belongs to which command execution. */
module AttemptPairs {
  import opened Text
  import opened Session

  const ADJACENT_PAIR_WINDOW := 5 * SECOND

  datatype Kind = Exec | Result | Other

  /** What pairing looks at in an event: its kind, tool-call ID, command signature and time. */
  datatype Command = Command(kind: Kind, id: string, signature: string, at: int)

  /** How often an event of one kind carries a tool-call ID. */
  function Occurrences(cmds: seq<Command>, kind: Kind, id: string): nat {
    if cmds == [] then 0
    else
      var last := cmds[|cmds| - 1];
      Occurrences(cmds[..|cmds| - 1], kind, id) + if last.kind == kind && last.id == id then 1 else 0
  }

  predicate Once(cmds: seq<Command>, id: string) {
    Occurrences(cmds, Exec, id) == 1 && Occurrences(cmds, Result, id) == 1
  }

  /** The result carries no signature or that of the execution, which has one. */
  predicate SameCommand(exec: Command, result: Command) {
    exec.signature != "" && (result.signature == "" || result.signature == exec.signature)
  }

  /** Paired by a tool-call ID that names exactly one execution and one result of the session. */
  predicate ToolPaired(cmds: seq<Command>, i: nat, j: nat) {
    && i < j < |cmds| && cmds[i].kind == Exec && cmds[j].kind == Result
    && cmds[i].id != "" && cmds[i].id == cmds[j].id && Once(cmds, cmds[i].id)
    && SameCommand(cmds[i], cmds[j])
  }

  /** Paired by standing next to each other, without tool-call IDs, within the five-second window test
      (which also accepts a result 2^63 ns or more before the execution). */
  predicate AdjacentPaired(cmds: seq<Command>, i: nat, j: nat) {
    && j == i + 1 && j < |cmds| && cmds[i].kind == Exec && cmds[j].kind == Result
    && cmds[i].id == "" && cmds[j].id == ""
    && SameCommand(cmds[i], cmds[j]) && WithinWindow(cmds[j].at, cmds[i].at, ADJACENT_PAIR_WINDOW)
  }

  predicate Paired(cmds: seq<Command>, i: nat, j: nat) {
    ToolPaired(cmds, i, j) || AdjacentPaired(cmds, i, j)
  }

  lemma {:induction false} OccursAt(cmds: seq<Command>, kind: Kind, id: string, i: nat)
    requires i < |cmds| && cmds[i].kind == kind && cmds[i].id == id
    ensures Occurrences(cmds, kind, id) >= 1
  {
    var n := |cmds| - 1;
    if i < n { OccursAt(cmds[..n], kind, id, i); }
  }

  lemma {:induction false} OccursOnce(cmds: seq<Command>, kind: Kind, id: string, i: nat, j: nat)
    requires i < j < |cmds| && cmds[i].kind == kind && cmds[i].id == id
    requires cmds[j].kind == kind && cmds[j].id == id
    ensures Occurrences(cmds, kind, id) >= 2
  {
    var n := |cmds| - 1;
    if j < n { OccursOnce(cmds[..n], kind, id, i, j); }
    else { OccursAt(cmds[..n], kind, id, i); }
  }

  /** A result has at most one execution and an execution at most one result. */
  lemma PairedUnique(cmds: seq<Command>, i: nat, j: nat, k: nat)
    ensures Paired(cmds, i, j) && Paired(cmds, i, k) ==> j == k
    ensures Paired(cmds, i, k) && Paired(cmds, j, k) ==> i == j
  {
    hide Session.WithinWindow, Occurrences;
    if ToolPaired(cmds, i, j) && ToolPaired(cmds, i, k) && j != k {
      OccursOnce(cmds, Result, cmds[i].id, if j < k then j else k, if j < k then k else j);
    }
    if ToolPaired(cmds, i, k) && ToolPaired(cmds, j, k) && i != j {
      OccursOnce(cmds, Exec, cmds[k].id, if i < j then i else j, if i < j then j else i);
    }
  }

  /** The result of i among the first k events. */
  function ResultOf(cmds: seq<Command>, i: nat, k: nat): (r: Option<nat>)
    ensures r.Some? ==> r.value < k && Paired(cmds, i, r.value)
  {
    if k == 0 then None
    else if Paired(cmds, i, k - 1) then Some(k - 1)
    else ResultOf(cmds, i, k - 1)
  }

  lemma {:induction false} ResultOfFinds(cmds: seq<Command>, i: nat, j: nat, k: nat)
    requires Paired(cmds, i, j) && j < k
    ensures ResultOf(cmds, i, k) == Some(j)
  {
    hide Paired;
    if j < k - 1 {
      ResultOfFinds(cmds, i, j, k - 1);
    }
    PairedUnique(cmds, i, j, k - 1);
  }

  /** Some execution among the first k events has j as its result. */
  predicate Answers(cmds: seq<Command>, j: nat) {
    exists i | 0 <= i < j :: Paired(cmds, i, j)
  }

  /** An event opens an attempt when it has a signature and answers no execution. */
  predicate Opens(cmds: seq<Command>, i: nat) {
    i < |cmds| && cmds[i].kind != Other && cmds[i].signature != "" && !Answers(cmds, i)
  }

  /** The opening positions among the first k. */
  function Openings(cmds: seq<Command>, k: nat): (r: seq<nat>)
    requires k <= |cmds|
    ensures forall a | 0 <= a < |r| :: r[a] < k && Opens(cmds, r[a])
    ensures forall a, b | 0 <= a < b < |r| :: r[a] < r[b]
  {
    if k == 0 then []
    else
      var r := Openings(cmds, k - 1);
      if Opens(cmds, k - 1) then r + [k - 1] else r
  }

  lemma {:induction false} OpeningsComplete(cmds: seq<Command>, k: nat, i: nat)
    requires i < k <= |cmds| && Opens(cmds, i)
    ensures exists a | 0 <= a < |Openings(cmds, k)| :: Openings(cmds, k)[a] == i
  {
    hide Opens;
    if i < k - 1 {
      OpeningsComplete(cmds, k - 1, i);
      var a :| 0 <= a < |Openings(cmds, k - 1)| && Openings(cmds, k - 1)[a] == i;
      assert Openings(cmds, k)[a] == i;
    } else {
      var a := |Openings(cmds, k - 1)|;
      assert Openings(cmds, k)[a] == i;
    }
  }

  // ---------------------------------------------------------------- what the loop's tests decide

  /** The executions waiting for a result when the loop stands at k. */
  predicate Waits(cmds: seq<Command>, i: nat, k: nat) {
    && i < k <= |cmds| && cmds[i].kind == Exec && cmds[i].id != "" && cmds[i].signature != ""
    && Once(cmds, cmds[i].id) && ResultOf(cmds, i, k) == None
  }

  lemma ExecOpens(cmds: seq<Command>, i: nat)
    requires i < |cmds| && cmds[i].kind == Exec && cmds[i].signature != ""
    ensures Opens(cmds, i)
  {
    hide Session.WithinWindow, Occurrences;
  }

  /** A result with a tool-call ID answers exactly the waiting execution with that ID. */
  lemma ToolResultAnswers(cmds: seq<Command>, k: nat, i: nat)
    requires k < |cmds| && cmds[k].kind == Result && cmds[k].id != ""
    ensures Paired(cmds, i, k) <==> Waits(cmds, i, k) && cmds[i].id == cmds[k].id && SameCommand(cmds[i], cmds[k])
  {
    hide Session.WithinWindow, Occurrences;
    if Paired(cmds, i, k) && ResultOf(cmds, i, k).Some? {
      PairedUnique(cmds, i, ResultOf(cmds, i, k).value, k);
    }
  }

  /** At most one execution with a given ID waits. */
  lemma WaitsUnique(cmds: seq<Command>, i: nat, j: nat, k: nat)
    requires Waits(cmds, i, k) && Waits(cmds, j, k) && cmds[i].id == cmds[j].id
    ensures i == j
  {
    hide ResultOf, Occurrences;
    if i < j { OccursOnce(cmds, Exec, cmds[i].id, i, j); }
    if j < i { OccursOnce(cmds, Exec, cmds[i].id, j, i); }
  }

  /** A result without a tool-call ID can only answer the event just before it. */
  lemma PlainResultAnswers(cmds: seq<Command>, k: nat, i: nat)
    requires k < |cmds| && cmds[k].kind == Result && cmds[k].id == ""
    ensures Paired(cmds, i, k) <==> AdjacentPaired(cmds, i, k)
  {
    hide Session.WithinWindow, Occurrences;
  }

  lemma OnlyResultsAnswer(cmds: seq<Command>, i: nat, k: nat)
    ensures Paired(cmds, i, k) ==> i < k < |cmds| && cmds[i].kind == Exec && cmds[k].kind == Result && Opens(cmds, i)
  {
    hide Session.WithinWindow, Occurrences;
  }

  lemma {:induction false} NoEarlyResult(cmds: seq<Command>, i: nat, k: nat)
    requires k <= i + 1
    ensures ResultOf(cmds, i, k) == None
  {
    hide Session.WithinWindow, Occurrences;
    if k > 0 { NoEarlyResult(cmds, i, k - 1); }
  }

  /** Reading one more event changes who waits only for that event and the execution it answers. */
  lemma WaitsStep(cmds: seq<Command>, i: nat, k: nat)
    requires k < |cmds|
    ensures i < k ==> (Waits(cmds, i, k + 1) <==> Waits(cmds, i, k) && !Paired(cmds, i, k))
    ensures Waits(cmds, k, k + 1) <==>
      cmds[k].kind == Exec && cmds[k].id != "" && cmds[k].signature != "" && Once(cmds, cmds[k].id)
  {
    hide Paired, Once;
    NoEarlyResult(cmds, k, k + 1);
  }

  lemma AnswerOpensNothing(cmds: seq<Command>, k: nat)
    requires k < |cmds| && Answers(cmds, k)
    ensures !Opens(cmds, k) && Openings(cmds, k + 1) == Openings(cmds, k)
  {
  }

  lemma PairedIDs(cmds: seq<Command>, i: nat, k: nat)
    requires Paired(cmds, i, k)
    ensures i < k < |cmds| && cmds[i].id == cmds[k].id && cmds[k].kind == Result
  {
    hide Session.WithinWindow, Once;
  }

  lemma OccurrencesStep(cmds: seq<Command>, k: nat, kind: Kind, id: string)
    requires k < |cmds|
    ensures Occurrences(cmds[..k + 1], kind, id) ==
      Occurrences(cmds[..k], kind, id) + if cmds[k].kind == kind && cmds[k].id == id then 1 else 0
  {
    assert cmds[..k + 1][..k] == cmds[..k];
  }
}
