/** A catalog run over the slot protocol: what the answers of its calls say about its result. */
module CatalogRun {
  import opened Text
  import Catalog
  import CatalogMeaning
  import opened SlotProtocol

  const PANIC := "detector_panic"

  /** The result of an evaluation; None stands for an absence capability that is none of the three. */
  datatype Output = Output(matches: seq<Catalog.Match>, absence: Option<Catalog.Absence>, reason: string)

  /** What runDetector returns once its caller has stopped waiting. */
  function Returned(caller: Caller, outputs: nat -> Output): Catalog.Response
    requires caller != Waiting
  {
    match caller
    case GaveUp(code) => Catalog.Broken(code)
    case Answered(response) =>
      match response
      case Panic => Catalog.Broken(PANIC)
      case Error(code) => Catalog.Broken(code)
      case Result(content) =>
        var output := outputs(content);
        if output.absence == None then Catalog.Broken(Catalog.INVALID_OUTPUT)
        else Catalog.Completed(output.matches, output.absence.value, output.reason)
  }

  /** In state s the run has called each detector once, detector i by `called[i]`, and has its answers. */
  ghost predicate Answers(s: State, called: seq<nat>, outputs: nat -> Output, responses: seq<Catalog.Response>) {
    && |responses| == |called|
    && forall i | 0 <= i < |called| ::
         && called[i] < |s.calls| && s.calls[called[i]].slot == i && s.calls[called[i]].caller != Waiting
         && responses[i] == Returned(s.calls[called[i]].caller, outputs)
  }

  // ---------------------------------------------------------------- the history of one call

  lemma {:induction false} CallersPersist(states: seq<State>, steps: seq<Step>, j: nat, k: nat, c: nat)
    requires Run(states, steps) && j <= k < |states| && c < |states[j].calls| && states[j].calls[c].caller != Waiting
    ensures c < |states[k].calls| && states[k].calls[c].caller == states[j].calls[c].caller
    decreases k
  {
    if j < k {
      CallersPersist(states, steps, j, k - 1, c);
      assert Enabled(states[k - 1], steps[k - 1]) && states[k] == Next(states[k - 1], steps[k - 1]);
    }
  }

  /** Step j made call c, on slot i. */
  ghost predicate StartedAt(states: seq<State>, steps: seq<Step>, j: nat, c: nat, i: nat) {
    && j < |steps| && j < |states| && steps[j].Start? && steps[j].slot == i && |states[j].calls| == c
    && i < |states[j].running|
  }

  ghost predicate FoundFree(states: seq<State>, steps: seq<Step>, j: nat, c: nat, i: nat) {
    StartedAt(states, steps, j, c, i) && !states[j].running[i]
  }

  /** An evaluation of call c that found slot i free and ended with this response, both before state k. */
  ghost predicate Evaluated(states: seq<State>, steps: seq<Step>, k: nat, c: nat, i: nat, response: Response) {
    && (exists j: nat | j < k :: FoundFree(states, steps, j, c, i))
    && exists l: nat | l < k && l < |steps| :: steps[l] == EvaluationEnds(c, response)
  }

  lemma {:induction false} StartedFree(states: seq<State>, steps: seq<Step>, k: nat, c: nat)
    requires Run(states, steps) && k < |states| && c < |states[k].calls| && states[k].calls[c].goroutine != NeverStarted
    ensures exists j: nat | j < k :: FoundFree(states, steps, j, c, states[k].calls[c].slot)
  {
    assert Enabled(states[k - 1], steps[k - 1]) && states[k] == Next(states[k - 1], steps[k - 1]);
    if c < |states[k - 1].calls| {
      StartedFree(states, steps, k - 1, c);
    } else {
      assert FoundFree(states, steps, k - 1, c, states[k].calls[c].slot);
    }
  }

  lemma {:induction false} ResponseHasStep(states: seq<State>, steps: seq<Step>, k: nat, c: nat)
    requires Run(states, steps) && k < |states| && c < |states[k].calls| && OwnResponse(states[k].calls[c]).Some?
    ensures exists l: nat | l < k && l < |steps| ::
      steps[l] == EvaluationEnds(c, OwnResponse(states[k].calls[c]).value)
  {
    assert Enabled(states[k - 1], steps[k - 1]) && states[k] == Next(states[k - 1], steps[k - 1]);
    if c < |states[k - 1].calls| && OwnResponse(states[k - 1].calls[c]).Some? {
      ResponseHasStep(states, steps, k - 1, c);
      CallsPersist(states, steps, k - 1, k, c);
    } else {
      assert steps[k - 1] == EvaluationEnds(c, OwnResponse(states[k].calls[c]).value);
    }
  }

  // ---------------------------------------------------------------- why a detector fails

  /** The evaluation came back, but with an unknown absence or a match that is not well formed. */
  predicate BadOutput(slot: Catalog.Slot, output: Output) {
    output.absence == None || exists m | m in output.matches :: !CatalogMeaning.WellFormed(slot, m)
  }

  /** The one way a call fails with this code: its caller gave up with it, its evaluation ended with it, or
      it panicked, or its output was bad. */
  predicate FailedWith(slot: Catalog.Slot, caller: Caller, outputs: nat -> Output, code: string) {
    || caller == GaveUp(code) || caller == Answered(Error(code))
    || (caller == Answered(Panic) && code == "detector_panic")
    || (caller.Answered? && caller.response.Result? && BadOutput(slot, outputs(caller.response.content)) &&
        code == "detector_invalid_output")
  }

  /** A call leaves a failure exactly when it failed, with the code of that. */
  lemma FailsExactly(slot: Catalog.Slot, caller: Caller, outputs: nat -> Output, f: Catalog.Failure)
    requires caller != Waiting
    ensures CatalogMeaning.Charges(slot, Returned(caller, outputs), f) <==>
      f.detector == slot.id && FailedWith(slot, caller, outputs, f.code)
  {
    hide CatalogMeaning.WellFormed;
  }

  // ---------------------------------------------------------------- what a result says about the slots

  /** A detector found busy fails with the code of its caller, and the run is not current. */
  lemma BusyIsNotCurrent(states: seq<State>, steps: seq<Step>, k: nat, j: nat, i: nat, called: seq<nat>,
                         outputs: nat -> Output, slots: seq<Catalog.Slot>, responses: seq<Catalog.Response>,
                         r: Catalog.CatalogResult)
    requires Run(states, steps) && k < |states| && Answers(states[k], called, outputs, responses)
    requires |slots| == |responses| && i < |called| && j < k && StartedAt(states, steps, j, called[i], i)
    requires states[j].running[i] && Catalog.Aggregates(Catalog.Prepared, slots, responses, r)
    ensures responses[i] == Catalog.Broken(steps[j].busyCode) && r.status != Catalog.Current && r.matches == []
    ensures r.status == Catalog.Failed ==>
      i < |r.rows| && r.rows[i] == Catalog.Row(slots[i], Catalog.Incomplete, steps[j].busyCode)
  {
    assert Enabled(states[j], steps[j]) && states[j + 1] == Next(states[j], steps[j]);
    CallersPersist(states, steps, j + 1, k, called[i]);
    Catalog.NoFailures(slots, responses, |slots|);
  }

  /** A current result is made of this run's own evaluations alone: every detector found its slot free,
      was evaluated, and completed with what is collected. */
  lemma CurrentIsOwn(states: seq<State>, steps: seq<Step>, k: nat, i: nat, called: seq<nat>, outputs: nat -> Output,
                     slots: seq<Catalog.Slot>, responses: seq<Catalog.Response>, r: Catalog.CatalogResult)
    returns (content: nat)
    requires Run(states, steps) && k < |states| && Answers(states[k], called, outputs, responses)
    requires |slots| == |responses| && i < |called| && Catalog.Aggregates(Catalog.Prepared, slots, responses, r)
    requires r.status == Catalog.Current
    ensures Evaluated(states, steps, k, called[i], i, Result(content)) && outputs(content).absence.Some?
    ensures responses[i] ==
      Catalog.Completed(outputs(content).matches, outputs(content).absence.value, outputs(content).reason)
  {
    CurrentCompletes(slots, responses, r, i);
    content := AnsweredResult(states[k].calls[called[i]].caller, outputs);
    AnswerHasHistory(states, steps, k, called[i], Result(content));
  }

  lemma CurrentCompletes(slots: seq<Catalog.Slot>, responses: seq<Catalog.Response>, r: Catalog.CatalogResult, i: nat)
    requires |slots| == |responses| && i < |slots| && Catalog.Aggregates(Catalog.Prepared, slots, responses, r)
    requires r.status == Catalog.Current
    ensures responses[i].Completed?
  {
    hide Catalog.ValidPrefix, Catalog.DistinctKeys, Catalog.Collected, Catalog.FailuresOf;
    Catalog.NoFailures(slots, responses, |slots|);
    assert Catalog.Proper(slots[i], responses[i]);
  }

  lemma AnsweredResult(caller: Caller, outputs: nat -> Output) returns (content: nat)
    requires caller != Waiting && Returned(caller, outputs).Completed?
    ensures caller == Answered(Result(content)) && outputs(content).absence.Some?
  {
    content := caller.response.content;
  }

  lemma AnswerHasHistory(states: seq<State>, steps: seq<Step>, k: nat, c: nat, response: Response)
    requires Run(states, steps) && k < |states| && c < |states[k].calls|
    requires states[k].calls[c].caller == Answered(response)
    ensures Evaluated(states, steps, k, c, states[k].calls[c].slot, response)
  {
    RunInvariant(states, steps, k);
    assert CallOK(states[k], states[k].calls[c]);
    StartedFree(states, steps, k, c);
    ResponseHasStep(states, steps, k, c);
    hide FoundFree, Run;
  }
}
