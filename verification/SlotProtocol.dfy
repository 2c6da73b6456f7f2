/** The slot protocol: detector evaluations may outlive the call that started them.

    A slot's flag is changed only under its mutex, so taking and releasing it are single steps.
    Each call of runDetector has a goroutine and a channel with room for one response.  Callers may
    give up (timeout or cancellation) at any moment, and evaluations may return, fail or panic at
    any later moment, or never.  The steps of all calls interleave freely. */
module SlotProtocol {
  import opened Text

  /** The mutual exclusion flag of one detector. */
  class DetectorSlot {
    var running: bool

    constructor ()
      ensures !running
    {
      running := false;
    }

    method TryStart() returns (ok: bool)
      modifies this
      ensures ok == !old(running) && running
    {
      if running { return false; }
      running := true;
      ok := true;
    }

    method Finish()
      modifies this
      ensures !running
    {
      running := false;
    }
  }

  /** What an evaluation ends with. */
  datatype Response = Result(content: nat) | Error(code: string) | Panic

  /** A call's goroutine: between TryStart and Finish it holds the slot. */
  datatype Goroutine = NeverStarted | Evaluating | Ended(response: Response) | Released(response: Response)
    | Sent(response: Response)

  datatype Caller = Waiting | Answered(response: Response) | GaveUp(code: string)

  datatype Call = Call(slot: nat, goroutine: Goroutine, caller: Caller, channel: Option<Response>)

  datatype State = State(running: seq<bool>, calls: seq<Call>)

  predicate Initial(s: State) {
    s.calls == [] && forall i | 0 <= i < |s.running| :: !s.running[i]
  }

  datatype Step =
    | Start(slot: nat, busyCode: string)
    | EvaluationEnds(call: nat, response: Response)
    | Finish(call: nat)
    | Send(call: nat)
    | Receive(call: nat)
    | GiveUp(call: nat, code: string)

  /** A send on a full channel blocks; everything else waits only for its own call's phase. */
  predicate Enabled(s: State, step: Step) {
    match step
    case Start(slot, _) => slot < |s.running|
    case EvaluationEnds(c, _) => c < |s.calls| && s.calls[c].goroutine == Evaluating
    case Finish(c) => c < |s.calls| && s.calls[c].goroutine.Ended? && s.calls[c].slot < |s.running|
    case Send(c) => c < |s.calls| && s.calls[c].goroutine.Released? && s.calls[c].channel == None
    case Receive(c) => c < |s.calls| && s.calls[c].caller == Waiting && s.calls[c].channel.Some?
    case GiveUp(c, _) => c < |s.calls| && s.calls[c].caller == Waiting
  }

  function Next(s: State, step: Step): State
    requires Enabled(s, step)
  {
    match step
    case Start(slot, busyCode) =>
      if s.running[slot] then s.(calls := s.calls + [Call(slot, NeverStarted, GaveUp(busyCode), None)])
      else State(s.running[slot := true], s.calls + [Call(slot, Evaluating, Waiting, None)])
    case EvaluationEnds(c, response) => s.(calls := s.calls[c := s.calls[c].(goroutine := Ended(response))])
    case Finish(c) =>
      State(s.running[s.calls[c].slot := false],
            s.calls[c := s.calls[c].(goroutine := Released(s.calls[c].goroutine.response))])
    case Send(c) =>
      var r := s.calls[c].goroutine.response;
      s.(calls := s.calls[c := s.calls[c].(goroutine := Sent(r), channel := Some(r))])
    case Receive(c) =>
      s.(calls := s.calls[c := s.calls[c].(caller := Answered(s.calls[c].channel.value), channel := None)])
    case GiveUp(c, code) => s.(calls := s.calls[c := s.calls[c].(caller := GaveUp(code))])
  }

  /** The protocol on real slots: the flags are those of the DetectorSlot objects. */
  class Runtime {
    const slots: seq<DetectorSlot>
    var calls: seq<Call>

    ghost predicate Valid()
      reads this
    {
      forall i, j | 0 <= i < j < |slots| :: slots[i] != slots[j]
    }

    ghost function Abstract(): State
      reads this, slots
    {
      State(seq(|slots|, i requires 0 <= i < |slots| reads slots => slots[i].running), calls)
    }

    constructor (slots: seq<DetectorSlot>)
      requires forall i, j | 0 <= i < j < |slots| :: slots[i] != slots[j]
      requires forall i | 0 <= i < |slots| :: !slots[i].running
      ensures this.slots == slots && Valid() && Initial(Abstract())
    {
      this.slots := slots;
      calls := [];
    }

    /** One step, taken through TryStart and Finish where it concerns a flag. */
    method Take(step: Step)
      requires Valid() && Enabled(Abstract(), step)
      modifies this`calls, slots
      ensures Valid() && Abstract() == Next(old(Abstract()), step)
    {
      match step {
        case Start(i, busyCode) =>
          var ok := slots[i].TryStart();
          calls := calls +
            [if ok then Call(i, Evaluating, Waiting, None) else Call(i, NeverStarted, GaveUp(busyCode), None)];
        case EvaluationEnds(c, response) =>
          calls := calls[c := calls[c].(goroutine := Ended(response))];
        case Finish(c) =>
          slots[calls[c].slot].Finish();
          calls := calls[c := calls[c].(goroutine := Released(calls[c].goroutine.response))];
        case Send(c) =>
          var r := calls[c].goroutine.response;
          calls := calls[c := calls[c].(goroutine := Sent(r), channel := Some(r))];
        case Receive(c) =>
          calls := calls[c := calls[c].(caller := Answered(calls[c].channel.value), channel := None)];
        case GiveUp(c, code) =>
          calls := calls[c := calls[c].(caller := GaveUp(code))];
      }
    }

    /** Any schedule of steps, started on free slots, is a run of the protocol as far as it goes. */
    method Execute(schedule: seq<Step>) returns (taken: nat, ghost states: seq<State>)
      requires Valid() && Initial(Abstract())
      modifies this`calls, slots
      ensures taken <= |schedule| && Run(states, schedule[..taken]) && Abstract() == states[taken]
      ensures taken < |schedule| ==> !Enabled(Abstract(), schedule[taken])
    {
      taken, states := 0, [Abstract()];
      while taken < |schedule| && Possible(schedule[taken])
        invariant Valid() && taken <= |schedule| && |states| == taken + 1 && Initial(states[0])
        invariant Abstract() == states[taken]
        invariant forall i | 0 <= i < taken ::
          Enabled(states[i], schedule[i]) && states[i + 1] == Next(states[i], schedule[i])
      {
        Take(schedule[taken]);
        states := states + [Abstract()];
        taken := taken + 1;
      }
    }

    predicate Possible(step: Step)
      reads this, slots
      ensures Possible(step) <==> Enabled(Abstract(), step)
    {
      match step
      case Start(i, _) => i < |slots|
      case EvaluationEnds(c, _) => c < |calls| && calls[c].goroutine == Evaluating
      case Finish(c) => c < |calls| && calls[c].goroutine.Ended? && calls[c].slot < |slots|
      case Send(c) => c < |calls| && calls[c].goroutine.Released? && calls[c].channel == None
      case Receive(c) => c < |calls| && calls[c].caller == Waiting && calls[c].channel.Some?
      case GiveUp(c, _) => c < |calls| && calls[c].caller == Waiting
    }
  }

  /** A run: any number of steps of any calls, in any interleaving. */
  ghost predicate Run(states: seq<State>, steps: seq<Step>) {
    && |states| == |steps| + 1 && Initial(states[0])
    && forall i | 0 <= i < |steps| :: Enabled(states[i], steps[i]) && states[i + 1] == Next(states[i], steps[i])
  }

  // ---------------------------------------------------------------- the invariant

  predicate Holds(call: Call) {
    call.goroutine == Evaluating || call.goroutine.Ended?
  }

  /** The flag of slot i is set exactly when one goroutine is between its TryStart and its Finish. */
  ghost predicate SlotOK(s: State, i: nat)
    requires i < |s.running|
  {
    && (s.running[i] <==> exists c | 0 <= c < |s.calls| :: Holds(s.calls[c]) && s.calls[c].slot == i)
    && (forall c, d | 0 <= c < |s.calls| && 0 <= d < |s.calls| ::
          Holds(s.calls[c]) && Holds(s.calls[d]) && s.calls[c].slot == i && s.calls[d].slot == i ==> c == d)
  }

  /** The channel carries, and the caller gets, what this call's own evaluation ended with; a
      response that was sent is waiting for its caller unless the caller took it or gave up. */
  ghost predicate CallOK(s: State, call: Call) {
    && call.slot < |s.running|
    && (call.channel.Some? ==> call.goroutine == Sent(call.channel.value))
    && (call.caller.Answered? ==> call.goroutine == Sent(call.caller.response))
    && (call.goroutine.Sent? && call.caller == Waiting ==> call.channel == Some(call.goroutine.response))
    && (call.goroutine == NeverStarted ==> call.caller.GaveUp?)
  }

  ghost predicate Invariant(s: State) {
    && (forall i: nat | i < |s.running| :: SlotOK(s, i))
    && (forall c | 0 <= c < |s.calls| :: CallOK(s, s.calls[c]))
  }

  lemma StepKeepsCalls(s: State, step: Step)
    requires Invariant(s) && Enabled(s, step)
    ensures var t := Next(s, step); forall c | 0 <= c < |t.calls| :: CallOK(t, t.calls[c])
  {
    hide SlotOK;
    var t := Next(s, step);
    forall c | 0 <= c < |t.calls| ensures CallOK(t, t.calls[c]) {
      if c < |s.calls| { assert CallOK(s, s.calls[c]); }
    }
  }

  lemma StartKeepsSlot(s: State, step: Step, i: nat)
    requires Invariant(s) && Enabled(s, step) && i < |s.running| && step.Start?
    ensures SlotOK(Next(s, step), i)
  {
    hide CallOK;
    var t := Next(s, step);
    assert SlotOK(s, i);
    forall c | 0 <= c < |s.calls| ensures t.calls[c] == s.calls[c] { }
    var n := |s.calls|;
    if Holds(t.calls[n]) && t.calls[n].slot == i { assert t.running[i]; }
  }

  lemma StepKeepsSlot(s: State, step: Step, i: nat)
    requires Invariant(s) && Enabled(s, step) && i < |s.running|
    ensures SlotOK(Next(s, step), i)
  {
    if step.Start? {
      StartKeepsSlot(s, step, i);
    } else {
      var t, c := Next(s, step), step.call;
      assert SlotOK(s, i) && CallOK(s, s.calls[c]);
      if s.running[i] {
        var d :| 0 <= d < |s.calls| && Holds(s.calls[d]) && s.calls[d].slot == i;
        assert d != c ==> Holds(t.calls[d]) && t.calls[d].slot == i;
        if d == c && !step.Finish? { assert Holds(t.calls[c]) && t.calls[c].slot == i; }
      }
    }
  }

  lemma StepKeepsInvariant(s: State, step: Step)
    requires Invariant(s) && Enabled(s, step)
    ensures Invariant(Next(s, step))
  {
    StepKeepsCalls(s, step);
    forall i: nat | i < |s.running| ensures SlotOK(Next(s, step), i) { StepKeepsSlot(s, step, i); }
    hide SlotOK, CallOK;
  }

  lemma {:induction false} RunInvariant(states: seq<State>, steps: seq<Step>, k: nat)
    requires Run(states, steps) && k < |states|
    ensures Invariant(states[k])
  {
    if k > 0 {
      RunInvariant(states, steps, k - 1);
      StepKeepsInvariant(states[k - 1], steps[k - 1]);
    }
  }

  // ---------------------------------------------------------------- what every run guarantees

  /** Two evaluations of one detector never overlap, and the flag tells whether one is under way. */
  lemma NoOverlap(states: seq<State>, steps: seq<Step>, k: nat, c: nat, d: nat)
    requires Run(states, steps) && k < |states| && c < |states[k].calls| && d < |states[k].calls|
    requires Holds(states[k].calls[c]) && Holds(states[k].calls[d])
    requires states[k].calls[c].slot == states[k].calls[d].slot
    ensures c == d && states[k].calls[c].slot < |states[k].running| && states[k].running[states[k].calls[c].slot]
  {
    RunInvariant(states, steps, k);
    var s := states[k];
    assert CallOK(s, s.calls[c]);
    assert SlotOK(s, s.calls[c].slot);
  }

  /** A goroutine that has released its slot can always send: no send ever blocks. */
  lemma SendNeverBlocks(states: seq<State>, steps: seq<Step>, k: nat, c: nat)
    requires Run(states, steps) && k < |states| && c < |states[k].calls| && states[k].calls[c].goroutine.Released?
    ensures Enabled(states[k], Send(c))
  {
    RunInvariant(states, steps, k);
    assert CallOK(states[k], states[k].calls[c]);
  }

  /** Finishing this call is possible now and frees the slot. */
  ghost predicate CanClear(s: State, c: nat, i: nat) {
    Enabled(s, Finish(c)) && s.calls[c].slot == i && i < |s.running| && !Next(s, Finish(c)).running[i]
  }

  ghost predicate CanClearAfter(s: State, c: nat, i: nat, response: Response) {
    Enabled(s, EvaluationEnds(c, response)) && CanClear(Next(s, EvaluationEnds(c, response)), c, i)
  }

  /** A set flag has a goroutine that can clear it: at once, or once its evaluation has ended, however
      that ends. */
  lemma SetFlagHasHolder(states: seq<State>, steps: seq<Step>, k: nat, i: nat) returns (c: nat)
    requires Run(states, steps) && k < |states| && i < |states[k].running| && states[k].running[i]
    ensures c < |states[k].calls| && Holds(states[k].calls[c]) && states[k].calls[c].slot == i
    ensures CanClear(states[k], c, i) || forall response :: CanClearAfter(states[k], c, i, response)
  {
    RunInvariant(states, steps, k);
    assert SlotOK(states[k], i);
    c :| 0 <= c < |states[k].calls| && Holds(states[k].calls[c]) && states[k].calls[c].slot == i;
    if states[k].calls[c].goroutine == Evaluating {
      forall response ensures CanClearAfter(states[k], c, i, response) {}
    }
  }

  /** And nothing else clears it. */
  lemma OnlyHolderClears(states: seq<State>, steps: seq<Step>, k: nat, i: nat, c: nat)
    requires Run(states, steps) && k < |steps| && i < |states[k].running| && states[k].running[i]
    requires c < |states[k].calls| && Holds(states[k].calls[c]) && states[k].calls[c].slot == i
    ensures i < |states[k + 1].running| && (states[k + 1].running[i] <==> steps[k] != Finish(c))
  {
    assert Enabled(states[k], steps[k]) && states[k + 1] == Next(states[k], steps[k]);
    if steps[k].Finish? && states[k].calls[steps[k].call].slot == i {
      NoOverlap(states, steps, k, steps[k].call, c);
    }
  }

  /** The response a call's own evaluation ended with, once it has ended. */
  function OwnResponse(call: Call): Option<Response> {
    match call.goroutine
    case NeverStarted => None
    case Evaluating => None
    case Ended(r) => Some(r)
    case Released(r) => Some(r)
    case Sent(r) => Some(r)
  }

  lemma {:induction false} CallsPersist(states: seq<State>, steps: seq<Step>, j: nat, k: nat, c: nat)
    requires Run(states, steps) && j <= k < |states| && c < |states[j].calls|
    ensures c < |states[k].calls| && states[k].calls[c].slot == states[j].calls[c].slot
    ensures OwnResponse(states[j].calls[c]).Some? ==> OwnResponse(states[k].calls[c]) == OwnResponse(states[j].calls[c])
    decreases k
  {
    if j < k {
      CallsPersist(states, steps, j, k - 1, c);
      assert Enabled(states[k - 1], steps[k - 1]) && states[k] == Next(states[k - 1], steps[k - 1]);
    }
  }

  /** A caller that gets an answer gets the response of its own evaluation, whenever that ended and
      whatever other calls did meanwhile. */
  lemma AnswersAreOwn(states: seq<State>, steps: seq<Step>, j: nat, k: nat, c: nat)
    requires Run(states, steps) && j < |steps| && steps[j].EvaluationEnds? && steps[j].call == c
    requires k < |states| && c < |states[k].calls| && states[k].calls[c].caller.Answered?
    ensures j < k && states[k].calls[c].caller.response == steps[j].response
  {
    RunInvariant(states, steps, k);
    assert CallOK(states[k], states[k].calls[c]);
    assert Enabled(states[j], steps[j]) && states[j + 1] == Next(states[j], steps[j]);
    if j < k {
      CallsPersist(states, steps, j + 1, k, c);
    } else {
      CallsPersist(states, steps, k, j, c);
    }
  }

  // ---------------------------------------------------------------- what a call must lead to

  /** The states that a schedule leads through, while its steps are enabled. */
  ghost predicate Leads(s: State, schedule: seq<Step>, t: State)
    decreases |schedule|
  {
    if schedule == [] then s == t
    else Enabled(s, schedule[0]) && Leads(Next(s, schedule[0]), schedule[1..], t)
  }

  /** Calls and slots other than these are as they were. */
  ghost predicate OnlyDiffer(s: State, t: State, i: nat, c: nat) {
    && |t.running| == |s.running| && (forall j | 0 <= j < |s.running| && j != i :: t.running[j] == s.running[j])
    && |t.calls| >= |s.calls| && (forall d | 0 <= d < |s.calls| && d != c :: t.calls[d] == s.calls[d])
  }

  /** A call that finds its slot free and that nobody disturbs is evaluated, frees the slot and answers its
      caller with what the evaluation ended with, whatever else is under way. */
  lemma FreeCallAnswers(s: State, i: nat, code: string, response: Response) returns (t: State)
    requires i < |s.running| && !s.running[i]
    ensures var c := |s.calls|;
      Leads(s, [Start(i, code), EvaluationEnds(c, response), Finish(c), Send(c), Receive(c)], t)
    ensures |t.calls| == |s.calls| + 1 && t.calls[|s.calls|].caller == Answered(response)
    ensures t.calls[|s.calls|].slot == i
    ensures t.running == s.running && OnlyDiffer(s, t, i, |s.calls|)
  {
    var c := |s.calls|;
    var started := Next(s, Start(i, code));
    assert started.calls[c] == Call(i, Evaluating, Waiting, None);
    var ended := Next(started, EvaluationEnds(c, response));
    var released := Next(ended, Finish(c));
    assert released.running == s.running;
    var sent := Next(released, Send(c));
    t := Next(sent, Receive(c));
    LeadsOne(sent, Receive(c));
    LeadsMore(released, Send(c), [Receive(c)], t);
    LeadsMore(ended, Finish(c), [Send(c), Receive(c)], t);
    LeadsMore(started, EvaluationEnds(c, response), [Finish(c), Send(c), Receive(c)], t);
    LeadsMore(s, Start(i, code), [EvaluationEnds(c, response), Finish(c), Send(c), Receive(c)], t);
  }

  lemma LeadsOne(s: State, step: Step)
    requires Enabled(s, step)
    ensures Leads(s, [step], Next(s, step))
  {
    assert [step][1..] == [];
  }

  lemma LeadsMore(s: State, step: Step, rest: seq<Step>, t: State)
    requires Enabled(s, step) && Leads(Next(s, step), rest, t)
    ensures Leads(s, [step] + rest, t)
  {
    assert ([step] + rest)[1..] == rest;
  }

  /** A call that finds its slot taken is refused at once with its code, and touches nothing. */
  lemma BusyCallRefused(s: State, i: nat, code: string)
    requires i < |s.running| && s.running[i]
    ensures Enabled(s, Start(i, code))
    ensures Next(s, Start(i, code)) == s.(calls := s.calls + [Call(i, NeverStarted, GaveUp(code), None)])
  {
  }

  /** A caller that gives up leaves its evaluation, and so the slot, as they are. */
  lemma GivingUpKeepsSlot(s: State, c: nat, code: string)
    requires Enabled(s, GiveUp(c, code))
    ensures var t := Next(s, GiveUp(c, code));
      && t.running == s.running && t.calls[c].goroutine == s.calls[c].goroutine && t.calls[c].caller == GaveUp(code)
      && OnlyDiffer(s, t, s.calls[c].slot, c)
  {
  }
}
