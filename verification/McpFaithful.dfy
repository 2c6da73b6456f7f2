/** What the discipline of the registration runs is worth against a command line that reads and changes
    one entry truthfully: foreign entries neither disappear nor appear, and results tell the state. */
module McpFaithful {
  import opened Text
  import opened McpConfig

  /** One exchange of a truthful command line.  A change may fail silently; an add overwrites. */
  ghost predicate Step(before: Option<Entry>, e: Exchange, after: Option<Entry>) {
    match e
    case Inspected(Absent) => before == None && after == before
    case Inspected(Present(entry)) => before == Some(entry) && after == before
    case Inspected(_) => after == before
    case Added(identity, _) => after == before || after == Some(Entry(identity, USER))
    case Removed(_) => after == before || after == None
  }

  /** The entry before and after every exchange of the history. */
  ghost predicate Faithful(trace: seq<Exchange>, states: seq<Option<Entry>>) {
    |states| == |trace| + 1 && forall i | 0 <= i < |trace| :: Step(states[i], trace[i], states[i + 1])
  }

  ghost predicate IsForeignEntry(s: Option<Entry>, run: Run) {
    s.Some? && Classify(Present(s.value), run.current, run.state, run.recorded) == Foreign
  }

  lemma ForeignStep(trace: seq<Exchange>, states: seq<Option<Entry>>, run: Run, i: nat)
    requires Disciplined(trace, run) && Faithful(trace, states) && run.from <= i < |trace|
    requires IsForeignEntry(states[i], run) || IsForeignEntry(states[i + 1], run)
    ensures states[i + 1] == states[i]
  {
    assert Guarded(trace, run, i) && Step(states[i], trace[i], states[i + 1]);
    if i > run.from { assert Step(states[i - 1], trace[i - 1], states[i]); }
  }

  /** An entry that is not ours is there after any part of a run exactly if it was there before it. */
  lemma {:induction false} ForeignUntouched(trace: seq<Exchange>, states: seq<Option<Entry>>, run: Run, i: nat, j: nat)
    requires Disciplined(trace, run) && Faithful(trace, states) && run.from <= i <= j <= |trace|
    ensures IsForeignEntry(states[i], run) || IsForeignEntry(states[j], run) ==> states[j] == states[i]
    decreases j - i
  {
    hide Disciplined, Faithful, IsForeignEntry;
    assert |states| == |trace| + 1 by { StatesCount(trace, states); }
    if i < j {
      ForeignUntouched(trace, states, run, i, j - 1);
      if IsForeignEntry(states[j - 1], run) || IsForeignEntry(states[j], run) {
        ForeignStep(trace, states, run, j - 1);
      }
    }
  }

  lemma StatesCount(trace: seq<Exchange>, states: seq<Option<Entry>>)
    requires Faithful(trace, states)
    ensures |states| == |trace| + 1
  {
  }

  /** What can be registered during a run: what was there, nothing, or an identity of ours. */
  lemma {:induction false} OnlyOursAppears(trace: seq<Exchange>, states: seq<Option<Entry>>, run: Run, j: nat)
    requires Disciplined(trace, run) && Faithful(trace, states) && run.from <= j <= |trace|
    ensures states[j] == states[run.from] || states[j] == None ||
      (states[j].value.scope == USER && Ours(states[j].value.identity, run))
  {
    if run.from < j {
      OnlyOursAppears(trace, states, run, j - 1);
      assert Guarded(trace, run, j - 1) && Step(states[j - 1], trace[j - 1], states[j]);
    }
  }

  /** The final state behind every reported status. */
  lemma ReportsAreTrue(trace: seq<Exchange>, states: seq<Option<Entry>>, result: TargetResult, run: Run)
    requires Disciplined(trace, run) && Faithful(trace, states) && Reports(trace, result, run)
    ensures result.status in {Installed, Updated, AlreadyInstalled} ==>
      states[|trace|] == Some(Entry(run.current, USER))
    ensures result.status == RollbackRestored ==>
      run.recorded.Some? && states[|trace|] == Some(Entry(run.recorded.value.identity, USER))
    ensures result.status in {Uninstalled, IsAbsent} ==> states[|trace|] == None
    ensures result.status == ForeignPreserved ==> states[|trace|].Some? && states[|trace|] == states[run.from]
  {
    assert Step(states[|trace| - 1], trace[|trace| - 1], states[|trace|]);
    ForeignUntouched(trace, states, run, run.from, |trace|);
    hide Disciplined;
  }

  // ---------------------------------------------------------------- a command line that works

  /** One exchange of a command line that reads the entry and does what it is asked. */
  ghost predicate WorkingStep(before: Option<Entry>, e: Exchange, after: Option<Entry>) {
    match e
    case Inspected(i) => after == before && i == (if before == None then Absent else Present(before.value))
    case Added(identity, _) => after == Some(Entry(identity, USER))
    case Removed(_) => after == None
  }

  ghost predicate Working(d: seq<Exchange>, states: seq<Option<Entry>>) {
    |states| == |d| + 1 && forall i | 0 <= i < |d| :: WorkingStep(states[i], d[i], states[i + 1])
  }

  lemma WorkingRest(d: seq<Exchange>, states: seq<Option<Entry>>, n: nat)
    requires Working(d, states) && n <= |d|
    ensures n < |states| && Working(d[n..], states[n..])
  {
  }

  predicate IsCurrent(s: Option<Entry>, run: Run) {
    s == Some(Entry(run.current, USER))
  }

  /** The entry that the manifest has on record, another than the one to install. */
  predicate IsRecorded(s: Option<Entry>, run: Run) {
    s.Some? && ReadsRecorded(Present(s.value), run.current, run.state, run.recorded)
  }

  /** An install against a command line that works registers the current identity wherever it may, says
      how, and leaves every other entry alone. */
  lemma WorkingInstall(target: Target, allowCodexAdd: bool, d: seq<Exchange>, states: seq<Option<Entry>>,
                       result: TargetResult, run: Run)
    requires Working(d, states) && InstallGoes(target, allowCodexAdd, d, result, run)
    ensures var s, last := states[0], states[|d|];
      if IsCurrent(s, run) then last == s && result.status == AlreadyInstalled
      else if s == None && MayAdd(target, allowCodexAdd) then IsCurrent(last, run) && result.status == Installed
      else if IsRecorded(s, run) && target.duplicateAddSafe then IsCurrent(last, run) && result.status == Updated
      else last == s && result.status in {IsUnavailable, ForeignPreserved}
  {
    assert WorkingStep(states[0], d[0], states[1]);
    WorkingRest(d, states, 1);
    if d[0].inspection == Absent && MayAdd(target, allowCodexAdd) {
      WorkingAdd(d[1..], states[1..], result, run);
    } else if IsRecorded(states[0], run) && target.duplicateAddSafe {
      WorkingUpdate(d[1..], states[1..], result, run);
    }
  }

  lemma WorkingAdd(d: seq<Exchange>, states: seq<Option<Entry>>, result: TargetResult, run: Run)
    requires Working(d, states) && AbsentGoes(d, result, run)
    ensures IsCurrent(states[|d|], run) && result.status == Installed
  {
    assert WorkingStep(states[0], d[0], states[1]) && WorkingStep(states[1], d[1], states[2]);
  }

  lemma WorkingReplace(d: seq<Exchange>, states: seq<Option<Entry>>, result: TargetResult, run: Run)
    requires Working(d, states) && ReplaceGoes(d, result, run)
    ensures IsCurrent(states[|d|], run) && result.status == Updated
  {
    assert WorkingStep(states[0], d[0], states[1]) && WorkingStep(states[1], d[1], states[2]);
  }

  lemma WorkingUpdate(d: seq<Exchange>, states: seq<Option<Entry>>, result: TargetResult, run: Run)
    requires Working(d, states) && UpdateGoes(d, result, run) && IsRecorded(states[0], run)
    ensures IsCurrent(states[|d|], run) && result.status == Updated
  {
    hide ReplaceGoes;
    assert WorkingStep(states[0], d[0], states[1]);
    var rest := d[1..];
    assert rest[0] == d[1] && rest[1] == d[2];
    assert WorkingStep(states[1], d[1], states[2]) && WorkingStep(states[2], d[2], states[3]);
    WorkingRest(d, states, 3);
    assert rest[2..] == d[3..];
    WorkingReplace(d[3..], states[3..], result, run);
  }

  /** An uninstall against a command line that works removes an entry of ours and leaves any other. */
  lemma WorkingUninstall(d: seq<Exchange>, states: seq<Option<Entry>>, result: TargetResult, run: Run)
    requires Working(d, states) && UninstallGoes(d, result, run)
    ensures var s, last := states[0], states[|d|];
      if IsCurrent(s, run) || IsRecorded(s, run) then last == None && result.status == Uninstalled
      else last == s && result.status == if s == None then IsAbsent else ForeignPreserved
  {
    assert WorkingStep(states[0], d[0], states[1]);
    if IsCurrent(states[0], run) || IsRecorded(states[0], run) {
      var rest := d[1..];
      assert rest[0] == d[1];
      assert WorkingStep(states[1], d[1], states[2]);
      assert rest[1] == d[2] && rest[2] == d[3];
      assert WorkingStep(states[2], d[2], states[3]) && WorkingStep(states[3], d[3], states[4]);
    }
  }
}
