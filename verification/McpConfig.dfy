/** Registering with an agent through its command line, which may fail, time out or answer anything.

    The command line keeps the whole history of its exchanges; nothing constrains its answers.  The
    ownership manifest is a value whose map of targets is shared. */
module McpConfig {
  import opened Text

  datatype Identity = Identity(command: string, args: seq<string>)

  datatype Entry = Entry(identity: Identity, scope: string)

  datatype Inspection = Absent | Present(entry: Entry) | Unverifiable(code: string) | Unavailable(code: string)

  datatype CommandResult = CommandResult(exitCode: int, overflow: bool)

  datatype Exchange = Inspected(inspection: Inspection) | Added(identity: Identity, result: CommandResult)
    | Removed(result: CommandResult)

  const USER := "user"
  const CODEX := "codex"
  const CLAUDE := "claude"

  /** The environment: any answers at all, possibly different ones for every history. */
  class Cli {
    const inspection: seq<Exchange> -> Inspection
    const adding: (seq<Exchange>, Identity) -> CommandResult
    const removing: seq<Exchange> -> CommandResult
    var trace: seq<Exchange>

    constructor (inspection: seq<Exchange> -> Inspection, adding: (seq<Exchange>, Identity) -> CommandResult,
                 removing: seq<Exchange> -> CommandResult)
      ensures trace == []
    {
      this.inspection, this.adding, this.removing, trace := inspection, adding, removing, [];
    }

    method Inspect() returns (i: Inspection)
      modifies this
      ensures trace == old(trace) + [Inspected(i)]
    {
      i := inspection(trace);
      trace := trace + [Inspected(i)];
    }

    method Add(identity: Identity) returns (r: CommandResult)
      modifies this
      ensures trace == old(trace) + [Added(identity, r)]
    {
      r := adding(trace, identity);
      trace := trace + [Added(identity, r)];
    }

    method Remove() returns (r: CommandResult)
      modifies this
      ensures trace == old(trace) + [Removed(r)]
    {
      r := removing(trace);
      trace := trace + [Removed(r)];
    }
  }

  // ---------------------------------------------------------------- the ownership manifest

  datatype Recorded = Recorded(scope: string, identity: Identity, verifiedAt: int)

  class TargetMap {
    var entries: map<string, Recorded>

    constructor (entries: map<string, Recorded>)
      ensures this.entries == entries
    {
      this.entries := entries;
    }
  }

  /** Passed by value; the map inside is shared by all copies. */
  datatype Manifest = Manifest(version: int, installation: string, targets: TargetMap?)

  datatype ManifestState = ManifestMissing | ManifestValid | ManifestInvalid

  function Lookup(m: Manifest, agent: string): Option<Recorded>
    reads m.targets
  {
    if m.targets != null && agent in m.targets.entries then Some(m.targets.entries[agent]) else None
  }

  /** With a map, every copy of the manifest sees the record; without one, only the returned copy. */
  method RecordManifestIdentity(m: Manifest, agent: string, identity: Identity, now: int) returns (r: Manifest)
    modifies m.targets
    ensures r.version == m.version && r.installation == m.installation && r.targets != null
    ensures m.targets != null ==> r.targets == m.targets
    ensures m.targets == null ==> fresh(r.targets)
    ensures r.targets.entries ==
      (if m.targets == null then map[] else old(m.targets.entries))[agent := Recorded(USER, identity, now)]
  {
    r := m;
    if r.targets == null {
      var targets := new TargetMap(map[]);
      r := r.(targets := targets);
    }
    r.targets.entries := r.targets.entries[agent := Recorded(USER, identity, now)];
  }

  // ---------------------------------------------------------------- ownership

  datatype Ownership = Nobody | Unknown | Foreign | Current | Recognized

  function Classify(i: Inspection, current: Identity, state: ManifestState, recorded: Option<Recorded>): Ownership {
    match i
    case Absent => Nobody
    case Unverifiable(_) => Unknown
    case Unavailable(_) => Unknown
    case Present(entry) =>
      if entry.scope != USER then Foreign
      else if entry.identity == current then Current
      else if state == ManifestValid && recorded.Some? && recorded.value.scope == USER &&
        entry.identity == recorded.value.identity then
        Recognized
      else Foreign
  }

  /** The registration of the identity to install. */
  predicate ReadsCurrent(i: Inspection, current: Identity) {
    i == Present(Entry(current, USER))
  }

  /** The registration that a valid manifest has on record, another than the one to install. */
  predicate ReadsRecorded(i: Inspection, current: Identity, state: ManifestState, recorded: Option<Recorded>) {
    && state == ManifestValid && recorded.Some? && recorded.value.scope == USER && recorded.value.identity != current
    && i == Present(Entry(recorded.value.identity, USER))
  }

  lemma ClassifyExact(i: Inspection, current: Identity, state: ManifestState, recorded: Option<Recorded>)
    ensures var owner := Classify(i, current, state, recorded);
      && (owner == Nobody <==> i == Absent) && (owner == Unknown <==> i.Unverifiable? || i.Unavailable?)
      && (owner == Current <==> ReadsCurrent(i, current))
      && (owner == Recognized <==> ReadsRecorded(i, current, state, recorded))
  {
  }

  /** Without a look at the manifest an entry counts as foreign. */
  function OwnershipForInspection(i: Inspection): (owner: Ownership)
    ensures owner == Nobody <==> i == Absent
    ensures owner == Foreign <==> i.Present?
    ensures owner in {Nobody, Foreign, Unknown}
  {
    match i
    case Absent => Nobody
    case Present(_) => Foreign
    case _ => Unknown
  }

  function CommandFailureCode(r: CommandResult, commandCode: string): (code: string)
    ensures r.overflow ==> code == "status_output_too_large"
    ensures !r.overflow && r.exitCode != 0 ==> code == commandCode
    ensures !r.overflow && r.exitCode == 0 ==> code == "verification_failed"
  {
    if r.overflow then "status_output_too_large" else if r.exitCode != 0 then commandCode else "verification_failed"
  }

  datatype Status =
    | IsAbsent | IsUnverifiable | IsUnavailable | OwnedCurrent | OwnedRecognized | IsForeign
    | AlreadyInstalled | ForeignPreserved | Installed | Updated | Uninstalled
    | Failed | RollbackRestored | RollbackFailed | SkippedNotDetected

  datatype TargetResult = TargetResult(
    agent: string, detected: bool, status: Status, ownership: Ownership, changed: bool, errorCode: Option<string>)

  datatype Target = Target(agent: string, duplicateAddSafe: bool)

  // ---------------------------------------------------------------- the safety discipline

  /** One run against one agent: where it starts in the history, the identity to register, and what the
      manifest says of the agent when it starts. */
  datatype Run = Run(from: nat, current: Identity, state: ManifestState, recorded: Option<Recorded>)

  ghost predicate ReadOurs(e: Exchange, run: Run) {
    e.Inspected? && Classify(e.inspection, run.current, run.state, run.recorded) in {Current, Recognized}
  }

  /** The identity a run may ask for: the one to register, or the one on record to put it back. */
  ghost predicate Ours(identity: Identity, run: Run) {
    identity == run.current ||
      Classify(Present(Entry(identity, USER)), run.current, run.state, run.recorded) == Recognized
  }

  /** Exchange i of a run: an add is of an identity of ours and comes right after an inspection that read
      absent, a remove right after one that read an entry of ours. */
  ghost predicate Guarded(trace: seq<Exchange>, run: Run, i: nat)
    requires i < |trace|
  {
    && (trace[i].Added? ==> Ours(trace[i].identity, run) && i > run.from && trace[i - 1] == Inspected(Absent))
    && (trace[i].Removed? ==> i > run.from && ReadOurs(trace[i - 1], run))
  }

  ghost predicate Disciplined(trace: seq<Exchange>, run: Run) {
    run.from <= |trace| && forall i | run.from <= i < |trace| :: Guarded(trace, run, i)
  }

  ghost predicate NeverAdds(trace: seq<Exchange>, from: nat) {
    forall i | from <= i < |trace| :: !trace[i].Added?
  }

  ghost predicate NeverRemoves(trace: seq<Exchange>, from: nat) {
    forall i | from <= i < |trace| :: !trace[i].Removed?
  }

  /** The last thing that happened was an inspection, and it read this. */
  ghost predicate LastRead(trace: seq<Exchange>, i: Inspection) {
    trace != [] && trace[|trace| - 1] == Inspected(i)
  }

  ghost predicate LastReadSome(trace: seq<Exchange>) {
    trace != [] && trace[|trace| - 1].Inspected?
  }

  lemma DisciplineExtends(trace: seq<Exchange>, next: Exchange, run: Run)
    requires Disciplined(trace, run) && Guarded(trace + [next], run, |trace|)
    ensures Disciplined(trace + [next], run)
  {
    var more := trace + [next];
    forall i | run.from <= i < |more| ensures Guarded(more, run, i) {
      if i < |trace| {
        assert Guarded(trace, run, i);
        assert more[i] == trace[i] && (i > 0 ==> more[i - 1] == trace[i - 1]);
      }
    }
  }

  /** The history was extended by these exchanges. */
  ghost predicate Grew(before: seq<Exchange>, after: seq<Exchange>, more: seq<Exchange>) {
    after == before + more
  }

  method Reinspect(cli: Cli, ghost run: Run) returns (i: Inspection)
    requires Disciplined(cli.trace, run)
    modifies cli
    ensures Disciplined(cli.trace, run) && Grew(old(cli.trace), cli.trace, [Inspected(i)]) && LastRead(cli.trace, i)
    ensures old(cli.trace) <= cli.trace && run.from < |cli.trace|
  {
    i := cli.Inspect();
    DisciplineExtends(old(cli.trace), Inspected(i), run);
  }

  method AddAndInspect(cli: Cli, identity: Identity, ghost run: Run) returns (r: CommandResult, i: Inspection)
    requires Disciplined(cli.trace, run) && run.from < |cli.trace| && LastRead(cli.trace, Absent) && Ours(identity, run)
    modifies cli
    ensures Disciplined(cli.trace, run) && Grew(old(cli.trace), cli.trace, [Added(identity, r), Inspected(i)])
    ensures LastRead(cli.trace, i)
    ensures old(cli.trace) <= cli.trace && run.from < |cli.trace|
  {
    r := cli.Add(identity);
    DisciplineExtends(old(cli.trace), Added(identity, r), run);
    i := Reinspect(cli, run);
  }

  method RemoveAndInspect(cli: Cli, ghost read: Inspection, ghost run: Run) returns (r: CommandResult, i: Inspection)
    requires Disciplined(cli.trace, run) && run.from < |cli.trace| && LastRead(cli.trace, read)
    requires Classify(read, run.current, run.state, run.recorded) in {Current, Recognized}
    modifies cli
    ensures Disciplined(cli.trace, run) && Grew(old(cli.trace), cli.trace, [Removed(r), Inspected(i)])
    ensures LastRead(cli.trace, i)
    ensures old(cli.trace) <= cli.trace && run.from < |cli.trace|
  {
    r := cli.Remove();
    DisciplineExtends(old(cli.trace), Removed(r), run);
    i := Reinspect(cli, run);
  }

  // ---------------------------------------------------------------- what a run must do

  /** The only error of an inspection that told what is registered is that the manifest cannot be read. */
  predicate Warned(result: TargetResult, state: ManifestState) {
    result.errorCode == if state == ManifestInvalid then Some("ownership_manifest_invalid") else None
  }

  /** What one inspection says, and when it is an error. */
  ghost predicate Inquired(i: Inspection, result: TargetResult, current: Identity, state: ManifestState,
                           recorded: Option<Recorded>) {
    && (result.status == IsAbsent <==> i == Absent)
    && (result.status == IsUnverifiable <==> i.Unverifiable?)
    && (result.status == IsUnavailable <==> i.Unavailable?)
    && (result.status == OwnedCurrent <==> ReadsCurrent(i, current))
    && (result.status == OwnedRecognized <==> ReadsRecorded(i, current, state, recorded))
    && (result.status == IsForeign <==>
         i.Present? && !ReadsCurrent(i, current) && !ReadsRecorded(i, current, state, recorded))
    && (i.Unverifiable? || i.Unavailable? ==> result.errorCode == Some(i.code))
    && (i == Absent || i.Present? ==> Warned(result, state))
  }

  /** The exchanges of an inquiry: one inspection. */
  ghost predicate InquiryGoes(d: seq<Exchange>, result: TargetResult, run: Run) {
    |d| == 1 && d[0].Inspected? && Inquired(d[0].inspection, result, run.current, run.state, run.recorded)
  }

  predicate Owned(i: Inspection, run: Run) {
    ReadsCurrent(i, run.current) || ReadsRecorded(i, run.current, run.state, run.recorded)
  }

  /** An add of this identity and an inspection, after n exchanges. */
  ghost predicate Adds(d: seq<Exchange>, n: nat, identity: Identity) {
    n + 1 < |d| && d[n].Added? && d[n].identity == identity && d[n + 1].Inspected?
  }

  ghost predicate Removes(d: seq<Exchange>, n: nat) {
    n + 1 < |d| && d[n].Removed? && d[n + 1].Inspected?
  }

  ghost predicate Fails(result: TargetResult, last: Inspection, code: string) {
    result.status == Failed && result.ownership == OwnershipForInspection(last) && result.errorCode == Some(code)
  }

  /** An agent that can be added to: no duplicates can arise, or it is Codex and the caller opted in. */
  predicate MayAdd(target: Target, allowCodexAdd: bool) {
    target.duplicateAddSafe || (target.agent == CODEX && allowCodexAdd)
  }

  /** After an inspection that read absent: add and look; installed exactly when the identity is there. */
  ghost predicate AbsentGoes(d: seq<Exchange>, result: TargetResult, run: Run) {
    && |d| == 2 && Adds(d, 0, run.current)
    && if ReadsCurrent(d[1].inspection, run.current) then result.status == Installed
       else Fails(result, d[1].inspection, CommandFailureCode(d[0].result, "install_failed"))
  }

  /** With the old entry gone: add the current identity; if that leaves nothing, put the old one back. */
  ghost predicate ReplaceGoes(d: seq<Exchange>, result: TargetResult, run: Run) {
    && 2 <= |d| && Adds(d, 0, run.current)
    && if ReadsCurrent(d[1].inspection, run.current) then |d| == 2 && result.status == Updated
       else if d[1].inspection != Absent then |d| == 2 && RollsBackInVain(result)
       else
         && |d| == 4 && run.recorded.Some? && Adds(d, 2, run.recorded.value.identity)
         && if d[2].result.exitCode == 0 && ReadsRecorded(d[3].inspection, run.current, run.state, run.recorded) then
              result.status == RollbackRestored &&
              result.errorCode == Some(CommandFailureCode(d[0].result, "install_failed"))
            else RollsBackInVain(result)
  }

  predicate RollsBackInVain(result: TargetResult) {
    result.status == RollbackFailed && result.errorCode == Some("rollback_failed")
  }

  predicate Preserves(result: TargetResult) {
    result.status == ForeignPreserved && result.errorCode == Some("conflicting_entry")
  }

  /** After an inspection that read the identity on record: look again, remove, look, and replace. */
  ghost predicate UpdateGoes(d: seq<Exchange>, result: TargetResult, run: Run) {
    && d != [] && d[0].Inspected?
    && if !ReadsRecorded(d[0].inspection, run.current, run.state, run.recorded) then
         |d| == 1 && Fails(result, d[0].inspection, "verification_failed")
       else ExchangeGoes(d[1..], result, run)
  }

  /** Remove and look, and replace once nothing is left. */
  ghost predicate ExchangeGoes(d: seq<Exchange>, result: TargetResult, run: Run) {
    && 2 <= |d| && Removes(d, 0)
    && if d[1].inspection == Absent then ReplaceGoes(d[2..], result, run)
       else |d| == 2 && result.status == Failed && result.errorCode == Some(RemoveCode(d[0].result))
  }

  function RemoveCode(r: CommandResult): (code: string)
    ensures code == "remove_failed" <==> r.exitCode != 0
    ensures code == "verification_failed" <==> r.exitCode == 0
  {
    if r.exitCode != 0 then "remove_failed" else "verification_failed"
  }

  /** The exchanges of an install, from its first inspection. */
  ghost predicate InstallGoes(target: Target, allowCodexAdd: bool, d: seq<Exchange>, result: TargetResult, run: Run) {
    && d != [] && d[0].Inspected?
    && match d[0].inspection
       case Absent =>
         if MayAdd(target, allowCodexAdd) then AbsentGoes(d[1..], result, run)
         else |d| == 1 && result.status == IsUnavailable && result.ownership == Unknown &&
              result.errorCode == Some("install_failed")
       case Unverifiable(code) => |d| == 1 && result.status == IsUnverifiable && result.errorCode == Some(code)
       case Unavailable(code) => |d| == 1 && result.status == IsUnavailable && result.errorCode == Some(code)
       case Present(_) =>
         if ReadsCurrent(d[0].inspection, run.current) then
           |d| == 1 && result.status == AlreadyInstalled && Warned(result, run.state)
         else if !ReadsRecorded(d[0].inspection, run.current, run.state, run.recorded) then
           |d| == 1 && Preserves(result)
         else if target.duplicateAddSafe then UpdateGoes(d[1..], result, run)
         else |d| == 1 && result.status == IsUnavailable && result.errorCode == Some("install_failed")
  }

  /** The exchanges of an uninstall: an entry of ours is looked at again, removed and looked for. */
  ghost predicate UninstallGoes(d: seq<Exchange>, result: TargetResult, run: Run) {
    && d != [] && d[0].Inspected?
    && match d[0].inspection
       case Absent => |d| == 1 && result.status == IsAbsent && Warned(result, run.state)
       case Unverifiable(code) => |d| == 1 && result.status == IsUnverifiable && result.errorCode == Some(code)
       case Unavailable(code) => |d| == 1 && result.status == IsUnavailable && result.errorCode == Some(code)
       case Present(_) =>
         if !Owned(d[0].inspection, run) then |d| == 1 && Preserves(result)
         else RemovalGoes(d[1..], result, run)
  }

  ghost predicate RemovalGoes(d: seq<Exchange>, result: TargetResult, run: Run) {
    && d != [] && d[0].Inspected?
    && if !Owned(d[0].inspection, run) then |d| == 1 && Fails(result, d[0].inspection, "verification_failed")
       else
         && |d| == 3 && Removes(d, 1)
         && if d[2].inspection == Absent then result.status == Uninstalled
            else Fails(result, d[2].inspection, RemoveCode(d[1].result))
  }

  // The exits of an update and of a removal, one by one.

  lemma CutGrew(before: seq<Exchange>, mid: seq<Exchange>, after: seq<Exchange>, more: seq<Exchange>)
    requires Grew(before, mid, more) && mid <= after
    ensures |before| <= |after| && after[|before|..] == more + after[|mid|..]
  {
  }

  lemma UpdateStops(i: Inspection, result: TargetResult, run: Run)
    requires !ReadsRecorded(i, run.current, run.state, run.recorded) && Fails(result, i, "verification_failed")
    ensures UpdateGoes([Inspected(i)], result, run)
  {
  }

  lemma UpdateContinues(i: Inspection, d: seq<Exchange>, result: TargetResult, run: Run)
    requires ReadsRecorded(i, run.current, run.state, run.recorded) && ExchangeGoes(d, result, run)
    ensures UpdateGoes([Inspected(i)] + d, result, run)
  {
    hide ExchangeGoes;
    assert ([Inspected(i)] + d)[1..] == d;
  }

  lemma ExchangeStops(r: CommandResult, j: Inspection, result: TargetResult, run: Run)
    requires j != Absent && result.status == Failed && result.errorCode == Some(RemoveCode(r))
    ensures ExchangeGoes([Removed(r), Inspected(j)], result, run)
  {
  }

  lemma ExchangeContinues(r: CommandResult, d: seq<Exchange>, result: TargetResult, run: Run)
    requires ReplaceGoes(d, result, run)
    ensures ExchangeGoes([Removed(r), Inspected(Absent)] + d, result, run)
  {
    hide ReplaceGoes;
    assert ([Removed(r), Inspected(Absent)] + d)[2..] == d;
  }

  lemma ReplaceEnds(r: CommandResult, i: Inspection, result: TargetResult, run: Run)
    requires i != Absent
    requires if ReadsCurrent(i, run.current) then result.status == Updated else RollsBackInVain(result)
    ensures ReplaceGoes([Added(run.current, r), Inspected(i)], result, run)
  {
  }

  lemma ReplacePutsBack(r: CommandResult, back: CommandResult, i: Inspection, result: TargetResult, run: Run)
    requires run.recorded.Some?
    requires if back.exitCode == 0 && ReadsRecorded(i, run.current, run.state, run.recorded)
             then result.status == RollbackRestored &&
                  result.errorCode == Some(CommandFailureCode(r, "install_failed"))
             else RollsBackInVain(result)
    ensures ReplaceGoes([Added(run.current, r), Inspected(Absent)] +
                        [Added(run.recorded.value.identity, back), Inspected(i)], result, run)
  {
  }

  lemma RemovalStops(i: Inspection, result: TargetResult, run: Run)
    requires !Owned(i, run) && Fails(result, i, "verification_failed")
    ensures RemovalGoes([Inspected(i)], result, run)
  {
  }

  lemma RemovalEnds(i: Inspection, r: CommandResult, j: Inspection, result: TargetResult, run: Run)
    requires Owned(i, run)
    requires if j == Absent then result.status == Uninstalled else Fails(result, j, RemoveCode(r))
    ensures RemovalGoes([Inspected(i), Removed(r), Inspected(j)], result, run)
  {
  }

  lemma UninstallContinues(i: Inspection, d: seq<Exchange>, result: TargetResult, run: Run)
    requires i.Present? && Owned(i, run) && RemovalGoes(d, result, run)
    ensures UninstallGoes([Inspected(i)] + d, result, run)
  {
    hide RemovalGoes;
    assert ([Inspected(i)] + d)[1..] == d;
  }

  lemma UninstallStops(i: Inspection, status: TargetResult, result: TargetResult, run: Run)
    requires Inquired(i, status, run.current, run.state, run.recorded)
    requires status.status in {IsAbsent, IsUnverifiable, IsUnavailable, IsForeign}
    requires if status.status == IsForeign then Preserves(result) else result == status
    ensures UninstallGoes([Inspected(i)], result, run)
  {
  }

  // ---------------------------------------------------------------- status

  function StatusOf(i: Inspection, ownership: Ownership): Status {
    match i
    case Absent => IsAbsent
    case Unverifiable(_) => IsUnverifiable
    case Unavailable(_) => IsUnavailable
    case Present(_) =>
      if ownership == Current then OwnedCurrent
      else if ownership == Recognized then OwnedRecognized
      else IsForeign
  }

  /** Inspects once and changes nothing. */
  method StatusTarget(cli: Cli, target: Target, current: Identity, m: Manifest, state: ManifestState)
    returns (result: TargetResult, i: Inspection)
    modifies cli
    ensures cli.trace == old(cli.trace) + [Inspected(i)]
    ensures result.agent == target.agent && result.detected && !result.changed
    ensures result.ownership == Classify(i, current, state, Lookup(m, target.agent))
    ensures result.status == StatusOf(i, result.ownership)
    ensures Inquired(i, result, current, state, Lookup(m, target.agent))
    ensures result.errorCode == None ==> state != ManifestInvalid && (i.Absent? || i.Present?)
  {
    i := cli.Inspect();
    var ownership := Classify(i, current, state, Lookup(m, target.agent));
    var code := match i case Unverifiable(code) => Some(code) case Unavailable(code) => Some(code) case _ => None;
    if state == ManifestInvalid && code == None { code := Some("ownership_manifest_invalid"); }
    result := TargetResult(target.agent, true, StatusOf(i, ownership), ownership, false, code);
  }

  // ---------------------------------------------------------------- install

  /** How an install leaves the shared map: this agent's entry alone, and only when it succeeded. */
  twostate predicate Installs(m: Manifest, agent: string, current: Identity, now: int, result: TargetResult)
    requires m.targets != null
    reads m.targets
  {
    && (result.changed <==> result.status in {Installed, Updated}) && result.status != Uninstalled
    && m.targets.entries ==
         if result.changed then old(m.targets.entries)[agent := Recorded(USER, current, now)]
         else old(m.targets.entries)
  }

  /** What a reported status stands for, in terms of the last exchanges. */
  ghost predicate Reports(trace: seq<Exchange>, result: TargetResult, run: Run) {
    && LastReadSome(trace)
    && (result.status in {Installed, Updated, AlreadyInstalled} ==> LastRead(trace, Present(Entry(run.current, USER))))
    && (result.status in {Installed, Updated} ==> JustAdded(trace, run.current))
    && (result.status == RollbackRestored ==> Restored(trace, run.current, run.recorded))
    && (result.status == IsAbsent ==> LastRead(trace, Absent))
    && (result.status == Uninstalled ==> LastRead(trace, Absent) && |trace| > 1 && trace[|trace| - 2].Removed?)
    && (result.status == ForeignPreserved ==>
         Classify(trace[|trace| - 1].inspection, run.current, run.state, run.recorded) == Foreign)
    && OwnerReported(trace[|trace| - 1].inspection, result)
  }

  /** The reported owner of the entry, where the status promises one. */
  predicate OwnerReported(last: Inspection, result: TargetResult) {
    && (result.status in {Installed, Updated, AlreadyInstalled} ==> result.ownership == Current)
    && (result.status == RollbackRestored ==> result.ownership == Recognized)
    && (result.status == ForeignPreserved ==> result.ownership == Foreign)
    && (result.status in {IsAbsent, Uninstalled} ==> result.ownership == Nobody)
    && (result.status == RollbackFailed ==> result.ownership == OwnershipForInspection(last))
  }

  /** Successful changes carry no error; everything kept, restored or lost carries its own. */
  predicate ErrorReported(result: TargetResult) {
    && (result.status in {Installed, Updated, Uninstalled} ==> result.errorCode == None)
    && (result.status == ForeignPreserved ==> result.errorCode == Some("conflicting_entry"))
    && (result.status == RollbackFailed ==> result.errorCode == Some("rollback_failed"))
    && (result.status in {Failed, RollbackRestored, IsUnavailable, IsUnverifiable} ==> result.errorCode.Some?)
  }

  /** The exchange before the last inspection asked for this identity. */
  ghost predicate JustAdded(trace: seq<Exchange>, identity: Identity) {
    |trace| > 1 && trace[|trace| - 2].Added? && trace[|trace| - 2].identity == identity
  }

  /** The identity on record was asked for again, without an error, and then read. */
  ghost predicate Restored(trace: seq<Exchange>, current: Identity, recorded: Option<Recorded>) {
    && recorded.Some? && recorded.value.identity != current &&
         LastRead(trace, Present(Entry(recorded.value.identity, USER)))
    && JustAdded(trace, recorded.value.identity) && trace[|trace| - 2].result.exitCode == 0
  }

  method InstallAbsent(cli: Cli, target: Target, current: Identity, m: Manifest, start: TargetResult,
                       manifestChanged: bool, now: int, ghost run: Run)
    returns (result: TargetResult, changed: bool)
    requires m.targets != null && start.status == IsAbsent && !start.changed
    requires run.current == current && run.recorded == Lookup(m, target.agent)
    requires run.from < |cli.trace| && LastRead(cli.trace, Absent) && Disciplined(cli.trace, run)
    requires NeverRemoves(cli.trace, run.from)
    modifies cli, m.targets
    ensures old(cli.trace) <= cli.trace && Disciplined(cli.trace, run) && NeverRemoves(cli.trace, run.from)
    ensures result.status in {Installed, Failed} && result.agent == start.agent && result.detected == start.detected
    ensures AbsentGoes(cli.trace[|old(cli.trace)|..], result, run)
    ensures Reports(cli.trace, result, run)
    ensures Installs(m, target.agent, current, now, result)
    ensures changed <==> manifestChanged || result.changed
    ensures ErrorReported(result)
  {
    hide Disciplined;
    var addResult, i := AddAndInspect(cli, current, run);
    if i.Present? && Classify(i, current, ManifestMissing, Lookup(m, target.agent)) == Current {
      result := start.(status := Installed, ownership := Current, changed := true, errorCode := None);
      var _ := RecordManifestIdentity(m, target.agent, current, now);
      return result, true;
    }
    result := start.(status := Failed, ownership := OwnershipForInspection(i),
      errorCode := Some(CommandFailureCode(addResult, "install_failed")));
    changed := manifestChanged;
  }

  lemma PlainReport(trace: seq<Exchange>, i: Inspection, result: TargetResult, run: Run)
    requires LastRead(trace, i)
    requires result.status == Failed ||
      (result.status == RollbackFailed && result.ownership == OwnershipForInspection(i))
    ensures Reports(trace, result, run)
  {
  }

  lemma AddedReport(before: seq<Exchange>, trace: seq<Exchange>, r: CommandResult, i: Inspection, result: TargetResult,
                    run: Run)
    requires Grew(before, trace, [Added(run.current, r), Inspected(i)]) && result.status in {Installed, Updated}
    requires result.ownership == Current
    requires Classify(i, run.current, ManifestMissing, run.recorded) == Current
    ensures Reports(trace, result, run)
  {
  }

  lemma RestoredReport(before: seq<Exchange>, trace: seq<Exchange>, r: CommandResult, i: Inspection,
                       result: TargetResult, run: Run)
    requires run.recorded.Some? && Grew(before, trace, [Added(run.recorded.value.identity, r), Inspected(i)])
    requires result.status == RollbackRestored && result.ownership == Recognized && r.exitCode == 0
    requires Classify(i, run.current, ManifestValid, run.recorded) == Recognized
    ensures Reports(trace, result, run)
  {
  }

  /** The second half of an update, once the old entry is gone: add the current identity, and if that
      leaves nothing, put the old one back. */
  method ReplaceOrRestore(cli: Cli, target: Target, current: Identity, was: Identity, m: Manifest, start: TargetResult,
                          manifestChanged: bool, now: int, ghost run: Run)
    returns (result: TargetResult, changed: bool)
    requires m.targets != null && start.status == OwnedRecognized && !start.changed
    requires run.current == current && run.state == ManifestValid && run.recorded == Lookup(m, target.agent)
    requires run.recorded.Some? && was == run.recorded.value.identity && Ours(was, run)
    requires run.from < |cli.trace| && LastRead(cli.trace, Absent) && Disciplined(cli.trace, run)
    modifies cli, m.targets
    ensures old(cli.trace) <= cli.trace && Disciplined(cli.trace, run)
    ensures result.status in {Updated, RollbackRestored, RollbackFailed}
    ensures result.agent == start.agent && result.detected == start.detected
    ensures ReplaceGoes(cli.trace[|old(cli.trace)|..], result, run)
    ensures Reports(cli.trace, result, run)
    ensures Installs(m, target.agent, current, now, result)
    ensures changed <==> manifestChanged || result.changed
    ensures ErrorReported(result)
  {
    hide Disciplined, Reports, Grew, LastRead, Ours, Classify, ReplaceGoes, ReadsRecorded;
    result, changed := start, manifestChanged;
    assert Ours(current, run) by { CurrentIsOurs(run); }
    ghost var removed := cli.trace;
    var addResult, post := AddAndInspect(cli, current, run);
    ghost var added := cli.trace;
    ClassifyExact(post, current, ManifestMissing, Lookup(m, target.agent));
    CutGrew(removed, added, added, [Added(current, addResult), Inspected(post)]);
    if post.Present? && Classify(post, current, ManifestMissing, Lookup(m, target.agent)) == Current {
      result := start.(status := Updated, ownership := Current, changed := true, errorCode := None);
      AddedReport(removed, cli.trace, addResult, post, result, run);
      ReplaceEnds(addResult, post, result, run);
      var _ := RecordManifestIdentity(m, target.agent, current, now);
      return result, true;
    }
    if !post.Absent? {
      result := start.(status := RollbackFailed, ownership := OwnershipForInspection(post),
                       errorCode := Some("rollback_failed"));
      PlainReport(cli.trace, post, result, run);
      ReplaceEnds(addResult, post, result, run);
      return;
    }
    ghost var failed := cli.trace;
    var rollbackResult, back := AddAndInspect(cli, was, run);
    ClassifyExact(back, current, ManifestValid, Lookup(m, target.agent));
    CutTwice(removed, failed, cli.trace, cli.trace, [Added(current, addResult), Inspected(Absent)],
             [Added(was, rollbackResult), Inspected(back)]);
    if rollbackResult.exitCode == 0 && Classify(back, current, ManifestValid, Lookup(m, target.agent)) == Recognized {
      result := start.(status := RollbackRestored, ownership := Recognized, changed := false,
        errorCode := Some(CommandFailureCode(addResult, "install_failed")));
      RestoredReport(failed, cli.trace, rollbackResult, back, result, run);
      ReplacePutsBack(addResult, rollbackResult, back, result, run);
      return;
    }
    result := start.(status := RollbackFailed, ownership := OwnershipForInspection(back),
                     errorCode := Some("rollback_failed"));
    PlainReport(cli.trace, back, result, run);
    ReplacePutsBack(addResult, rollbackResult, back, result, run);
  }

  lemma CurrentIsOurs(run: Run)
    ensures Ours(run.current, run)
  {
  }

  lemma RecordedIsOurs(i: Inspection, run: Run)
    requires Classify(i, run.current, run.state, run.recorded) == Recognized
    ensures run.recorded.Some? && Ours(run.recorded.value.identity, run)
  {
  }

  method UpdateRecognized(cli: Cli, target: Target, current: Identity, m: Manifest, start: TargetResult,
                          manifestChanged: bool, now: int, ghost run: Run)
    returns (result: TargetResult, changed: bool)
    requires m.targets != null && start.status == OwnedRecognized && !start.changed
    requires run.current == current && run.state == ManifestValid && run.recorded == Lookup(m, target.agent)
    requires LastReadSome(cli.trace) && Disciplined(cli.trace, run)
    modifies cli, m.targets
    ensures old(cli.trace) <= cli.trace && Disciplined(cli.trace, run)
    ensures result.status in {ForeignPreserved, Updated, Failed, RollbackRestored, RollbackFailed}
    ensures result.agent == start.agent && result.detected == start.detected
    ensures if result.status == ForeignPreserved then run.recorded == None
            else Reports(cli.trace, result, run) && UpdateGoes(cli.trace[|old(cli.trace)|..], result, run)
    ensures Installs(m, target.agent, current, now, result)
    ensures changed <==> manifestChanged || result.changed
    ensures ErrorReported(result)
  {
    result, changed := start, manifestChanged;
    if target.agent !in m.targets.entries {
      result := start.(status := ForeignPreserved, ownership := Foreign, errorCode := Some("conflicting_entry"));
      return;
    }
    hide Disciplined, Reports, Grew, LastRead, Classify, Fails, ExchangeGoes, UpdateGoes, ReadsRecorded, ErrorReported;
    ghost var before := cli.trace;
    var recheck := Reinspect(cli, run);
    ghost var rechecked := cli.trace;
    CutGrew(before, rechecked, cli.trace, [Inspected(recheck)]);
    ClassifyExact(recheck, current, ManifestValid, Lookup(m, target.agent));
    if Classify(recheck, current, ManifestValid, Lookup(m, target.agent)) != Recognized {
      result := start.(status := Failed, ownership := OwnershipForInspection(recheck),
                       errorCode := Some("verification_failed"));
      PlainReport(cli.trace, recheck, result, run);
      PlainError(result);
      FailsWhen(result, recheck, "verification_failed");
      UpdateStops(recheck, result, run);
      return;
    }
    result, changed := ExchangeRecorded(cli, target, current, m, start, manifestChanged, now, recheck, run);
    UpdateContinues(recheck, cli.trace[|rechecked|..], result, run);
    CutGrew(before, rechecked, cli.trace, [Inspected(recheck)]);
  }

  /** The part of an update after the second look: the recorded entry is removed and replaced. */
  method ExchangeRecorded(cli: Cli, target: Target, current: Identity, m: Manifest, start: TargetResult,
                          manifestChanged: bool, now: int, ghost recheck: Inspection, ghost run: Run)
    returns (result: TargetResult, changed: bool)
    requires m.targets != null && start.status == OwnedRecognized && !start.changed
    requires run.current == current && run.state == ManifestValid && run.recorded == Lookup(m, target.agent)
    requires Classify(recheck, current, ManifestValid, run.recorded) == Recognized && LastRead(cli.trace, recheck)
    requires run.from < |cli.trace| && Disciplined(cli.trace, run)
    modifies cli, m.targets
    ensures old(cli.trace) <= cli.trace && Disciplined(cli.trace, run)
    ensures result.status in {Updated, Failed, RollbackRestored, RollbackFailed}
    ensures result.agent == start.agent && result.detected == start.detected
    ensures Reports(cli.trace, result, run) && ExchangeGoes(cli.trace[|old(cli.trace)|..], result, run)
    ensures Installs(m, target.agent, current, now, result)
    ensures changed <==> manifestChanged || result.changed
    ensures ErrorReported(result)
  {
    hide Disciplined, Reports, Grew, LastRead, Classify, ReplaceGoes, ExchangeGoes, Ours, ReadsRecorded, ErrorReported;
    result, changed := start, manifestChanged;
    ghost var before := cli.trace;
    RecordedIsOurs(recheck, run);
    var was := m.targets.entries[target.agent].identity;
    var removeResult, removedState := RemoveAndInspect(cli, recheck, run);
    ghost var removed := cli.trace;
    CutGrew(before, removed, cli.trace, [Removed(removeResult), Inspected(removedState)]);
    if !removedState.Absent? {
      result := start.(status := Failed,
          errorCode := Some(if removeResult.exitCode != 0 then "remove_failed" else "verification_failed"));
      PlainReport(cli.trace, removedState, result, run);
      PlainError(result);
      ExchangeStops(removeResult, removedState, result, run);
      return;
    }
    result, changed := ReplaceOrRestore(cli, target, current, was, m, start, manifestChanged, now, run);
    ExchangeContinues(removeResult, cli.trace[|removed|..], result, run);
    CutGrew(before, removed, cli.trace, [Removed(removeResult), Inspected(Absent)]);
  }

  lemma FailsWhen(result: TargetResult, last: Inspection, code: string)
    requires result.status == Failed && result.ownership == OwnershipForInspection(last)
    requires result.errorCode == Some(code)
    ensures Fails(result, last, code)
  {
  }

  lemma CutTwice(before: seq<Exchange>, first: seq<Exchange>, second: seq<Exchange>, after: seq<Exchange>,
                 x: seq<Exchange>, y: seq<Exchange>)
    requires Grew(before, first, x) && Grew(first, second, y) && second <= after
    ensures |before| <= |after| && after[|before|..] == x + (y + after[|second|..])
    ensures after == second ==> after[|before|..] == x + y
  {
    CutGrew(before, first, after, x);
    CutGrew(first, second, after, y);
  }

  /** The installs that end with their first inspection. */
  predicate EndsAtOnce(target: Target, allowCodexAdd: bool, status: TargetResult, result: TargetResult) {
    match status.status
    case OwnedCurrent => result == status.(status := AlreadyInstalled)
    case IsForeign => result == status.(status := ForeignPreserved, errorCode := Some("conflicting_entry"))
    case IsAbsent => !MayAdd(target, allowCodexAdd) &&
      result == status.(status := IsUnavailable, ownership := Unknown, errorCode := Some("install_failed"))
    case OwnedRecognized => !target.duplicateAddSafe &&
      result == status.(status := IsUnavailable, errorCode := Some("install_failed"))
    case _ => result == status
  }

  lemma InstallStops(target: Target, allowCodexAdd: bool, i: Inspection, status: TargetResult, result: TargetResult,
                     run: Run)
    requires Inquired(i, status, run.current, run.state, run.recorded) && status.status == StatusOf(i, status.ownership)
    requires EndsAtOnce(target, allowCodexAdd, status, result)
    ensures InstallGoes(target, allowCodexAdd, [Inspected(i)], result, run)
    ensures ErrorReported(result) && (result.errorCode == None ==> result.status == AlreadyInstalled)
  {
  }

  lemma StopReport(trace: seq<Exchange>, target: Target, allowCodexAdd: bool, i: Inspection, status: TargetResult,
                   result: TargetResult, run: Run)
    requires LastRead(trace, i) && status.ownership == Classify(i, run.current, run.state, run.recorded)
    requires status.status == StatusOf(i, status.ownership) && EndsAtOnce(target, allowCodexAdd, status, result)
    ensures Reports(trace, result, run)
  {
  }

  lemma AbsentContinues(target: Target, allowCodexAdd: bool, d: seq<Exchange>, result: TargetResult, run: Run)
    requires MayAdd(target, allowCodexAdd) && AbsentGoes(d, result, run)
    ensures InstallGoes(target, allowCodexAdd, [Inspected(Absent)] + d, result, run)
  {
    hide AbsentGoes;
    assert ([Inspected(Absent)] + d)[1..] == d;
  }

  lemma RecordedContinues(target: Target, allowCodexAdd: bool, i: Inspection, d: seq<Exchange>, result: TargetResult,
                          run: Run)
    requires target.duplicateAddSafe && ReadsRecorded(i, run.current, run.state, run.recorded)
    requires UpdateGoes(d, result, run)
    ensures InstallGoes(target, allowCodexAdd, [Inspected(i)] + d, result, run)
  {
    hide UpdateGoes;
    assert ([Inspected(i)] + d)[1..] == d;
  }

  method InstallTarget(cli: Cli, target: Target, current: Identity, m: Manifest, state: ManifestState,
                       manifestChanged: bool, allowCodexAdd: bool, now: int)
    returns (result: TargetResult, changed: bool, ghost run: Run)
    requires m.targets != null
    modifies cli, m.targets
    ensures run == Run(|old(cli.trace)|, current, state, old(Lookup(m, target.agent)))
    ensures old(cli.trace) <= cli.trace && result.agent == target.agent && result.detected
    ensures Disciplined(cli.trace, run)
    ensures InstallGoes(target, allowCodexAdd, cli.trace[run.from..], result, run)
    ensures !target.duplicateAddSafe ==> NeverRemoves(cli.trace, run.from)
    ensures !target.duplicateAddSafe && !(target.agent == CODEX && allowCodexAdd) ==> NeverAdds(cli.trace, run.from)
    ensures Reports(cli.trace, result, run)
    ensures Installs(m, target.agent, current, now, result)
    ensures changed <==> manifestChanged || result.changed
    ensures ErrorReported(result)
    ensures result.errorCode == None ==> result.status in {AlreadyInstalled, Installed, Updated}
  {
    hide Disciplined, Reports, Grew, LastRead, ErrorReported, Classify, InstallGoes, AbsentGoes, UpdateGoes, Inquired,
         ReadsRecorded, StatusOf;
    run := Run(|cli.trace|, current, state, Lookup(m, target.agent));
    ghost var before := cli.trace;
    var status, i := StatusTarget(cli, target, current, m, state);
    ghost var inspected := cli.trace;
    FirstInspection(before, i, run);
    FirstGrew(before, i);
    CutGrew(before, inspected, cli.trace, [Inspected(i)]);
    result, changed := status, manifestChanged;
    match status.status {
      case OwnedCurrent =>
        result := status.(status := AlreadyInstalled);
      case IsForeign =>
        result := status.(status := ForeignPreserved, errorCode := Some("conflicting_entry"));
      case IsAbsent =>
        if !target.duplicateAddSafe && !(target.agent == CODEX && allowCodexAdd) {
          result := status.(status := IsUnavailable, ownership := Unknown, errorCode := Some("install_failed"));
        } else {
          result, changed := InstallAbsent(cli, target, current, m, status, manifestChanged, now, run);
          ErrorUnlessDone(result);
          AbsentContinues(target, allowCodexAdd, cli.trace[|inspected|..], result, run);
          CutGrew(before, inspected, cli.trace, [Inspected(i)]);
          return;
        }
      case OwnedRecognized =>
        if !target.duplicateAddSafe {
          result := status.(status := IsUnavailable, errorCode := Some("install_failed"));
        } else {
          RecognizedMeans(i, status, run);
          result, changed := UpdateRecognized(cli, target, current, m, status, manifestChanged, now, run);
          ErrorUnlessDone(result);
          RecordedContinues(target, allowCodexAdd, i, cli.trace[|inspected|..], result, run);
          CutGrew(before, inspected, cli.trace, [Inspected(i)]);
          return;
        }
      case _ =>
    }
    InstallStops(target, allowCodexAdd, i, status, result, run);
    StopReport(cli.trace, target, allowCodexAdd, i, status, result, run);
  }

  lemma ErrorUnlessDone(result: TargetResult)
    requires ErrorReported(result)
    requires result.status in {Installed, Updated, Failed, ForeignPreserved, RollbackRestored, RollbackFailed}
    ensures result.errorCode == None ==> result.status in {Installed, Updated}
  {
  }

  lemma RecognizedMeans(i: Inspection, status: TargetResult, run: Run)
    requires Inquired(i, status, run.current, run.state, run.recorded) && status.status == OwnedRecognized
    ensures ReadsRecorded(i, run.current, run.state, run.recorded)
    ensures run.state == ManifestValid && run.recorded.Some?
  {
  }

  // ---------------------------------------------------------------- uninstall

  /** How an uninstall leaves the shared map: only this agent's entry may go. */
  twostate predicate Uninstalls(m: Manifest, agent: string, result: TargetResult)
    requires m.targets != null
    reads m.targets
  {
    && (result.changed <==> result.status == Uninstalled) && result.status !in {Installed, Updated}
    && m.targets.entries == if result.changed then old(m.targets.entries) - {agent} else old(m.targets.entries)
  }

  lemma FirstInspection(before: seq<Exchange>, i: Inspection, run: Run)
    requires run.from == |before|
    ensures var trace := before + [Inspected(i)]; Disciplined(trace, run) && LastRead(trace, i)
  {
  }

  /** What one inspection by itself reports. */
  lemma FirstReport(trace: seq<Exchange>, i: Inspection, result: TargetResult, run: Run)
    requires LastRead(trace, i) && result.ownership == Classify(i, run.current, run.state, run.recorded)
    requires result.status in {IsAbsent, IsUnverifiable, IsUnavailable, ForeignPreserved}
    requires if result.status == ForeignPreserved then result.ownership == Foreign
             else result.status == StatusOf(i, result.ownership)
    ensures Reports(trace, result, run)
  {
  }

  lemma PlainError(result: TargetResult)
    requires result.status in {IsAbsent, Failed, IsUnavailable, IsUnverifiable, Uninstalled}
    requires result.status in {Failed, IsUnavailable, IsUnverifiable} ==> result.errorCode.Some?
    requires result.status == Uninstalled ==> result.errorCode == None
    ensures ErrorReported(result)
  {
  }

  lemma ConflictError(result: TargetResult)
    requires result.status == ForeignPreserved && result.errorCode == Some("conflicting_entry")
    ensures ErrorReported(result)
  {
  }

  lemma RemovedReport(before: seq<Exchange>, trace: seq<Exchange>, r: CommandResult, result: TargetResult, run: Run)
    requires Grew(before, trace, [Removed(r), Inspected(Absent)]) && result.status == Uninstalled
    requires result.ownership == Nobody
    ensures Reports(trace, result, run)
  {
  }

  method UninstallTarget(cli: Cli, target: Target, current: Identity, m: Manifest, state: ManifestState,
                         manifestChanged: bool)
    returns (result: TargetResult, changed: bool, ghost run: Run)
    requires m.targets != null
    modifies cli, m.targets
    ensures run == Run(|old(cli.trace)|, current, state, old(Lookup(m, target.agent)))
    ensures old(cli.trace) <= cli.trace && result.agent == target.agent && result.detected
    ensures Disciplined(cli.trace, run) && NeverAdds(cli.trace, run.from)
    ensures UninstallGoes(cli.trace[run.from..], result, run)
    ensures Reports(cli.trace, result, run)
    ensures Uninstalls(m, target.agent, result)
    ensures changed <==> manifestChanged || result.changed
    ensures ErrorReported(result)
    ensures result.errorCode == None ==> result.status in {IsAbsent, Uninstalled}
  {
    run := Run(|cli.trace|, current, state, Lookup(m, target.agent));
    hide Disciplined, Reports, Grew, LastRead, LastReadSome, OwnerReported, ErrorReported, Classify, UninstallGoes,
         RemovalGoes, Inquired, Fails, StatusOf;
    ghost var before := cli.trace;
    var status, i := StatusTarget(cli, target, current, m, state);
    ghost var inspected := cli.trace;
    FirstInspection(before, i, run);
    InquiredStatus(i, status, run);
    assert Grew(before, inspected, [Inspected(i)]) by { FirstGrew(before, i); }
    result, changed := status, manifestChanged;
    if status.status in {IsAbsent, IsUnverifiable, IsUnavailable} {
      FirstReport(cli.trace, i, result, run);
      PlainError(result);
      UninstallStops(i, status, result, run);
      CutGrew(before, inspected, cli.trace, [Inspected(i)]);
      return;
    }
    if status.status == IsForeign {
      result := status.(status := ForeignPreserved, errorCode := Some("conflicting_entry"));
      FirstReport(cli.trace, i, result, run);
      assert ErrorReported(result) by { ConflictError(result); }
      UninstallStops(i, status, result, run);
      CutGrew(before, inspected, cli.trace, [Inspected(i)]);
      return;
    }
    result, changed := RemoveOwned(cli, target, current, m, state, status, manifestChanged, run);
    UninstallContinues(i, cli.trace[|inspected|..], result, run);
    CutGrew(before, inspected, cli.trace, [Inspected(i)]);
  }

  lemma FirstGrew(before: seq<Exchange>, i: Inspection)
    ensures Grew(before, before + [Inspected(i)], [Inspected(i)])
  {
  }

  lemma InquiredStatus(i: Inspection, status: TargetResult, run: Run)
    requires Inquired(i, status, run.current, run.state, run.recorded) && status.status == StatusOf(i, status.ownership)
    ensures status.status in {IsAbsent, IsUnverifiable, IsUnavailable, IsForeign, OwnedCurrent, OwnedRecognized}
    ensures status.status in {OwnedCurrent, OwnedRecognized} ==> i.Present? && Owned(i, run)
    ensures status.status in {IsUnverifiable, IsUnavailable} ==> status.errorCode.Some?
  {
  }

  /** The second half of an uninstall, after an inspection that read an entry of ours. */
  method RemoveOwned(cli: Cli, target: Target, current: Identity, m: Manifest, state: ManifestState,
                     start: TargetResult, manifestChanged: bool, ghost run: Run)
    returns (result: TargetResult, changed: bool)
    requires m.targets != null && !start.changed
    requires run.current == current && run.state == state && run.recorded == Lookup(m, target.agent)
    requires Disciplined(cli.trace, run) && NeverAdds(cli.trace, run.from)
    modifies cli, m.targets
    ensures old(cli.trace) <= cli.trace && result.agent == start.agent && result.detected == start.detected
    ensures Disciplined(cli.trace, run) && NeverAdds(cli.trace, run.from)
    ensures RemovalGoes(cli.trace[|old(cli.trace)|..], result, run)
    ensures Reports(cli.trace, result, run)
    ensures Uninstalls(m, target.agent, result)
    ensures changed <==> manifestChanged || result.changed
    ensures ErrorReported(result) && result.status in {Failed, Uninstalled}
  {
    hide Disciplined, Reports, Grew, LastRead, LastReadSome, OwnerReported, ErrorReported, Classify, RemovalGoes, Fails;
    result, changed := start, manifestChanged;
    ghost var before := cli.trace;
    var recheck := Reinspect(cli, run);
    ghost var rechecked := cli.trace;
    NoAddsYet(before, rechecked, [Inspected(recheck)], run.from);
    ClassifyExact(recheck, current, state, Lookup(m, target.agent));
    if Classify(recheck, current, state, Lookup(m, target.agent)) !in {Current, Recognized} {
      result := start.(status := Failed, ownership := OwnershipForInspection(recheck),
                       errorCode := Some("verification_failed"));
      PlainReport(cli.trace, recheck, result, run);
      PlainError(result);
      FailsWhen(result, recheck, "verification_failed");
      RemovalStops(recheck, result, run);
      CutGrew(before, rechecked, cli.trace, [Inspected(recheck)]);
      assert cli.trace[|before|..] == [Inspected(recheck)];
      return;
    }
    var remove, post := RemoveAndInspect(cli, recheck, run);
    ghost var removed := cli.trace;
    NoAddsYet(rechecked, removed, [Removed(remove), Inspected(post)], run.from);
    CutTwice(before, rechecked, removed, cli.trace, [Inspected(recheck)], [Removed(remove), Inspected(post)]);
    assert cli.trace[|before|..] == [Inspected(recheck), Removed(remove), Inspected(post)];
    if !post.Absent? {
      result := start.(status := Failed, ownership := OwnershipForInspection(post),
        errorCode := Some(if remove.exitCode != 0 then "remove_failed" else "verification_failed"));
      PlainReport(cli.trace, post, result, run);
      PlainError(result);
      FailsWhen(result, post, RemoveCode(remove));
      RemovalEnds(recheck, remove, post, result, run);
      return;
    }
    result := start.(status := Uninstalled, ownership := Nobody, changed := true, errorCode := None);
    RemovedReport(rechecked, cli.trace, remove, result, run);
    PlainError(result);
    RemovalEnds(recheck, remove, post, result, run);
    m.targets.entries := m.targets.entries - {target.agent};
    changed := true;
  }

  lemma NoAddsYet(before: seq<Exchange>, after: seq<Exchange>, more: seq<Exchange>, from: nat)
    requires Grew(before, after, more) && NeverAdds(before, from) && from <= |before|
    requires forall i | 0 <= i < |more| :: !more[i].Added?
    ensures NeverAdds(after, from)
  {
  }
}
