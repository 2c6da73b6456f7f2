/** The loop over the agents, the manifest file, and the bounded capture of a command's output. */
module McpManage {
  import opened Text
  import opened McpConfig
  import opened Ordering

  // ---------------------------------------------------------------- the manifest on disk

  const MANIFEST_VERSION := 1

  predicate UnsafePathText(s: string) {
    TrimSpace(s) == "" || exists i | 0 <= i < |s| :: s[i] < ' ' || s[i] == '\U{7F}'
  }

  predicate IsAbs(path: string) {
    path != "" && path[0] == '/'
  }

  predicate ValidIdentity(identity: Identity) {
    && IsAbs(identity.command) && !UnsafePathText(identity.command)
    && (identity.args == ["mcp"] ||
        (|identity.args| == 3 && identity.args[0] == "mcp" && identity.args[1] == "--home" &&
         IsAbs(identity.args[2]) && !UnsafePathText(identity.args[2])))
  }

  predicate ValidInstallationID(s: string) {
    && |s| >= 5 && s[..5] == "inst_" && 8 <= |s| - 5 <= 128
    && forall i | 5 <= i < |s| ::
         'a' <= s[i] <= 'z' || 'A' <= s[i] <= 'Z' || '0' <= s[i] <= '9' || s[i] == '_' || s[i] == '-'
  }

  predicate ValidEntries(entries: map<string, Recorded>) {
    |entries| <= 2 && forall agent | agent in entries ::
      (agent == CODEX || agent == CLAUDE) && entries[agent].scope == USER && ValidIdentity(entries[agent].identity)
  }

  datatype Snapshot = Snapshot(version: int, installation: string, entries: map<string, Recorded>)

  predicate ValidSnapshot(s: Snapshot, expected: string) {
    && s.version == MANIFEST_VERSION && ValidInstallationID(s.installation)
    && (expected == "" || s.installation == expected) && ValidEntries(s.entries)
  }

  function SnapshotOf(m: Manifest): Snapshot
    requires m.targets != null
    reads m.targets
  {
    Snapshot(m.version, m.installation, m.targets.entries)
  }

  /** The file operations of a write, in their order. */
  datatype Stage = Directory | Destination | Create | Restrict | WriteBody | Sync | Close | Rename

  /** Which operations succeed. */
  type Disk = Stage -> bool

  /** The temporary file: none, one with part of the body, or one with all of it. */
  datatype Temporary = NoTemporary | Torn | Whole(body: Snapshot)

  predicate Works(disk: Disk) {
    && disk(Directory) && disk(Destination) && disk(Create) && disk(Restrict)
    && disk(WriteBody) && disk(Sync) && disk(Close) && disk(Rename)
  }

  class ManifestFile {
    var content: Option<Snapshot>

    constructor (content: Option<Snapshot>)
      ensures this.content == content
    {
      this.content := content;
    }

    /** The body goes to a temporary file, which then takes the old one's place.  `trail` holds the
        file's content after every operation: should the program die in between, the file is the old
        one or, after the rename alone, the whole new one. */
    method Write(m: Manifest, disk: Disk) returns (ok: bool, ghost trail: seq<Option<Snapshot>>)
      requires m.targets != null
      modifies this
      ensures ok <==> Works(disk) && ValidSnapshot(SnapshotOf(m), m.installation)
      ensures content == if ok then Some(SnapshotOf(m)) else old(content)
      ensures |trail| <= 8 && (|trail| == 8 <==> ok)
      ensures forall i | 0 <= i < |trail| :: trail[i] == if i == 7 then Some(SnapshotOf(m)) else old(content)
    {
      hide ValidSnapshot;
      ok, trail := false, [];
      var body := SnapshotOf(m);
      if !ValidSnapshot(body, m.installation) { return; }
      if !disk(Directory) { return; }
      trail := trail + [content];
      if !disk(Destination) { return; }
      trail := trail + [content];
      var temporary := NoTemporary;
      if !disk(Create) { return; }
      temporary := Torn;
      trail := trail + [content];
      if !disk(Restrict) { return; }
      trail := trail + [content];
      if !disk(WriteBody) { return; }
      temporary := Whole(body);
      trail := trail + [content];
      if !disk(Sync) { return; }
      trail := trail + [content];
      if !disk(Close) { return; }
      trail := trail + [content];
      if !disk(Rename) { return; }
      content := Some(temporary.body);
      trail := trail + [content];
      ok := true;
    }
  }

  lemma KeysBound(entries: map<string, Recorded>)
    requires forall agent | agent in entries :: agent == CODEX || agent == CLAUDE
    ensures |entries| <= 2
  {
    var both := {CODEX, CLAUDE};
    assert entries.Keys <= both;
    SubsetCount(entries.Keys, both);
    assert |both| <= 2;
  }

  // ---------------------------------------------------------------- one agent

  datatype Op = Install | Inquire | Uninstall

  /** An agent whose command line was not found has none. */
  datatype Adapter = Adapter(target: Target, cli: Cli?)

  function Find(entries: map<string, Recorded>, agent: string): Option<Recorded> {
    if agent in entries then Some(entries[agent]) else None
  }

  /** The agent's record after its turn. */
  function RecordAfter(op: Op, changed: bool, current: Identity, now: int, before: Option<Recorded>): Option<Recorded> {
    if !changed then before else if op == Install then Some(Recorded(USER, current, now)) else None
  }

  /** What one agent's turn must do: its exchanges with the command line, and the status they call for. */
  ghost predicate Goes(op: Op, target: Target, allowCodexAdd: bool, d: seq<Exchange>, result: TargetResult, run: Run) {
    match op
    case Inquire => InquiryGoes(d, result, run)
    case Install => InstallGoes(target, allowCodexAdd, d, result, run)
    case Uninstall => UninstallGoes(d, result, run)
  }

  /** The result for an agent whose command line was not found. */
  ghost predicate NotFound(op: Op, agent: string, result: TargetResult) {
    result ==
      if op == Install then TargetResult(agent, false, SkippedNotDetected, Nobody, false, None)
      else TargetResult(agent, false, IsUnavailable, Unknown, false, Some("cli_not_found"))
  }

  /** What one agent's turn did to its command line, and what its result stands for. */
  ghost predicate Obeys(op: Op, target: Target, allowCodexAdd: bool, trace: seq<Exchange>, result: TargetResult,
                        run: Run) {
    && result.agent == target.agent && result.detected && Disciplined(trace, run)
    && run.from <= |trace| && Goes(op, target, allowCodexAdd, trace[run.from..], result, run)
    && (op != Inquire ==> Reports(trace, result, run))
    && (op == Inquire ==> NeverAdds(trace, run.from) && NeverRemoves(trace, run.from) && !result.changed)
    && (op == Install && !target.duplicateAddSafe ==> NeverRemoves(trace, run.from))
    && (op == Install && !target.duplicateAddSafe && !(target.agent == CODEX && allowCodexAdd) ==>
         NeverAdds(trace, run.from))
    && (op == Uninstall ==> NeverAdds(trace, run.from))
    && (result.changed <==> result.status in {Installed, Updated, Uninstalled})
  }

  /** Only this agent's record may differ. */
  ghost predicate OthersKept(before: map<string, Recorded>, after: map<string, Recorded>, agent: string) {
    forall other | other != agent :: Find(after, other) == Find(before, other)
  }

  method ManageTarget(op: Op, adapter: Adapter, current: Identity, m: Manifest, state: ManifestState,
                      manifestChanged: bool, allowCodexAdd: bool, now: int)
    returns (result: TargetResult, changed: bool)
    requires m.targets != null
    modifies adapter.cli, m.targets
    ensures result.agent == adapter.target.agent && (result.detected <==> adapter.cli != null)
    ensures adapter.cli != null ==> old(adapter.cli.trace) <= adapter.cli.trace
    ensures adapter.cli != null ==>
      Obeys(op, adapter.target, allowCodexAdd, adapter.cli.trace, result,
            Run(|old(adapter.cli.trace)|, current, state, old(Find(m.targets.entries, adapter.target.agent))))
    ensures adapter.cli == null ==> NotFound(op, adapter.target.agent, result)
    ensures result.changed ==> result.errorCode == None
    ensures OthersKept(old(m.targets.entries), m.targets.entries, adapter.target.agent)
    ensures Find(m.targets.entries, adapter.target.agent) ==
      RecordAfter(op, result.changed, current, now, old(Find(m.targets.entries, adapter.target.agent)))
    ensures changed <==> manifestChanged || result.changed
  {
    var agent := adapter.target.agent;
    changed := manifestChanged;
    if adapter.cli == null {
      result := if op == Install then TargetResult(agent, false, SkippedNotDetected, Nobody, false, None)
                else TargetResult(agent, false, IsUnavailable, Unknown, false, Some("cli_not_found"));
      return;
    }
    ghost var run := Run(|adapter.cli.trace|, current, state, Lookup(m, agent));
    match op {
      case Inquire =>
        var i;
        result, i := StatusTarget(adapter.cli, adapter.target, current, m, state);
      case Install =>
        result, changed, run :=
          InstallTarget(adapter.cli, adapter.target, current, m, state, manifestChanged, allowCodexAdd, now);
      case Uninstall =>
        result, changed, run := UninstallTarget(adapter.cli, adapter.target, current, m, state, manifestChanged);
    }
  }

  // ---------------------------------------------------------------- all agents

  /** Agents are named once and no two share a command line. */
  ghost predicate Separate(adapters: seq<Adapter>) {
    forall i, j | 0 <= i < j < |adapters| ::
      adapters[i].target.agent != adapters[j].target.agent &&
        (adapters[i].cli == null || adapters[i].cli != adapters[j].cli)
  }

  ghost function Clis(adapters: seq<Adapter>): set<object> {
    set a | a in adapters && a.cli != null :: a.cli
  }

  function TraceOf(cli: Cli?): seq<Exchange>
    reads cli
  {
    if cli == null then [] else cli.trace
  }

  /** The turn of agent k, from the state in which the whole run began. */
  twostate predicate TookTurn(op: Op, adapter: Adapter, result: TargetResult, current: Identity, m: Manifest,
                              state: ManifestState, allowCodexAdd: bool)
    requires m.targets != null
    reads adapter.cli
  {
    && old(TraceOf(adapter.cli)) <= TraceOf(adapter.cli)
    && TurnOf(op, adapter, result, allowCodexAdd, TraceOf(adapter.cli),
              Run(|old(TraceOf(adapter.cli))|, current, state, old(Find(m.targets.entries, adapter.target.agent))))
  }

  /** The turn itself, given the history it left behind. */
  ghost predicate TurnOf(op: Op, adapter: Adapter, result: TargetResult, allowCodexAdd: bool, trace: seq<Exchange>,
                         run: Run) {
    && result.agent == adapter.target.agent && (result.detected <==> adapter.cli != null)
    && (if adapter.cli == null then NotFound(op, adapter.target.agent, result)
        else Obeys(op, adapter.target, allowCodexAdd, trace, result, run))
  }

  lemma TurnMarked(op: Op, adapter: Adapter, result: TargetResult, allowCodexAdd: bool, trace: seq<Exchange>, run: Run)
    requires TurnOf(op, adapter, result, allowCodexAdd, trace, run)
    ensures TurnOf(op, adapter, Marked(result), allowCodexAdd, trace, run)
  {
    hide Obeys;
    if adapter.cli != null { ObeysMarked(op, adapter.target, allowCodexAdd, trace, result, run); }
  }

  /** The record of every agent after a run with these results. */
  ghost predicate RecordsFollow(op: Op, before: map<string, Recorded>, after: map<string, Recorded>,
                                results: seq<TargetResult>, current: Identity, now: int) {
    && (forall k | 0 <= k < |results| ::
          Find(after, results[k].agent) ==
            RecordAfter(op, results[k].changed, current, now, Find(before, results[k].agent)))
    && (forall agent: string | NotAmong(agent, results) :: Find(after, agent) == Find(before, agent))
  }

  ghost predicate NotAmong(agent: string, results: seq<TargetResult>) {
    forall k | 0 <= k < |results| :: results[k].agent != agent
  }

  ghost predicate SomeChanged(results: seq<TargetResult>) {
    exists k | 0 <= k < |results| :: results[k].changed
  }

  lemma RecordsStep(op: Op, start: map<string, Recorded>, before: map<string, Recorded>, after: map<string, Recorded>,
                    results: seq<TargetResult>, result: TargetResult, current: Identity, now: int)
    requires RecordsFollow(op, start, before, results, current, now) && NotAmong(result.agent, results)
    requires OthersKept(before, after, result.agent)
    requires Find(after, result.agent) == RecordAfter(op, result.changed, current, now, Find(before, result.agent))
    ensures RecordsFollow(op, start, after, results + [result], current, now)
  {
    var more := results + [result];
    forall k | 0 <= k < |more|
      ensures Find(after, more[k].agent) == RecordAfter(op, more[k].changed, current, now, Find(start, more[k].agent))
    {
      if k < |results| {
        assert more[k] == results[k] && Find(after, results[k].agent) == Find(before, results[k].agent);
      }
    }
    forall agent: string | NotAmong(agent, more) ensures Find(after, agent) == Find(start, agent) {
      assert more[|results|].agent != agent;
      assert NotAmong(agent, results) by { assert forall k | 0 <= k < |results| :: more[k] == results[k]; }
    }
  }

  method RunTargets(op: Op, adapters: seq<Adapter>, current: Identity, m: Manifest, state: ManifestState,
                    allowCodexAdd: bool, now: int)
    returns (results: seq<TargetResult>, changed: bool)
    requires m.targets != null && Separate(adapters)
    modifies Clis(adapters), m.targets
    ensures |results| == |adapters|
    ensures forall k | 0 <= k < |adapters| :: TookTurn(op, adapters[k], results[k], current, m, state, allowCodexAdd)
    ensures RecordsFollow(op, old(m.targets.entries), m.targets.entries, results, current, now)
    ensures changed <==> SomeChanged(results)
    ensures forall k | 0 <= k < |results| && results[k].changed :: results[k].errorCode == None
  {
    hide Obeys, OthersKept, RecordsFollow, RecordAfter, NotAmong, Find;
    results, changed := [], false;
    assert RecordsFollow(op, m.targets.entries, m.targets.entries, results, current, now) by {
      NothingFollows(op, m.targets.entries, current, now);
    }
    for i := 0 to |adapters|
      invariant |results| == i
      invariant forall k | 0 <= k < i :: TookTurn(op, adapters[k], results[k], current, m, state, allowCodexAdd)
      invariant forall k | i <= k < |adapters| :: TraceOf(adapters[k].cli) == old(TraceOf(adapters[k].cli))
      invariant RecordsFollow(op, old(m.targets.entries), m.targets.entries, results, current, now)
      invariant changed <==> SomeChanged(results)
      invariant forall k | 0 <= k < i && results[k].changed :: results[k].errorCode == None
    {
      label Turn:
      var adapter := adapters[i];
      assert adapter in adapters;
      Unnamed(op, old(m.targets.entries), m.targets.entries, results, adapters, i, current, now);
      assert old@Turn(TraceOf(adapter.cli)) == old(TraceOf(adapter.cli));
      var result;
      result, changed := ManageTarget(op, adapter, current, m, state, changed, allowCodexAdd, now);
      assert TookTurn(op, adapter, result, current, m, state, allowCodexAdd);
      assert forall k | 0 <= k < |adapters| && k != i :: TraceOf(adapters[k].cli) == old@Turn(TraceOf(adapters[k].cli));
      RecordsStep(op, old(m.targets.entries), old@Turn(m.targets.entries), m.targets.entries, results, result, current,
                  now);
      results := results + [result];
    }
  }

  lemma NothingFollows(op: Op, entries: map<string, Recorded>, current: Identity, now: int)
    ensures RecordsFollow(op, entries, entries, [], current, now)
  {
  }

  /** An agent whose turn is still to come has the record it started with. */
  lemma Unnamed(op: Op, start: map<string, Recorded>, now_: map<string, Recorded>, results: seq<TargetResult>,
                adapters: seq<Adapter>, i: nat, current: Identity, now: int)
    requires Separate(adapters) && i == |results| < |adapters|
    requires forall k | 0 <= k < i :: results[k].agent == adapters[k].target.agent
    requires RecordsFollow(op, start, now_, results, current, now)
    ensures NotAmong(adapters[i].target.agent, results)
    ensures Find(now_, adapters[i].target.agent) == Find(start, adapters[i].target.agent)
  {
  }

  // ---------------------------------------------------------------- the whole operation

  predicate TargetComplete(op: Op, r: TargetResult) {
    && r.errorCode == None
    && match op
       case Install => r.status in {Installed, AlreadyInstalled, Updated, SkippedNotDetected}
       case Inquire => r.status in {OwnedCurrent, OwnedRecognized, IsAbsent, IsForeign}
       case Uninstall => r.status in {Uninstalled, IsAbsent}
  }

  method OperationComplete(op: Op, results: seq<TargetResult>) returns (complete: bool)
    ensures complete <==> forall k | 0 <= k < |results| :: TargetComplete(op, results[k])
  {
    for i := 0 to |results|
      invariant forall k | 0 <= k < i :: TargetComplete(op, results[k])
    {
      if !TargetComplete(op, results[i]) { return false; }
    }
    return true;
  }

  const MANIFEST_ERROR := "ownership_manifest_invalid"

  /** The error a failed write leaves on every result that changed something. */
  function Marked(r: TargetResult): TargetResult {
    if r.changed then r.(errorCode := Some(MANIFEST_ERROR)) else r
  }

  method MarkChanged(results: seq<TargetResult>) returns (marked: seq<TargetResult>)
    ensures |marked| == |results| && forall k | 0 <= k < |results| :: marked[k] == Marked(results[k])
  {
    marked := results;
    for i := 0 to |results|
      invariant |marked| == |results|
      invariant forall k | 0 <= k < i :: marked[k] == Marked(results[k])
      invariant forall k | i <= k < |results| :: marked[k] == results[k]
    {
      if !marked[i].changed { continue; }
      marked := marked[i := marked[i].(errorCode := Some(MANIFEST_ERROR))];
    }
  }

  lemma ObeysMarked(op: Op, target: Target, allowCodexAdd: bool, trace: seq<Exchange>, result: TargetResult, run: Run)
    requires Obeys(op, target, allowCodexAdd, trace, result, run)
    ensures Obeys(op, target, allowCodexAdd, trace, Marked(result), run)
  {
    hide Disciplined, Reports, InstallGoes, UninstallGoes;
    GoesMarked(op, target, allowCodexAdd, trace[run.from..], result, run);
    if op != Inquire { ReportsMarked(trace, result, run); }
  }

  lemma ReportsMarked(trace: seq<Exchange>, result: TargetResult, run: Run)
    requires Reports(trace, result, run)
    ensures Reports(trace, Marked(result), run)
  {
  }

  lemma GoesMarked(op: Op, target: Target, allowCodexAdd: bool, d: seq<Exchange>, result: TargetResult, run: Run)
    requires Goes(op, target, allowCodexAdd, d, result, run)
    requires result.changed ==> result.status in {Installed, Updated, Uninstalled}
    ensures Goes(op, target, allowCodexAdd, d, Marked(result), run)
  {
    hide Adds, Removes, ReadsRecorded, ReadsCurrent;
  }

  lemma RecordsMarked(op: Op, before: map<string, Recorded>, after: map<string, Recorded>, results: seq<TargetResult>,
                      marked: seq<TargetResult>, current: Identity, now: int)
    requires RecordsFollow(op, before, after, results, current, now)
    requires |marked| == |results| && forall k | 0 <= k < |results| :: marked[k] == Marked(results[k])
    ensures RecordsFollow(op, before, after, marked, current, now)
    ensures SomeChanged(marked) <==> SomeChanged(results)
  {
    hide RecordAfter, Find;
    assert forall k | 0 <= k < |results| ::
      marked[k].agent == results[k].agent && marked[k].changed == results[k].changed;
    forall agent: string | NotAmong(agent, marked) ensures NotAmong(agent, results) {
      assert forall k | 0 <= k < |results| :: marked[k].agent != agent;
    }
    if k :| 0 <= k < |results| && results[k].changed { assert marked[k].changed; }
    if k :| 0 <= k < |results| && marked[k].changed { assert results[k].changed; }
  }

  /** The manifest is valid and every file operation succeeds. */
  predicate Writable(m: Manifest, disk: Disk)
    requires m.targets != null
    reads m.targets
  {
    Works(disk) && ValidSnapshot(SnapshotOf(m), m.installation)
  }

  /** `disk` says which file operations of the final write succeed.  The file gets the new records exactly
      when there are any and they can be written; if they cannot, every changed result says so. */
  method Manage(op: Op, adapters: seq<Adapter>, current: Identity, m: Manifest, state: ManifestState,
                allowCodexAdd: bool, now: int, file: ManifestFile, disk: Disk)
    returns (results: seq<TargetResult>, complete: bool)
    requires m.targets != null && Separate(adapters)
    modifies Clis(adapters), m.targets, file
    ensures |results| == |adapters|
    ensures forall k | 0 <= k < |adapters| :: TookTurn(op, adapters[k], results[k], current, m, state, allowCodexAdd)
    ensures RecordsFollow(op, old(m.targets.entries), m.targets.entries, results, current, now)
    ensures complete <==> forall k | 0 <= k < |results| :: TargetComplete(op, results[k])
    ensures file.content ==
      if SomeChanged(results) && (op == Install || state == ManifestValid) && Writable(m, disk) then Some(SnapshotOf(m))
      else old(file.content)
    ensures forall k | 0 <= k < |results| && results[k].changed ::
      results[k].errorCode ==
        if (op == Install || state == ManifestValid) && !Writable(m, disk) then Some(MANIFEST_ERROR) else None
  {
    hide RecordsFollow, TurnOf, ValidSnapshot;
    var changed;
    results, changed := RunTargets(op, adapters, current, m, state, allowCodexAdd, now);
    if changed && (op == Install || state == ManifestValid) {
      var ok, trail := file.Write(m, disk);
      if !ok {
        ghost var before := results;
        results := MarkChanged(results);
        RecordsMarked(op, old(m.targets.entries), m.targets.entries, before, results, current, now);
        forall k | 0 <= k < |adapters| ensures TookTurn(op, adapters[k], results[k], current, m, state, allowCodexAdd) {
          assert TookTurn(op, adapters[k], before[k], current, m, state, allowCodexAdd);
          TurnMarked(op, adapters[k], before[k], allowCodexAdd, TraceOf(adapters[k].cli),
                     Run(|old(TraceOf(adapters[k].cli))|, current, state,
                         old(Find(m.targets.entries, adapters[k].target.agent))));
        }
      }
    }
    complete := OperationComplete(op, results);
  }

  // ---------------------------------------------------------------- what completion means

  /** What a turn read last. */
  ghost predicate LastReads(op: Op, i: Inspection, run: Run) {
    match op
    case Install => ReadsCurrent(i, run.current)
    case Inquire => (i == Absent || i.Present?) && run.state != ManifestInvalid
    case Uninstall => i == Absent
  }

  /** A turn without an error is complete, and what it read last is what was asked for: the current
      identity after an install, nothing after an uninstall. */
  lemma CompletionIsVerified(op: Op, target: Target, allowCodexAdd: bool, d: seq<Exchange>, result: TargetResult,
                             run: Run)
    requires Goes(op, target, allowCodexAdd, d, result, run) && result.errorCode == None
    ensures d != [] && d[|d| - 1].Inspected?
    ensures TargetComplete(op, result) && LastReads(op, d[|d| - 1].inspection, run)
  {
  }

  /** An agent without a command line is no obstacle to an install, and one to anything else. */
  lemma NotFoundCompletes(op: Op, agent: string, result: TargetResult)
    requires NotFound(op, agent, result)
    ensures result.agent == agent && !result.detected && !result.changed
    ensures TargetComplete(op, result) <==> op == Install
  {
  }

  /** And an error means that it is not. */
  lemma ErrorIsIncomplete(op: Op, result: TargetResult)
    requires result.errorCode.Some?
    ensures !TargetComplete(op, result)
  {
  }

  /** Without the opt-in, an install only ever inspects Codex. */
  lemma CodexIsOnlyInspected(target: Target, trace: seq<Exchange>, result: TargetResult, run: Run, i: nat)
    requires Obeys(Install, target, false, trace, result, run) && !target.duplicateAddSafe && run.from <= i < |trace|
    ensures trace[i].Inspected?
  {
    hide Disciplined, Reports;
    assert !trace[i].Added? && !trace[i].Removed?;
  }

  /** A valid manifest stays one, so only the file system can make its write fail. */
  lemma EntriesStayValid(op: Op, before: map<string, Recorded>, after: map<string, Recorded>,
                         results: seq<TargetResult>, current: Identity, now: int)
    requires ValidEntries(before) && ValidIdentity(current) && RecordsFollow(op, before, after, results, current, now)
    requires forall k | 0 <= k < |results| :: results[k].agent == CODEX || results[k].agent == CLAUDE
    ensures ValidEntries(after)
  {
    hide ValidIdentity;
    forall agent | agent in after
      ensures (agent == CODEX || agent == CLAUDE) && after[agent].scope == USER && ValidIdentity(after[agent].identity)
    {
      if NotAmong(agent, results) {
        assert Find(after, agent) == Find(before, agent);
      } else {
        var k :| 0 <= k < |results| && results[k].agent == agent;
        assert Find(after, agent) == RecordAfter(op, results[k].changed, current, now, Find(before, agent));
      }
    }
    KeysBound(after);
  }

  // ---------------------------------------------------------------- bounded output

  /** Keeps the first `limit` bytes written and remembers whether there were more. */
  class BoundedWriter {
    var buffer: string
    const limit: nat
    var overflow: bool
    ghost var written: string
    ghost var probed: bool

    ghost predicate Valid()
      reads this
    {
      && (buffer == if |written| <= limit then written else written[..limit])
      && (overflow <==> |written| > limit || probed)
    }

    constructor (limit: nat)
      ensures Valid() && this.limit == limit && written == "" && !probed
    {
      buffer, overflow, written, probed := "", false, "", false;
      this.limit := limit;
    }

    /** Always claims to have taken everything, so the command never fails for its output; `overflow`
        tells whether anything was dropped, or an empty write came when the buffer was full. */
    method Write(data: string) returns (n: nat)
      requires Valid()
      modifies this
      ensures Valid() && written == old(written) + data && n == |data|
      ensures probed <==> old(probed) || (data == "" && |old(written)| >= limit)
    {
      n := |data|;
      var remaining := limit - |buffer|;
      if remaining <= 0 && data == "" { probed := true; }
      written := written + data;
      if remaining <= 0 {
        overflow := true;
        return;
      }
      var kept := data;
      if |data| > remaining {
        kept := data[..remaining];
        overflow := true;
      }
      buffer := buffer + kept;
    }
  }
}
