/** What a built schedule guarantees, whatever order the hashes give. */
module ScheduleLaws {
  import opened Text
  import opened Ordering
  import opened BenchmarkSchedule

  // ---------------------------------------------------------------- one block

  predicate SameCell(x: Entry, y: Entry) {
    x.block == y.block && x.harness == y.harness && x.arm == y.arm
  }

  ghost predicate DistinctCells(entries: seq<Entry>) {
    forall i, j | 0 <= i < j < |entries| :: !SameCell(entries[i], entries[j])
  }

  /** Nothing of another harness or block comes between two entries of one. */
  ghost predicate Contiguous(entries: seq<Entry>) {
    forall i, j, k | 0 <= i < j < k < |entries| && entries[i].block == entries[k].block ::
      entries[j].block == entries[i].block &&
        (entries[i].harness == entries[k].harness ==> entries[j].harness == entries[i].harness)
  }

  /** Entry i says what its place in the plan says. */
  ghost predicate Planned(plan: Plan, entries: seq<Entry>, start: nat, lowest: nat, highest: nat,
                          harnesses: seq<string>) {
    forall i | 0 <= i < |entries| :: PlannedEntry(plan, entries[i], start + i + 1, lowest, highest, harnesses)
  }

  ghost predicate PlannedEntry(plan: Plan, e: Entry, sequence: int, lowest: nat, highest: nat, harnesses: seq<string>) {
    && lowest <= e.block <= highest && e.harness in harnesses && e.arm in plan.arms
    && e == EntryFor(plan, sequence, e.block, e.harness, e.arm)
  }

  ghost predicate Holds(entries: seq<Entry>, block: nat, harness: string, arm: string) {
    exists i :: 0 <= i < |entries| && entries[i].block == block && entries[i].harness == harness &&
      entries[i].arm == arm
  }

  lemma HoldsAppend(a: seq<Entry>, b: seq<Entry>, block: nat, harness: string, arm: string)
    requires Holds(a, block, harness, arm) || Holds(b, block, harness, arm)
    ensures Holds(a + b, block, harness, arm)
  {
    if i :| 0 <= i < |a| && a[i].block == block && a[i].harness == harness && a[i].arm == arm {
      assert (a + b)[i] == a[i];
    } else {
      var i :| 0 <= i < |b| && b[i].block == block && b[i].harness == harness && b[i].arm == arm;
      assert (a + b)[|a| + i] == b[i];
    }
  }

  lemma OrderedMember(digest: Digest, values: seq<string>, material: string, v: string)
    ensures v in OrderedBy(digest, values, material) <==> v in values
  {
    BagMembers(OrderedBy(digest, values, material), values);
  }

  lemma ArmsOrdered(plan: Plan, digest: Digest, block: nat, harness: string)
    requires NoRepeats(plan.arms)
    ensures var r := OrderedArms(plan, digest, block, harness); NoRepeats(r) && forall v :: v in r <==> v in plan.arms
  {
    NoRepeatsBag(plan.arms, OrderedArms(plan, digest, block, harness));
    hide OrderedBy, NoRepeats;
    forall v ensures v in OrderedArms(plan, digest, block, harness) <==> v in plan.arms {
      OrderedMember(digest, plan.arms, BlockMaterial(plan, block) + "|harness:" + harness + "|arm", v);
    }
  }

  lemma HarnessesOrdered(plan: Plan, digest: Digest, block: nat)
    requires NoRepeats(plan.harnesses)
    ensures var r := OrderedHarnesses(plan, digest, block); NoRepeats(r) && forall v :: v in r <==> v in plan.harnesses
  {
    NoRepeatsBag(plan.harnesses, OrderedHarnesses(plan, digest, block));
    hide OrderedBy, NoRepeats;
    forall v ensures v in OrderedHarnesses(plan, digest, block) <==> v in plan.harnesses {
      OrderedMember(digest, plan.harnesses, BlockMaterial(plan, block) + "|harness", v);
    }
  }

  predicate Precedes(x: Entry, y: Entry) {
    x.block < y.block || (x.block == y.block && x.harness != y.harness)
  }

  /** Two stretches that share no block and harness keep their distinctness and contiguity. */
  lemma AppendStretch(a: seq<Entry>, b: seq<Entry>)
    requires DistinctCells(a) && DistinctCells(b) && Contiguous(a) && Contiguous(b)
    requires forall i, j | 0 <= i < |a| && 0 <= j < |b| :: Precedes(a[i], b[j])
    requires (forall i, j | 0 <= i < |a| && 0 <= j < |b| :: a[i].block < b[j].block) || OneBlock(a + b)
    ensures DistinctCells(a + b) && Contiguous(a + b)
  {
    var r := a + b;
    forall i, j | 0 <= i < j < |r| ensures !SameCell(r[i], r[j]) {
      if j < |a| { assert !SameCell(a[i], a[j]); } else if i >= |a| { assert !SameCell(b[i - |a|], b[j - |a|]); }
    }
    forall i, j, k | 0 <= i < j < k < |r| && r[i].block == r[k].block
      ensures r[j].block == r[i].block && (r[i].harness == r[k].harness ==> r[j].harness == r[i].harness)
    {
      if k < |a| {
        assert a[i].block == a[k].block && a[j] == r[j];
      } else if i >= |a| {
        assert b[i - |a|].block == b[k - |a|].block && b[j - |a|] == r[j];
      } else {
        assert a[i] == r[i] && b[k - |a|] == r[k];
      }
    }
  }

  ghost predicate OneBlock(entries: seq<Entry>) {
    forall i, j | 0 <= i < |entries| && 0 <= j < |entries| :: entries[i].block == entries[j].block
  }

  /** Every harness of the list runs every arm of the plan. */
  ghost predicate RunsAll(plan: Plan, entries: seq<Entry>, low: nat, high: nat, harnesses: seq<string>) {
    forall block, harness, arm | low <= block <= high && harness in harnesses && arm in plan.arms ::
      Holds(entries, block, harness, arm)
  }

  /** Some stretch of blocks with some harnesses, complete, in order and numbered from `start` on. */
  ghost predicate Stretch(plan: Plan, entries: seq<Entry>, start: nat, low: nat, high: nat, harnesses: seq<string>) {
    && DistinctCells(entries) && Contiguous(entries) && Planned(plan, entries, start, low, high, harnesses)
    && RunsAll(plan, entries, low, high, harnesses)
  }

  lemma JoinHarness(plan: Plan, init: seq<Entry>, run: seq<Entry>, start: nat, block: nat, rest: seq<string>,
                    harness: string)
    requires Stretch(plan, init, start, block, block, rest) && harness !in rest
    requires Stretch(plan, run, start + |init|, block, block, [harness])
    ensures Stretch(plan, init + run, start, block, block, rest + [harness])
  {
    var r, harnesses := init + run, rest + [harness];
    hide Holds, DistinctCells, Contiguous, EntryFor;
    PlannedWider(plan, init, start, block, block, rest, block, block, harnesses);
    PlannedWider(plan, run, start + |init|, block, block, [harness], block, block, harnesses);
    PlannedAppend(plan, init, run, start, block, block, harnesses);
    forall i, j | 0 <= i < |init| && 0 <= j < |run|
      ensures init[i].block == run[j].block && init[i].harness != run[j].harness
    {
      assert PlannedEntry(plan, init[i], start + i + 1, block, block, rest);
      assert PlannedEntry(plan, run[j], start + |init| + j + 1, block, block, [harness]);
    }
    forall i | 0 <= i < |r|
      ensures r[i].block == block
    { assert PlannedEntry(plan, r[i], start + i + 1, block, block, harnesses); }
    AppendStretch(init, run);
    hide Planned, PlannedEntry;
    forall b, h, arm | block <= b <= block && h in harnesses && arm in plan.arms ensures Holds(r, b, h, arm) {
      assert h == harness || h in rest;
      assert harness in [harness];
      HoldsAppend(init, run, b, h, arm);
    }
  }

  lemma JoinBlock(plan: Plan, init: seq<Entry>, run: seq<Entry>, blocks: nat)
    requires blocks > 0 && Stretch(plan, init, 0, 1, blocks - 1, plan.harnesses)
    requires Stretch(plan, run, |init|, blocks, blocks, plan.harnesses)
    ensures Stretch(plan, init + run, 0, 1, blocks, plan.harnesses)
  {
    var r := init + run;
    hide Holds, DistinctCells, Contiguous, EntryFor;
    PlannedWider(plan, init, 0, 1, blocks - 1, plan.harnesses, 1, blocks, plan.harnesses);
    PlannedWider(plan, run, |init|, blocks, blocks, plan.harnesses, 1, blocks, plan.harnesses);
    PlannedAppend(plan, init, run, 0, 1, blocks, plan.harnesses);
    forall i, j | 0 <= i < |init| && 0 <= j < |run| ensures init[i].block < run[j].block {
      assert PlannedEntry(plan, init[i], 0 + i + 1, 1, blocks - 1, plan.harnesses);
      assert PlannedEntry(plan, run[j], |init| + j + 1, blocks, blocks, plan.harnesses);
    }
    AppendStretch(init, run);
    hide Planned, PlannedEntry;
    forall block, harness, arm | 1 <= block <= blocks && harness in plan.harnesses && arm in plan.arms
      ensures Holds(r, block, harness, arm)
    {
      HoldsAppend(init, run, block, harness, arm);
    }
  }

  lemma ArmRun(plan: Plan, block: nat, harness: string, arms: seq<string>, start: nat)
    requires NoRepeats(arms) && forall v :: v in arms <==> v in plan.arms
    ensures Stretch(plan, ArmEntries(plan, block, harness, arms, start), start, block, block, [harness])
  {
    hide RunPrefix, RunSuffix;
    var r := ArmEntries(plan, block, harness, arms, start);
    forall b, h, arm | block <= b <= block && h in [harness] && arm in plan.arms ensures Holds(r, b, h, arm) {
      var i :| 0 <= i < |arms| && arms[i] == arm;
      assert r[i].block == block && r[i].harness == harness && r[i].arm == arm;
    }
    forall i | 0 <= i < |r| ensures PlannedEntry(plan, r[i], start + i + 1, block, block, [harness]) {
      assert arms[i] in arms;
    }
  }

  lemma NothingRuns(plan: Plan, start: nat, low: nat, high: nat, harnesses: seq<string>)
    requires harnesses == [] || high < low
    ensures Stretch(plan, [], start, low, high, harnesses)
  {
  }

  /** All harnesses of a block, in the order of the list. */
  lemma {:induction false} HarnessRun(plan: Plan, digest: Digest, block: nat, harnesses: seq<string>, start: nat)
    requires NoRepeats(harnesses) && NoRepeats(plan.arms)
    ensures Stretch(plan, HarnessEntries(plan, digest, block, harnesses, start), start, block, block, harnesses)
  {
    hide Stretch, OrderedArms, ArmEntries;
    if harnesses == [] {
      NothingRuns(plan, start, block, block, harnesses);
    } else {
      var n := |harnesses| - 1;
      var rest, harness := harnesses[..n], harnesses[n];
      HarnessRun(plan, digest, block, rest, start);
      ArmsOrdered(plan, digest, block, harness);
      var arms := OrderedArms(plan, digest, block, harness);
      var init := HarnessEntries(plan, digest, block, rest, start);
      ArmRun(plan, block, harness, arms, start + |init|);
      assert harness !in rest;
      assert rest + [harness] == harnesses;
      JoinHarness(plan, init, ArmEntries(plan, block, harness, arms, start + |init|), start, block, rest, harness);
    }
  }

  lemma PlannedWider(plan: Plan, entries: seq<Entry>, start: nat, low: nat, high: nat, harnesses: seq<string>,
                     lower: nat, higher: nat, more: seq<string>)
    requires Planned(plan, entries, start, low, high, harnesses) && lower <= low && high <= higher
    requires forall h | h in harnesses :: h in more
    ensures Planned(plan, entries, start, lower, higher, more)
  {
    hide EntryFor;
    forall i | 0 <= i < |entries| ensures PlannedEntry(plan, entries[i], start + i + 1, lower, higher, more) {
      assert PlannedEntry(plan, entries[i], start + i + 1, low, high, harnesses);
    }
  }

  lemma PlannedAppend(plan: Plan, a: seq<Entry>, b: seq<Entry>, start: nat, low: nat, high: nat, harnesses: seq<string>)
    requires Planned(plan, a, start, low, high, harnesses) && Planned(plan, b, start + |a|, low, high, harnesses)
    ensures Planned(plan, a + b, start, low, high, harnesses)
  {
    hide PlannedEntry;
    var r := a + b;
    forall i | 0 <= i < |r| ensures PlannedEntry(plan, r[i], start + i + 1, low, high, harnesses) {
      if i >= |a| { assert r[i] == b[i - |a|]; assert start + i + 1 == start + |a| + (i - |a|) + 1; }
    }
  }

  // ---------------------------------------------------------------- all blocks

  /** The schedule runs every block, harness and arm of the plan exactly once, block by block and
      harness by harness, numbered from one. */
  ghost predicate Complete(plan: Plan, entries: seq<Entry>, blocks: nat) {
    Stretch(plan, entries, 0, 1, blocks, plan.harnesses)
  }

  lemma SameHarnesses(plan: Plan, entries: seq<Entry>, start: nat, block: nat, harnesses: seq<string>)
    requires Stretch(plan, entries, start, block, block, harnesses)
    requires forall h :: h in harnesses <==> h in plan.harnesses
    ensures Stretch(plan, entries, start, block, block, plan.harnesses)
  {
    hide Holds, DistinctCells, Contiguous, EntryFor;
    PlannedWider(plan, entries, start, block, block, harnesses, block, block, plan.harnesses);
  }

  lemma {:induction false} BlocksComplete(plan: Plan, digest: Digest, blocks: nat)
    requires NoRepeats(plan.harnesses) && NoRepeats(plan.arms)
    ensures Complete(plan, BlockEntries(plan, digest, blocks), blocks)
  {
    hide Stretch, HarnessEntries, OrderedHarnesses, NoRepeats;
    if blocks == 0 {
      NothingRuns(plan, 0, 1, 0, plan.harnesses);
    } else {
      BlocksComplete(plan, digest, blocks - 1);
      HarnessesOrdered(plan, digest, blocks);
      var harnesses := OrderedHarnesses(plan, digest, blocks);
      var init := BlockEntries(plan, digest, blocks - 1);
      var run := HarnessEntries(plan, digest, blocks, harnesses, |init|);
      HarnessRun(plan, digest, blocks, harnesses, |init|);
      SameHarnesses(plan, run, |init|, blocks, harnesses);
      JoinBlock(plan, init, run, blocks);
    }
  }

  // ---------------------------------------------------------------- run IDs

  lemma Pad3Digits(n: nat)
    requires n < 1000
    ensures Pad3(n) == [(n / 100) as char + '0', (n / 10 % 10) as char + '0', (n % 10) as char + '0']
  {
    assert Decimal(n / 10) ==
      (if n < 100 then [(n / 10) as char + '0'] else Decimal(n / 100) + [(n / 10 % 10) as char + '0']);
  }

  lemma DigitInjective(x: nat, y: nat)
    requires x < 10 && y < 10 && x as char + '0' == y as char + '0'
    ensures x == y
  {
  }

  lemma DigitsDetermine(m: nat, n: nat)
    requires m / 100 == n / 100 && m / 10 % 10 == n / 10 % 10 && m % 10 == n % 10
    ensures m == n
  {
    assert m / 10 == m / 100 * 10 + m / 10 % 10;
    assert n / 10 == n / 100 * 10 + n / 10 % 10;
  }

  lemma DigitTextInjective(a: nat, b: nat, c: nat, x: nat, y: nat, z: nat)
    requires a < 10 && b < 10 && c < 10 && x < 10 && y < 10 && z < 10
    requires [a as char + '0', b as char + '0', c as char + '0'] == [x as char + '0', y as char + '0', z as char + '0']
    ensures a == x && b == y && c == z
  {
    var s, t := [a as char + '0', b as char + '0', c as char + '0'],
      [x as char + '0', y as char + '0', z as char + '0'];
    assert s[0] == t[0] && s[1] == t[1] && s[2] == t[2];
    DigitInjective(a, x);
    DigitInjective(b, y);
    DigitInjective(c, z);
  }

  lemma Pad3Injective(m: nat, n: nat)
    requires m < 1000 && n < 1000 && Pad3(m) == Pad3(n)
    ensures m == n
  {
    Pad3Digits(m);
    Pad3Digits(n);
    hide Pad3;
    DigitTextInjective(m / 100, m / 10 % 10, m % 10, n / 100, n / 10 % 10, n % 10);
    DigitsDetermine(m, n);
  }

  lemma TailsEqual(prefix: string, a: string, b: string)
    requires prefix + a == prefix + b
    ensures a == b
  {
    assert (prefix + a)[|prefix|..] == a && (prefix + b)[|prefix|..] == b;
  }

  lemma TailInjective(h: string, a: string, i: string, b: string)
    requires (h == "claude" || h == "codex") && (i == "claude" || i == "codex") && a in ARMS && b in ARMS
    requires "-" + h + "-" + Lower(a) == "-" + i + "-" + Lower(b)
    ensures h == i && a == b
  {
    var x, y := "-" + h + "-" + Lower(a), "-" + i + "-" + Lower(b);
    assert x[2] == h[1] && y[2] == i[1];
    assert "claude"[1] == 'l' && "codex"[1] == 'o';
    assert x[|x| - 1] == Lower(a)[0] && y[|y| - 1] == Lower(b)[0];
    assert "N"[0] == 'N' && "S"[0] == 'S' && "H"[0] == 'H' && "P"[0] == 'P';
  }

  lemma SuffixInjective(b: nat, h: string, a: string, c: nat, i: string, d: string)
    requires b < 1000 && c < 1000 && RunSuffix(b, h, a) == RunSuffix(c, i, d)
    requires (h == "claude" || h == "codex") && (i == "claude" || i == "codex") && a in ARMS && d in ARMS
    ensures b == c && h == i && a == d
  {
    Pad3Digits(b);
    Pad3Digits(c);
    hide Pad3, Lower;
    var x, y := RunSuffix(b, h, a), RunSuffix(c, i, d);
    assert x[..3] == Pad3(b) && y[..3] == Pad3(c);
    Pad3Injective(b, c);
    TailsEqual(Pad3(b), "-" + h + "-" + Lower(a), "-" + i + "-" + Lower(d));
    TailInjective(h, a, i, d);
  }

  lemma RunsDiffer(plan: Plan, x: Entry, y: Entry, m: int, n: int)
    requires PlannedEntry(plan, x, m, 1, 100, HARNESSES) && PlannedEntry(plan, y, n, 1, 100, HARNESSES)
    requires !SameCell(x, y) && forall a | a in plan.arms :: a in ARMS
    ensures x.runID != y.runID
  {
    hide RunSuffix, RunPrefix;
    if x.runID == y.runID {
      TailsEqual(RunPrefix(plan), RunSuffix(x.block, x.harness, x.arm), RunSuffix(y.block, y.harness, y.arm));
      assert HARNESSES[0] == "claude" && HARNESSES[1] == "codex";
      SuffixInjective(x.block, x.harness, x.arm, y.block, y.harness, y.arm);
    }
  }

  // ---------------------------------------------------------------- the two components agree

  lemma PlanMembers(plan: Plan)
    requires ValidPlan(plan)
    ensures NoRepeats(plan.harnesses) && NoRepeats(plan.arms) && plan.arms != []
    ensures (forall h :: h in plan.harnesses <==> h in HARNESSES) && (forall a | a in plan.arms :: a in ARMS)
  {
    WantedDistinct(plan.phase);
    NoRepeatsBag(HARNESSES, plan.harnesses);
    NoRepeatsBag(WantedArms(plan.phase), plan.arms);
    BagMembers(HARNESSES, plan.harnesses);
    BagMembers(WantedArms(plan.phase), plan.arms);
    hide NoRepeats, BoundedIdentifier;
    forall h ensures h in plan.harnesses <==> h in HARNESSES {
      assert h in plan.harnesses <==> h in MembersOf(plan.harnesses);
    }
    forall a | a in plan.arms ensures a in ARMS {
      assert a in MembersOf(plan.arms) && a in WantedArms(plan.phase);
    }
    assert "N" in WantedArms(plan.phase) by { assert WantedArms(plan.phase)[0] == "N"; }
    assert "N" in MembersOf(plan.arms);
  }

  /** Every valid plan builds a schedule that runs each cell exactly once. */
  lemma BuiltScheduleComplete(plan: Plan, digest: Digest)
    requires ValidPlan(plan)
    ensures Complete(plan, BlockEntries(plan, digest, plan.blocks), plan.blocks)
  {
    PlanMembers(plan);
    BlocksComplete(plan, digest, plan.blocks);
  }

  lemma BuiltRunsDistinct(plan: Plan, entries: seq<Entry>)
    requires ValidPlan(plan) && Complete(plan, entries, plan.blocks)
    ensures DistinctRuns(entries)
  {
    PlanMembers(plan);
    BlocksPositive(plan);
    hide ValidPlan, NoRepeats, EntryFor, Holds;
    PlannedWider(plan, entries, 0, 1, plan.blocks, plan.harnesses, 1, 100, HARNESSES);
    forall i, j | 0 <= i < j < |entries| ensures entries[i].runID != entries[j].runID {
      RunsDiffer(plan, entries[i], entries[j], i + 1, j + 1);
    }
  }

  lemma BuiltNotEmpty(plan: Plan, entries: seq<Entry>)
    requires ValidPlan(plan) && Complete(plan, entries, plan.blocks)
    ensures entries != []
  {
    PlanMembers(plan);
    BlocksPositive(plan);
    hide ValidPlan, NoRepeats;
    assert HARNESSES[0] in HARNESSES;
    assert Holds(entries, 1, HARNESSES[0], plan.arms[0]);
  }

  lemma BuiltEntryValid(plan: Plan, e: Entry, sequence: int)
    requires ValidPlan(plan) && PlannedEntry(plan, e, sequence, 1, plan.blocks, plan.harnesses)
    ensures e.sequence == sequence && e.phase == plan.phase && e.task == plan.task
    ensures ValidEntry(e) <==> plan.task in TASKS
  {
    PlanMembers(plan);
    assert plan.phase in PHASES;
    hide ValidPlan, NoRepeats, RunSuffix;
    assert HARNESSES[0] == "claude" && HARNESSES[1] == "codex";
    assert e.runID != "" by { assert |RunPrefix(plan)| >= 4; }
  }

  /** The validator accepts what a valid plan builds exactly when the plan's task is one it knows. */
  lemma BuiltScheduleAccepted(plan: Plan, digest: Digest, planHash: string)
    requires ValidPlan(plan) && |planHash| == SHA256_HEX
    ensures ValidSchedule(Schedule(SCHEDULE_SCHEMA, planHash, BlockEntries(plan, digest, plan.blocks))) <==>
      plan.task in TASKS
  {
    var entries := BlockEntries(plan, digest, plan.blocks);
    hide ValidPlan, BlockEntries, Complete, ValidEntry, DistinctRuns;
    BuiltScheduleComplete(plan, digest);
    BuiltRunsDistinct(plan, entries);
    BuiltNotEmpty(plan, entries);
    BuiltEntriesValid(plan, entries);
    AcceptedWhen(Schedule(SCHEDULE_SCHEMA, planHash, entries), plan, plan.task in TASKS);
  }

  lemma AcceptedWhen(s: Schedule, plan: Plan, known: bool)
    requires s.schema == SCHEDULE_SCHEMA && |s.planHash| == SHA256_HEX && s.entries != [] && DistinctRuns(s.entries)
    requires forall i | 0 <= i < |s.entries| ::
      s.entries[i].sequence == i + 1 && s.entries[i].phase == plan.phase && s.entries[i].task == plan.task
    requires forall i | 0 <= i < |s.entries| :: ValidEntry(s.entries[i]) <==> known
    ensures ValidSchedule(s) <==> known
  {
    hide ValidEntry, DistinctRuns;
    assert ValidEntry(s.entries[0]) <==> known;
  }

  lemma BuiltEntriesValid(plan: Plan, entries: seq<Entry>)
    requires ValidPlan(plan) && Complete(plan, entries, plan.blocks)
    ensures forall i | 0 <= i < |entries| ::
      entries[i].sequence == i + 1 && entries[i].phase == plan.phase && entries[i].task == plan.task
    ensures forall i | 0 <= i < |entries| :: ValidEntry(entries[i]) <==> plan.task in TASKS
  {
    BlocksPositive(plan);
    hide ValidPlan, ValidEntry, DistinctCells, Contiguous, RunsAll, PlannedEntry;
    forall i | 0 <= i < |entries|
      ensures entries[i].sequence == i + 1 && entries[i].phase == plan.phase && entries[i].task == plan.task
      ensures ValidEntry(entries[i]) <==> plan.task in TASKS
    {
      assert PlannedEntry(plan, entries[i], 0 + i + 1, 1, plan.blocks, plan.harnesses);
      BuiltEntryValid(plan, entries[i], i + 1);
    }
  }

  // ---------------------------------------------------------------- where the two components differ

  /** A valid plan for another task. */
  function OtherTask(): Plan {
    Plan(PLAN_SCHEMA, "abc", "pilot", "other", "0123456789abcdef0123456789abcdef", 1, BASE_ARMS, HARNESSES)
  }

  /** The plan validator accepts it, and its schedule is refused. */
  lemma OtherTaskRefused(digest: Digest, planHash: string)
    requires |planHash| == SHA256_HEX
    ensures ValidPlan(OtherTask())
    ensures !ValidSchedule(Schedule(SCHEDULE_SCHEMA, planHash, BlockEntries(OtherTask(), digest, OtherTask().blocks)))
  {
    hide ValidPlan, ValidSchedule, BlockEntries, OtherTask;
    OtherTaskValid();
    OtherTaskIsOther();
    BuiltScheduleAccepted(OtherTask(), digest, planHash);
  }

  lemma OtherTaskIsOther()
    ensures OtherTask().task !in TASKS
  {
    assert |OtherTask().task| == 5;
  }

  lemma OtherTaskValid()
    ensures ValidPlan(OtherTask())
  {
    assert WantedArms("pilot") == BASE_ARMS by { assert |"pilot"| == 5; }
  }
}
