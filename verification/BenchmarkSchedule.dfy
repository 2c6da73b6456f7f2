/** Building a benchmark schedule from a plan, and the independent validator of schedules. */
module BenchmarkSchedule {
  import opened Text
  import opened Ordering

  const PLAN_SCHEMA := "belay.missionpack-benchmark-plan.v1"
  const SCHEDULE_SCHEMA := "belay.missionpack-benchmark-schedule.v1"
  const SHA256_HEX := 64

  const PHASES: set<string> := {"pilot", "phase_a", "phase_b", "phase_c"}
  const HARNESSES: seq<string> := ["claude", "codex"]
  const BASE_ARMS: seq<string> := ["N"]
  const ALL_ARMS: seq<string> := ["N", "S", "H", "P"]

  datatype Plan = Plan(
    schema: string, study: string, phase: string, task: string, seed: string, blocks: int,
    arms: seq<string>, harnesses: seq<string>)

  datatype Entry = Entry(sequence: int, block: int, phase: string, task: string, harness: string, arm: string,
                  runID: string)

  datatype Schedule = Schedule(schema: string, planHash: string, entries: seq<Entry>)

  // ---------------------------------------------------------------- validating a plan

  lemma SubBag<T>(a: multiset<T>, b: multiset<T>)
    requires a <= b && |a| == |b|
    ensures a == b
  {
    assert b == a + (b - a);
    assert |b - a| == 0;
  }

  ghost function MembersOf(s: seq<string>): set<string> {
    set v | v in s
  }

  lemma {:induction false} DistinctCount(s: seq<string>)
    requires NoRepeats(s)
    ensures |MembersOf(s)| == |s|
  {
    if s != [] {
      var init, last := s[..|s| - 1], s[|s| - 1];
      DistinctCount(init);
      assert s == init + [last];
      assert MembersOf(s) == MembersOf(init) + {last};
      assert last !in init;
    }
  }

  lemma OnceEachIsPermutation(got: seq<string>, want: seq<string>)
    requires |got| == |want| && NoRepeats(want) && forall v | v in want :: multiset(got)[v] == 1
    ensures multiset(got) == multiset(want)
  {
    forall v ensures multiset(want)[v] <= multiset(got)[v] {
      NoRepeatsCounts(want, v);
      assert v in multiset(want) ==> v in want;
    }
    assert multiset(want) <= multiset(got);
    assert |multiset(want)| == |want| && |multiset(got)| == |got|;
    SubBag(multiset(want), multiset(got));
  }

  /** Counts occurrences in a map; for a wanted list without repetitions it decides permutation. */
  method SameMembers(got: seq<string>, want: seq<string>) returns (same: bool)
    ensures NoRepeats(want) ==> (same <==> multiset(got) == multiset(want))
  {
    if |got| != |want| {
      assert |multiset(got)| == |got| && |multiset(want)| == |want|;
      return false;
    }
    var counts: map<string, nat> := map[];
    for i := 0 to |got|
      invariant forall v :: v in counts <==> v in got[..i]
      invariant forall v | v in counts :: counts[v] == multiset(got[..i])[v]
    {
      var value := got[i];
      assert got[..i + 1] == got[..i] + [value];
      assert value in got[..i] <==> value in multiset(got[..i]);
      counts := counts[value := if value in counts then counts[value] + 1 else 1];
    }
    assert got[..|got|] == got;
    for i := 0 to |want|
      invariant forall k | 0 <= k < i :: multiset(got)[want[k]] == 1
    {
      if want[i] !in counts || counts[want[i]] != 1 {
        if NoRepeats(want) {
          NoRepeatsCounts(want, want[i]);
          assert want[i] in multiset(want);
          assert want[i] in got <==> want[i] in multiset(got);
        }
        return false;
      }
    }
    same := |counts| == |want|;
    if NoRepeats(want) {
      OnceEachIsPermutation(got, want);
      assert counts.Keys == MembersOf(want) by { BagMembers(got, want); }
      DistinctCount(want);
    }
  }

  predicate BoundedIdentifier(s: string, minimum: nat, maximum: nat) {
    minimum <= |s| <= maximum && forall i | 0 <= i < |s| ::
      'a' <= s[i] <= 'z' || '0' <= s[i] <= '9' || s[i] == '-' || s[i] == '_'
  }

  function WantedArms(phase: string): seq<string> {
    if phase == "phase_b" || phase == "phase_c" then ALL_ARMS else BASE_ARMS
  }

  predicate ValidPlan(plan: Plan) {
    && plan.schema == PLAN_SCHEMA && BoundedIdentifier(plan.study, 3, 80) && BoundedIdentifier(plan.task, 2, 64)
    && plan.phase in PHASES && 32 <= |plan.seed| <= 128 && 1 <= plan.blocks <= 100
    && multiset(plan.harnesses) == multiset(HARNESSES) && multiset(plan.arms) == multiset(WantedArms(plan.phase))
  }

  lemma WantedDistinct(phase: string)
    ensures NoRepeats(WantedArms(phase)) && NoRepeats(HARNESSES)
  {
    assert ALL_ARMS[0][0] == 'N' && ALL_ARMS[1][0] == 'S' && ALL_ARMS[2][0] == 'H' && ALL_ARMS[3][0] == 'P';
    assert HARNESSES[0][1] == 'l' && HARNESSES[1][1] == 'o';
  }

  method ValidatePlan(plan: Plan) returns (ok: bool)
    ensures ok <==> ValidPlan(plan)
  {
    hide NoRepeats, BoundedIdentifier, WantedArms;
    WantedDistinct(plan.phase);
    if plan.schema != PLAN_SCHEMA { return false; }
    if !BoundedIdentifier(plan.study, 3, 80) || !BoundedIdentifier(plan.task, 2, 64) { return false; }
    if plan.phase !in PHASES { return false; }
    if |plan.seed| < 32 || |plan.seed| > 128 { return false; }
    if plan.blocks < 1 || plan.blocks > 100 { return false; }
    var sameHarnesses := SameMembers(plan.harnesses, HARNESSES);
    if !sameHarnesses { return false; }
    ok := SameMembers(plan.arms, WantedArms(plan.phase));
  }

  // ---------------------------------------------------------------- building

  /** The hash is any function of its text. */
  type Digest = string -> string

  function OrderedBy(digest: Digest, values: seq<string>, material: string): (r: seq<string>)
    ensures multiset(r) == multiset(values)
  {
    SortBy((x: string, y: string) => StrLe(digest(material + "|" + x), digest(material + "|" + y)), values)
  }

  function BlockMaterial(plan: Plan, block: nat): string {
    plan.seed + "|" + plan.phase + "|" + plan.task + "|block:" + Decimal(block)
  }

  function OrderedHarnesses(plan: Plan, digest: Digest, block: nat): seq<string> {
    OrderedBy(digest, plan.harnesses, BlockMaterial(plan, block) + "|harness")
  }

  function OrderedArms(plan: Plan, digest: Digest, block: nat, harness: string): seq<string> {
    OrderedBy(digest, plan.arms, BlockMaterial(plan, block) + "|harness:" + harness + "|arm")
  }

  /** The number with at least three digits. */
  function Pad3(n: nat): string {
    if n < 10 then "00" + Decimal(n) else if n < 100 then "0" + Decimal(n) else Decimal(n)
  }

  function RunPrefix(plan: Plan): string {
    plan.study + "-" + plan.task + "-" + plan.phase + "-b"
  }

  function RunSuffix(block: nat, harness: string, arm: string): string {
    Pad3(block) + ("-" + harness + "-" + Lower(arm))
  }

  function EntryFor(plan: Plan, sequence: int, block: nat, harness: string, arm: string): Entry {
    Entry(sequence, block, plan.phase, plan.task, harness, arm, RunPrefix(plan) + RunSuffix(block, harness, arm))
  }

  /** The entries of one harness in one block, after `start` others. */
  function ArmEntries(plan: Plan, block: nat, harness: string, arms: seq<string>, start: nat): (r: seq<Entry>)
    ensures |r| == |arms| && forall i | 0 <= i < |r| :: r[i] == EntryFor(plan, start + i + 1, block, harness, arms[i])
  {
    seq(|arms|, i requires 0 <= i < |arms| => EntryFor(plan, start + i + 1, block, harness, arms[i]))
  }

  function HarnessEntries(plan: Plan, digest: Digest, block: nat, harnesses: seq<string>, start: nat): seq<Entry> {
    if harnesses == [] then []
    else
      var n := |harnesses| - 1;
      var init := HarnessEntries(plan, digest, block, harnesses[..n], start);
      init + ArmEntries(plan, block, harnesses[n], OrderedArms(plan, digest, block, harnesses[n]), start + |init|)
  }

  function BlockEntries(plan: Plan, digest: Digest, blocks: nat): seq<Entry> {
    if blocks == 0 then []
    else
      var init := BlockEntries(plan, digest, blocks - 1);
      init + HarnessEntries(plan, digest, blocks, OrderedHarnesses(plan, digest, blocks), |init|)
  }

  lemma NothingBuilt(plan: Plan, digest: Digest)
    ensures BlockEntries(plan, digest, 0) == []
  {
  }

  lemma NoHarness(plan: Plan, digest: Digest, block: nat, start: nat)
    ensures HarnessEntries(plan, digest, block, [], start) == []
  {
  }

  lemma BlockStep(plan: Plan, digest: Digest, block: nat)
    requires block > 0
    ensures var init := BlockEntries(plan, digest, block - 1);
      BlockEntries(plan, digest, block) ==
        init + HarnessEntries(plan, digest, block, OrderedHarnesses(plan, digest, block), |init|)
  {
  }

  lemma HarnessStep(plan: Plan, digest: Digest, block: nat, harnesses: seq<string>, h: nat, start: nat)
    requires h < |harnesses|
    ensures var init := HarnessEntries(plan, digest, block, harnesses[..h], start);
      HarnessEntries(plan, digest, block, harnesses[..h + 1], start) ==
        init + ArmEntries(plan, block, harnesses[h], OrderedArms(plan, digest, block, harnesses[h]), start + |init|)
  {
    hide OrderedArms, ArmEntries;
    var done := harnesses[..h + 1];
    assert done != [] && |done| - 1 == h && done[h] == harnesses[h] && done[..h] == harnesses[..h];
  }

  /** None stands for an invalid plan. */
  method Build(plan: Plan, digest: Digest, planHash: string) returns (schedule: Option<Schedule>)
    ensures schedule.Some? <==> ValidPlan(plan)
    ensures schedule.Some? ==>
      schedule.value == Schedule(SCHEDULE_SCHEMA, planHash, BlockEntries(plan, digest, plan.blocks))
  {
    hide ValidPlan, EntryFor, OrderedHarnesses, OrderedArms, BlockEntries, HarnessEntries, ArmEntries;
    var ok := ValidatePlan(plan);
    if !ok { return None; }
    BlocksPositive(plan);
    NothingBuilt(plan, digest);
    var entries: seq<Entry> := [];
    var sequence := 0;
    for block := 1 to plan.blocks + 1
      invariant entries == BlockEntries(plan, digest, block - 1) && sequence == |entries|
    {
      ghost var before := entries;
      var harnesses := OrderedHarnesses(plan, digest, block);
      NoHarness(plan, digest, block, |before|);
      BlockStep(plan, digest, block);
      for h := 0 to |harnesses|
        invariant entries == before + HarnessEntries(plan, digest, block, harnesses[..h], |before|)
        invariant sequence == |entries|
      {
        ghost var outer := entries;
        HarnessStep(plan, digest, block, harnesses, h, |before|);
        var harness := harnesses[h];
        var arms := OrderedArms(plan, digest, block, harness);
        ghost var all := ArmEntries(plan, block, harness, arms, |outer|);
        for a := 0 to |arms|
          invariant entries == outer + all[..a] && sequence == |entries|
        {
          sequence := sequence + 1;
          entries := entries + [EntryFor(plan, sequence, block, harness, arms[a])];
          assert all[..a + 1] == all[..a] + [all[a]];
        }
        assert all[..|arms|] == all;
      }
      assert harnesses[..|harnesses|] == harnesses;
    }
    return Some(Schedule(SCHEDULE_SCHEMA, planHash, entries));
  }

  lemma BlocksPositive(plan: Plan)
    requires ValidPlan(plan)
    ensures 1 <= plan.blocks <= 100
  {
  }

  // ---------------------------------------------------------------- the validator

  const ARMS: set<string> := {"N", "S", "H", "P"}
  const TASKS: set<string> := {"task_a", "task_b"}

  predicate ValidEntry(e: Entry) {
    e.block >= 1 && e.runID != "" && e.phase in PHASES && e.task in TASKS &&
      (e.harness == "claude" || e.harness == "codex") && e.arm in ARMS
  }

  ghost predicate DistinctRuns(entries: seq<Entry>) {
    forall i, j | 0 <= i < j < |entries| :: entries[i].runID != entries[j].runID
  }

  ghost predicate ValidSchedule(s: Schedule) {
    && s.schema == SCHEDULE_SCHEMA && |s.planHash| == SHA256_HEX && s.entries != []
    && (forall i | 0 <= i < |s.entries| :: s.entries[i].sequence == i + 1 && ValidEntry(s.entries[i]))
    && (forall i | 0 <= i < |s.entries| ::
         s.entries[i].phase == s.entries[0].phase && s.entries[i].task == s.entries[0].task)
    && DistinctRuns(s.entries)
  }

  method ValidateSchedule(s: Schedule) returns (ok: bool)
    ensures ok <==> ValidSchedule(s)
  {
    if s.schema != SCHEDULE_SCHEMA || |s.planHash| != SHA256_HEX || |s.entries| == 0 { return false; }
    var seen: set<string> := {};
    var phase, task := "", "";
    for i := 0 to |s.entries|
      invariant forall k | 0 <= k < i :: s.entries[k].sequence == k + 1 && ValidEntry(s.entries[k])
      invariant i > 0 ==> phase == s.entries[0].phase && task == s.entries[0].task
      invariant forall k | 0 <= k < i ::
        s.entries[k].phase == s.entries[0].phase && s.entries[k].task == s.entries[0].task
      invariant forall id :: id in seen <==> exists k :: 0 <= k < i && s.entries[k].runID == id
      invariant DistinctRuns(s.entries[..i])
    {
      var e := s.entries[i];
      if e.sequence != i + 1 { return false; }
      if e.block < 1 || e.runID == "" { return false; }
      if e.phase !in PHASES { return false; }
      if e.task != "task_a" && e.task != "task_b" { return false; }
      if i == 0 {
        phase, task := e.phase, e.task;
      } else if e.phase != phase || e.task != task {
        return false;
      }
      if e.runID in seen { return false; }
      seen := seen + {e.runID};
      if e.harness != "claude" && e.harness != "codex" { return false; }
      if e.arm !in ARMS { return false; }
    }
    assert s.entries[..|s.entries|] == s.entries;
    return true;
  }

  /** The entry with a sequence number; None stands for the error. */
  function EntryAt(s: Schedule, sequence: int): Option<Entry> {
    if sequence < 1 || sequence > |s.entries| then None else Some(s.entries[sequence - 1])
  }

  /** In a valid schedule an entry is found under exactly its own number. */
  lemma EntryAtFinds(s: Schedule, sequence: int, e: Entry)
    requires ValidSchedule(s)
    ensures EntryAt(s, sequence) == Some(e) <==> e in s.entries && e.sequence == sequence
  {
    hide ValidEntry, DistinctRuns;
    if e in s.entries && e.sequence == sequence {
      var i :| 0 <= i < |s.entries| && s.entries[i] == e;
    }
  }
}
