/** In which order a built schedule runs its cells: block by block, and within a block in the order of the
    hashes of the texts that name harness and arm. */
module ScheduleOrder {
  import opened Text
  import opened Ordering
  import opened BenchmarkSchedule
  import opened ScheduleLaws

  // ---------------------------------------------------------------- the texts that are hashed

  function BlockText(plan: Plan, block: int): string
    requires block >= 0
  {
    plan.seed + "|" + plan.phase + "|" + plan.task + "|block:" + Decimal(block)
  }

  function HarnessText(plan: Plan, block: int, harness: string): string
    requires block >= 0
  {
    BlockText(plan, block) + "|harness" + "|" + harness
  }

  function ArmText(plan: Plan, block: int, harness: string, arm: string): string
    requires block >= 0
  {
    BlockText(plan, block) + "|harness:" + harness + "|arm" + "|" + arm
  }

  /** y may come after x: it is of a later block, or of a harness, or of an arm of the same harness, with no
      smaller hash. */
  predicate Follows(plan: Plan, digest: Digest, x: Entry, y: Entry) {
    && x.block >= 0 && y.block >= 0
    && (x.block < y.block ||
        (x.block == y.block &&
         if x.harness != y.harness then
           StrLe(digest(HarnessText(plan, x.block, x.harness)), digest(HarnessText(plan, y.block, y.harness)))
         else
           StrLe(digest(ArmText(plan, x.block, x.harness, x.arm)), digest(ArmText(plan, y.block, y.harness, y.arm)))))
  }

  ghost predicate InHashOrder(plan: Plan, digest: Digest, entries: seq<Entry>) {
    forall i, j | 0 <= i < j < |entries| :: Follows(plan, digest, entries[i], entries[j])
  }

  // ---------------------------------------------------------------- sorted by hash

  lemma OrderedSorted(digest: Digest, values: seq<string>, material: string)
    ensures var r := OrderedBy(digest, values, material);
      forall i, j | 0 <= i < j < |r| :: StrLe(digest(material + "|" + r[i]), digest(material + "|" + r[j]))
  {
    var le := (x: string, y: string) => StrLe(digest(material + "|" + x), digest(material + "|" + y));
    StrLeOrder();
    hide StrLe;
    assert TotalPreorder(le);
    SortBySorted(le, values);
  }

  /** Entries of one harness in one block. */
  ghost predicate OfHarness(entries: seq<Entry>, block: nat, harness: string) {
    forall i | 0 <= i < |entries| :: entries[i].block == block && entries[i].harness == harness
  }

  function ArmMaterial(plan: Plan, block: nat, harness: string): string {
    BlockMaterial(plan, block) + "|harness:" + harness + "|arm"
  }

  lemma Entries(plan: Plan, block: nat, harness: string, arms: seq<string>, start: nat)
    ensures var r := ArmEntries(plan, block, harness, arms, start);
      forall i | 0 <= i < |r| :: r[i].block == block && r[i].harness == harness && r[i].arm == arms[i]
  {
  }

  lemma ArmsInOrder(plan: Plan, digest: Digest, block: nat, harness: string, start: nat)
    ensures var r := ArmEntries(plan, block, harness, OrderedArms(plan, digest, block, harness), start);
      InHashOrder(plan, digest, r) && OfHarness(r, block, harness)
  {
    var arms := OrderedArms(plan, digest, block, harness);
    OrderedSorted(digest, plan.arms, BlockMaterial(plan, block) + "|harness:" + harness + "|arm");
    hide OrderedBy, StrLe, EntryFor;
    forall a: string, h: string ensures ArmMaterial(plan, block, h) + "|" + a == ArmText(plan, block, h, a) {}
    Entries(plan, block, harness, arms, start);
    var r := ArmEntries(plan, block, harness, arms, start);
    forall i, j | 0 <= i < j < |r| ensures Follows(plan, digest, r[i], r[j]) {
      assert r[i].arm == arms[i] && r[j].arm == arms[j];
    }
  }

  ghost predicate OfBlock(entries: seq<Entry>, block: nat, harnesses: seq<string>) {
    forall i | 0 <= i < |entries| :: entries[i].block == block && entries[i].harness in harnesses
  }

  ghost predicate HashSorted(plan: Plan, digest: Digest, block: nat, harnesses: seq<string>) {
    forall i, j | 0 <= i < j < |harnesses| ::
      StrLe(digest(HarnessText(plan, block, harnesses[i])), digest(HarnessText(plan, block, harnesses[j])))
  }

  lemma JoinInOrder(plan: Plan, digest: Digest, a: seq<Entry>, b: seq<Entry>)
    requires InHashOrder(plan, digest, a) && InHashOrder(plan, digest, b)
    requires forall x, y | x in a && y in b :: Follows(plan, digest, x, y)
    ensures InHashOrder(plan, digest, a + b)
  {
    hide Follows;
    var r := a + b;
    forall i, j | 0 <= i < j < |r| ensures Follows(plan, digest, r[i], r[j]) {
      if i < |a| <= j { assert r[i] == a[i] && r[j] == b[j - |a|] && a[i] in a && b[j - |a|] in b; }
    }
  }

  lemma {:induction false} HarnessesInOrder(plan: Plan, digest: Digest, block: nat, harnesses: seq<string>, start: nat)
    requires NoRepeats(harnesses) && HashSorted(plan, digest, block, harnesses)
    ensures var r := HarnessEntries(plan, digest, block, harnesses, start);
      InHashOrder(plan, digest, r) && OfBlock(r, block, harnesses)
  {
    hide OrderedArms, ArmEntries, StrLe, HarnessText, ArmText;
    if harnesses != [] {
      var n := |harnesses| - 1;
      HarnessesInOrder(plan, digest, block, harnesses[..n], start);
      var init := HarnessEntries(plan, digest, block, harnesses[..n], start);
      ArmsInOrder(plan, digest, block, harnesses[n], start + |init|);
      var last := ArmEntries(plan, block, harnesses[n], OrderedArms(plan, digest, block, harnesses[n]), start + |init|);
      forall x, y | x in init && y in last ensures Follows(plan, digest, x, y) {
        LaterHarness(plan, digest, block, harnesses, x, y);
      }
      JoinInOrder(plan, digest, init, last);
    }
  }

  lemma LaterHarness(plan: Plan, digest: Digest, block: nat, harnesses: seq<string>, x: Entry, y: Entry)
    requires harnesses != [] && NoRepeats(harnesses) && HashSorted(plan, digest, block, harnesses)
    requires x.block == y.block == block && x.harness in harnesses[..|harnesses| - 1]
    requires y.harness == harnesses[|harnesses| - 1]
    ensures Follows(plan, digest, x, y)
  {
    hide StrLe, HarnessText, ArmText;
    var n := |harnesses| - 1;
    var k :| 0 <= k < n && harnesses[..n][k] == x.harness;
    assert harnesses[k] == x.harness;
  }

  lemma HarnessesSorted(plan: Plan, digest: Digest, block: nat)
    ensures HashSorted(plan, digest, block, OrderedHarnesses(plan, digest, block))
  {
    OrderedSorted(digest, plan.harnesses, BlockMaterial(plan, block) + "|harness");
    hide StrLe, OrderedBy;
  }

  /** The entries of the first blocks, all of them earlier than block `blocks` + 1. */
  ghost predicate OfBlocks(entries: seq<Entry>, blocks: nat) {
    forall e | e in entries :: 1 <= e.block <= blocks
  }

  lemma LaterBlock(plan: Plan, digest: Digest, init: seq<Entry>, last: seq<Entry>, block: nat, harnesses: seq<string>)
    requires block > 0 && OfBlocks(init, block - 1) && OfBlock(last, block, harnesses)
    requires InHashOrder(plan, digest, init) && InHashOrder(plan, digest, last)
    ensures InHashOrder(plan, digest, init + last) && OfBlocks(init + last, block)
  {
    hide InHashOrder, StrLe, HarnessText, ArmText;
    forall y | y in last ensures y.block == block {
      var i :| 0 <= i < |last| && last[i] == y;
    }
    JoinInOrder(plan, digest, init, last);
  }

  lemma NoBlocks(plan: Plan, digest: Digest)
    ensures InHashOrder(plan, digest, BlockEntries(plan, digest, 0)) && OfBlocks(BlockEntries(plan, digest, 0), 0)
  {
  }

  lemma HarnessesDistinct(plan: Plan, digest: Digest, block: nat)
    requires NoRepeats(plan.harnesses)
    ensures NoRepeats(OrderedHarnesses(plan, digest, block))
  {
    hide OrderedBy, NoRepeats;
    NoRepeatsBag(plan.harnesses, OrderedHarnesses(plan, digest, block));
  }

  lemma {:induction false} BlocksInOrder(plan: Plan, digest: Digest, blocks: nat)
    requires NoRepeats(plan.harnesses)
    ensures InHashOrder(plan, digest, BlockEntries(plan, digest, blocks))
    ensures OfBlocks(BlockEntries(plan, digest, blocks), blocks)
  {
    hide InHashOrder, OfBlocks, OfBlock, BlockEntries, HarnessEntries, OrderedHarnesses, NoRepeats, HashSorted;
    if blocks == 0 {
      NoBlocks(plan, digest);
    } else {
      var init, harnesses := BlockEntries(plan, digest, blocks - 1), OrderedHarnesses(plan, digest, blocks);
      BlocksInOrder(plan, digest, blocks - 1);
      HarnessesSorted(plan, digest, blocks);
      HarnessesDistinct(plan, digest, blocks);
      HarnessesInOrder(plan, digest, blocks, harnesses, |init|);
      BlockStep(plan, digest, blocks);
      LaterBlock(plan, digest, init, HarnessEntries(plan, digest, blocks, harnesses, |init|), blocks, harnesses);
    }
  }

  /** What an entry is called: study, task, phase, block with three digits, harness and arm. */
  predicate NamedAs(plan: Plan, e: Entry)
    requires e.block >= 0
  {
    var digits := Decimal(e.block);
    e.runID ==
      plan.study + "-" + plan.task + "-" + plan.phase + "-b" +
      (if |digits| < 3 then seq(3 - |digits|, _ => '0') + digits else digits) + "-" + e.harness + "-" + Lower(e.arm)
  }

  lemma Named(plan: Plan, e: Entry, sequence: int, block: nat, harness: string, arm: string)
    requires e == EntryFor(plan, sequence, block, harness, arm)
    ensures NamedAs(plan, e)
  {
    PadIs(block);
    hide Lower, Decimal, Pad3;
    var digits := Decimal(block);
    var head, tail := RunPrefix(plan), "-" + harness + "-" + Lower(arm);
    assert head + (Pad3(block) + tail) == head + Pad3(block) + "-" + harness + "-" + Lower(arm);
  }

  lemma PadIs(n: nat)
    ensures var d := Decimal(n); Pad3(n) == if |d| < 3 then seq(3 - |d|, _ => '0') + d else d
  {
    DecimalLast(n);
    DecimalShort(n);
    DecimalShort(n / 10);
    if n >= 10 { assert |Decimal(n)| == |Decimal(n / 10)| + 1; }
    if n >= 100 { assert |Decimal(n)| >= 3; }
    hide Decimal;
    assert seq(2, _ => '0') == "00" && seq(1, _ => '0') == "0";
  }

  /** A built schedule: every entry is named after its cell, and the cells come block by block in the order
      of their hashes. */
  lemma BuiltInHashOrder(plan: Plan, digest: Digest)
    requires ValidPlan(plan)
    ensures InHashOrder(plan, digest, BlockEntries(plan, digest, plan.blocks))
    ensures forall e | e in BlockEntries(plan, digest, plan.blocks) :: 1 <= e.block && NamedAs(plan, e)
  {
    PlanMembers(plan);
    BlocksPositive(plan);
    BuiltScheduleComplete(plan, digest);
    hide ValidPlan, BlockEntries, InHashOrder, NoRepeats, Complete, NamedAs;
    BlocksInOrder(plan, digest, plan.blocks);
    forall e | e in BlockEntries(plan, digest, plan.blocks) ensures e.block >= 0 && NamedAs(plan, e) {
      BuiltEntry(plan, digest, e);
    }
  }

  lemma BuiltEntry(plan: Plan, digest: Digest, e: Entry)
    requires plan.blocks >= 0 && Complete(plan, BlockEntries(plan, digest, plan.blocks), plan.blocks)
    requires e in BlockEntries(plan, digest, plan.blocks)
    ensures e.block >= 0 && NamedAs(plan, e)
  {
    var entries := BlockEntries(plan, digest, plan.blocks);
    var i :| 0 <= i < |entries| && entries[i] == e;
    hide BlockEntries, DistinctCells, Contiguous, NamedAs, EntryFor;
    assert PlannedEntry(plan, entries[i], i + 1, 1, plan.blocks, plan.harnesses);
    Named(plan, e, i + 1, e.block, e.harness, e.arm);
  }
}
