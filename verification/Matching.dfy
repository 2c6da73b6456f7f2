/** The coalescing candidates of a session and the loop that pairs them. */
module Matching {
  import opened Session
  import opened Pairing

  const COALESCE_WINDOW := SECOND
  const MAX_COALESCE_GROUP := 256

  datatype Candidate = Candidate(index: nat, source: string, toolCall: string, signature: string, at: int)

  /** Two optional identifiers do not contradict each other. */
  predicate Agree(a: string, b: string) {
    a == "" || b == "" || a == b
  }

  /** Everything the opposite test asks except the time window. */
  predicate Contrasts(c: Candidate, other: Candidate) {
    other.source != c.source && Agree(c.toolCall, other.toolCall) && Agree(c.signature, other.signature)
  }

  /** The code's test: `other` is counted as an opposite of c. */
  predicate Opposes(c: Candidate, other: Candidate) {
    Contrasts(c, other) && WithinWindow(other.at, c.at, COALESCE_WINDOW)
  }

  /** For every event its identity (empty when it is left out of every group) and its candidate. */
  datatype Board = Board(keys: seq<string>, cands: seq<Candidate>) {
    ghost predicate Valid() {
      |keys| == |cands| && forall i | 0 <= i < |cands| :: cands[i].index == i
    }

    ghost predicate Comparable(i: nat, j: nat)
      requires Valid()
    {
      i < |keys| && j < |keys| && keys[i] != "" && keys[i] == keys[j] && Contrasts(cands[i], cands[j])
    }

    /** No comparable pair lies 2^63 ns or more apart. */
    ghost predicate InRange()
      requires Valid()
    {
      forall i: nat, j: nat | Comparable(i, j) :: cands[j].at - cands[i].at > MIN_DURATION
    }

    ghost function Opposites(i: nat): set<nat>
      requires Valid()
    {
      set j: nat | j < |keys| && Comparable(i, j) && Opposes(cands[i], cands[j])
    }

    ghost function Group(key: string): set<nat> {
      set i: nat | i < |keys| && keys[i] == key
    }

    ghost predicate InSmallGroup(i: nat) {
      i < |keys| && keys[i] != "" && |Group(keys[i])| <= MAX_COALESCE_GROUP
    }

    /** Its mutual pairs are the events that are each other's only compatible opposite, in an
        identity group of at most 256. */
    ghost function Graph(): (g: Graph)
      requires Valid()
      ensures g.Valid() && |g.opposites| == |keys|
      ensures forall i: nat | i < |keys| :: g.opposites[i] == Opposites(i) && i !in g.opposites[i]
      ensures forall i: nat :: i in g.small <==> InSmallGroup(i)
    {
      Pairing.Graph(seq(|keys|, i requires 0 <= i < |keys| => Opposites(i)), set i: nat | i < |keys| && InSmallGroup(i))
    }
  }

  /** The code's opposite test means "comparable, and at most one second apart" for every pair of a
      session exactly when the session is in range. */
  lemma InRangeExact(b: Board)
    requires b.Valid()
    ensures b.InRange() <==>
      forall i: nat, j: nat | b.Comparable(i, j) ::
        Opposes(b.cands[i], b.cands[j]) <==> Distance(b.cands[i].at, b.cands[j].at) <= COALESCE_WINDOW
  {
    forall i: nat, j: nat | b.Comparable(i, j)
      ensures Opposes(b.cands[i], b.cands[j]) <==>
        (Distance(b.cands[i].at, b.cands[j].at) <= COALESCE_WINDOW || b.cands[j].at - b.cands[i].at <= MIN_DURATION)
    {
      WithinWindowExact(b.cands[j].at, b.cands[i].at, COALESCE_WINDOW);
    }
  }

  /** In range nothing can go wrong, but a session out of range may still be reciprocal. */
  lemma GraphSymmetric(b: Board)
    requires b.Valid() && b.InRange()
    ensures b.Graph().Symmetric() && b.Graph().Reciprocal()
  {
    InRangeExact(b);
    var g := b.Graph();
    forall i: nat, j: nat | i < |b.keys| && j in g.opposites[i] ensures i in g.opposites[j] {
      assert b.Comparable(i, j) && b.Comparable(j, i);
    }
    SymmetricReciprocal(g);
  }

  // ---------------------------------------------------------------- grouping

  /** The candidates with one key, in session order. */
  function Members(b: Board, key: string): (r: seq<Candidate>)
    requires |b.keys| == |b.cands|
    decreases |b.keys|
  {
    if b.keys == [] then []
    else
      var n := |b.keys| - 1;
      var r := Members(Board(b.keys[..n], b.cands[..n]), key);
      if b.keys[n] == key then r + [b.cands[n]] else r
  }

  ghost predicate Holds(b: Board, key: string, c: Candidate)
    requires b.Valid()
  {
    c.index < |b.keys| && b.keys[c.index] == key && b.cands[c.index] == c
  }

  lemma {:induction false} MembersOf(b: Board, key: string)
    requires b.Valid()
    ensures forall a | 0 <= a < |Members(b, key)| :: Holds(b, key, Members(b, key)[a])
    ensures forall a, c | 0 <= a < c < |Members(b, key)| :: Members(b, key)[a].index < Members(b, key)[c].index
    decreases |b.keys|
  {
    if b.keys != [] {
      var n := |b.keys| - 1;
      var init := Board(b.keys[..n], b.cands[..n]);
      MembersOf(init, key);
      var r := Members(init, key);
      assert forall a | 0 <= a < |r| :: Holds(init, key, r[a]);
    }
  }

  lemma {:induction false} MembersCount(b: Board, key: string)
    requires b.Valid()
    ensures |Members(b, key)| == |b.Group(key)|
    decreases |b.keys|
  {
    if b.keys != [] {
      var n := |b.keys| - 1;
      var init := Board(b.keys[..n], b.cands[..n]);
      MembersCount(init, key);
      assert b.Group(key) == if b.keys[n] == key then init.Group(key) + {n} else init.Group(key);
    } else {
      assert b.Group(key) == {};
    }
  }

  lemma {:induction false} MembersComplete(b: Board, key: string, i: nat)
    requires b.Valid() && i < |b.keys| && b.keys[i] == key
    ensures exists a | 0 <= a < |Members(b, key)| :: Members(b, key)[a].index == i
    decreases |b.keys|
  {
    var n := |b.keys| - 1;
    var init := Board(b.keys[..n], b.cands[..n]);
    var r := Members(init, key);
    if i == n {
      assert Members(b, key)[|r|].index == i;
    } else {
      MembersComplete(init, key, i);
      var a :| 0 <= a < |r| && r[a].index == i;
      assert Members(b, key)[a].index == i;
    }
  }

  ghost predicate Grouped(b: Board, groups: map<string, seq<Candidate>>)
    requires |b.keys| == |b.cands|
  {
    && (forall key | key in groups :: key != "" && groups[key] == Members(b, key))
    && (forall i | 0 <= i < |b.keys| && b.keys[i] != "" :: b.keys[i] in groups)
  }

  lemma GroupedEmpty()
    ensures Grouped(Board([], []), map[])
  {
  }

  lemma {:induction false} MembersAbsent(b: Board, key: string, groups: map<string, seq<Candidate>>)
    requires |b.keys| == |b.cands| && key != "" && key !in groups
    requires forall i | 0 <= i < |b.keys| && b.keys[i] != "" :: b.keys[i] in groups
    ensures Members(b, key) == []
    decreases |b.keys|
  {
    if b.keys != [] {
      var n := |b.keys| - 1;
      MembersAbsent(Board(b.keys[..n], b.cands[..n]), key, groups);
    }
  }

  lemma MembersExtend(b: Board, key: string, c: Candidate, k: string)
    requires |b.keys| == |b.cands|
    ensures Members(Board(b.keys + [key], b.cands + [c]), k) == if k == key then Members(b, k) + [c] else Members(b, k)
  {
    var n := |b.keys|;
    assert (b.keys + [key])[..n] == b.keys && (b.cands + [c])[..n] == b.cands;
  }

  /** Appending one event to the board and its candidate to its group. */
  lemma GroupedStep(b: Board, key: string, c: Candidate, groups: map<string, seq<Candidate>>)
    requires |b.keys| == |b.cands| && Grouped(b, groups)
    ensures var longer := Board(b.keys + [key], b.cands + [c]);
      if key == "" then Grouped(longer, groups)
      else Grouped(longer, groups[key := (if key in groups then groups[key] else []) + [c]])
  {
    hide Members;
    var longer := Board(b.keys + [key], b.cands + [c]);
    forall k ensures Members(longer, k) == if k == key then Members(b, k) + [c] else Members(b, k) {
      MembersExtend(b, key, c, k);
    }
    if key != "" && key !in groups { MembersAbsent(b, key, groups); }
    forall i | 0 <= i < |longer.keys| && longer.keys[i] != ""
      ensures longer.keys[i] in groups || longer.keys[i] == key
    {
      assert i < |b.keys| ==> longer.keys[i] == b.keys[i];
    }
  }

  // ---------------------------------------------------------------- opposites

  ghost function OpposingPositions(c: Candidate, group: seq<Candidate>): set<nat> {
    set k: nat | k < |group| && Opposes(c, group[k])
  }

  /** Stops after the second opposite: the caller only asks whether there is exactly one. */
  method UniqueOppositeCandidates(c: Candidate, group: seq<Candidate>) returns (r: seq<Candidate>)
    requires forall k | 0 <= k < |group| && group[k].index == c.index :: group[k] == c
    ensures |r| == 1 <==> |OpposingPositions(c, group)| == 1
    ensures |r| == 1 ==> exists k :: OpposingPositions(c, group) == {k} && r[0] == group[k]
  {
    ghost var all := OpposingPositions(c, group);
    ghost var first: nat := 0;
    r := [];
    for k := 0 to |group|
      invariant r == [] ==> OpposingPositions(c, group[..k]) == {}
      invariant r != [] ==> first < k && r == [group[first]] && OpposingPositions(c, group[..k]) == {first}
    {
      var other := group[k];
      assert OpposingPositions(c, group[..k + 1]) ==
        OpposingPositions(c, group[..k]) + if Opposes(c, other) then {k} else {};
      if other.index == c.index || other.source == c.source { continue; }
      if DurationAbsolute(Sub(other.at, c.at)) > COALESCE_WINDOW { continue; }
      if c.toolCall != "" && other.toolCall != "" && c.toolCall != other.toolCall { continue; }
      if c.signature != "" && other.signature != "" && c.signature != other.signature { continue; }
      r := r + [other];
      if |r| > 1 {
        assert {first, k} == OpposingPositions(c, group[..k + 1]) <= all;
        SingletonSet(all, k);
        return;
      }
      first := k;
    }
    assert group[..|group|] == group;
  }

  ghost predicate Listed(index: seq<nat>, positions: set<nat>, j: nat) {
    exists k | k in positions :: k < |index| && index[k] == j
  }

  ghost predicate Increasing(index: seq<nat>) {
    forall a, c | 0 <= a < c < |index| :: index[a] < index[c]
  }

  /** `index` is a bijection from `positions` to `all`. */
  lemma SameCount(positions: set<nat>, index: seq<nat>, all: set<nat>)
    requires forall k | k in positions :: k < |index| && index[k] in all
    requires Increasing(index) && forall j | j in all :: Listed(index, positions, j)
    ensures |positions| == 1 <==> |all| == 1
    ensures forall k :: positions == {k} ==> all == {index[k]}
  {
    if |positions| == 1 {
      var k :| k in positions;
      SingletonSet(positions, k);
      forall j | j in all ensures j == index[k] { assert Listed(index, positions, j); }
      assert all == {index[k]};
    }
    if |all| == 1 {
      var j :| j in all;
      SingletonSet(all, j);
      assert Listed(index, positions, j);
      var k :| k in positions && index[k] == j;
      forall l | l in positions ensures l == k { assert index[l] == j; }
      assert positions == {k};
    }
  }

  function Indexes(group: seq<Candidate>): (r: seq<nat>)
    ensures |r| == |group| && forall k | 0 <= k < |group| :: r[k] == group[k].index
  {
    seq(|group|, k requires 0 <= k < |group| => group[k].index)
  }

  lemma OpposesContrasts(c: Candidate, other: Candidate)
    requires Opposes(c, other)
    ensures Contrasts(c, other)
  {
  }

  lemma PositionIsOpposite(b: Board, i: nat, k: nat)
    requires b.Valid() && i < |b.keys| && b.keys[i] != ""
    requires k in OpposingPositions(b.cands[i], Members(b, b.keys[i]))
    ensures Members(b, b.keys[i])[k].index in b.Opposites(i)
  {
    var group := Members(b, b.keys[i]);
    MembersOf(b, b.keys[i]);
    OpposesContrasts(b.cands[i], group[k]);
    hide Opposes, Contrasts;
    assert b.Comparable(i, group[k].index);
  }

  lemma OppositeHasPosition(b: Board, i: nat, j: nat)
    requires b.Valid() && i < |b.keys| && b.keys[i] != "" && j in b.Opposites(i)
    ensures var group := Members(b, b.keys[i]); Listed(Indexes(group), OpposingPositions(b.cands[i], group), j)
  {
    var group := Members(b, b.keys[i]);
    MembersOf(b, b.keys[i]);
    MembersComplete(b, b.keys[i], j);
    hide Opposes, Contrasts;
    var k :| 0 <= k < |group| && group[k].index == j;
    assert k in OpposingPositions(b.cands[i], group) && Indexes(group)[k] == j;
  }

  /** Counting in the group is counting in the session. */
  lemma OpposingInSession(b: Board, i: nat)
    requires b.Valid() && i < |b.keys| && b.keys[i] != ""
    ensures var group := Members(b, b.keys[i]); var positions := OpposingPositions(b.cands[i], group);
      && (|positions| == 1 <==> |b.Opposites(i)| == 1)
      && forall k :: positions == {k} ==> k < |group| && b.Opposites(i) == {group[k].index}
  {
    hide Opposes, Members, Board.Opposites, Listed, Contrasts, Board.Comparable;
    var group, all := Members(b, b.keys[i]), b.Opposites(i);
    var positions := OpposingPositions(b.cands[i], group);
    var index := Indexes(group);
    assert Increasing(index) by { MembersOf(b, b.keys[i]); }
    forall k | k in positions ensures k < |group| && index[k] in all { PositionIsOpposite(b, i, k); }
    forall j | j in all ensures Listed(index, positions, j) { OppositeHasPosition(b, i, j); }
    SameCount(positions, index, all);
    forall k | positions == {k} ensures k < |group| { assert k in positions; }
  }
}
