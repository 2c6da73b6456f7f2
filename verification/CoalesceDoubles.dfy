/** Which events coalescing merges, in terms of their own fields: the historical and the live record of
    one action. */
module CoalesceDoubles {
  import opened Text
  import opened Ordering
  import opened Session
  import opened Pairing
  import opened Matching
  import opened GroupOrder
  import opened Coalesce
  import opened CoalesceLaws
  import opened CoalesceEvidence
  import opened CoalesceMeaning

  // ---------------------------------------------------------------- joined texts

  predicate NulFree(s: string) {
    '\0' !in s
  }

  lemma {:induction false} JoinInjective(a: seq<string>, b: seq<string>)
    requires a != [] && b != [] && JoinNul(a) == JoinNul(b)
    requires (forall s | s in a :: NulFree(s)) && (forall s | s in b :: NulFree(s))
    ensures a == b
  {
    SplitJoin(a);
    SplitJoin(b);
  }

  /** The pieces of a joined text can be read back. */
  lemma {:induction false} SplitJoin(parts: seq<string>)
    requires parts != [] && forall s | s in parts :: NulFree(s)
    ensures Split(JoinNul(parts), '\0') == parts
  {
    hide NulFree;
    assert NulFree(parts[0]) by { assert parts[0] in parts; }
    if |parts| == 1 {
      SplitWhole(parts[0]);
    } else {
      forall s | s in parts[1..] ensures NulFree(s) { assert s in parts; }
      SplitJoin(parts[1..]);
      SplitFirst(parts[0], JoinNul(parts[1..]));
      assert parts == [parts[0]] + parts[1..];
    }
  }

  lemma {:induction false} SplitWhole(s: string)
    requires NulFree(s)
    ensures Split(s, '\0') == [s]
  {
    if s != [] {
      SplitWhole(s[1..]);
      assert s == [s[0]] + s[1..];
    }
  }

  lemma {:induction false} SplitFirst(s: string, rest: string)
    requires NulFree(s)
    ensures Split(s + "\0" + rest, '\0') == [s] + Split(rest, '\0')
  {
    var text := s + "\0" + rest;
    if s == [] {
      assert text == ['\0'] + rest && text[1..] == rest;
    } else {
      SplitFirst(s[1..], rest);
      assert text[1..] == s[1..] + "\0" + rest;
      assert s == [s[0]] + s[1..];
    }
  }

  // ---------------------------------------------------------------- identity

  /** What an event of this kind is about, in a list that begins with a tag; None if it is never merged. */
  function Subject(x: Prepared): Option<seq<string>> {
    var e, r := x.event, x.enrichment;
    if e.kind == "command.exec" then
      if r.signature == "" then None else Some(["command", r.signature])
    else if e.kind == "command.result" then
      if ToolCallID(e) != "" then Some(["command-result-tool-call", ToolCallID(e)])
      else if r.signature == "" then None else Some(["command", r.signature])
    else if e.kind in {"permission.requested", "permission.approved", "permission.denied"} then
      if r.permission == "" then None else Some(["permission", r.permission])
    else if e.kind in {"file.read", "file.write", "file.delete"} then
      if e.resource == None || e.resource.value.kind == "" || e.resource.value.name == "" then None
      else Some(["resource", e.resource.value.kind, e.resource.value.name])
    else if e.kind == "tool.result" then
      if e.toolIdentity == "" then None else Some(["tool-result", e.toolIdentity])
    else None
  }

  /** The same action in the same session, with the same outcome, about the same thing. */
  predicate SameAction(x: Prepared, y: Prepared) {
    && x.event.sessionKey == y.event.sessionKey && x.event.kind == y.event.kind && x.event.actor == y.event.actor
    && Lower(TrimSpace(x.event.outcome)) == Lower(TrimSpace(y.event.outcome)) && x.event.exitCode == y.event.exitCode
    && Subject(x) == Subject(y)
  }

  predicate Mergeable(x: Prepared) {
    x.event.source in {"artifact", "hook"} && Subject(x).Some?
  }

  /** No field that an identity is made of has the separator. */
  predicate Separable(x: Prepared) {
    && NulFree(x.event.sessionKey) && NulFree(x.event.kind) && NulFree(x.event.actor)
    && NulFree(Lower(TrimSpace(x.event.outcome)))
    && (Subject(x).Some? ==> forall s | s in Subject(x).value :: NulFree(s))
  }

  function BaseParts(e: Event): seq<string> {
    [e.sessionKey, e.kind, e.actor, Lower(TrimSpace(e.outcome)), ExitCodeText(e)]
  }

  lemma {:induction false} JoinConcat(a: seq<string>, b: seq<string>)
    requires a != [] && b != []
    ensures JoinNul(a + b) == JoinNul(a) + "\0" + JoinNul(b)
  {
    if |a| == 1 {
      assert (a + b)[1..] == b;
    } else {
      JoinConcat(a[1..], b);
      assert (a + b)[1..] == a[1..] + b;
    }
  }

  lemma JoinTwo(a: string, b: string)
    ensures JoinNul([a, b]) == a + "\0" + b
  {
    assert [a, b][1..] == [b];
  }

  lemma JoinThree(a: string, b: string, c: string)
    ensures JoinNul([a, b, c]) == a + "\0" + b + "\0" + c
  {
    assert [a, b, c][1..] == [b, c];
    JoinTwo(b, c);
  }

  lemma Tags()
    ensures "\0command\0" == "\0" + "command" + "\0" && "\0permission\0" == "\0" + "permission" + "\0"
    ensures "\0command-result-tool-call\0" == "\0" + "command-result-tool-call" + "\0"
    ensures "\0resource\0" == "\0" + "resource" + "\0" && "\0tool-result\0" == "\0" + "tool-result" + "\0"
  {
  }

  lemma Regroup(base: string, tag: string, s: string)
    ensures base + ("\0" + tag + "\0") + s == base + "\0" + (tag + "\0" + s)
  {
  }

  lemma RegroupTwo(base: string, tag: string, s: string, t: string)
    ensures base + ("\0" + tag + "\0") + s + "\0" + t == base + "\0" + (tag + "\0" + s + "\0" + t)
  {
  }

  /** An identity is the base, the separator and the subject. */
  lemma IdentityText(x: Prepared)
    ensures Identity(x) ==
      if Subject(x) == None then "" else JoinNul(BaseParts(x.event)) + "\0" + JoinNul(Subject(x).value)
  {
    if Subject(x).Some? {
      SubjectText(x);
      Tags();
      var base, s := JoinNul(BaseParts(x.event)), Subject(x).value;
      hide JoinNul, TrimSpace, Lower, ToolCallID, ExitCodeText;
      if |s| == 2 { Regroup(base, s[0], s[1]); } else { RegroupTwo(base, s[0], s[1], s[2]); }
    } else {
      hide JoinNul, TrimSpace, Lower, ToolCallID, ExitCodeText;
    }
  }

  lemma SourceKnown(x: Prepared)
    ensures SourceOf(x) != "" <==> x.event.source in {"artifact", "hook"}
    ensures SourceOf(x) == "historical" <==> x.event.source == "artifact"
    ensures SourceOf(x) == "live" <==> x.event.source == "hook"
  {
  }

  /** The identity is its parts, joined. */
  lemma KeyParts(x: Prepared)
    ensures if Mergeable(x) then KeyOf(x) == JoinNul(BaseParts(x.event) + Subject(x).value) else KeyOf(x) == ""
  {
    SourceKnown(x);
    IdentityText(x);
    if Mergeable(x) { JoinConcat(BaseParts(x.event), Subject(x).value); }
    hide JoinNul, Identity, Subject, SourceOf, BaseParts;
  }

  lemma SubjectText(x: Prepared)
    requires Subject(x).Some?
    ensures var s := Subject(x).value;
      JoinNul(s) == if |s| == 2 then s[0] + "\0" + s[1] else s[0] + "\0" + s[1] + "\0" + s[2]
    ensures |Subject(x).value| in {2, 3}
  {
    hide JoinNul;
    var s := Subject(x).value;
    if |s| == 2 {
      JoinTwo(s[0], s[1]);
      assert s == [s[0], s[1]];
    } else {
      JoinThree(s[0], s[1], s[2]);
      assert s == [s[0], s[1], s[2]];
    }
  }

  lemma {:induction false} DecimalNulFree(n: nat)
    ensures NulFree(Decimal(n)) && forall c | c in Decimal(n) :: IsDigit(c)
  {
    var r := Decimal(n);
    forall c | c in r ensures IsDigit(c) {
      var i :| 0 <= i < |r| && r[i] == c;
    }
  }

  lemma ItoaText(n: int)
    ensures NulFree(Itoa(n)) && Itoa(n) != [] && Itoa(n)[0] != 'n' && (Itoa(n)[0] == '-' <==> n < 0)
    ensures n < 0 ==> Itoa(n)[1..] == Decimal(-n)
  {
    DecimalNulFree(if n < 0 then -n else n);
    hide Decimal;
  }

  lemma ItoaInjective(m: int, n: int)
    requires Itoa(m) == Itoa(n)
    ensures m == n
  {
    ItoaText(m);
    ItoaText(n);
    hide Decimal;
    if m < 0 { DecimalInjective(-m, -n); } else { DecimalInjective(m, n); }
  }

  lemma ExitCodesDiffer(x: Event, y: Event)
    ensures NulFree(ExitCodeText(x))
    ensures ExitCodeText(x) == ExitCodeText(y) ==> x.exitCode == y.exitCode
  {
    ExitCodeTail(x);
    ExitCodeTail(y);
    hide ExitCodeText, Itoa;
    if x.exitCode.Some? { ItoaText(x.exitCode.value); }
    if y.exitCode.Some? { ItoaText(y.exitCode.value); }
    if x.exitCode.Some? && y.exitCode.Some? && ExitCodeText(x) == ExitCodeText(y) {
      ItoaInjective(x.exitCode.value, y.exitCode.value);
    }
  }

  lemma ExitCodeTail(x: Event)
    ensures |ExitCodeText(x)| >= 5 && ExitCodeText(x)[..5] == "exit:"
    ensures ExitCodeText(x)[5..] == if x.exitCode.Some? then Itoa(x.exitCode.value) else "none"
    ensures NulFree(ExitCodeText(x)) <==> NulFree(ExitCodeText(x)[5..])
  {
    hide Itoa;
    assert ExitCodeText(x) == "exit:" + ExitCodeText(x)[5..];
  }

  lemma PartsNulFree(x: Prepared)
    requires Separable(x) && Subject(x).Some?
    ensures forall s | s in BaseParts(x.event) + Subject(x).value :: NulFree(s)
  {
    ExitCodesDiffer(x.event, x.event);
    hide NulFree, Subject, TrimSpace, Lower, ExitCodeText;
  }

  lemma JoinedNotEmpty(parts: seq<string>)
    requires |parts| >= 2
    ensures JoinNul(parts) != ""
  {
  }

  lemma SubjectSize(x: Prepared)
    ensures Subject(x).Some? ==> |Subject(x).value| >= 2
  {
  }

  /** With fields free of the separator, two events share an identity if and only if they record the
      same action. */
  lemma IdentityExact(x: Prepared, y: Prepared)
    requires Separable(x) && Separable(y)
    ensures KeyOf(x) != "" <==> Mergeable(x)
    ensures KeyOf(x) != "" && KeyOf(x) == KeyOf(y) <==> Mergeable(x) && Mergeable(y) && SameAction(x, y)
  {
    KeyParts(x);
    KeyParts(y);
    SubjectSize(x);
    SubjectSize(y);
    hide KeyOf, Subject, TrimSpace, Lower, NulFree, JoinNul, Separable, ExitCodeText;
    if Mergeable(x) { JoinedNotEmpty(BaseParts(x.event) + Subject(x).value); }
    if Mergeable(x) && Mergeable(y) { SameParts(x, y); }
  }

  lemma SameParts(x: Prepared, y: Prepared)
    requires Separable(x) && Separable(y) && Subject(x).Some? && Subject(y).Some?
    ensures JoinNul(BaseParts(x.event) + Subject(x).value) == JoinNul(BaseParts(y.event) + Subject(y).value) <==>
      SameAction(x, y)
  {
    PartsNulFree(x);
    PartsNulFree(y);
    ExitCodesDiffer(x.event, y.event);
    hide Subject, TrimSpace, Lower, NulFree, Separable;
    var a, b := BaseParts(x.event) + Subject(x).value, BaseParts(y.event) + Subject(y).value;
    if JoinNul(a) == JoinNul(b) {
      JoinInjective(a, b);
      hide JoinNul, ExitCodeText;
      assert a[..5] == BaseParts(x.event) && a[5..] == Subject(x).value;
      assert b[..5] == BaseParts(y.event) && b[5..] == Subject(y).value;
      assert a[0] == b[0] && a[1] == b[1] && a[2] == b[2] && a[3] == b[3] && a[4] == b[4];
    }
  }

  // ---------------------------------------------------------------- doubles

  predicate EqualOrMissing(a: string, b: string) {
    a == "" || b == "" || a == b
  }

  /** y records the same action as x from the other side, at most a second apart. */
  predicate Doubles(x: Prepared, y: Prepared) {
    && Mergeable(x) && Mergeable(y) && SameAction(x, y) && {x.event.source, y.event.source} == {"artifact", "hook"}
    && EqualOrMissing(ToolCallID(x.event), ToolCallID(y.event))
    && EqualOrMissing(x.enrichment.signature, y.enrichment.signature)
    && x.event.at - y.event.at <= SECOND && y.event.at - x.event.at <= SECOND
  }

  ghost predicate AllSeparable(events: seq<Prepared>) {
    forall i | 0 <= i < |events| :: Separable(events[i])
  }

  /** What the code counts as an opposite is a double, in a session in range. */
  lemma OppositesAreDoubles(events: seq<Prepared>, i: nat, j: nat)
    requires AllSeparable(events) && InRange(events) && i < |events| && j < |events|
    ensures j in GraphOf(events).opposites[i] <==> Doubles(events[i], events[j])
  {
    IdentityExact(events[i], events[j]);
    SourceKnown(events[i]);
    SourceKnown(events[j]);
    OppositeIs(events, i, j);
    hide KeyOf, SourceOf, Subject, Separable, ToolCallID, TrimSpace, Lower;
  }

  lemma OppositeIs(events: seq<Prepared>, i: nat, j: nat)
    requires InRange(events) && i < |events| && j < |events|
    ensures var x, y := events[i], events[j];
      j in GraphOf(events).opposites[i] <==>
        KeyOf(x) != "" && KeyOf(x) == KeyOf(y) && SourceOf(x) != SourceOf(y)
        && EqualOrMissing(ToolCallID(x.event), ToolCallID(y.event))
        && EqualOrMissing(x.enrichment.signature, y.enrichment.signature)
        && x.event.at - y.event.at <= SECOND && y.event.at - x.event.at <= SECOND
  {
    hide KeyOf, SourceOf, ToolCallID;
    var b := BoardOf(events);
    assert GraphOf(events).opposites[i] == b.Opposites(i);
    WithinWindowExact(events[j].event.at, events[i].event.at, COALESCE_WINDOW);
    hide Session.WithinWindow;
  }

  /** The events that a session has as doubles of event i. */
  ghost function DoublesOf(events: seq<Prepared>, i: nat): set<nat>
    requires i < |events|
  {
    set j: nat | j < |events| && Doubles(events[i], events[j])
  }

  /** The events of the same action, of which coalescing looks at no more than 256. */
  ghost function ActionOf(events: seq<Prepared>, i: nat): set<nat>
    requires i < |events|
  {
    set j: nat | j < |events| && Mergeable(events[j]) && SameAction(events[i], events[j])
  }

  lemma ActionIsGroup(events: seq<Prepared>, i: nat)
    requires AllSeparable(events) && i < |events| && Mergeable(events[i])
    ensures ActionOf(events, i) == BoardOf(events).Group(KeyOf(events[i]))
  {
    forall j: nat | j < |events|
      ensures Mergeable(events[j]) && SameAction(events[i], events[j]) <==> KeyOf(events[j]) == KeyOf(events[i])
    {
      IdentityExact(events[i], events[j]);
    }
    hide KeyOf, SameAction, Mergeable, Separable;
  }

  /** i and j are each other's only double, of an action with at most 256 records. */
  ghost predicate OnlyDoubles(events: seq<Prepared>, i: nat, j: nat)
    requires i < |events| && j < |events|
  {
    DoublesOf(events, i) == {j} && DoublesOf(events, j) == {i} && |ActionOf(events, i)| <= 256
  }

  /** Coalescing pairs exactly the events that are each other's only double. */
  lemma PairsAreOnlyDoubles(events: seq<Prepared>, i: nat, j: nat)
    requires AllSeparable(events) && InRange(events) && i < |events| && j < |events|
    ensures var p := PairedIn(BoardOf(events));
      i in p && p[i] == j <==> OnlyDoubles(events, i, j)
  {
    hide PairedIn, Doubles, DoublesOf, AllSeparable, Coalesce.InRange, BoardOf, ActionOf;
    var g, p := GraphOf(events), PairedIn(BoardOf(events));
    InRangeReciprocal(events);
    PairingIsMutual(BoardOf(events));
    OppositesOf(events, i);
    OppositesOf(events, j);
    MutualExactly(g, p, i, j);
    hide GraphOf;
    if DoublesOf(events, i) == {j} { SmallWhenDoubled(events, i, j); }
    assert OnlyDoubles(events, i, j) <==> g.Mutual(i, j);
  }

  lemma MutualExactly(g: Graph, p: map<nat, nat>, i: nat, j: nat)
    requires g.IsPairing(p)
    ensures i in p && p[i] == j <==> g.Mutual(i, j)
  {
  }

  lemma OppositesOf(events: seq<Prepared>, i: nat)
    requires AllSeparable(events) && InRange(events) && i < |events|
    ensures |GraphOf(events).opposites| == |events| && GraphOf(events).opposites[i] == DoublesOf(events, i)
  {
    assert GraphOf(events).opposites[i] == BoardOf(events).Opposites(i);
    forall j: nat | j < |events| ensures j in GraphOf(events).opposites[i] <==> Doubles(events[i], events[j]) {
      OppositesAreDoubles(events, i, j);
    }
    hide Doubles, AllSeparable, Coalesce.InRange;
    assert forall j | j in GraphOf(events).opposites[i] :: j < |events|;
  }

  lemma SmallWhenDoubled(events: seq<Prepared>, i: nat, j: nat)
    requires AllSeparable(events) && i < |events| && j < |events| && j in DoublesOf(events, i)
    ensures i in GraphOf(events).small <==> |ActionOf(events, i)| <= 256
  {
    IdentityExact(events[i], events[i]);
    ActionIsGroup(events, i);
    hide KeyOf, SameAction, ActionOf, Separable;
    assert i in GraphOf(events).small <==> BoardOf(events).InSmallGroup(i);
  }

  /** Some output event cites both. */
  ghost predicate CitedTogether(out: seq<Prepared>, x: Prepared, y: Prepared) {
    exists q :: q in out && Draws(q, x) && Draws(q, y)
  }

  /** Two input events end up in one output event if and only if they are each other's only double. */
  lemma MergesOnlyDoubles(events: seq<Prepared>, i: nat, j: nat)
    requires AllSeparable(events) && InRange(events) && NoRepeatedEvidence(events) && AllCite(events)
    requires i < |events| && j < |events| && i != j
    ensures CitedTogether(Coalesced(events), events[i], events[j]) <==> OnlyDoubles(events, i, j)
  {
    var p := PairedIn(BoardOf(events));
    hide PairedIn, BoardOf, Coalesced, AllSeparable, Coalesce.InRange, NoRepeatedEvidence, AllCite, OnlyDoubles, Draws;
    PairsAreOnlyDoubles(events, i, j);
    PairedBothWays(events, i, j);
    if CitedTogether(Coalesced(events), events[i], events[j]) {
      var q :| q in Coalesced(events) && Draws(q, events[i]) && Draws(q, events[j]);
      var a, b := DrawnPair(events, q, i);
      DrawnAt(events, q, a, b, j);
    } else if i in p && p[i] == j {
      TogetherWhenPaired(events, i, j);
    }
  }

  lemma PairedBothWays(events: seq<Prepared>, i: nat, j: nat)
    requires InRange(events)
    ensures var p := PairedIn(BoardOf(events)); i in p && p[i] == j <==> j in p && p[j] == i
  {
    InRangeReciprocal(events);
    PairedIsDeclarative(events);
    PairingIsInvolution(events);
    hide PairedIn, Coalesce.InRange;
  }

  /** The two positions an output event comes from, of which i is one if it draws event i. */
  lemma DrawnPair(events: seq<Prepared>, q: Prepared, i: nat) returns (a: nat, b: nat)
    requires NoRepeatedEvidence(events) && q in Coalesced(events) && i < |events| && Draws(q, events[i])
    ensures From(events, q, a, b) && MergedAs(PairedIn(BoardOf(events)), a, b) && (i == a || i == b)
  {
    hide Coalesced, NoRepeatedEvidence, Draws, From, PairedIn, BoardOf;
    a, b := CoalescedFrom(events, q);
    DrawnAt(events, q, a, b, i);
  }

  lemma TogetherWhenPaired(events: seq<Prepared>, i: nat, j: nat)
    requires InRange(events) && NoRepeatedEvidence(events) && AllCite(events) && i < |events| && j < |events|
    requires i in PairedIn(BoardOf(events)) && PairedIn(BoardOf(events))[i] == j
    ensures CitedTogether(Coalesced(events), events[i], events[j])
  {
    hide PairedIn, BoardOf, Coalesced, Coalesce.InRange, NoRepeatedEvidence, Merged;
    var q := SomeDraws(events, i);
    var a, b := DrawnPair(events, q, i);
    PairedBothWays(events, i, j);
    PairedBothWays(events, a, b);
    assert {a, b} == {i, j};
    DrawsExactly(events, q, a, b, events[j]);
    hide AllCite, Draws, From;
  }

  lemma SomeDraws(events: seq<Prepared>, i: nat) returns (q: Prepared)
    requires AllCite(events) && i < |events|
    ensures q in Coalesced(events) && Draws(q, events[i])
  {
    hide Coalesced;
    var id := events[i].evidence[0];
    assert events[i] in events && id in events[i].evidence;
    assert Cites(events, id);
    NothingLost(events, id);
    q :| q in Coalesced(events) && id in q.evidence;
  }
}
