/** What one segment of a path pattern matches: the names that divide among its characters. */
module SegmentMeaning {
  import opened PathMatch

  /** A `*` takes any characters but the separator, a `?` one such character, and any other character
      itself. */
  predicate Takes(c: char, name: string, from: nat, to: nat) {
    if c == '*' then from <= to <= |name| && forall k | from <= k < to :: name[k] != '/'
    else to == from + 1 && to <= |name| && (name[from] == c || (c == '?' && name[from] != '/'))
  }

  /** Character i of the pattern takes what runs from cuts[i] to cuts[i + 1]. */
  ghost predicate Spells(pattern: string, name: string, cuts: seq<nat>) {
    && |cuts| == |pattern| + 1 && cuts[0] == 0 && cuts[|pattern|] == |name|
    && forall i | 0 <= i < |pattern| :: Takes(pattern[i], name, cuts[i], cuts[i + 1])
  }

  lemma TakesShift(c: char, name: string, from: nat, to: nat)
    requires name != ""
    ensures Takes(c, name[1..], from, to) <==> Takes(c, name, from + 1, to + 1)
  {
    if Takes(c, name, from + 1, to + 1) && c == '*' {
      forall k | from <= k < to ensures name[1..][k] != '/' { assert name[k + 1] != '/'; }
    }
    if Takes(c, name[1..], from, to) && c == '*' {
      forall k | from + 1 <= k < to + 1 ensures name[k] != '/' { assert name[1..][k - 1] != '/'; }
    }
  }

  lemma {:induction false} MatchedSpells(pattern: string, name: string) returns (cuts: seq<nat>)
    requires SegmentMatches(pattern, name)
    ensures Spells(pattern, name, cuts)
    decreases |pattern| + |name|
  {
    if pattern == "" {
      cuts := [0];
    } else if pattern[0] == '*' && SegmentMatches(pattern[1..], name) {
      var rest := MatchedSpells(pattern[1..], name);
      SpellsLater(pattern, name, rest);
      cuts := [0] + rest;
    } else if pattern[0] == '*' {
      var rest := MatchedSpells(pattern, name[1..]);
      SpellsLonger(pattern, name, rest);
      cuts := Shift(rest)[0 := 0];
    } else {
      var rest := MatchedSpells(pattern[1..], name[1..]);
      SpellsOne(pattern, name, rest);
      cuts := [0] + Shift(rest);
    }
  }

  lemma SpellsLater(pattern: string, name: string, rest: seq<nat>)
    requires pattern != "" && pattern[0] == '*' && Spells(pattern[1..], name, rest)
    ensures Spells(pattern, name, [0] + rest)
  {
    var cuts := [0] + rest;
    assert Takes('*', name, 0, 0);
    hide Takes;
    forall i | 0 <= i < |pattern| ensures Takes(pattern[i], name, cuts[i], cuts[i + 1]) {
      if i > 0 { assert Takes(pattern[1..][i - 1], name, rest[i - 1], rest[i]); }
    }
  }

  lemma SpellsLonger(pattern: string, name: string, rest: seq<nat>)
    requires pattern != "" && pattern[0] == '*' && name != "" && name[0] != '/' && Spells(pattern, name[1..], rest)
    ensures Spells(pattern, name, Shift(rest)[0 := 0])
  {
    var cuts := Shift(rest)[0 := 0];
    assert Takes('*', name[1..], 0, rest[1]);
    TakesShift('*', name, 0, rest[1]);
    TakesMore(name, rest[1]);
    hide Takes;
    forall i | 0 <= i < |pattern| ensures Takes(pattern[i], name, cuts[i], cuts[i + 1]) {
      assert Takes(pattern[i], name[1..], rest[i], rest[i + 1]);
      TakesShift(pattern[i], name, rest[i], rest[i + 1]);
    }
  }

  lemma TakesMore(name: string, n: nat)
    requires name != "" && name[0] != '/' && Takes('*', name, 1, n + 1)
    ensures Takes('*', name, 0, n + 1)
  {
  }

  lemma SpellsOne(pattern: string, name: string, rest: seq<nat>)
    requires pattern != "" && name != "" && Takes(pattern[0], name, 0, 1) && Spells(pattern[1..], name[1..], rest)
    ensures Spells(pattern, name, [0] + Shift(rest))
  {
    var cuts := [0] + Shift(rest);
    hide Takes;
    forall i | 0 <= i < |pattern| ensures Takes(pattern[i], name, cuts[i], cuts[i + 1]) {
      if i > 0 {
        assert Takes(pattern[1..][i - 1], name[1..], rest[i - 1], rest[i]);
        TakesShift(pattern[i], name, rest[i - 1], rest[i]);
      }
    }
  }

  lemma {:induction false} SpellsGrow(pattern: string, name: string, cuts: seq<nat>, i: nat, j: nat)
    requires Spells(pattern, name, cuts) && i <= j <= |pattern|
    ensures cuts[i] <= cuts[j]
    decreases j
  {
    if i < j { SpellsGrow(pattern, name, cuts, i, j - 1); assert Takes(pattern[j - 1], name, cuts[j - 1], cuts[j]); }
  }

  /** What is left of a spelling after its first character, when that takes nothing. */
  lemma SpellsRest(pattern: string, name: string, cuts: seq<nat>)
    requires Spells(pattern, name, cuts) && pattern != "" && cuts[1] == 0
    ensures Spells(pattern[1..], name, cuts[1..])
  {
    hide Takes;
    forall i | 0 <= i < |pattern| - 1 ensures Takes(pattern[1..][i], name, cuts[1..][i], cuts[1..][i + 1]) {
      assert Takes(pattern[i + 1], name, cuts[i + 1], cuts[i + 2]);
    }
  }

  /** And when it takes something: the same, one character further on. */
  lemma SpellsLower(pattern: string, name: string, cuts: seq<nat>)
    requires Spells(pattern, name, cuts) && pattern != "" && cuts[1] > 0
    ensures name != "" && forall i | 1 <= i <= |pattern| :: cuts[i] > 0
    ensures var lower := Unshift(cuts[1..]);
      && lower[|pattern| - 1] == |name| - 1
      && forall i | 0 <= i < |pattern| - 1 :: Takes(pattern[i + 1], name[1..], lower[i], lower[i + 1])
  {
    forall i | 1 <= i <= |pattern| ensures cuts[i] >= cuts[1] { SpellsGrow(pattern, name, cuts, 1, i); }
    var lower := Unshift(cuts[1..]);
    hide Takes;
    forall i | 0 <= i < |pattern| - 1 ensures Takes(pattern[i + 1], name[1..], lower[i], lower[i + 1]) {
      assert Takes(pattern[i + 1], name, cuts[i + 1], cuts[i + 2]);
      TakesShift(pattern[i + 1], name, lower[i], lower[i + 1]);
    }
  }

  lemma StarTakesLess(name: string, n: nat)
    requires name != "" && n > 0 && Takes('*', name, 0, n)
    ensures name[0] != '/' && Takes('*', name[1..], 0, n - 1)
  {
    assert name[0] != '/' && Takes('*', name, 1, n);
    TakesShift('*', name, 0, n - 1);
  }

  lemma {:induction false} SpelledMatches(pattern: string, name: string, cuts: seq<nat>)
    requires Spells(pattern, name, cuts)
    ensures SegmentMatches(pattern, name)
    decreases |pattern| + |name|
  {
    if pattern != "" {
      assert Takes(pattern[0], name, cuts[0], cuts[1]);
      if cuts[1] == 0 {
        SpellsRest(pattern, name, cuts);
        SpelledMatches(pattern[1..], name, cuts[1..]);
      } else {
        SpellsLower(pattern, name, cuts);
        var lower := Unshift(cuts[1..]);
        if pattern[0] == '*' {
          StarTakesLess(name, cuts[1]);
          SpellSame(pattern, name[1..], [0] + lower);
          SpelledMatches(pattern, name[1..], [0] + lower);
        } else {
          SpelledMatches(pattern[1..], name[1..], lower);
        }
      }
    }
  }

  lemma SpellSame(pattern: string, name: string, cuts: seq<nat>)
    requires |cuts| == |pattern| + 1 > 1 && cuts[0] == 0 && cuts[|pattern|] == |name|
    requires Takes(pattern[0], name, 0, cuts[1])
    requires forall i | 0 <= i < |pattern| - 1 :: Takes(pattern[i + 1], name, cuts[1..][i], cuts[1..][i + 1])
    ensures Spells(pattern, name, cuts)
  {
    hide Takes;
    forall i | 0 <= i < |pattern| ensures Takes(pattern[i], name, cuts[i], cuts[i + 1]) {
      if i > 0 { assert Takes(pattern[i - 1 + 1], name, cuts[1..][i - 1], cuts[1..][i]); }
    }
  }

  /** A segment matches exactly the names that divide among its characters. */
  lemma SegmentMatchesExactly(pattern: string, name: string)
    ensures SegmentMatches(pattern, name) <==> exists cuts: seq<nat> :: Spells(pattern, name, cuts)
  {
    hide Spells, SegmentMatches;
    if SegmentMatches(pattern, name) { var cuts := MatchedSpells(pattern, name); }
    if cuts: seq<nat> :| Spells(pattern, name, cuts) { SpelledMatches(pattern, name, cuts); }
  }
}
