/** Slash-separated path patterns in which a `**` segment matches any number of segments. */
module PathMatch {
  import opened Text

  // ---------------------------------------------------------------- one segment

  /** path.Match on one segment: `*` is any run of characters other than the separator, `?` is one
      such character, every other character is itself.  Validated patterns contain no brackets and
      no backslashes. */
  predicate SegmentMatches(pattern: string, name: string)
    decreases |pattern| + |name|
  {
    if pattern == "" then name == ""
    else if pattern[0] == '*' then
      SegmentMatches(pattern[1..], name) || (name != "" && name[0] != '/' && SegmentMatches(pattern, name[1..]))
    else
      name != "" && (pattern[0] == name[0] || (pattern[0] == '?' && name[0] != '/')) &&
        SegmentMatches(pattern[1..], name[1..])
  }

  // ---------------------------------------------------------------- the backtracking matcher

  const ANY_SEGMENTS := "**"

  /** The recursive closure over two positions. */
  predicate MatchFrom(pattern: seq<string>, file: seq<string>, p: nat, f: nat)
    requires p <= |pattern| && f <= |file|
    decreases |pattern| - p + |file| - f
  {
    if p == |pattern| then f == |file|
    else if pattern[p] == ANY_SEGMENTS then
      MatchFrom(pattern, file, p + 1, f) || (f < |file| && MatchFrom(pattern, file, p, f + 1))
    else
      f < |file| && SegmentMatches(pattern[p], file[f]) && MatchFrom(pattern, file, p + 1, f + 1)
  }

  predicate Matches(pattern: seq<string>, file: seq<string>) {
    MatchFrom(pattern, file, 0, 0)
  }

  predicate RelativePathPatternMatches(pattern: string, file: string) {
    Matches(Split(pattern, '/'), Split(file, '/'))
  }

  // ---------------------------------------------------------------- the declarative meaning

  /** A division of the file into one stretch per pattern segment: stretch i runs from cuts[i] to
      cuts[i + 1]; a `**` takes any stretch, any other segment a single matching name. */
  ghost predicate Divides(pattern: seq<string>, file: seq<string>, cuts: seq<nat>) {
    && |cuts| == |pattern| + 1 && cuts[0] == 0 && cuts[|pattern|] == |file|
    && forall i | 0 <= i < |pattern| :: StretchOK(pattern[i], file, cuts[i], cuts[i + 1])
  }

  ghost predicate StretchOK(segment: string, file: seq<string>, from: nat, to: nat) {
    if segment == ANY_SEGMENTS then from <= to <= |file|
    else to == from + 1 && to <= |file| && SegmentMatches(segment, file[from])
  }

  ghost predicate Denotes(pattern: seq<string>, file: seq<string>) {
    exists cuts: seq<nat> :: Divides(pattern, file, cuts)
  }

  /** The closure looks only at what is left of the pattern and of the file. */
  lemma {:induction false} MatchSuffix(pattern: seq<string>, file: seq<string>, p: nat, f: nat)
    requires p <= |pattern| && f <= |file|
    ensures MatchFrom(pattern, file, p, f) == Matches(pattern[p..], file[f..])
    decreases |pattern| - p + |file| - f
  {
    hide SegmentMatches;
    var q, g := pattern[p..], file[f..];
    if p < |pattern| {
      MatchSuffix(pattern, file, p + 1, f);
      assert q[1..] == pattern[p + 1..];
      if p > 0 || f > 0 { MatchSuffix(q, g, 1, 0); }
      if f < |file| {
        MatchSuffix(pattern, file, p, f + 1);
        MatchSuffix(pattern, file, p + 1, f + 1);
        assert g[1..] == file[f + 1..];
        if p > 0 || f > 0 {
          MatchSuffix(q, g, 0, 1);
          MatchSuffix(q, g, 1, 1);
        }
      }
    }
  }

  /** The matcher by the first segment of the pattern. */
  lemma MatchesUnfold(pattern: seq<string>, file: seq<string>)
    ensures pattern == [] ==> (Matches(pattern, file) <==> file == [])
    ensures pattern != [] && pattern[0] == ANY_SEGMENTS ==>
      (Matches(pattern, file) <==> Matches(pattern[1..], file) || (file != [] && Matches(pattern, file[1..])))
    ensures pattern != [] && pattern[0] != ANY_SEGMENTS ==>
      (Matches(pattern, file) <==>
        file != [] && SegmentMatches(pattern[0], file[0]) && Matches(pattern[1..], file[1..]))
  {
    hide SegmentMatches;
    if pattern != [] {
      MatchSuffix(pattern, file, 1, 0);
      assert file[0..] == file && pattern[0..] == pattern;
      if file != [] {
        MatchSuffix(pattern, file, 0, 1);
        MatchSuffix(pattern, file, 1, 1);
      }
    }
  }

  // ---------------------------------------------------------------- the matcher means divisions

  function Shift(cuts: seq<nat>): (r: seq<nat>)
    ensures |r| == |cuts| && forall i | 0 <= i < |cuts| :: r[i] == cuts[i] + 1
  {
    seq(|cuts|, i requires 0 <= i < |cuts| => cuts[i] + 1)
  }

  function Unshift(cuts: seq<nat>): (r: seq<nat>)
    requires forall i | 0 <= i < |cuts| :: cuts[i] > 0
    ensures |r| == |cuts| && forall i | 0 <= i < |cuts| :: r[i] == cuts[i] - 1
  {
    seq(|cuts|, i requires 0 <= i < |cuts| => cuts[i] - 1)
  }

  lemma StretchShift(segment: string, file: seq<string>, from: nat, to: nat)
    requires file != []
    ensures StretchOK(segment, file[1..], from, to) <==> StretchOK(segment, file, from + 1, to + 1)
  {
    hide SegmentMatches;
  }

  lemma {:induction false} MatchedDivides(pattern: seq<string>, file: seq<string>) returns (cuts: seq<nat>)
    requires Matches(pattern, file)
    ensures Divides(pattern, file, cuts)
    decreases |pattern| + |file|
  {
    hide SegmentMatches, Matches;
    MatchesUnfold(pattern, file);
    if pattern == [] {
      cuts := [0];
    } else if pattern[0] == ANY_SEGMENTS && Matches(pattern[1..], file) {
      var rest := MatchedDivides(pattern[1..], file);
      cuts := [0] + rest;
      forall i | 0 <= i < |pattern| ensures StretchOK(pattern[i], file, cuts[i], cuts[i + 1]) {
        if i > 0 { assert StretchOK(pattern[1..][i - 1], file, rest[i - 1], rest[i]); }
      }
    } else if pattern[0] == ANY_SEGMENTS {
      var rest := MatchedDivides(pattern, file[1..]);
      cuts := Shift(rest)[0 := 0];
      forall i | 0 <= i < |pattern| ensures StretchOK(pattern[i], file, cuts[i], cuts[i + 1]) {
        assert StretchOK(pattern[i], file[1..], rest[i], rest[i + 1]);
        StretchShift(pattern[i], file, rest[i], rest[i + 1]);
      }
    } else {
      var rest := MatchedDivides(pattern[1..], file[1..]);
      cuts := [0] + Shift(rest);
      forall i | 0 <= i < |pattern| ensures StretchOK(pattern[i], file, cuts[i], cuts[i + 1]) {
        if i > 0 {
          assert StretchOK(pattern[1..][i - 1], file[1..], rest[i - 1], rest[i]);
          StretchShift(pattern[i], file, rest[i - 1], rest[i]);
        }
      }
    }
  }

  lemma {:induction false} CutsGrow(pattern: seq<string>, file: seq<string>, cuts: seq<nat>, i: nat, j: nat)
    requires Divides(pattern, file, cuts) && i <= j <= |pattern|
    ensures cuts[i] <= cuts[j]
    decreases j
  {
    hide SegmentMatches;
    if i < j { CutsGrow(pattern, file, cuts, i, j - 1); assert StretchOK(pattern[j - 1], file, cuts[j - 1], cuts[j]); }
  }

  lemma {:induction false} DividedMatches(pattern: seq<string>, file: seq<string>, cuts: seq<nat>)
    requires Divides(pattern, file, cuts)
    ensures Matches(pattern, file)
    decreases |pattern| + |file|
  {
    hide SegmentMatches, Matches;
    MatchesUnfold(pattern, file);
    if pattern != [] {
      assert StretchOK(pattern[0], file, cuts[0], cuts[1]);
      forall i | 1 <= i <= |pattern| ensures cuts[i] >= cuts[1] { CutsGrow(pattern, file, cuts, 1, i); }
      if cuts[1] == 0 {
        var rest := cuts[1..];
        forall i | 0 <= i < |pattern| - 1 ensures StretchOK(pattern[1..][i], file, rest[i], rest[i + 1]) {
          assert StretchOK(pattern[i + 1], file, cuts[i + 1], cuts[i + 2]);
        }
        DividedMatches(pattern[1..], file, rest);
      } else {
        var lower := Unshift(cuts[1..]);
        assert file != [];
        forall i | 0 <= i < |pattern| - 1 ensures StretchOK(pattern[i + 1], file[1..], lower[i], lower[i + 1]) {
          assert StretchOK(pattern[i + 1], file, cuts[i + 1], cuts[i + 2]);
          StretchShift(pattern[i + 1], file, lower[i], lower[i + 1]);
        }
        if pattern[0] == ANY_SEGMENTS {
          DivideSame(pattern, file[1..], [0] + lower);
          DividedMatches(pattern, file[1..], [0] + lower);
        } else {
          DividedMatches(pattern[1..], file[1..], lower);
        }
      }
    }
  }

  lemma DivideSame(pattern: seq<string>, file: seq<string>, cuts: seq<nat>)
    requires |cuts| == |pattern| + 1 > 1 && cuts[0] == 0 && cuts[|pattern|] == |file|
    requires StretchOK(pattern[0], file, 0, cuts[1])
    requires forall i | 0 <= i < |pattern| - 1 :: StretchOK(pattern[i + 1], file, cuts[1..][i], cuts[1..][i + 1])
    ensures Divides(pattern, file, cuts)
  {
    hide StretchOK;
    forall i | 0 <= i < |pattern| ensures StretchOK(pattern[i], file, cuts[i], cuts[i + 1]) {
      if i > 0 { assert StretchOK(pattern[i - 1 + 1], file, cuts[1..][i - 1], cuts[1..][i]); }
    }
  }

  /** The backtracking matcher accepts exactly the files that can be divided among the segments. */
  lemma MatchesMeansDenotes(pattern: seq<string>, file: seq<string>)
    ensures Matches(pattern, file) <==> Denotes(pattern, file)
  {
    hide Matches, Divides;
    if Matches(pattern, file) { var cuts := MatchedDivides(pattern, file); }
    if Denotes(pattern, file) {
      var cuts: seq<nat> :| Divides(pattern, file, cuts);
      DividedMatches(pattern, file, cuts);
    }
  }

  // ---------------------------------------------------------------- composition

  /** The file splits after k names into a part for each pattern. */
  ghost predicate SplitsAt(left: seq<string>, right: seq<string>, file: seq<string>, k: nat) {
    k <= |file| && Matches(left, file[..k]) && Matches(right, file[k..])
  }

  ghost predicate Splits(left: seq<string>, right: seq<string>, file: seq<string>) {
    exists k: nat :: SplitsAt(left, right, file, k)
  }

  lemma {:induction false} ConcatSplits(left: seq<string>, right: seq<string>, file: seq<string>) returns (k: nat)
    requires Matches(left + right, file)
    ensures SplitsAt(left, right, file, k)
    decreases |left| + |file|
  {
    hide Matches, SegmentMatches;
    MatchesUnfold(left + right, file);
    if left == [] {
      assert left + right == right && file[0..] == file;
      MatchesUnfold(left, file[..0]);
      k := 0;
    } else {
      assert (left + right)[1..] == left[1..] + right;
      if left[0] == ANY_SEGMENTS && Matches(left[1..] + right, file) {
        k := ConcatSplits(left[1..], right, file);
        MatchesUnfold(left, file[..k]);
      } else {
        var rest := if left[0] == ANY_SEGMENTS then left else left[1..];
        k := ConcatSplits(rest, right, file[1..]);
        assert file[..k + 1][1..] == file[1..][..k] && file[k + 1..] == file[1..][k..];
        MatchesUnfold(left, file[..k + 1]);
        k := k + 1;
      }
    }
  }

  lemma {:induction false} SplitsConcat(left: seq<string>, right: seq<string>, file: seq<string>, k: nat)
    requires SplitsAt(left, right, file, k)
    ensures Matches(left + right, file)
    decreases |left| + |file|
  {
    hide Matches, SegmentMatches;
    MatchesUnfold(left + right, file);
    MatchesUnfold(left, file[..k]);
    if left == [] {
      assert left + right == right && file[0..] == file;
    } else {
      assert (left + right)[1..] == left[1..] + right;
      if left[0] == ANY_SEGMENTS && Matches(left[1..], file[..k]) {
        SplitsConcat(left[1..], right, file, k);
      } else {
        var rest := if left[0] == ANY_SEGMENTS then left else left[1..];
        assert file[..k][1..] == file[1..][..k - 1] && file[k..] == file[1..][k - 1..];
        SplitsConcat(rest, right, file[1..], k - 1);
      }
    }
  }

  /** Matching is compositional. */
  lemma MatchesConcat(left: seq<string>, right: seq<string>, file: seq<string>)
    ensures Matches(left + right, file) <==> Splits(left, right, file)
  {
    hide Matches, SplitsAt;
    if Matches(left + right, file) { var k := ConcatSplits(left, right, file); }
    if k: nat :| SplitsAt(left, right, file, k) { SplitsConcat(left, right, file, k); }
  }

  lemma {:induction false} AnyMatchesAll(file: seq<string>)
    ensures Matches([ANY_SEGMENTS], file) && Matches([ANY_SEGMENTS, ANY_SEGMENTS], file)
  {
    hide Matches;
    MatchesUnfold([ANY_SEGMENTS], file);
    MatchesUnfold([ANY_SEGMENTS][1..], file);
    MatchesUnfold([ANY_SEGMENTS, ANY_SEGMENTS], file);
    assert [ANY_SEGMENTS, ANY_SEGMENTS][1..] == [ANY_SEGMENTS];
    if file != [] { AnyMatchesAll(file[1..]); }
  }

  /** Adjacent `**` segments say no more than one. */
  lemma AdjacentAnyCollapse(left: seq<string>, right: seq<string>, file: seq<string>)
    ensures Matches(left + [ANY_SEGMENTS, ANY_SEGMENTS] + right, file) <==> Matches(left + [ANY_SEGMENTS] + right, file)
  {
    var one, two := [ANY_SEGMENTS], [ANY_SEGMENTS, ANY_SEGMENTS];
    hide Matches;
    forall g ensures Matches(left + two, g) <==> Matches(left + one, g) {
      MatchesConcat(left, two, g);
      MatchesConcat(left, one, g);
      forall k: nat | k <= |g|
        ensures SplitsAt(left, two, g, k) <==> SplitsAt(left, one, g, k)
      { AnyMatchesAll(g[k..]); }
    }
    MatchesConcat(left + two, right, file);
    MatchesConcat(left + one, right, file);
    assert forall k: nat :: SplitsAt(left + two, right, file, k) <==> SplitsAt(left + one, right, file, k);
  }

  // ---------------------------------------------------------------- pattern texts

  lemma PrependConcat(c: char, x: seq<string>, y: seq<string>)
    requires x != []
    ensures Prepend(c, x + y, '/') == Prepend(c, x, '/') + y
  {
    assert (x + y)[0] == x[0] && (x + y)[1..] == x[1..] + y;
  }

  lemma {:induction false} SplitConcat(a: string, b: string)
    ensures Split(a + ['/'] + b, '/') == Split(a, '/') + Split(b, '/')
  {
    var s := a + ['/'] + b;
    if a == [] {
      assert s[1..] == b;
    } else {
      SplitConcat(a[1..], b);
      PrependConcat(a[0], Split(a[1..], '/'), Split(b, '/'));
      hide Prepend;
      assert s[1..] == a[1..] + ['/'] + b;
    }
  }

  /** "a/b" matches a file exactly when the file's names split into names for a and names for b. */
  lemma PatternTextsCompose(a: string, b: string, file: string)
    ensures RelativePathPatternMatches(a + ['/'] + b, file) <==> Splits(Split(a, '/'), Split(b, '/'), Split(file, '/'))
  {
    SplitConcat(a, b);
    MatchesConcat(Split(a, '/'), Split(b, '/'), Split(file, '/'));
    hide Matches, Splits, Split;
  }
}
