/** The normal form of a list of strings: trimmed, without blanks, sorted, without repetitions. */
module NormalForms {
  import opened Text
  import opened Ordering

  function TrimmedNonBlank(values: seq<string>): (r: seq<string>) {
    if values == [] then []
    else
      var last := TrimSpace(values[|values| - 1]);
      TrimmedNonBlank(values[..|values| - 1]) + if last != "" then [last] else []
  }

  function NormalStrings(values: seq<string>): seq<string> {
    SortedDistinct(TrimmedNonBlank(values))
  }

  /** The trimmed non-blank values of a list, as a set: what the normal form stands for. */
  ghost function TrimmedSet(values: seq<string>): set<string> {
    set v | v in values && TrimSpace(v) != "" :: TrimSpace(v)
  }

  /** Builds a new slice, sorts it and compacts it in place; the caller's slice is only read. */
  method NormalizedStrings(values: array<string>) returns (r: seq<string>)
    ensures r == NormalStrings(values[..])
  {
    hide TrimSpace;
    var result: seq<string> := [];
    for i := 0 to values.Length
      invariant result == TrimmedNonBlank(values[..i])
    {
      assert values[..i + 1][..i] == values[..i];
      var value := TrimSpace(values[i]);
      if value != "" { result := result + [value]; }
    }
    assert values[..values.Length] == values[..];
    var slice := new string[|result|](i requires 0 <= i < |result| => result[i]);
    assert slice[..] == result;
    r := SortedDistinctCopy(slice);
  }

  lemma {:induction false} TrimmedMembers(values: seq<string>, x: string)
    ensures x in TrimmedNonBlank(values) <==> x in TrimmedSet(values)
  {
    hide TrimSpace;
    if values != [] {
      var n := |values| - 1;
      TrimmedMembers(values[..n], x);
      assert values == values[..n] + [values[n]];
    }
  }

  lemma NormalMembers(values: seq<string>, x: string)
    ensures x in NormalStrings(values) <==> x in TrimmedSet(values)
  {
    TrimmedMembers(values, x);
  }

  lemma NormalStrict(values: seq<string>)
    ensures StrictlySorted(StrLe, NormalStrings(values))
  {
    SortedDistinctStrict(TrimmedNonBlank(values));
  }

  /** Two lists have one normal form exactly when they have the same trimmed non-blank values: order
      and repetitions never matter, and nothing else is forgotten. */
  lemma NormalCanonical(a: seq<string>, b: seq<string>)
    ensures NormalStrings(a) == NormalStrings(b) <==> TrimmedSet(a) == TrimmedSet(b)
  {
    hide SortedDistinct, TrimmedNonBlank, TrimSpace;
    SortedDistinctCanonical(TrimmedNonBlank(a), TrimmedNonBlank(b));
    forall x ensures x in TrimmedNonBlank(a) <==> x in TrimmedSet(a) { TrimmedMembers(a, x); }
    forall x ensures x in TrimmedNonBlank(b) <==> x in TrimmedSet(b) { TrimmedMembers(b, x); }
  }

  /** A normal form is its own normal form. */
  lemma NormalIdempotent(values: seq<string>)
    ensures NormalStrings(NormalStrings(values)) == NormalStrings(values)
  {
    hide NormalStrings, TrimSpace, TrimmedSet;
    var r := NormalStrings(values);
    forall x ensures x in TrimmedSet(r) <==> x in TrimmedSet(values) {
      NormalMembers(values, x);
      TrimmedTwice(values, x);
    }
    assert TrimmedSet(r) == TrimmedSet(values);
    NormalCanonical(r, values);
  }

  lemma TrimmedTwice(values: seq<string>, x: string)
    ensures x in TrimmedSet(NormalStrings(values)) <==> x in TrimmedSet(values)
  {
    hide NormalStrings, TrimSpace;
    var r := NormalStrings(values);
    forall y ensures y in r <==> y in TrimmedSet(values) { NormalMembers(values, y); }
    if x in TrimmedSet(values) {
      var v :| v in values && TrimSpace(v) == x;
      TrimIdempotent(v);
      assert x in r && TrimSpace(x) == x;
    }
    if x in TrimmedSet(r) {
      var y :| y in r && TrimSpace(y) == x;
      assert y in TrimmedSet(values);
      var v :| v in values && TrimSpace(v) == y;
      TrimIdempotent(v);
    }
  }

  /** Values that are already trimmed and not blank, as the validators demand. */
  ghost predicate Clean(values: seq<string>) {
    forall v | v in values :: v == TrimSpace(v) && v != ""
  }

  /** The normal form of a clean list has exactly its members. */
  lemma CleanMembers(values: seq<string>, x: string)
    requires Clean(values)
    ensures x in NormalStrings(values) <==> x in values
  {
    hide TrimSpace, NormalStrings;
    NormalMembers(values, x);
  }

  lemma {:induction false} TrimmedLength(values: seq<string>)
    ensures |TrimmedNonBlank(values)| <= |values|
  {
    hide TrimSpace;
    if values != [] { TrimmedLength(values[..|values| - 1]); }
  }

  lemma NormalLength(values: seq<string>)
    ensures |NormalStrings(values)| <= |values|
  {
    hide TrimSpace;
    TrimmedLength(values);
    SortedDistinctLength(TrimmedNonBlank(values));
  }

  lemma SortedDistinctLength(s: seq<string>)
    ensures |SortedDistinct(s)| <= |s|
  {
    assert |SortBy(StrLe, s)| == |multiset(SortBy(StrLe, s))| == |multiset(s)| == |s|;
  }
}
