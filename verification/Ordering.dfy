/** Sorting, compaction of adjacent duplicates, and the byte order of strings.

    The library sorts of the program are modelled by `SortBy`, a stable sort.  Where the program
    calls an unstable sort, uniqueness of the sorted result (`SortedUnique`) shows that stability
    does not matter. */
module Ordering {

  // ---------------------------------------------------------------- orders

  /** A total preorder: what a sort needs. */
  ghost predicate TotalPreorder<T(!new)>(le: (T, T) -> bool) {
    && (forall x, y :: le(x, y) || le(y, x))
    && (forall x, y, z :: le(x, y) && le(y, z) ==> le(x, z))
  }

  /** Ties under the order, among the members of s, are equalities. */
  ghost predicate TieFree<T>(le: (T, T) -> bool, s: seq<T>) {
    forall x, y | x in s && y in s :: le(x, y) && le(y, x) ==> x == y
  }

  ghost predicate Sorted<T>(le: (T, T) -> bool, s: seq<T>) {
    forall i, j | 0 <= i < j < |s| :: le(s[i], s[j])
  }

  ghost predicate StrictlySorted<T>(le: (T, T) -> bool, s: seq<T>) {
    forall i, j | 0 <= i < j < |s| :: le(s[i], s[j]) && s[i] != s[j]
  }

  /** The byte-wise order of Go strings. */
  predicate StrLe(a: string, b: string) {
    a == [] || (b != [] && (a[0] < b[0] || (a[0] == b[0] && StrLe(a[1..], b[1..]))))
  }

  lemma {:induction false} StrLeTotal(a: string, b: string)
    ensures StrLe(a, b) || StrLe(b, a)
    ensures StrLe(a, b) && StrLe(b, a) ==> a == b
  {
    if a != [] && b != [] && a[0] == b[0] {
      StrLeTotal(a[1..], b[1..]);
      assert a == [a[0]] + a[1..] && b == [b[0]] + b[1..];
    }
  }

  lemma {:induction false} StrLeTransitive(a: string, b: string, c: string)
    requires StrLe(a, b) && StrLe(b, c)
    ensures StrLe(a, c)
  {
    if a != [] && a[0] == b[0] == c[0] {
      StrLeTransitive(a[1..], b[1..], c[1..]);
    }
  }

  lemma StrLeOrder()
    ensures TotalPreorder(StrLe)
    ensures forall x, y :: StrLe(x, y) && StrLe(y, x) ==> x == y
  {
    forall x, y ensures (StrLe(x, y) || StrLe(y, x)) && (StrLe(x, y) && StrLe(y, x) ==> x == y) {
      StrLeTotal(x, y);
    }
    forall x, y, z | StrLe(x, y) && StrLe(y, z) ensures StrLe(x, z) {
      StrLeTransitive(x, y, z);
    }
  }

  // ---------------------------------------------------------------- sorting

  function Insert<T>(le: (T, T) -> bool, x: T, s: seq<T>): (r: seq<T>)
    ensures multiset(r) == multiset([x] + s)
  {
    if s == [] then [x]
    else if le(x, s[0]) then [x] + s
    else
      assert s == [s[0]] + s[1..];
      [s[0]] + Insert(le, x, s[1..])
  }

  function SortBy<T>(le: (T, T) -> bool, s: seq<T>): (r: seq<T>)
    ensures multiset(r) == multiset(s)
  {
    if s == [] then [] else
      assert s == [s[0]] + s[1..];
      Insert(le, s[0], SortBy(le, s[1..]))
  }

  lemma {:induction false} InsertSorted<T(!new)>(le: (T, T) -> bool, x: T, s: seq<T>)
    requires TotalPreorder(le) && Sorted(le, s)
    ensures Sorted(le, Insert(le, x, s))
  {
    if s != [] && !le(x, s[0]) {
      InsertSorted(le, x, s[1..]);
      var r := Insert(le, x, s[1..]);
      forall k | 0 <= k < |r| ensures le(s[0], r[k]) {
        assert r[k] in multiset(r);
        assert r[k] == x || r[k] in s[1..];
      }
    }
  }

  lemma {:induction false} SortBySorted<T(!new)>(le: (T, T) -> bool, s: seq<T>)
    requires TotalPreorder(le)
    ensures Sorted(le, SortBy(le, s))
  {
    if s != [] {
      SortBySorted(le, s[1..]);
      InsertSorted(le, s[0], SortBy(le, s[1..]));
    }
  }

  lemma {:induction false} SortByFixed<T>(le: (T, T) -> bool, s: seq<T>)
    requires Sorted(le, s)
    ensures SortBy(le, s) == s
  {
    if s != [] {
      SortByFixed(le, s[1..]);
      assert s == [s[0]] + s[1..];
    }
  }

  lemma TailMultiset<T>(s: seq<T>)
    requires s != []
    ensures multiset(s[1..]) == multiset(s) - multiset{s[0]}
  {
    assert s == [s[0]] + s[1..];
  }

  /** A sequence without ties has exactly one sorted rearrangement. */
  lemma {:induction false} SortedUnique<T>(le: (T, T) -> bool, a: seq<T>, b: seq<T>)
    requires multiset(a) == multiset(b) && Sorted(le, a) && Sorted(le, b) && TieFree(le, a)
    ensures a == b
  {
    assert |a| == |multiset(a)| == |multiset(b)| == |b|;
    if a != [] {
      assert a[0] == b[0] by {
        assert a[0] in multiset(a) && b[0] in multiset(b);
        assert a[0] in b && b[0] in a;
      }
      TailMultiset(a);
      TailMultiset(b);
      SortedUnique(le, a[1..], b[1..]);
      assert a == [a[0]] + a[1..] && b == [b[0]] + b[1..];
    }
  }

  lemma SortByPermutation<T(!new)>(le: (T, T) -> bool, a: seq<T>, b: seq<T>)
    requires TotalPreorder(le) && multiset(a) == multiset(b) && TieFree(le, a)
    ensures SortBy(le, a) == SortBy(le, b)
  {
    SortBySorted(le, a);
    SortBySorted(le, b);
    var r := SortBy(le, a);
    forall x | x in r ensures x in a { assert x in multiset(r); }
    SortedUnique(le, r, SortBy(le, b));
  }

  function Map<T, U>(f: T -> U, s: seq<T>): (r: seq<U>)
    ensures |r| == |s| && forall i | 0 <= i < |s| :: r[i] == f(s[i])
  {
    seq(|s|, i requires 0 <= i < |s| => f(s[i]))
  }

  lemma BagMembers<T>(a: seq<T>, b: seq<T>)
    requires multiset(a) == multiset(b)
    ensures |a| == |b| && forall x :: x in a <==> x in b
  {
    assert |a| == |multiset(a)| == |multiset(b)| == |b|;
    forall x ensures x in a <==> x in b {
      assert x in a <==> x in multiset(a);
      assert x in b <==> x in multiset(b);
    }
  }

  function Without<T>(s: seq<T>, k: nat): (r: seq<T>)
    requires k < |s|
    ensures |r| == |s| - 1 && forall i | 0 <= i < |r| :: r[i] == if i < k then s[i] else s[i + 1]
  {
    s[..k] + s[k + 1..]
  }

  lemma WithoutBag<T>(s: seq<T>, k: nat)
    requires k < |s|
    ensures multiset(Without(s, k)) == multiset(s) - multiset{s[k]}
    ensures multiset(s) == multiset(Without(s, k)) + multiset{s[k]}
  {
    assert s == s[..k] + [s[k]] + s[k + 1..];
  }

  lemma MapWithout<T, U>(f: T -> U, s: seq<T>, k: nat)
    requires k < |s|
    ensures Map(f, Without(s, k)) == Without(Map(f, s), k)
  {
    var y, z := Map(f, Without(s, k)), Without(Map(f, s), k);
    forall i | 0 <= i < |y| ensures y[i] == z[i] {
      assert y[i] == f(Without(s, k)[i]);
    }
  }

  lemma MapWithoutBag<T, U>(f: T -> U, s: seq<T>, k: nat)
    requires k < |s|
    ensures multiset(Map(f, s)) == multiset(Map(f, Without(s, k))) + multiset{f(s[k])}
  {
    MapWithout(f, s, k);
    WithoutBag(Map(f, s), k);
    hide Map, Without;
  }

  lemma Locate<T>(x: T, s: seq<T>) returns (k: nat)
    requires x in multiset(s)
    ensures k < |s| && s[k] == x
  {
    k :| 0 <= k < |s| && s[k] == x;
  }

  /** Mapping two rearrangements of each other gives two rearrangements of each other. */
  lemma {:induction false} MapBag<T, U>(f: T -> U, a: seq<T>, b: seq<T>)
    requires multiset(a) == multiset(b)
    ensures multiset(Map(f, a)) == multiset(Map(f, b))
  {
    assert |a| == |multiset(a)| == |multiset(b)| == |b|;
    if a != [] {
      hide Map, Without;
      assert a[0] in multiset(a);
      var k := Locate(a[0], b);
      WithoutBag(a, 0);
      WithoutBag(b, k);
      MapWithoutBag(f, a, 0);
      MapWithoutBag(f, b, k);
      assert |Without(a, 0)| == |multiset(Without(a, 0))| < |a|;
      MapBag(f, Without(a, 0), Without(b, k));
    } else {
      assert b == [];
    }
  }

  predicate NoRepeats<T(==)>(s: seq<T>) {
    forall i, j | 0 <= i < j < |s| :: s[i] != s[j]
  }

  lemma {:induction false} NoRepeatsCounts<T>(s: seq<T>, x: T)
    requires NoRepeats(s)
    ensures multiset(s)[x] <= 1
  {
    if s != [] {
      NoRepeatsCounts(s[1..], x);
      TailMultiset(s);
      assert s[0] !in s[1..];
      assert s == [s[0]] + s[1..];
    }
  }

  lemma CountsNoRepeats<T>(s: seq<T>, i: nat, j: nat)
    requires i < j < |s| && multiset(s)[s[i]] <= 1
    ensures s[i] != s[j]
  {
    assert s == s[..i] + [s[i]] + s[i + 1..j] + [s[j]] + s[j + 1..];
  }

  lemma NoRepeatsBag<T>(a: seq<T>, b: seq<T>)
    requires multiset(a) == multiset(b) && NoRepeats(a)
    ensures NoRepeats(b)
  {
    forall i, j | 0 <= i < j < |b| ensures b[i] != b[j] {
      NoRepeatsCounts(a, b[i]);
      CountsNoRepeats(b, i, j);
    }
  }

  lemma StrictNoRepeats<T>(le: (T, T) -> bool, s: seq<T>)
    requires StrictlySorted(le, s)
    ensures NoRepeats(s)
  {
  }

  /** A list without repetitions, all of whose members are in another list, is not longer than it. */
  lemma {:induction false} SubsetShorter<T>(a: seq<T>, b: seq<T>)
    requires NoRepeats(a) && forall v | v in a :: v in b
    ensures |a| <= |b|
  {
    if a != [] {
      assert a[0] in b;
      var k :| 0 <= k < |b| && b[k] == a[0];
      var rest := Without(b, k);
      forall v | v in a[1..] ensures v in rest {
        assert v in a && v != a[0];
        var j :| 0 <= j < |b| && b[j] == v;
        assert rest[if j < k then j else j - 1] == v;
      }
      SubsetShorter(a[1..], rest);
    }
  }

  // ---------------------------------------------------------------- compaction

  /** Drops each element equal to the one kept before it. */
  function Compact<T(==,!new)>(s: seq<T>): (r: seq<T>)
    ensures |r| <= |s|
    ensures s != [] ==> r != [] && r[|r| - 1] == s[|s| - 1]
    ensures forall x :: x in r <==> x in s
  {
    if s == [] then [] else
      var init, last := s[..|s| - 1], s[|s| - 1];
      assert s == init + [last];
      var r := Compact(init);
      if r != [] && r[|r| - 1] == last then r else r + [last]
  }

  /** In place, over the array the caller handed in; the tail past the result is untouched. */
  method CompactInPlace<T(==,!new)>(a: array<T>) returns (n: nat)
    modifies a
    ensures n <= a.Length && a[..n] == Compact(old(a[..]))
    ensures a[n..] == old(a[n..])
  {
    ghost var was := a[..];
    if a.Length < 2 {
      n := a.Length;
      assert a[..n] == was;
      assert a.Length == 1 ==> Compact(was[..0]) == [];
      return;
    }
    n := 1;
    assert was[..1] == [was[0]] && was[..1][..0] == [];
    for i := 1 to a.Length
      invariant 1 <= n <= i <= a.Length
      invariant a[..n] == Compact(was[..i])
      invariant a[n..] == was[n..]
    {
      assert a[i] == a[n..][i - n] == was[i];
      assert was[..i + 1][..i] == was[..i];
      if a[i] != a[n - 1] {
        assert a[n - 1] == a[..n][n - 1];
        a[n] := a[i];
        n := n + 1;
        assert a[..n] == a[..n - 1] + [was[i]];
      } else {
        assert a[n - 1] == a[..n][n - 1];
      }
    }
    assert was[..a.Length] == was;
  }

  lemma {:induction false} CompactStrict<T(!new)>(le: (T, T) -> bool, s: seq<T>)
    requires Sorted(le, s) && TieFree(le, s)
    ensures StrictlySorted(le, Compact(s))
  {
    if s != [] {
      var init, last := s[..|s| - 1], s[|s| - 1];
      CompactStrict(le, init);
      var r := Compact(init);
      if !(r != [] && r[|r| - 1] == last) {
        assert Compact(s) == r + [last];
        forall k | 0 <= k < |r| ensures le(r[k], last) && r[k] != last {
          assert r[k] in init;
          assert r[|r| - 1] in init;
          assert k < |r| - 1 ==> le(r[k], r[|r| - 1]) && r[k] != r[|r| - 1];
        }
      }
    }
  }

  lemma {:induction false} CompactFixed<T(!new)>(s: seq<T>)
    requires forall i | 0 < i < |s| :: s[i - 1] != s[i]
    ensures Compact(s) == s
  {
    if s != [] {
      CompactFixed(s[..|s| - 1]);
      assert s == s[..|s| - 1] + [s[|s| - 1]];
    }
  }

  /** A strictly sorted sequence is determined by its set of members. */
  lemma {:induction false} StrictUnique<T(!new)>(le: (T, T) -> bool, a: seq<T>, b: seq<T>)
    requires StrictlySorted(le, a) && StrictlySorted(le, b) && TieFree(le, a)
    requires forall x :: x in a <==> x in b
    ensures a == b
  {
    if a == [] {
      assert forall i | 0 <= i < |b| :: b[i] in a;
    } else {
      assert a[0] in a && b != [];
      assert b[0] in b;
      assert a[0] == b[0];
      forall x ensures x in a[1..] <==> x in b[1..] {
        if x in a[1..] { assert x in a && x != a[0]; }
        if x in b[1..] { assert x in b && x != b[0]; }
      }
      StrictUnique(le, a[1..], b[1..]);
    }
  }

  /** Sorted and without repetitions: the sorted list of a set of strings. */
  function SortedDistinct(s: seq<string>): (r: seq<string>)
    ensures forall x :: x in r <==> x in s
  {
    var sorted := SortBy(StrLe, s);
    assert forall x :: x in sorted <==> x in multiset(sorted);
    assert forall x :: x in s <==> x in multiset(s);
    Compact(sorted)
  }

  lemma SortedDistinctStrict(s: seq<string>)
    ensures StrictlySorted(StrLe, SortedDistinct(s))
  {
    StrLeOrder();
    SortBySorted(StrLe, s);
    CompactStrict(StrLe, SortBy(StrLe, s));
  }

  /** Two lists have the same sorted-distinct form exactly when they have the same members. */
  lemma SortedDistinctCanonical(a: seq<string>, b: seq<string>)
    ensures SortedDistinct(a) == SortedDistinct(b) <==> (forall x :: x in a <==> x in b)
  {
    if forall x :: x in a <==> x in b {
      SortedDistinctStrict(a);
      SortedDistinctStrict(b);
      StrLeOrder();
      StrictUnique(StrLe, SortedDistinct(a), SortedDistinct(b));
    } else {
      var x :| !(x in a <==> x in b);
      assert x in SortedDistinct(a) <==> x in a;
      assert x in SortedDistinct(b) <==> x in b;
    }
  }

  /** The array form the program uses: copy, sort in place, compact in place.  The argument is a
      fresh copy owned by the caller of this method. */
  method SortStrings(a: array<string>)
    modifies a
    ensures a[..] == SortBy(StrLe, old(a[..]))
  {
    var s := SortBy(StrLe, a[..]);
    assert |s| == |multiset(s)| == |multiset(a[..])| == a.Length;
    forall i | 0 <= i < a.Length { a[i] := s[i]; }
    assert a[..] == s;
  }

  /** Copies before it sorts and compacts, so the caller's sequence is never written. */
  method SortedDistinctCopy(values: array<string>) returns (r: seq<string>)
    ensures r == SortedDistinct(values[..])
  {
    var copy := new string[values.Length](i requires 0 <= i < values.Length reads values => values[i]);
    assert copy[..] == values[..];
    SortStrings(copy);
    var n := CompactInPlace(copy);
    r := copy[..n];
  }

  // ---------------------------------------------------------------- sorting the members of a set

  /** The strictly sorted list of a set. */
  ghost predicate Lists<T(!new)>(le: (T, T) -> bool, s: seq<T>, members: set<T>) {
    StrictlySorted(le, s) && forall x :: x in s <==> x in members
  }

  lemma StrictFromDistinct<T(!new)>(le: (T, T) -> bool, s: seq<T>)
    requires TotalPreorder(le) && NoRepeats(s)
    ensures StrictlySorted(le, SortBy(le, s)) && forall x :: x in SortBy(le, s) <==> x in s
  {
    SortBySorted(le, s);
    NoRepeatsBag(s, SortBy(le, s));
    BagMembers(SortBy(le, s), s);
  }

  /** Takes the members of a map's key set in whatever order it yields them, then sorts. */
  method SortedMembers<T(==,!new)>(le: (T, T) -> bool, values: set<T>) returns (r: seq<T>)
    requires TotalPreorder(le)
    ensures Lists(le, r, values) && |r| == |values|
  {
    hide TotalPreorder, StrictlySorted;
    var collected: seq<T> := [];
    var rest := values;
    while rest != {}
      invariant rest <= values && NoRepeats(collected) && |collected| + |rest| == |values|
      invariant forall x :: x in collected <==> x in values && x !in rest
      decreases |rest|
    {
      var value :| value in rest;
      rest := rest - {value};
      collected := collected + [value];
    }
    StrictFromDistinct(le, collected);
    r := SortBy(le, collected);
    assert |r| == |multiset(r)| == |multiset(collected)| == |collected|;
  }

  lemma {:induction false} SubsetCount<T>(a: set<T>, b: set<T>)
    requires a <= b
    ensures |a| <= |b|
  {
    if a != {} {
      var x :| x in a;
      SubsetCount(a - {x}, b - {x});
    }
  }
}
