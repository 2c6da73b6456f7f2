/** The fifty smallest members of a list of strings, and why truncating early does not lose any. */
module SmallestFifty {
  import opened Ordering

  const MAX_CITATIONS := 50

  function First<T>(s: seq<T>, n: nat): (r: seq<T>)
    ensures |r| <= n
  {
    if |s| > n then s[..n] else s
  }

  /** The fifty smallest distinct members, in order. */
  function Smallest(s: seq<string>): (r: seq<string>)
    ensures |r| <= MAX_CITATIONS
  {
    First(SortedDistinct(s), MAX_CITATIONS)
  }

  lemma SmallestMembers(s: seq<string>, x: string)
    requires x in Smallest(s)
    ensures x in s
  {
    hide SortedDistinct;
    assert x in SortedDistinct(s);
  }

  /** Same members, same fifty smallest, same verdict on whether that is all of them. */
  lemma SmallestCanonical(a: seq<string>, b: seq<string>)
    requires forall x :: x in a <==> x in b
    ensures Smallest(a) == Smallest(b) && |SortedDistinct(a)| == |SortedDistinct(b)|
  {
    SortedDistinctCanonical(a, b);
  }

  lemma StrictTail(s: seq<string>)
    requires s != [] && StrictlySorted(StrLe, s)
    ensures StrictlySorted(StrLe, s[1..])
    ensures forall x | x in s :: StrLe(s[0], x) && (x in s[1..] <==> x != s[0])
  {
    assert StrLe(s[0], s[0]) by { StrLeTotal(s[0], s[0]); }
    hide StrLe;
    assert s == [s[0]] + s[1..];
  }

  /** One list lies within another and below everything else in it. */
  ghost predicate LowPart(part: seq<string>, whole: seq<string>) {
    && (forall x | x in part :: x in whole)
    && (forall x, y | x in part && y in whole && y !in part :: StrLe(x, y))
  }

  lemma LowTail(part: seq<string>, whole: seq<string>)
    requires part != [] && StrictlySorted(StrLe, part) && StrictlySorted(StrLe, whole) && LowPart(part, whole)
    ensures whole != [] && whole[0] == part[0] && LowPart(part[1..], whole[1..])
  {
    StrLeOrder();
    StrictTail(part);
    assert part[0] in whole;
    StrictTail(whole);
    hide StrLe, StrictlySorted;
    assert whole[0] in whole && StrLe(part[0], whole[0]) && StrLe(whole[0], part[0]);
    forall x, y | x in part[1..] && y in whole[1..] && y !in part[1..] ensures StrLe(x, y) {
      assert y in whole && x in part;
    }
    forall x | x in part[1..] ensures x in whole[1..] { assert x in part; }
  }

  /** A strictly sorted part of a strictly sorted list, below everything else in it, is its beginning. */
  lemma {:induction false} LowPartIsPrefix(part: seq<string>, whole: seq<string>)
    requires StrictlySorted(StrLe, part) && StrictlySorted(StrLe, whole) && LowPart(part, whole)
    ensures |part| <= |whole| && whole[..|part|] == part
  {
    if part != [] {
      LowTail(part, whole);
      StrictTail(part);
      StrictTail(whole);
      hide StrLe, StrictlySorted, LowPart;
      LowPartIsPrefix(part[1..], whole[1..]);
      assert whole == [whole[0]] + whole[1..] && part == [part[0]] + part[1..];
    }
  }

  lemma NotEarly(s: seq<string>, n: nat, j: nat)
    requires n <= |s| && j < |s| && s[j] !in s[..n]
    ensures j >= n
  {
    assert forall k | 0 <= k < n :: s[..n][k] in s[..n];
  }

  lemma StrictBefore(u: seq<string>, k: nat, i: nat)
    requires StrictlySorted(StrLe, u) && k < |u| && i < |u| && StrLe(u[k], u[i]) && u[k] != u[i]
    ensures k < i
  {
    StrLeOrder();
    hide StrLe;
  }

  /** An element that the early truncation dropped has fifty smaller ones before it. */
  lemma DroppedIsLate(a: seq<string>, more: seq<string>, i: nat)
    requires |SortedDistinct(a)| > MAX_CITATIONS && i < |SortedDistinct(a + more)|
    requires var x := SortedDistinct(a + more)[i]; x !in Smallest(a) && x !in more
    ensures MAX_CITATIONS <= i
  {
    var s, u := SortedDistinct(a), SortedDistinct(a + more);
    SortedDistinctStrict(a);
    SortedDistinctStrict(a + more);
    StrLeOrder();
    hide SortedDistinct, StrLe;
    var t := s[..MAX_CITATIONS];
    assert u[i] in s by { assert u[i] in a + more; }
    var j :| 0 <= j < |s| && s[j] == u[i];
    NotEarly(s, MAX_CITATIONS, j);
    forall x | x in t ensures x in u[..i] {
      assert x in a + more && x in u;
      var k :| 0 <= k < |u| && u[k] == x;
      StrictBefore(u, k, i);
      assert u[..i][k] == x;
    }
    StrictNoRepeats(StrLe, s);
    assert NoRepeats(t);
    SubsetShorter(t, u[..i]);
  }

  /** Keeping only the fifty smallest before adding more changes neither the fifty smallest of
      everything nor, together with an earlier overflow, the verdict of completeness. */
  lemma SmallestAbsorbs(a: seq<string>, more: seq<string>)
    ensures Smallest(Smallest(a) + more) == Smallest(a + more)
    ensures |SortedDistinct(a + more)| <= MAX_CITATIONS <==>
      |SortedDistinct(a)| <= MAX_CITATIONS && |SortedDistinct(Smallest(a) + more)| <= MAX_CITATIONS
  {
    if |SortedDistinct(a)| <= MAX_CITATIONS {
      forall x ensures x in Smallest(a) + more <==> x in a + more {}
      SmallestCanonical(Smallest(a) + more, a + more);
    } else {
      TruncatedAbsorbs(a, more);
    }
  }

  /** If the first n of one list are all in another that adds nothing, both begin with them. */
  lemma CommonBeginning(u: seq<string>, v: seq<string>, n: nat)
    requires StrictlySorted(StrLe, u) && StrictlySorted(StrLe, v) && n <= |u|
    requires forall i | 0 <= i < n :: u[i] in v
    requires forall y | y in v :: y in u
    ensures n <= |v| && v[..n] == u[..n]
  {
    hide StrLe;
    var low := u[..n];
    forall x, y | x in low && y in v && y !in low ensures StrLe(x, y) {
      var k :| 0 <= k < |u| && u[k] == y;
      NotEarly(u, n, k);
      var j :| 0 <= j < n && u[j] == x;
    }
    assert StrictlySorted(StrLe, low);
    assert LowPart(low, v);
    LowPartIsPrefix(low, v);
  }

  lemma EarlyOnesKept(a: seq<string>, more: seq<string>, i: nat)
    requires |SortedDistinct(a)| > MAX_CITATIONS && i < MAX_CITATIONS && i < |SortedDistinct(a + more)|
    ensures SortedDistinct(a + more)[i] in Smallest(a) + more
  {
    hide SortedDistinct, Smallest;
    var x := SortedDistinct(a + more)[i];
    if x !in Smallest(a) && x !in more { DroppedIsLate(a, more, i); }
  }

  lemma TruncatedAbsorbs(a: seq<string>, more: seq<string>)
    requires |SortedDistinct(a)| > MAX_CITATIONS
    ensures Smallest(Smallest(a) + more) == Smallest(a + more)
    ensures |SortedDistinct(a + more)| > MAX_CITATIONS
  {
    SmallestIs(a + more);
    SmallestIs(Smallest(a) + more);
    hide Smallest, SortedDistinct, StrictlySorted;
    var u, v := SortedDistinct(a + more), SortedDistinct(Smallest(a) + more);
    SortedDistinctStrict(a + more);
    SortedDistinctStrict(Smallest(a) + more);
    UnionLonger(a, more);
    forall i | 0 <= i < MAX_CITATIONS ensures u[i] in v { EarlyOnesKept(a, more, i); }
    forall y | y in v ensures y in u {
      if y in Smallest(a) { SmallestMembers(a, y); }
      assert y in a + more;
    }
    CommonBeginning(u, v, MAX_CITATIONS);
    assert |v| == MAX_CITATIONS ==> v[..MAX_CITATIONS] == v;
  }

  lemma SmallestIs(s: seq<string>)
    ensures Smallest(s) == First(SortedDistinct(s), MAX_CITATIONS)
  {
  }

  lemma UnionLonger(a: seq<string>, more: seq<string>)
    ensures |SortedDistinct(a)| <= |SortedDistinct(a + more)|
  {
    SortedDistinctStrict(a);
    StrictNoRepeats(StrLe, SortedDistinct(a));
    hide SortedDistinct, NoRepeats, StrictlySorted;
    forall x | x in SortedDistinct(a) ensures x in SortedDistinct(a + more) {
      assert x in a + more;
    }
    SubsetShorter(SortedDistinct(a), SortedDistinct(a + more));
  }
}
