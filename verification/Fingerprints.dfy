/** The textual key of a fingerprint: length-prefixed, hence injective. */
module Fingerprints {
  import opened Text
  import opened Ordering

  datatype Dimension = Dimension(name: string, value: string)

  function Chunk(s: string): (r: string)
    ensures r != []
  {
    Decimal(|s|) + ":" + s
  }

  function DimensionKey(dims: seq<Dimension>): string {
    if dims == [] then ""
    else Chunk(dims[0].name) + (Chunk(dims[0].value) + DimensionKey(dims[1..]))
  }

  lemma ChunkShape(a: string, x: string)
    ensures var s, m := Chunk(a) + x, |Decimal(|a|)|;
      m < |s| && s[..m] == Decimal(|a|) && s[m] == ':' && s[m + 1..] == a + x && forall k | 0 <= k < m :: s[k] != ':'
  {
    var d := Decimal(|a|);
    assert Chunk(a) + x == d + [':'] + (a + x);
    assert forall k | 0 <= k < |d| :: IsDigit(d[k]);
    hide Decimal;
  }

  /** A length-prefixed chunk can be read back off any text that starts with it. */
  lemma ChunkReadsBack(a: string, x: string, b: string, y: string)
    requires Chunk(a) + x == Chunk(b) + y
    ensures a == b && x == y
  {
    ChunkShape(a, x);
    ChunkShape(b, y);
    hide Decimal, Chunk;
    assert |Decimal(|a|)| == |Decimal(|b|)|;
    DecimalInjective(|a|, |b|);
    assert a == (a + x)[..|a|] && b == (b + y)[..|b|];
    assert x == (a + x)[|a|..] && y == (b + y)[|b|..];
  }

  /** Different dimension lists, of any lengths and bytes, have different keys. */
  lemma {:induction false} DimensionKeyInjective(ds: seq<Dimension>, es: seq<Dimension>)
    requires DimensionKey(ds) == DimensionKey(es)
    ensures ds == es
  {
    hide Chunk;
    if ds != [] && es != [] {
      var d, e := ds[0], es[0];
      ChunkReadsBack(d.name, Chunk(d.value) + DimensionKey(ds[1..]), e.name, Chunk(e.value) + DimensionKey(es[1..]));
      ChunkReadsBack(d.value, DimensionKey(ds[1..]), e.value, DimensionKey(es[1..]));
      DimensionKeyInjective(ds[1..], es[1..]);
      assert ds == [d] + ds[1..] && es == [e] + es[1..];
    }
  }

  /** Detector ID, NUL, fingerprint key. */
  function MatchKey(detector: string, dims: seq<Dimension>): string {
    detector + "\0" + DimensionKey(dims)
  }

  /** For detector IDs without NUL the combined key identifies detector and fingerprint. */
  lemma MatchKeyInjective(a: string, ds: seq<Dimension>, b: string, es: seq<Dimension>)
    requires '\0' !in a && '\0' !in b && MatchKey(a, ds) == MatchKey(b, es)
    ensures a == b && ds == es
  {
    var s := MatchKey(a, ds);
    assert s[|a|] == '\0' && s[|b|] == '\0';
    assert s[..|a|] == a && s[..|b|] == b;
    assert forall k | 0 <= k < |a| :: s[k] in a;
    assert forall k | 0 <= k < |b| :: s[k] in b;
    assert |a| == |b|;
    assert s[|a| + 1..] == DimensionKey(ds) && s[|b| + 1..] == DimensionKey(es);
    DimensionKeyInjective(ds, es);
  }

  predicate DimensionLe(x: Dimension, y: Dimension) {
    if x.name != y.name then StrLe(x.name, y.name) else StrLe(x.value, y.value)
  }

  lemma DimensionLeOrder()
    ensures TotalPreorder(DimensionLe)
    ensures forall x, y :: DimensionLe(x, y) && DimensionLe(y, x) ==> x == y
  {
    StrLeOrder();
  }

  /** Sorting makes the key independent of the order a detector lists its dimensions in, and of
      nothing else. */
  lemma SortedKeyMeansSameDimensions(ds: seq<Dimension>, es: seq<Dimension>)
    ensures DimensionKey(SortBy(DimensionLe, ds)) == DimensionKey(SortBy(DimensionLe, es)) <==>
      multiset(ds) == multiset(es)
  {
    hide StrLe, DimensionLe, DimensionKey;
    if multiset(ds) == multiset(es) {
      DimensionLeOrder();
      SortByPermutation(DimensionLe, ds, es);
    }
    if DimensionKey(SortBy(DimensionLe, ds)) == DimensionKey(SortBy(DimensionLe, es)) {
      DimensionKeyInjective(SortBy(DimensionLe, ds), SortBy(DimensionLe, es));
      assert multiset(ds) == multiset(SortBy(DimensionLe, ds));
    }
  }
}
