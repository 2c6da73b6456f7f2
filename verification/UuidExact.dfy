/** Which texts are identifiers, and which times and random bytes share one: nothing but the version, the
    variant and the high bits of the time is lost. */
module UuidExact {
  import opened Text
  import opened UuidV7

  // ---------------------------------------------------------------- digits and bytes

  function UnHex(s: string): (bytes: seq<Byte>)
    requires AllHex(s) && |s| % 2 == 0
    ensures 2 * |bytes| == |s|
  {
    if s == "" then []
    else UnHex(s[..|s| - 2]) + [ByteOf(s[|s| - 2], s[|s| - 1])]
  }

  function ByteOf(high: char, low: char): Byte
    requires IsHex(high) && IsHex(low)
  {
    ValueOf(high) * 16 + ValueOf(low)
  }

  lemma PairOfDigits(high: char, low: char)
    requires IsHex(high) && IsHex(low)
    ensures HighDigit(ByteOf(high, low)) == high && LowDigit(ByteOf(high, low)) == low
  {
  }

  lemma HexStep(bytes: seq<Byte>, b: Byte)
    ensures Hex(bytes + [b]) == Hex(bytes) + [HighDigit(b), LowDigit(b)]
  {
    hide HighDigit, LowDigit;
    assert (bytes + [b])[..|bytes|] == bytes;
  }

  lemma AllHexAppend(s: string, high: char, low: char)
    requires AllHex(s) && IsHex(high) && IsHex(low)
    ensures AllHex(s + [high, low])
  {
    hide IsHex;
    var t := s + [high, low];
    forall i | 0 <= i < |t| ensures IsHex(t[i]) {
      if i < |s| { assert t[i] == s[i]; }
    }
  }

  lemma UnHexUnfold(t: string)
    requires AllHex(t) && |t| % 2 == 0 && t != ""
    ensures UnHex(t) == UnHex(t[..|t| - 2]) + [ByteOf(t[|t| - 2], t[|t| - 1])]
  {
    hide IsHex, ValueOf;
  }

  lemma UnHexStep(s: string, high: char, low: char)
    requires AllHex(s) && |s| % 2 == 0 && IsHex(high) && IsHex(low)
    ensures AllHex(s + [high, low]) && UnHex(s + [high, low]) == UnHex(s) + [ByteOf(high, low)]
  {
    AllHexAppend(s, high, low);
    UnHexUnfold(s + [high, low]);
    hide IsHex, ByteOf, AllHex, UnHex;
    var t := s + [high, low];
    assert t[..|t| - 2] == s;
    assert t[|t| - 2] == high && t[|t| - 1] == low;
  }

  lemma {:induction false} HexReadsBack(s: string)
    requires AllHex(s) && |s| % 2 == 0
    ensures Hex(UnHex(s)) == s
  {
    hide HighDigit, LowDigit, ValueOf, IsHex, Hex;
    if s == "" {
      NoDigits();
    } else {
      var n := |s| - 2;
      HexReadsBack(s[..n]);
      UnHexStep(s[..n], s[n], s[n + 1]);
      HexStep(UnHex(s[..n]), ByteOf(s[n], s[n + 1]));
      PairOfDigits(s[n], s[n + 1]);
      hide UnHex;
      assert s == s[..n] + [s[n], s[n + 1]];
    }
  }

  lemma NoDigits()
    ensures Hex([]) == "" && UnHex("") == []
  {
  }

  lemma {:induction false} BytesReadBack(bytes: seq<Byte>)
    ensures AllHex(Hex(bytes)) && UnHex(Hex(bytes)) == bytes
  {
    hide HighDigit, LowDigit, ValueOf, IsHex, UnHex;
    if bytes == [] {
      NoDigits();
    } else {
      var n := |bytes| - 1;
      BytesReadBack(bytes[..n]);
      HexStep(bytes[..n], bytes[n]);
      UnHexStep(Hex(bytes[..n]), HighDigit(bytes[n]), LowDigit(bytes[n]));
      ByteDigits(bytes[n]);
      hide Hex;
      assert bytes == bytes[..n] + [bytes[n]];
    }
  }

  lemma {:induction false} NumberReadsBack(bytes: seq<Byte>)
    ensures BigEndian(BytesValue(bytes), |bytes|) == bytes
  {
    if bytes != [] {
      var n := |bytes| - 1;
      NumberReadsBack(bytes[..n]);
      assert BytesValue(bytes) / 256 == BytesValue(bytes[..n]) && BytesValue(bytes) % 256 == bytes[n];
      assert bytes == bytes[..n] + [bytes[n]];
    }
  }

  // ---------------------------------------------------------------- two identifiers

  /** The 74 bits that are left to chance. */
  predicate SameChance(a: seq<Byte>, b: seq<Byte>)
    requires |a| == |b| == RANDOM_BYTES
  {
    && a[0] % 16 == b[0] % 16 && a[1] == b[1] && a[2] % 64 == b[2] % 64
    && forall i | 3 <= i < RANDOM_BYTES :: a[i] == b[i]
  }

  lemma HexFive(a: seq<Byte>, b: seq<Byte>, c: seq<Byte>, d: seq<Byte>, e: seq<Byte>)
    ensures Hex(a + b + c + d + e) == Hex(a) + Hex(b) + Hex(c) + Hex(d) + Hex(e)
  {
    hide Hex;
    HexConcat(a, b);
    HexConcat(a + b, c);
    HexConcat(a + b + c, d);
    HexConcat(a + b + c + d, e);
  }

  lemma FiveParts(bytes: seq<Byte>)
    requires |bytes| == 16
    ensures bytes == bytes[0..4] + bytes[4..6] + bytes[6..8] + bytes[8..10] + bytes[10..16]
  {
  }

  /** The digits of a text of 36 characters. */
  function Digits(s: string): string
    requires |s| == 36
  {
    s[..8] + s[9..13] + s[14..18] + s[19..23] + s[24..36]
  }

  lemma TextReadsBack(bytes: seq<Byte>)
    requires |bytes| == 16
    ensures Digits(TextOf(bytes)) == Hex(bytes) && AllHex(Hex(bytes)) && UnHex(Hex(bytes)) == bytes
  {
    GroupsAt(bytes);
    BytesReadBack(bytes);
    hide TextOf, Hex, UnHex, AllHex;
    FiveParts(bytes);
    HexFive(bytes[0..4], bytes[4..6], bytes[6..8], bytes[8..10], bytes[10..16]);
  }

  lemma SameTime(t: int, u: int)
    ensures BigEndian(t % TWO_64, 6) == BigEndian(u % TWO_64, 6) <==> t % TWO_48 == u % TWO_48
  {
    SixBytesValue(t % TWO_64);
    SixBytesValue(u % TWO_64);
    WrapTwice(t);
    WrapTwice(u);
    NumberReadsBack(BigEndian(t % TWO_64, 6));
    NumberReadsBack(BigEndian(u % TWO_64, 6));
    hide BytesValue;
  }

  lemma SameTags(a: seq<Byte>, b: seq<Byte>)
    requires |a| == |b| == RANDOM_BYTES
    ensures Tagged(a) == Tagged(b) <==> SameChance(a, b)
  {
    var x, y := Tagged(a), Tagged(b);
    assert x[0] == WithVersion(a[0]) && x[2] == WithVariant(a[2]) && x[1] == a[1];
    assert y[0] == WithVersion(b[0]) && y[2] == WithVariant(b[2]) && y[1] == b[1];
    assert forall i | 3 <= i < RANDOM_BYTES :: x[i] == a[i] && y[i] == b[i];
    if SameChance(a, b) { assert x == y; }
  }

  /** Two identifiers are equal if and only if their times agree in the low 48 bits and their random bytes in
      the 74 bits that are left to chance. */
  lemma IdentifiersEqual(t: int, a: seq<Byte>, u: int, b: seq<Byte>)
    requires |a| == |b| == RANDOM_BYTES
    ensures Identifier(t, a) == Identifier(u, b) <==> t % TWO_48 == u % TWO_48 && SameChance(a, b)
  {
    TextReadsBack(Bytes(t, a));
    TextReadsBack(Bytes(u, b));
    SameTime(t, u);
    SameTags(a, b);
    hide TextOf, UnHex, BigEndian, Tagged, SameChance;
    var x, y := Bytes(t, a), Bytes(u, b);
    assert x[..6] == BigEndian(t % TWO_64, 6) && y[..6] == BigEndian(u % TWO_64, 6);
    assert x[6..] == Tagged(a) && y[6..] == Tagged(b);
    if Identifier(t, a) == Identifier(u, b) { assert Hex(x) == Hex(y) && x == y; }
  }

  // ---------------------------------------------------------------- every recognised text

  lemma GroupsHex(s: string)
    requires Canonical(s)
    ensures AllHex(s[..8]) && AllHex(s[9..13]) && AllHex(s[14..18]) && AllHex(s[19..23]) && AllHex(s[24..36])
    ensures s == s[..8] + "-" + s[9..13] + "-" + s[14..18] + "-" + s[19..23] + "-" + s[24..36]
    ensures s[14] == '7' && s[19] in "89ab"
  {
    hide IsHex;
    assert s[8..9] == "-" && s[13..14] == "-" && s[18..19] == "-" && s[23..24] == "-";
    assert s == s[..8] + s[8..9] + s[9..13] + s[13..14] + s[14..18] + s[18..19] + s[19..23] + s[23..24] + s[24..36];
  }

  /** A group of digits is that of its bytes, and begins with the high digit of the first of them. */
  lemma GroupBytes(s: string) returns (bytes: seq<Byte>)
    requires AllHex(s) && |s| % 2 == 0 && s != ""
    ensures 2 * |bytes| == |s| && Hex(bytes) == s && HighDigit(bytes[0]) == s[0]
  {
    bytes := UnHex(s);
    HexReadsBack(s);
    hide UnHex, HighDigit, LowDigit;
    HexConcat(bytes[..1], bytes[1..]);
    assert bytes == bytes[..1] + bytes[1..] && bytes[..1] == [] + [bytes[0]];
    HexStep([], bytes[0]);
  }

  lemma SixteenBytes(s: string) returns (bytes: seq<Byte>)
    requires Canonical(s)
    ensures |bytes| == 16 && TextOf(bytes) == s && HighDigit(bytes[6]) == '7' && HighDigit(bytes[8]) in "89ab"
  {
    GroupsHex(s);
    hide Canonical, UnHex, HighDigit, LowDigit, AllHex, Hex, TextOf;
    var a := GroupBytes(s[..8]);
    var b := GroupBytes(s[9..13]);
    var c := GroupBytes(s[14..18]);
    var d := GroupBytes(s[19..23]);
    var e := GroupBytes(s[24..36]);
    bytes := a + b + c + d + e;
    FiveGroups(a, b, c, d, e);
    assert bytes[6] == c[0] && bytes[8] == d[0];
  }

  lemma Slices(a: seq<Byte>, b: seq<Byte>, c: seq<Byte>, d: seq<Byte>, e: seq<Byte>)
    requires |a| == 4 && |b| == 2 && |c| == 2 && |d| == 2 && |e| == 6
    ensures var bytes := a + b + c + d + e;
      bytes[0..4] == a && bytes[4..6] == b && bytes[6..8] == c && bytes[8..10] == d && bytes[10..16] == e
  {
  }

  lemma FiveGroups(a: seq<Byte>, b: seq<Byte>, c: seq<Byte>, d: seq<Byte>, e: seq<Byte>)
    requires |a| == 4 && |b| == 2 && |c| == 2 && |d| == 2 && |e| == 6
    ensures TextOf(a + b + c + d + e) == Hex(a) + "-" + Hex(b) + "-" + Hex(c) + "-" + Hex(d) + "-" + Hex(e)
  {
    Slices(a, b, c, d, e);
    hide Hex;
  }

  lemma TagsAre(b: Byte)
    ensures HighDigit(b) == '7' ==> WithVersion(b) == b
    ensures HighDigit(b) in "89ab" ==> WithVariant(b) == b
  {
    ValueOfDigit(b / 16);
    assert ValueOf('7') == 7 && ValueOf('8') == 8 && ValueOf('9') == 9 && ValueOf('a') == 10 && ValueOf('b') == 11;
  }

  ghost predicate Generated(s: string) {
    exists t: nat, random: seq<Byte> :: t < TWO_48 && |random| == RANDOM_BYTES && s == Identifier(t, random)
  }

  lemma BytesGenerate(bytes: seq<Byte>)
    requires |bytes| == 16 && HighDigit(bytes[6]) == '7' && HighDigit(bytes[8]) in "89ab"
    ensures Generated(TextOf(bytes))
  {
    var t, random := BytesValue(bytes[..6]), bytes[6..];
    NumberReadsBack(bytes[..6]);
    SixBytesValue(t);
    TagsAre(bytes[6]);
    TagsAre(bytes[8]);
    hide TextOf, BigEndian, BytesValue, HighDigit, WithVersion, WithVariant;
    assert Tagged(random) == random;
    assert bytes == bytes[..6] + bytes[6..];
    assert Bytes(t, random) == bytes;
    assert TextOf(bytes) == Identifier(t, random);
  }

  /** The texts recognised are exactly the identifiers of some time within 48 bits and some random bytes. */
  lemma CanonicalExactly(s: string)
    ensures Canonical(s) <==> Generated(s)
  {
    hide Canonical, Identifier, TextOf, HighDigit;
    if Canonical(s) {
      var bytes := SixteenBytes(s);
      BytesGenerate(bytes);
    }
    if t: nat, random: seq<Byte> :| t < TWO_48 && |random| == RANDOM_BYTES && s == Identifier(t, random) {
      GeneratedIsCanonical(t, random);
    }
  }
}
