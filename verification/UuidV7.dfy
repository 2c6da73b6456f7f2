/** Version 7 UUIDs: a millisecond time, a version, a variant and random bits (RFC 9562, section 5.7). */
module UuidV7 {
  import opened Text
  import opened Ordering

  type Byte = b: int | 0 <= b < 256

  /** Masking a byte with `& 0x0f | 0x70` and `& 0x3f | 0x80`, in arithmetic. */
  function WithVersion(b: Byte): (r: Byte)
    ensures r / 16 == 7 && r % 16 == b % 16
  {
    b % 16 + 0x70
  }

  function WithVariant(b: Byte): (r: Byte)
    ensures r / 64 == 2 && r % 64 == b % 64
  {
    b % 64 + 0x80
  }

  lemma MasksAreArithmetic(b: bv8)
    ensures ((b & 0x0f) | 0x70) as int == WithVersion(b as int)
    ensures ((b & 0x3f) | 0x80) as int == WithVariant(b as int)
  {
    VersionMask(b);
    VariantMask(b);
  }

  lemma VersionMask(b: bv8)
    ensures ((b & 0x0f) | 0x70) as int == WithVersion(b as int)
  {
    assert (b & 0x0f) | 0x70 == b % 16 + 0x70;
  }

  lemma VariantMask(b: bv8)
    ensures ((b & 0x3f) | 0x80) as int == WithVariant(b as int)
  {
    assert (b & 0x3f) | 0x80 == b % 64 + 0x80;
  }

  // ---------------------------------------------------------------- hexadecimal

  predicate IsHex(c: char) {
    '0' <= c <= '9' || 'a' <= c <= 'f'
  }

  function DigitOf(n: nat): (c: char)
    requires n < 16
    ensures IsHex(c)
  {
    if n < 10 then n as char + '0' else (n - 10) as char + 'a'
  }

  function ValueOf(c: char): (n: nat)
    requires IsHex(c)
    ensures n < 16 && DigitOf(n) == c
  {
    if c <= '9' then (c - '0') as nat else (c - 'a') as nat + 10
  }

  lemma ValueOfDigit(n: nat)
    requires n < 16
    ensures ValueOf(DigitOf(n)) == n
  {
  }

  /** Two digits for every byte. */
  function Hex(bytes: seq<Byte>): (r: string)
    ensures |r| == 2 * |bytes| && forall i | 0 <= i < |r| :: IsHex(r[i])
    ensures forall i | 0 <= i < |bytes| :: r[2 * i] == HighDigit(bytes[i]) && r[2 * i + 1] == LowDigit(bytes[i])
  {
    if bytes == [] then ""
    else Hex(bytes[..|bytes| - 1]) + [HighDigit(bytes[|bytes| - 1]), LowDigit(bytes[|bytes| - 1])]
  }

  function HighDigit(b: Byte): (c: char)
    ensures IsHex(c)
  {
    DigitOf(b / 16)
  }

  function LowDigit(b: Byte): (c: char)
    ensures IsHex(c)
  {
    DigitOf(b % 16)
  }

  predicate AllHex(s: string) {
    forall i | 0 <= i < |s| :: IsHex(s[i])
  }

  function HexValue(s: string): nat
    requires AllHex(s)
  {
    if s == "" then 0 else HexValue(s[..|s| - 1]) * 16 + ValueOf(s[|s| - 1])
  }

  /** hex.Encode into part of an array. */
  method HexEncode(target: array<char>, at: nat, bytes: seq<Byte>)
    requires at + 2 * |bytes| <= target.Length
    modifies target
    ensures target[..at + 2 * |bytes|] == old(target[..at]) + Hex(bytes)
    ensures target[at + 2 * |bytes|..] == old(target[at + 2 * |bytes|..])
  {
    hide HighDigit, LowDigit;
    ghost var before, after := target[..at], target[at + 2 * |bytes|..];
    for i := 0 to |bytes|
      invariant target[..at + 2 * i] == before + Hex(bytes[..i])
      invariant target[at + 2 * |bytes|..] == after
    {
      assert bytes[..i + 1][..i] == bytes[..i];
      ghost var done := target[..at + 2 * i];
      target[at + 2 * i] := HighDigit(bytes[i]);
      target[at + 2 * i + 1] := LowDigit(bytes[i]);
      assert target[..at + 2 * (i + 1)] == done + [HighDigit(bytes[i]), LowDigit(bytes[i])];
    }
    assert bytes[..|bytes|] == bytes;
  }

  // ---------------------------------------------------------------- the identifier

  const TWO_64 := 0x1_0000_0000_0000_0000
  const TWO_48 := 0x1_0000_0000_0000
  const RANDOM_BYTES := 10

  /** The low bytes of a number, most significant first. */
  function BigEndian(m: nat, n: nat): (r: seq<Byte>)
    ensures |r| == n
  {
    if n == 0 then [] else BigEndian(m / 256, n - 1) + [m % 256]
  }

  /** Random bytes with the version in the top four bits of the first and the variant in the top two
      of the third. */
  function Tagged(random: seq<Byte>): (r: seq<Byte>)
    requires |random| == RANDOM_BYTES
    ensures |r| == RANDOM_BYTES
  {
    random[0 := WithVersion(random[0])][2 := WithVariant(random[2])]
  }

  function Bytes(unixMilli: int, random: seq<Byte>): (r: seq<Byte>)
    requires |random| == RANDOM_BYTES
    ensures |r| == 16
  {
    BigEndian(unixMilli % TWO_64, 6) + Tagged(random)
  }

  function TextOf(bytes: seq<Byte>): (r: string)
    requires |bytes| == 16
    ensures |r| == 36
  {
    Hex(bytes[0..4]) + "-" + Hex(bytes[4..6]) + "-" + Hex(bytes[6..8]) + "-" + Hex(bytes[8..10]) + "-" +
      Hex(bytes[10..16])
  }

  function Identifier(unixMilli: int, random: seq<Byte>): string
    requires |random| == RANDOM_BYTES
  {
    TextOf(Bytes(unixMilli, random))
  }

  lemma SixBytes(m: nat)
    ensures BigEndian(m, 6) == [
      m / 0x100_0000_0000 % 256, m / 0x1_0000_0000 % 256, m / 0x100_0000 % 256,
      m / 0x1_0000 % 256, m / 0x100 % 256, m % 256]
  {
    var a, b, c, d, e := m / 256, m / 0x1_0000, m / 0x100_0000, m / 0x1_0000_0000, m / 0x100_0000_0000;
    assert a / 256 == b && b / 256 == c && c / 256 == d && d / 256 == e;
    assert BigEndian(e, 1) == [e % 256] by { assert BigEndian(e / 256, 0) == []; }
    assert BigEndian(d, 2) == [e % 256, d % 256];
    assert BigEndian(c, 3) == [e % 256, d % 256, c % 256];
    assert BigEndian(b, 4) == [e % 256, d % 256, c % 256, b % 256];
    assert BigEndian(a, 5) == [e % 256, d % 256, c % 256, b % 256, a % 256];
  }

  /** The low six bytes of the time, into the first six places. */
  method PutTime(value: array<Byte>, millis: nat)
    requires value.Length == 16
    modifies value
    ensures value[..6] == BigEndian(millis, 6) && value[6..] == old(value[6..])
  {
    value[0] := millis / 0x100_0000_0000 % 256;
    value[1] := millis / 0x1_0000_0000 % 256;
    value[2] := millis / 0x100_0000 % 256;
    value[3] := millis / 0x1_0000 % 256;
    value[4] := millis / 0x100 % 256;
    value[5] := millis % 256;
    SixBytes(millis);
    hide BigEndian;
  }

  /** Fills the last ten places, or fails; `random` is what the reader yields before it ends or fails. */
  method ReadRandom(value: array<Byte>, random: seq<Byte>) returns (ok: bool)
    requires value.Length == 16
    modifies value
    ensures ok <==> |random| >= RANDOM_BYTES
    ensures ok ==> value[..6] == old(value[..6]) && value[6..] == random[..RANDOM_BYTES]
  {
    if |random| < RANDOM_BYTES { return false; }
    for i := 0 to RANDOM_BYTES
      invariant value[..6] == old(value[..6]) && value[6..6 + i] == random[..i]
    {
      value[6 + i] := random[i];
    }
    assert value[6..] == value[6..16];
    return true;
  }

  /** None stands for the error of the reader.  The time is converted to 64 unsigned bits before its
      bytes are taken. */
  method NewUUIDv7(unixMilli: int, random: seq<Byte>) returns (r: Option<string>)
    ensures r == None <==> |random| < RANDOM_BYTES
    ensures r.Some? ==> r.value == Identifier(unixMilli, random[..RANDOM_BYTES])
  {
    hide BigEndian, TextOf;
    var value := new Byte[16](_ => 0);
    PutTime(value, unixMilli % TWO_64);
    var ok := ReadRandom(value, random);
    if !ok { return None; }
    value[6] := WithVersion(value[6]);
    value[8] := WithVariant(value[8]);
    hide WithVersion, WithVariant;
    assert value[6..] == Tagged(random[..RANDOM_BYTES]);
    assert value[..] == value[..6] + value[6..];
    var text := EncodeGroups(value[..]);
    r := Some(text);
  }

  /** Five groups of digits with hyphens between them. */
  method EncodeGroups(value: seq<Byte>) returns (text: string)
    requires |value| == 16
    ensures text == TextOf(value)
  {
    hide Hex;
    var encoded := new char[36];
    HexEncode(encoded, 0, value[0..4]);
    ghost var p := encoded[..8];
    assert p == Hex(value[0..4]);
    encoded[8] := '-';
    assert encoded[..9] == p + "-";
    HexEncode(encoded, 9, value[4..6]);
    p := encoded[..13];
    encoded[13] := '-';
    assert encoded[..14] == p + "-";
    HexEncode(encoded, 14, value[6..8]);
    p := encoded[..18];
    encoded[18] := '-';
    assert encoded[..19] == p + "-";
    HexEncode(encoded, 19, value[8..10]);
    p := encoded[..23];
    encoded[23] := '-';
    assert encoded[..24] == p + "-";
    HexEncode(encoded, 24, value[10..16]);
    assert encoded[..36] == encoded[..];
    text := encoded[..];
  }

  // ---------------------------------------------------------------- recognition

  predicate Canonical(s: string) {
    && |s| == 36 && s[8] == '-' && s[13] == '-' && s[18] == '-' && s[23] == '-'
    && s[14] == '7' && s[19] in "89ab"
    && forall i | 0 <= i < 36 && i !in {8, 13, 18, 23} :: IsHex(s[i])
  }

  /** A scan with early return. */
  method IsCanonicalUUIDv7(value: string) returns (ok: bool)
    ensures ok <==> Canonical(value)
  {
    if |value| != 36 || value[8] != '-' || value[13] != '-' || value[18] != '-' || value[23] != '-' ||
      value[14] != '7' {
      return false;
    }
    if value[19] !in "89ab" { return false; }
    for i := 0 to 36
      invariant forall k | 0 <= k < i && k !in {8, 13, 18, 23} :: IsHex(value[k])
    {
      if i in {8, 13, 18, 23} { continue; }
      if !('0' <= value[i] <= '9') && !('a' <= value[i] <= 'f') { return false; }
    }
    return true;
  }

  // ---------------------------------------------------------------- generated identifiers are recognised

  lemma VersionDigit(b: Byte)
    ensures HighDigit(WithVersion(b)) == '7'
  {
  }

  lemma VariantDigit(b: Byte)
    ensures HighDigit(WithVariant(b)) in "89ab"
  {
    var n := WithVariant(b) / 16;
    assert n == 8 || n == 9 || n == 10 || n == 11;
    assert "89ab"[0] == '8' && "89ab"[1] == '9' && "89ab"[2] == 'a' && "89ab"[3] == 'b';
  }

  lemma GroupsAt(bytes: seq<Byte>)
    requires |bytes| == 16
    ensures var s := TextOf(bytes);
      s[..8] == Hex(bytes[0..4]) && s[8] == '-' && s[9..13] == Hex(bytes[4..6]) && s[13] == '-' &&
        s[14..18] == Hex(bytes[6..8]) &&
      s[18] == '-' && s[19..23] == Hex(bytes[8..10]) && s[23] == '-' && s[24..36] == Hex(bytes[10..16])
  {
    hide Hex;
  }

  lemma GeneratedIsCanonical(unixMilli: int, random: seq<Byte>)
    requires |random| == RANDOM_BYTES
    ensures Canonical(Identifier(unixMilli, random))
  {
    var bytes := Bytes(unixMilli, random);
    var s := TextOf(bytes);
    GroupsAt(bytes);
    assert bytes[6..8][0] == Tagged(random)[0] && bytes[8..10][0] == Tagged(random)[2];
    VersionDigit(random[0]);
    VariantDigit(random[2]);
    hide Hex, TextOf, HighDigit, LowDigit;
    assert s[14] == s[14..18][0] == HighDigit(bytes[6..8][0]);
    assert s[19] == s[19..23][0] == HighDigit(bytes[8..10][0]);
    forall i | 0 <= i < 36 && i !in {8, 13, 18, 23} ensures IsHex(s[i]) {
      if i < 8 { assert s[i] == s[..8][i]; }
      else if i < 13 { assert s[i] == s[9..13][i - 9]; }
      else if i < 18 { assert s[i] == s[14..18][i - 14]; }
      else if i < 23 { assert s[i] == s[19..23][i - 19]; }
      else { assert s[i] == s[24..36][i - 24]; }
    }
  }

  // ---------------------------------------------------------------- the time can be read back

  function BytesValue(bytes: seq<Byte>): nat {
    if bytes == [] then 0 else BytesValue(bytes[..|bytes| - 1]) * 256 + bytes[|bytes| - 1]
  }

  lemma ByteDigits(b: Byte)
    ensures ValueOf(HighDigit(b)) * 16 + ValueOf(LowDigit(b)) == b
  {
    ValueOfDigit(b / 16);
    ValueOfDigit(b % 16);
  }

  lemma {:induction false} HexMeansBytes(bytes: seq<Byte>)
    ensures HexValue(Hex(bytes)) == BytesValue(bytes)
  {
    if bytes != [] {
      var init, b := bytes[..|bytes| - 1], bytes[|bytes| - 1];
      HexMeansBytes(init);
      ByteDigits(b);
      var s := Hex(bytes);
      hide HighDigit, LowDigit, ValueOf;
      assert s[..|s| - 1] == Hex(init) + [HighDigit(b)];
      assert s[..|s| - 1][..|s| - 2] == Hex(init);
    }
  }

  lemma SixBytesValue(m: nat)
    ensures BytesValue(BigEndian(m, 6)) == m % TWO_48
  {
    var a, b, c, d, e, f := m / 256, m / 0x1_0000, m / 0x100_0000, m / 0x1_0000_0000, m / 0x100_0000_0000, m / TWO_48;
    assert a / 256 == b && b / 256 == c && c / 256 == d && d / 256 == e && e / 256 == f;
    BigEndianStep(m, 6);
    BigEndianStep(a, 5);
    BigEndianStep(b, 4);
    BigEndianStep(c, 3);
    BigEndianStep(d, 2);
    BigEndianStep(e, 1);
    assert BytesValue(BigEndian(f, 0)) == 0;
    hide BigEndian, BytesValue;
    SixDigits(m, a, b, c, d, e, f, BytesValue(BigEndian(m, 6)));
  }

  lemma SixDigits(m: nat, a: nat, b: nat, c: nat, d: nat, e: nat, f: nat, value: nat)
    requires a == m / 256 && b == a / 256 && c == b / 256 && d == c / 256 && e == d / 256 && f == e / 256
    requires value ==
      ((((e % 256 * 256 + d % 256) * 256 + c % 256) * 256 + b % 256) * 256 + a % 256) * 256 + m % 256
    ensures value == m % TWO_48
  {
    assert m == f * TWO_48 + value;
    RemainderIs(f, value);
  }

  lemma BigEndianStep(m: nat, n: nat)
    requires n > 0
    ensures BytesValue(BigEndian(m, n)) == BytesValue(BigEndian(m / 256, n - 1)) * 256 + m % 256
  {
    var r := BigEndian(m, n);
    assert r[..n - 1] == BigEndian(m / 256, n - 1);
  }

  /** The twelve digits of the time, without the hyphen among them. */
  function TimeDigits(s: string): string
    requires |s| == 36
  {
    s[..8] + s[9..13]
  }

  lemma TimeDigitsAre(unixMilli: int, random: seq<Byte>)
    requires |random| == RANDOM_BYTES
    ensures var s := Identifier(unixMilli, random); |s| == 36 && TimeDigits(s) == Hex(BigEndian(unixMilli % TWO_64, 6))
  {
    var bytes := Bytes(unixMilli, random);
    GroupsAt(bytes);
    var time := BigEndian(unixMilli % TWO_64, 6);
    assert bytes[0..4] == time[0..4] && bytes[4..6] == time[4..6];
    hide TextOf, BigEndian;
    HexConcat(time[0..4], time[4..6]);
    assert time == time[0..4] + time[4..6];
  }

  lemma {:induction false} HexConcat(a: seq<Byte>, b: seq<Byte>)
    ensures Hex(a + b) == Hex(a) + Hex(b)
  {
    hide HighDigit, LowDigit;
    if b == [] {
      assert a + b == a;
    } else {
      assert (a + b)[..|a + b| - 1] == a + b[..|b| - 1];
      HexConcat(a, b[..|b| - 1]);
    }
  }

  lemma RemainderIs(q: int, r: int)
    requires 0 <= r < TWO_48
    ensures (q * TWO_48 + r) % TWO_48 == r
  {
    var x := q * TWO_48 + r;
    assert x == x / TWO_48 * TWO_48 + x % TWO_48;
    assert x / TWO_48 == q;
  }

  lemma WholeAndRest(t: int)
    ensures t == t / TWO_64 * 0x1_0000 * TWO_48 + t % TWO_64
  {
  }

  lemma WrapTwice(t: int)
    ensures t % TWO_64 % TWO_48 == t % TWO_48
  {
    var high, low := t / TWO_64 * 0x1_0000, t % TWO_64;
    var middle, r := low / TWO_48, low % TWO_48;
    WholeAndRest(t);
    assert low == middle * TWO_48 + r;
    RemainderIs(high + middle, r);
    assert t == (high + middle) * TWO_48 + r;
  }

  /** The first twelve digits are the time modulo 2^48. */
  lemma TimeReadsBack(unixMilli: int, random: seq<Byte>)
    requires |random| == RANDOM_BYTES
    ensures var s := Identifier(unixMilli, random);
      AllHex(TimeDigits(s)) && HexValue(TimeDigits(s)) == unixMilli % TWO_48
  {
    var m: nat := unixMilli % TWO_64;
    hide Identifier, Hex, BigEndian, TimeDigits, IsHex, HexValue, BytesValue;
    TimeDigitsAre(unixMilli, random);
    HexMeansBytes(BigEndian(m, 6));
    SixBytesValue(m);
    WrapTwice(unixMilli);
  }

  /** The time itself can be read back exactly from 1970 on, for as long as 48 bits last. */
  lemma TimeReadsBackExactly(unixMilli: int, random: seq<Byte>)
    requires |random| == RANDOM_BYTES
    ensures var s := Identifier(unixMilli, random);
      AllHex(TimeDigits(s)) && (HexValue(TimeDigits(s)) == unixMilli <==> 0 <= unixMilli < TWO_48)
  {
    hide Identifier, TimeDigits, AllHex, HexValue;
    TimeReadsBack(unixMilli, random);
  }

  // ---------------------------------------------------------------- and orders the identifiers

  lemma Base16(a: nat, x: nat, b: nat, y: nat)
    requires x < 16 && y < 16 && a * 16 + x == b * 16 + y
    ensures a == b && x == y
  {
  }

  lemma LastDigit(s: string)
    requires s != "" && AllHex(s)
    ensures AllHex(s[..|s| - 1]) && IsHex(s[|s| - 1])
    ensures HexValue(s) == HexValue(s[..|s| - 1]) * 16 + ValueOf(s[|s| - 1])
  {
    hide IsHex, ValueOf;
  }

  lemma {:induction false} HexInjective(a: string, b: string)
    requires |a| == |b| && AllHex(a) && AllHex(b) && HexValue(a) == HexValue(b)
    ensures a == b
  {
    hide IsHex, ValueOf, HexValue, AllHex;
    if a != "" {
      var n := |a| - 1;
      LastDigit(a);
      LastDigit(b);
      Base16(HexValue(a[..n]), ValueOf(a[n]), HexValue(b[..n]), ValueOf(b[n]));
      assert a[n] == DigitOf(ValueOf(a[n])) == DigitOf(ValueOf(b[n])) == b[n];
      HexInjective(a[..n], b[..n]);
      assert a == a[..n] + [a[n]] && b == b[..n] + [b[n]];
    }
  }

  lemma {:induction false} CommonPrefix(p: string, a: string, b: string)
    ensures StrLe(p + a, p + b) <==> StrLe(a, b)
  {
    if p == "" {
      assert p + a == a && p + b == b;
    } else {
      assert (p + a)[1..] == p[1..] + a && (p + b)[1..] == p[1..] + b;
      CommonPrefix(p[1..], a, b);
    }
  }

  lemma DigitOrder(c: char, d: char)
    requires IsHex(c) && IsHex(d) && ValueOf(c) < ValueOf(d)
    ensures c < d
  {
  }

  /** Digit strings of one length are ordered as their values, whatever follows them. */
  lemma {:induction false} ValueOrder(a: string, b: string, x: string, y: string)
    requires |a| == |b| && AllHex(a) && AllHex(b) && HexValue(a) < HexValue(b)
    ensures StrLe(a + x, b + y) && a + x != b + y
  {
    assert a != "";
    var n := |a| - 1;
    var c, d := a[n], b[n];
    assert a + x == a[..n] + ([c] + x) && b + y == b[..n] + ([d] + y);
    if HexValue(a[..n]) < HexValue(b[..n]) {
      ValueOrder(a[..n], b[..n], [c] + x, [d] + y);
    } else {
      assert HexValue(a[..n]) == HexValue(b[..n]);
      HexInjective(a[..n], b[..n]);
      DigitOrder(c, d);
      CommonPrefix(a[..n], [c] + x, [d] + y);
      assert (a + x)[n] == c && (b + y)[n] == d;
    }
  }

  lemma DigitAt(s: string, k: nat)
    requires k < |s| && AllHex(s)
    ensures HexValue(s[..k + 1]) == HexValue(s[..k]) * 16 + ValueOf(s[k])
  {
    assert s[..k + 1][..k] == s[..k];
  }

  lemma FourDigits(s: string, k: nat)
    requires k + 4 == |s| && AllHex(s)
    ensures HexValue(s) ==
      HexValue(s[..k]) * 0x1_0000 + ValueOf(s[k]) * 0x1000 + ValueOf(s[k + 1]) * 0x100 + ValueOf(s[k + 2]) * 0x10 +
        ValueOf(s[k + 3])
  {
    DigitAt(s, k);
    DigitAt(s, k + 1);
    DigitAt(s, k + 2);
    DigitAt(s, k + 3);
    hide HexValue, ValueOf, IsHex;
    assert s[..k + 4] == s;
  }

  lemma HexValueConcat(a: string, b: string)
    requires AllHex(a) && AllHex(b) && |b| == 4
    ensures AllHex(a + b) && HexValue(a + b) == HexValue(a) * 0x1_0000 + HexValue(b) && HexValue(b) < 0x1_0000
  {
    assert HexValue(b[..0]) == 0;
    hide IsHex, ValueOf, HexValue;
    var s := a + b;
    assert AllHex(s);
    FourDigits(s, |a|);
    FourDigits(b, 0);
    assert s[..|a|] == a;
  }

  /** Later times give lexicographically greater identifiers, whatever the random bytes. */
  lemma OrderFollowsTime(earlier: int, later: int, random: seq<Byte>, other: seq<Byte>)
    requires |random| == RANDOM_BYTES && |other| == RANDOM_BYTES && 0 <= earlier < later < TWO_48
    ensures var s, t := Identifier(earlier, random), Identifier(later, other); StrLe(s, t) && s != t
  {
    hide Identifier, StrLe, HexValue, AllHex, TimeDigits;
    TimeReadsBack(earlier, random);
    TimeReadsBack(later, other);
    HyphenAtEight(earlier, random);
    HyphenAtEight(later, other);
    CutOrder(Identifier(earlier, random), Identifier(later, other));
  }

  lemma HyphenAtEight(unixMilli: int, random: seq<Byte>)
    requires |random| == RANDOM_BYTES
    ensures var s := Identifier(unixMilli, random); |s| == 36 && s[8] == '-'
  {
    GroupsAt(Bytes(unixMilli, random));
    hide TextOf, Bytes, Hex;
  }

  /** A hyphen in the same place of both does not disturb the order. */
  lemma HyphenatedOrder(a: string, b: string, c: string, d: string, x: string, y: string)
    requires |a| == |c| && |b| == |d| == 4 && AllHex(a) && AllHex(b) && AllHex(c) && AllHex(d)
    requires HexValue(a + b) < HexValue(c + d)
    ensures StrLe(a + ("-" + b + x), c + ("-" + d + y)) && a + ("-" + b + x) != c + ("-" + d + y)
  {
    hide HexValue, AllHex, StrLe;
    HexValueConcat(a, b);
    HexValueConcat(c, d);
    if HexValue(a) < HexValue(c) {
      ValueOrder(a, c, "-" + b + x, "-" + d + y);
    } else {
      HexInjective(a, c);
      HyphenPrefix(a, b, d, x, y);
    }
  }

  lemma HyphenPrefix(a: string, b: string, d: string, x: string, y: string)
    requires |b| == |d| && AllHex(b) && AllHex(d) && HexValue(b) < HexValue(d)
    ensures StrLe(a + ("-" + b + x), a + ("-" + d + y)) && a + ("-" + b + x) != a + ("-" + d + y)
  {
    hide HexValue, AllHex, StrLe;
    ValueOrder(b, d, x, y);
    assert a + ("-" + b + x) == (a + "-") + (b + x);
    assert a + ("-" + d + y) == (a + "-") + (d + y);
    CommonPrefix(a + "-", b + x, d + y);
    TailsDiffer(a + "-", b + x, d + y);
  }

  lemma TailsDiffer(p: string, a: string, b: string)
    requires a != b
    ensures p + a != p + b
  {
    assert (p + a)[|p|..] == a && (p + b)[|p|..] == b;
  }

  lemma CutOrder(s: string, t: string)
    requires |s| == |t| == 36 && s[8] == t[8] == '-' && AllHex(TimeDigits(s)) && AllHex(TimeDigits(t))
    requires HexValue(TimeDigits(s)) < HexValue(TimeDigits(t))
    ensures StrLe(s, t) && s != t
  {
    hide StrLe, IsHex, HexValue;
    HexParts(s);
    HexParts(t);
    hide AllHex;
    HyphenatedOrder(s[..8], s[9..13], t[..8], t[9..13], s[13..], t[13..]);
    assert s == s[..8] + ("-" + s[9..13] + s[13..]);
    assert t == t[..8] + ("-" + t[9..13] + t[13..]);
  }

  lemma HexParts(s: string)
    requires |s| == 36 && AllHex(TimeDigits(s))
    ensures AllHex(s[..8]) && AllHex(s[9..13])
  {
    assert forall i | 0 <= i < 8 :: TimeDigits(s)[i] == s[..8][i];
    assert forall i | 0 <= i < 4 :: TimeDigits(s)[8 + i] == s[9..13][i];
  }
}
