/** Options, and the few string functions the modelled code calls.  Strings are ASCII: a character
    is a byte, white space and letter case are those of ASCII. */
module Text {

  datatype Option<+T> = None | Some(value: T)

  predicate IsSpace(c: char) {
    c in "\t\n\U{0B}\U{0C}\r "
  }

  function TrimLeft(s: string): string {
    if s != [] && IsSpace(s[0]) then TrimLeft(s[1..]) else s
  }

  function TrimRight(s: string): string {
    if s != [] && IsSpace(s[|s| - 1]) then TrimRight(s[..|s| - 1]) else s
  }

  function TrimSpace(s: string): string {
    TrimRight(TrimLeft(s))
  }

  lemma {:induction false} TrimLeftEnds(s: string)
    ensures var r := TrimLeft(s); r != [] ==> !IsSpace(r[0])
  {
    if s != [] && IsSpace(s[0]) { TrimLeftEnds(s[1..]); }
  }

  lemma {:induction false} TrimRightEnds(s: string)
    ensures var r := TrimRight(s); |r| <= |s| && r == s[..|r|] && (r != [] ==> !IsSpace(r[|r| - 1]))
  {
    if s != [] && IsSpace(s[|s| - 1]) {
      TrimRightEnds(s[..|s| - 1]);
      var r := TrimRight(s);
      assert r == s[..|s| - 1][..|r|] == s[..|r|];
    }
  }

  lemma TrimIdempotent(s: string)
    ensures TrimSpace(TrimSpace(s)) == TrimSpace(s)
  {
    TrimLeftEnds(s);
    TrimRightEnds(TrimLeft(s));
  }

  function Lower(s: string): string {
    seq(|s|, i requires 0 <= i < |s| => if 'A' <= s[i] <= 'Z' then (s[i] as int + 32) as char else s[i])
  }

  // ---------------------------------------------------------------- decimal numerals

  predicate IsDigit(c: char) {
    '0' <= c <= '9'
  }

  function Decimal(n: nat): (r: string)
    ensures r != [] && forall i | 0 <= i < |r| :: IsDigit(r[i])
  {
    var digit := [(n % 10) as char + '0'];
    if n < 10 then digit else Decimal(n / 10) + digit
  }

  function Itoa(n: int): string {
    if n < 0 then "-" + Decimal(-n) else Decimal(n)
  }

  lemma {:induction false} DecimalInjective(m: nat, n: nat)
    requires Decimal(m) == Decimal(n)
    ensures m == n
  {
    var a, b := Decimal(m), Decimal(n);
    DecimalLast(m);
    DecimalLast(n);
    assert m % 10 == n % 10;
    if m < 10 || n < 10 {
      DecimalShort(m);
      DecimalShort(n);
    } else {
      assert a[..|a| - 1] == b[..|b| - 1];
      DecimalInjective(m / 10, n / 10);
    }
  }

  lemma DecimalLast(n: nat)
    ensures var r := Decimal(n); r[|r| - 1] == (n % 10) as char + '0'
    ensures var r := Decimal(n); n >= 10 ==> r[..|r| - 1] == Decimal(n / 10)
  {
  }

  lemma DecimalShort(n: nat)
    ensures |Decimal(n)| == 1 <==> n < 10
  {
    if n >= 10 { assert |Decimal(n)| == |Decimal(n / 10)| + 1; }
  }

  /** One character in front of a text already split. */
  function Prepend(c: char, pieces: seq<string>, separator: char): (r: seq<string>)
    requires pieces != []
    ensures r != []
  {
    if c == separator then [[]] + pieces else [[c] + pieces[0]] + pieces[1..]
  }

  /** The pieces between separators; never empty. */
  function Split(s: string, separator: char): (r: seq<string>)
    ensures r != []
  {
    if s == [] then [[]] else Prepend(s[0], Split(s[1..], separator), separator)
  }

  /** strings.Join with the NUL separator. */
  function JoinNul(parts: seq<string>): string {
    if parts == [] then ""
    else if |parts| == 1 then parts[0]
    else parts[0] + "\0" + JoinNul(parts[1..])
  }
}
