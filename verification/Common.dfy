/** Datatypes and sequence facts shared by the models of the backend packages. */
module Common {

  datatype Option<+T> = None | Some(value: T) {
    function GetOr(default: T): T { if Some? then value else default }
  }

  datatype Result<+T, +E> = Ok(value: T) | Err(error: E)

  /** One octet, as in Go's `byte`. */
  type Byte = b: int | 0 <= b < 256 witness 0

  function Max(a: int, b: int): (m: int)
    ensures m >= a && m >= b && (m == a || m == b)
  {
    if a < b then b else a
  }

  function Elements<T>(s: seq<T>): set<T> { set x | x in s }

  predicate NoDuplicates<T(==)>(s: seq<T>) {
    forall i, j :: 0 <= i < j < |s| ==> s[i] != s[j]
  }

  function IndexOf<T(==)>(s: seq<T>, x: T): (i: nat)
    requires x in s
    ensures i < |s| && s[i] == x
    ensures forall j :: 0 <= j < i ==> s[j] != x
  {
    if s[0] == x then 0 else 1 + IndexOf(s[1..], x)
  }

  /** A sequence without duplicates has as many members as positions. */
  lemma {:induction false} ElementsSize<T>(s: seq<T>)
    ensures |Elements(s)| <= |s|
    ensures NoDuplicates(s) <==> |Elements(s)| == |s|
  {
    if s != [] {
      var front, last := s[..|s| - 1], s[|s| - 1];
      ElementsSize(front);
      assert s == front + [last];
      assert Elements(s) == Elements(front) + {last};
      if last in front {
        assert Elements(s) == Elements(front);
      } else {
        assert |Elements(s)| == |Elements(front)| + 1;
      }
    }
  }

  lemma SubsetSize<T>(a: set<T>, b: set<T>)
    requires a <= b
    ensures |a| <= |b|
  {
    assert |b - a| + |a| == |b| by { assert b == (b - a) + a; }
  }

  // ---------------------------------------------------------------- failing statements

  /** None of the n statements from number `from` on is among those that fail by themselves. */
  ghost predicate Undisturbed(faults: set<nat>, from: nat, n: nat) {
    forall f | f in faults :: !(from <= f < from + n)
  }

  lemma UndisturbedSplit(faults: set<nat>, from: nat, m: nat, n: nat)
    ensures Undisturbed(faults, from, m + n) <==> Undisturbed(faults, from, m) && Undisturbed(faults, from + m, n)
    ensures Undisturbed(faults, from, 1) <==> from !in faults
    ensures Undisturbed(faults, from + m, 1) <==> from + m !in faults
  {}

  // ---------------------------------------------------------------- decimal numerals

  function Digit(d: nat): char
    requires d < 10
  {
    "0123456789"[d]
  }

  function Decimal(n: nat): (s: string)
    ensures s != []
    ensures forall c | c in s :: '0' <= c <= '9'
  {
    if n < 10 then [Digit(n)] else Decimal(n / 10) + [Digit(n % 10)]
  }

  lemma DecimalParts(n: nat)
    ensures var s := Decimal(n);
            && s[|s| - 1] == Digit(n % 10) && (|s| == 1 <==> n < 10) && (n >= 10 ==> s[..|s| - 1] == Decimal(n / 10))
  {
    if n >= 10 { assert Decimal(n) == Decimal(n / 10) + [Digit(n % 10)]; }
  }

  lemma DigitInjective(a: nat, b: nat)
    requires a < 10 && b < 10 && Digit(a) == Digit(b)
    ensures a == b
  {}

  /** Different numbers have different numerals. */
  lemma {:induction false} DecimalInjective(a: nat, b: nat)
    requires Decimal(a) == Decimal(b)
    ensures a == b
  {
    DecimalParts(a);
    DecimalParts(b);
    DigitInjective(a % 10, b % 10);
    if a >= 10 { DecimalInjective(a / 10, b / 10); }
  }

  /** The number a string of decimal digits stands for. */
  function NumeralValue(s: string): int {
    if s == "" then 0 else 10 * NumeralValue(s[..|s| - 1]) + (s[|s| - 1] as int - '0' as int)
  }

  /** A numeral stands for its number, without leading zeros. */
  lemma {:induction false} DecimalValue(n: nat)
    ensures NumeralValue(Decimal(n)) == n && (Decimal(n)[0] == '0' ==> Decimal(n) == "0")
  {
    if n < 10 {
      assert Decimal(n)[..0] == "";
    } else {
      DecimalValue(n / 10);
      assert Decimal(n)[..|Decimal(n)| - 1] == Decimal(n / 10);
      assert n / 10 != 0 && NumeralValue("0") == 0 by { assert "0"[..0] == ""; }
    }
  }

  // ---------------------------------------------------------------- trimming

  /** The characters with the Unicode White_Space property. */
  predicate IsSpace(c: char) {
    || '\t' <= c <= '\r' || c == ' ' || c == '\U{85}' || c == '\U{A0}' || c == '\U{1680}'
    || '\U{2000}' <= c <= '\U{200A}' || c == '\U{2028}' || c == '\U{2029}' || c == '\U{202F}'
    || c == '\U{205F}' || c == '\U{3000}'
  }

  function TrimLeft(s: string): string { if s != [] && IsSpace(s[0]) then TrimLeft(s[1..]) else s }

  function TrimRight(s: string): string {
    if s != [] && IsSpace(s[|s| - 1]) then TrimRight(s[..|s| - 1]) else s
  }

  /** strings.TrimSpace. */
  function Trim(s: string): string { TrimRight(TrimLeft(s)) }

  predicate Trimmed(s: string) { s == [] || (!IsSpace(s[0]) && !IsSpace(s[|s| - 1])) }

  /** The twenty-five code points with the property. */
  lemma WhiteSpace(c: char)
    ensures IsSpace(c) <==>
            c as int in {0x09, 0x0A, 0x0B, 0x0C, 0x0D, 0x20, 0x85, 0xA0, 0x1680, 0x2000, 0x2001, 0x2002, 0x2003,
                         0x2004, 0x2005, 0x2006, 0x2007, 0x2008, 0x2009, 0x200A, 0x2028, 0x2029, 0x202F, 0x205F,
                         0x3000}
  {}

  ghost predicate AllSpace(s: string) { forall c | c in s :: IsSpace(c) }

  lemma {:induction false} TrimLeftIs(s: string) returns (n: nat)
    ensures n <= |s| && TrimLeft(s) == s[n..] && AllSpace(s[..n]) && (n < |s| ==> !IsSpace(s[n]))
  {
    n := 0;
    if s != [] && IsSpace(s[0]) {
      n := TrimLeftIs(s[1..]);
      assert s[1..][n..] == s[n + 1..] && s[..n + 1] == [s[0]] + s[1..][..n];
      n := n + 1;
    }
  }

  lemma {:induction false} TrimRightIs(s: string) returns (n: nat)
    ensures n <= |s| && TrimRight(s) == s[..n] && AllSpace(s[n..]) && (n > 0 ==> !IsSpace(s[n - 1]))
  {
    n := |s|;
    if s != [] && IsSpace(s[|s| - 1]) {
      n := TrimRightIs(s[..|s| - 1]);
      assert s[n..] == s[..|s| - 1][n..] + [s[|s| - 1]];
    }
  }

  /** Trimming cuts spaces off both ends, and all of them. */
  lemma TrimIs(s: string) returns (from: nat, to: nat)
    ensures from <= to <= |s| && Trim(s) == s[from..to] && AllSpace(s[..from]) && AllSpace(s[to..]) && Trimmed(Trim(s))
  {
    from := TrimLeftIs(s);
    to := TrimRightIs(s[from..]);
    assert s[from..][..to] == s[from..from + to] && s[from..][to..] == s[from + to..];
    to := from + to;
  }

  lemma TrimKeepsTrimmed(s: string)
    requires Trimmed(s)
    ensures Trim(s) == s && Trim([' '] + s) == s
  {
    assert ([' '] + s)[1..] == s;
  }

  // ---------------------------------------------------------------- fixed-width integers

  function Compose16(low: Byte, high: Byte): (n: nat)
    ensures n < 0x1_0000
  {
    var l: int, h: int := low, high;
    l + 0x100 * h
  }

  /** Two octets in either byte order. */
  function U16(big: bool, d: seq<Byte>): (n: nat)
    requires |d| == 2
    ensures n < 0x1_0000
  {
    if big then Compose16(d[1], d[0]) else Compose16(d[0], d[1])
  }

  /** Two octets, most or least significant first. */
  lemma U16Octets(a: Byte, b: Byte)
    ensures U16(true, [a, b]) == 0x100 * a + b && U16(false, [a, b]) == a + 0x100 * b
  {}

  /** Four octets, most or least significant first. */
  lemma U32Octets(a: Byte, b: Byte, c: Byte, d: Byte)
    ensures U32(true, [a, b, c, d]) == 0x100_0000 * a + 0x1_0000 * b + 0x100 * c + d
    ensures U32(false, [a, b, c, d]) == a + 0x100 * b + 0x1_0000 * c + 0x100_0000 * d
  {
    var s := [a, b, c, d];
    assert s[..2] == [a, b] && s[2..] == [c, d];
    U16Octets(a, b);
    U16Octets(c, d);
  }

  /** A number below 65536 written as two octets. */
  lemma Put16Octets(n: nat)
    requires n < 0x1_0000
    ensures Put16(true, n) == [n / 0x100, n % 0x100] && Put16(false, n) == [n % 0x100, n / 0x100]
  {
    U16Octets(Put16(true, n)[0], Put16(true, n)[1]);
    U16Octets(Put16(false, n)[0], Put16(false, n)[1]);
  }

  function Put16(big: bool, n: nat): (d: seq<Byte>)
    requires n < 0x1_0000
    ensures |d| == 2 && U16(big, d) == n
  {
    if big then [n / 0x100, n % 0x100] else [n % 0x100, n / 0x100]
  }

  function U32(big: bool, d: seq<Byte>): (n: nat)
    requires |d| == 4
    ensures n < 0x1_0000_0000
  {
    var a, b := U16(big, d[..2]), U16(big, d[2..]);
    if big then 0x1_0000 * a + b else a + 0x1_0000 * b
  }

  function Put32(big: bool, n: nat): (d: seq<Byte>)
    requires n < 0x1_0000_0000
    ensures |d| == 4 && U32(big, d) == n
  {
    var low, high := Put16(big, n % 0x1_0000), Put16(big, n / 0x1_0000);
    if big then
      assert (high + low)[..2] == high && (high + low)[2..] == low;
      high + low
    else
      assert (low + high)[..2] == low && (low + high)[2..] == high;
      low + high
  }

  lemma Put16Inverse(big: bool, d: seq<Byte>)
    requires |d| == 2
    ensures Put16(big, U16(big, d)) == d
  {}

  /** A number below 2^32 written as four octets. */
  lemma Put32Octets(n: nat)
    requires n < 0x1_0000_0000
    ensures Put32(true, n) == [n / 0x100_0000, n / 0x1_0000 % 0x100, n / 0x100 % 0x100, n % 0x100]
    ensures Put32(false, n) == [n % 0x100, n / 0x100 % 0x100, n / 0x1_0000 % 0x100, n / 0x100_0000]
  {
    Quarters(n);
    Put16Octets(n % 0x1_0000);
    Put16Octets(n / 0x1_0000);
  }

  lemma Quarters(n: nat)
    ensures n % 0x1_0000 / 0x100 == n / 0x100 % 0x100 && n % 0x1_0000 % 0x100 == n % 0x100
    ensures n / 0x1_0000 / 0x100 == n / 0x100_0000
  {
    Halves(n % 0x1_0000, n / 0x1_0000);
  }

  lemma Halves(low: nat, high: nat)
    requires low < 0x1_0000
    ensures (low + 0x1_0000 * high) % 0x1_0000 == low && (low + 0x1_0000 * high) / 0x1_0000 == high
  {}

  lemma Put32Inverse(big: bool, d: seq<Byte>)
    requires |d| == 4
    ensures Put32(big, U32(big, d)) == d
  {
    var a, b := d[..2], d[2..];
    Put16Inverse(big, a);
    Put16Inverse(big, b);
    if big { Halves(U16(big, b), U16(big, a)); } else { Halves(U16(big, a), U16(big, b)); }
    assert d == a + b;
  }
}
