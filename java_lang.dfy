/**
 * Stand-ins for the parts of the Java platform that the modelled code calls:
 * fixed-width integers and their wrap-around, Character.isWhitespace and
 * Character.isDigit, String.compareTo, String.trim, String.split on a
 * one-character pattern, Integer.parseInt and decimal formatting.
 */
module JavaLang {

  datatype Option<+T> = None | Some(value: T)

  datatype Result<+T, +E> = Ok(value: T) | Err(error: E)

  /** The exceptions the modelled code throws or lets through, with their messages. */
  datatype Exception =
    | IllegalArgumentException(message: string)
    | IllegalStateException(message: string, cause: Option<Exception>)
    | NullPointerException
    | RuntimeException(message: string)

  const INT_MIN: int := -0x8000_0000
  const INT_MAX: int := 0x7fff_ffff
  const LONG_MIN: int := -0x8000_0000_0000_0000
  const LONG_MAX: int := 0x7fff_ffff_ffff_ffff

  /** Java `int` */
  type Int32 = x: int | -0x8000_0000 <= x < 0x8000_0000
  /** Java `long` */
  type Int64 = x: int | -0x8000_0000_0000_0000 <= x < 0x8000_0000_0000_0000

  /** Two's-complement wrap-around of Java `long` arithmetic. */
  function Wrap64(x: int): (r: Int64)
    ensures LONG_MIN <= x <= LONG_MAX ==> r == x
  {
    (x + 0x8000_0000_0000_0000) % 0x1_0000_0000_0000_0000 - 0x8000_0000_0000_0000
  }

  /** Adding a multiple of 2^64 does not change the wrapped value. */
  lemma WrapModular(z: int, k: int)
    ensures Wrap64(z + 0x1_0000_0000_0000_0000 * k) == Wrap64(z)
  {
    var M := 0x1_0000_0000_0000_0000;
    var H := 0x8000_0000_0000_0000;
    var q := (z + H) / M;
    var rem := (z + H) % M;
    assert z + M * k + H == M * (q + k) + rem;
  }

  /** Wrapping a factor before multiplying gives the same long as wrapping
      the product. */
  lemma WrapMul(x: int, y: int)
    ensures Wrap64(Wrap64(x) * y) == Wrap64(x * y)
  {
    var M := 0x1_0000_0000_0000_0000;
    var H := 0x8000_0000_0000_0000;
    var q := (x + H) / M;
    assert Wrap64(x) == x - M * q;
    assert Wrap64(x) * y == x * y + M * (-q * y);
    WrapModular(x * y, -q * y);
  }

  /** Two's-complement wrap-around of Java `int` arithmetic. */
  function Wrap32(x: int): (r: Int32)
    ensures INT_MIN <= x <= INT_MAX ==> r == x
  {
    (x + 0x8000_0000) % 0x1_0000_0000 - 0x8000_0000
  }

  /** Character.isWhitespace: Unicode space, line and paragraph separators
      other than the non-breaking ones, plus the ASCII controls it names. */
  predicate IsWhitespace(c: char)
  {
    || c == ' ' || c == '\t' || c == '\n' || c == '\U{000B}' || c == '\U{000C}' || c == '\r'
    || ('\U{001C}' <= c <= '\U{001F}')
    || c == '\U{1680}'
    || ('\U{2000}' <= c <= '\U{2006}') || ('\U{2008}' <= c <= '\U{200A}')
    || c == '\U{2028}' || c == '\U{2029}' || c == '\U{205F}' || c == '\U{3000}'
  }

  /** Character.isDigit, restricted to the ASCII digits. */
  predicate IsDigit(c: char)
  {
    '0' <= c <= '9'
  }

  predicate AllDigits(s: string)
  {
    forall i :: 0 <= i < |s| ==> IsDigit(s[i])
  }

  /** The value of a string of decimal digits. */
  function DigitsValue(s: string): (v: nat)
    requires AllDigits(s)
  {
    if s == [] then 0 else DigitsValue(s[..|s| - 1]) * 10 + (s[|s| - 1] as int - '0' as int)
  }

  function DigitChar(d: int): (c: char)
    requires 0 <= d < 10
    ensures IsDigit(c) && c as int - '0' as int == d
  {
    ('0' as int + d) as char
  }

  /** Decimal digits of a natural number, without leading zeros. */
  function Decimal(n: nat): (s: string)
    ensures |s| > 0 && AllDigits(s)
    ensures |s| > 1 ==> s[0] != '0'
  {
    if n < 10 then [DigitChar(n)] else Decimal(n / 10) + [DigitChar(n % 10)]
  }

  /** StringBuilder.append(int) / String.valueOf(int). */
  function IntToString(n: int): string
  {
    if n < 0 then "-" + Decimal(-n) else Decimal(n)
  }

  lemma {:induction false} DecimalValue(n: nat)
    ensures DigitsValue(Decimal(n)) == n
  {
    if n >= 10 {
      var s := Decimal(n);
      DecimalValue(n / 10);
      assert s[..|s| - 1] == Decimal(n / 10);
    }
  }

  /** Integer.parseInt(s) in radix 10: None stands for NumberFormatException. */
  function ParseInt(s: string): (r: Option<Int32>)
    ensures r.Some? ==> |s| > 0
  {
    if s == [] then None
    else
      var negative := s[0] == '-';
      var digits := if s[0] == '-' || s[0] == '+' then s[1..] else s;
      if digits == [] || !AllDigits(digits) then None
      else
        var v := if negative then -(DigitsValue(digits) as int) else DigitsValue(digits);
        if INT_MIN <= v <= INT_MAX then Some(v) else None
  }

  lemma ParseIntDecimal(n: nat)
    requires n <= INT_MAX
    ensures ParseInt(Decimal(n)) == Some(n)
  {
    DecimalValue(n);
  }

  /** String.compareTo: the difference of the first differing characters,
      or else the difference of the lengths. */
  function CompareTo(a: string, b: string): int
  {
    if a == [] || b == [] then |a| - |b|
    else if a[0] != b[0] then a[0] as int - b[0] as int
    else CompareTo(a[1..], b[1..])
  }

  lemma {:induction false} CompareToAntisymmetric(a: string, b: string)
    ensures CompareTo(a, b) == -CompareTo(b, a)
    ensures CompareTo(a, b) == 0 <==> a == b
  {
    if a != [] && b != [] && a[0] == b[0] {
      CompareToAntisymmetric(a[1..], b[1..]);
      assert a == [a[0]] + a[1..] && b == [b[0]] + b[1..];
    }
  }

  /** String.trim: drops every leading and trailing character at or below ' '. */
  function Trim(s: string): (r: string)
    ensures var e := |TrimEnd(s)|; |r| <= e && r == s[e - |r|..e]
    ensures forall i :: 0 <= i < |TrimEnd(s)| - |r| ==> s[i] <= ' '
    ensures forall i :: |TrimEnd(s)| <= i < |s| ==> s[i] <= ' '
    ensures r == [] || (r[0] > ' ' && r[|r| - 1] > ' ')
  {
    TrimFacts(s);
    TrimStart(TrimEnd(s))
  }

  lemma TrimFacts(s: string)
    ensures var e := |TrimEnd(s)|; var r := TrimStart(TrimEnd(s)); |r| <= e && r == s[e - |r|..e]
    ensures forall i :: 0 <= i < |TrimEnd(s)| - |TrimStart(TrimEnd(s))| ==> s[i] <= ' '
    ensures var r := TrimStart(TrimEnd(s)); r == [] || (r[0] > ' ' && r[|r| - 1] > ' ')
  {
    var u := TrimEnd(s);
    var r := TrimStart(u);
    var e := |u|;
    TrimStartFacts(u);
    assert u == s[..e];
    assert r == u[e - |r|..];
    assert u[e - |r|..] == s[e - |r|..e];
    if r != [] {
      assert r[|r| - 1] == u[e - 1];
    }
    forall i | 0 <= i < e - |r|
      ensures s[i] <= ' '
    {
      assert s[i] == u[i];
    }
  }

  function TrimEnd(s: string): (r: string)
    ensures |r| <= |s| && r == s[..|r|]
    ensures r == [] || r[|r| - 1] > ' '
    ensures forall i :: |r| <= i < |s| ==> s[i] <= ' '
  {
    if s != [] && s[|s| - 1] <= ' ' then TrimEnd(s[..|s| - 1]) else s
  }

  function TrimStart(s: string): (r: string)
    ensures |r| <= |s|
  {
    if s != [] && s[0] <= ' ' then TrimStart(s[1..]) else s
  }

  /** TrimStart drops a prefix of characters at or below ' ' and stops at the
      first one above it. */
  lemma {:induction false} TrimStartFacts(s: string)
    ensures var r := TrimStart(s); r == s[|s| - |r|..]
    ensures var r := TrimStart(s); r == [] || r[0] > ' '
    ensures forall i :: 0 <= i < |s| - |TrimStart(s)| ==> s[i] <= ' '
  {
    if s != [] && s[0] <= ' ' {
      var t := s[1..];
      TrimStartFacts(t);
      assert TrimStart(s) == TrimStart(t);
      assert t[|t| - |TrimStart(t)|..] == s[|s| - |TrimStart(t)|..];
      forall i | 0 < i < |s| - |TrimStart(s)|
        ensures s[i] <= ' '
      {
        assert s[i] == t[i - 1];
      }
    }
  }

  lemma TrimNoControls(s: string)
    requires forall i :: 0 <= i < |s| ==> s[i] > ' '
    ensures Trim(s) == s
  {
    assert TrimEnd(s) == s;
  }

  /** The pieces of `s` between occurrences of `sep`, empty pieces kept. */
  function RawSplit(s: string, sep: char): (r: seq<string>)
    ensures |r| > 0
  {
    if s == [] then [[]]
    else
      var rest := RawSplit(s[1..], sep);
      if s[0] == sep then [[]] + rest else [[s[0]] + rest[0]] + rest[1..]
  }

  function DropTrailingEmpty(parts: seq<string>): seq<string>
  {
    if parts != [] && parts[|parts| - 1] == [] then DropTrailingEmpty(parts[..|parts| - 1]) else parts
  }

  /** String.split with a one-character literal pattern and limit 0: the input
      itself when the separator does not occur, otherwise the pieces with the
      trailing empty ones removed. */
  function Split(s: string, sep: char): seq<string>
  {
    if sep !in s then [s] else DropTrailingEmpty(RawSplit(s, sep))
  }

  lemma {:induction false} RawSplitNoSep(s: string, sep: char)
    requires sep !in s
    ensures RawSplit(s, sep) == [s]
  {
    if s != [] {
      RawSplitNoSep(s[1..], sep);
      assert [s[0]] + s[1..] == s;
    }
  }

  lemma {:induction false} RawSplitAppend(a: string, sep: char, b: string)
    requires sep !in a
    ensures RawSplit(a + [sep] + b, sep) == [a] + RawSplit(b, sep)
  {
    if a == [] {
      assert a + [sep] + b == [sep] + b;
      assert ([sep] + b)[1..] == b;
    } else {
      assert (a + [sep] + b)[1..] == a[1..] + [sep] + b;
      RawSplitAppend(a[1..], sep, b);
      assert [a[0]] + a[1..] == a;
    }
  }
}
