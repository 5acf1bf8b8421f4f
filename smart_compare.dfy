/**
 * StringUtil.compareStringsSmart: a "natural" string order in which runs of
 * digits compare by their numeric value, so that "a2" comes before "a10".
 */
module SmartComparison {
  import opened JavaLang

  /** The longest prefix of `s` made of digits. */
  function DigitPrefix(s: string): (g: string)
    ensures |g| <= |s| && g == s[..|g|]
    ensures AllDigits(g)
    ensures |g| == |s| || !IsDigit(s[|g|])
  {
    if s == [] || !IsDigit(s[0]) then [] else [s[0]] + DigitPrefix(s[1..])
  }

  /** A stretch of digits that ends at the end of `s` or before a non-digit is
      the digit prefix of where it starts. */
  lemma {:induction false} DigitPrefixIs(s: string, k: nat)
    requires k <= |s| && AllDigits(s[..k])
    requires k == |s| || !IsDigit(s[k])
    ensures DigitPrefix(s) == s[..k]
  {
    if k > 0 {
      assert IsDigit(s[..k][0]);
      assert s[1..][..k - 1] == s[..k][1..];
      DigitPrefixIs(s[1..], k - 1);
    }
  }

  /** Long.parseLong applied to a non-empty run of decimal digits: it fails
      exactly when the value does not fit in a long. */
  function ParseLongDigits(g: string): Option<Int64>
    requires AllDigits(g)
  {
    if DigitsValue(g) <= LONG_MAX then Some(DigitsValue(g)) else None
  }

  /** How two digit groups decide the comparison: None when the scan goes on
      past them, Some(c) when it returns c. */
  function CompareGroups(ga: string, gb: string): Option<int>
    requires AllDigits(ga) && AllDigits(gb)
  {
    match ParseLongDigits(ga)
    case None =>
      var c := CompareTo(ga, gb);
      if c == 0 then None else Some(c)
    case Some(na) =>
      match ParseLongDigits(gb)
      case None => Some(CompareTo(ga, gb))
      case Some(nb) =>
        if na > nb then Some(1)
        else if na < nb then Some(-1)
        else if |ga| != |gb| then Some(CompareTo(ga, gb))
        else None
  }

  /** compareStringsSmart as a function of the two strings: equal non-digit
      characters are skipped, differing ones decide by their codes, and a
      non-digit comes after a digit or the end; where neither string goes on
      with a non-digit, GroupCompare decides. */
  function SmartCompare(a: string, b: string): int
    decreases |a| + |b|, 1
  {
    if a != [] && !IsDigit(a[0]) then
      if b != [] && !IsDigit(b[0]) then
        if a[0] != b[0] then a[0] as int - b[0] as int
        else SmartCompare(a[1..], b[1..])
      else 1
    else if b != [] && !IsDigit(b[0]) then -1
    else GroupCompare(a, b)
  }

  /** The digit groups at the front of `a` and `b`: the string without one
      comes first (both without: the strings are used up and equal), two
      groups decide by CompareGroups or the scan goes on after them. */
  function GroupCompare(a: string, b: string): int
    decreases |a| + |b|, 0
  {
    var ga := DigitPrefix(a);
    var gb := DigitPrefix(b);
    if ga == [] then (if gb == [] then 0 else -1)
    else if gb == [] then 1
    else
      match CompareGroups(ga, gb)
      case Some(c) => c
      case None => SmartCompare(a[|ga|..], b[|gb|..])
  }

  /** compareStringsSmart, as written: an outer loop that alternates a scan
      over non-digits with the collection of two digit groups. */
  method CompareStringsSmart(stringA: string, stringB: string) returns (r: int)
    ensures r == SmartCompare(stringA, stringB)
  {
    var lengthA := |stringA|;
    var lengthB := |stringB|;
    var numberGroupA: string := [];
    var numberGroupB: string := [];
    var offsetA := 0;
    var offsetB := 0;
    while true
      invariant 0 <= offsetA <= lengthA && 0 <= offsetB <= lengthB
      invariant numberGroupA == [] && numberGroupB == []
      invariant SmartCompare(stringA[offsetA..], stringB[offsetB..]) == SmartCompare(stringA, stringB)
      decreases lengthA - offsetA + lengthB - offsetB
    {
      ghost var roundA := offsetA;
      ghost var roundB := offsetB;
      while offsetA < lengthA && !IsDigit(stringA[offsetA])
        invariant roundA <= offsetA <= lengthA && roundB <= offsetB <= lengthB
        invariant SmartCompare(stringA[offsetA..], stringB[offsetB..]) == SmartCompare(stringA, stringB)
        decreases lengthA - offsetA
      {
        var charA := stringA[offsetA];
        if offsetB < lengthB && !IsDigit(stringB[offsetB]) {
          var charB := stringB[offsetB];
          if charA != charB {
            return charA as int - charB as int;
          }
        } else {
          return 1;
        }
        assert stringA[offsetA..][1..] == stringA[offsetA + 1..];
        assert stringB[offsetB..][1..] == stringB[offsetB + 1..];
        offsetA := offsetA + 1;
        offsetB := offsetB + 1;
      }

      if offsetB < lengthB && !IsDigit(stringB[offsetB]) {
        return -1;
      }

      numberGroupA, offsetA := AppendDigits(stringA, offsetA, numberGroupA);
      numberGroupB, offsetB := AppendDigits(stringB, offsetB, numberGroupB);

      if |numberGroupA| == 0 {
        return if |numberGroupB| == 0 then 0 else -1;
      }
      if |numberGroupB| == 0 {
        return 1;
      }

      var groupValueA := numberGroupA;
      var groupValueB := numberGroupB;
      numberGroupA := [];
      numberGroupB := [];

      var decision := DecideGroups(groupValueA, groupValueB);
      if decision.Some? {
        return decision.value;
      }
    }
  }

  /** The end of one round of compareStringsSmart: both groups are parsed as
      longs, a group that does not fit makes the groups compare as strings,
      and two equal values written with different numbers of leading zeros
      also compare as strings. None stands for going on to the next round. */
  method DecideGroups(groupValueA: string, groupValueB: string) returns (decision: Option<int>)
    requires AllDigits(groupValueA) && AllDigits(groupValueB)
    ensures decision == CompareGroups(groupValueA, groupValueB)
    ensures decision.None? <==> groupValueA == groupValueB
  {
    CompareGroupsNoneIff(groupValueA, groupValueB);
    var numberA := ParseLongDigits(groupValueA);
    if numberA.None? {
      var numberAsStringComparisonResult := CompareTo(groupValueA, groupValueB);
      if numberAsStringComparisonResult == 0 {
        return None;
      } else {
        return Some(numberAsStringComparisonResult);
      }
    }
    var numberB := ParseLongDigits(groupValueB);
    if numberB.None? {
      return Some(CompareTo(groupValueA, groupValueB));
    }
    if numberA.value > numberB.value {
      return Some(1);
    }
    if numberA.value < numberB.value {
      return Some(-1);
    }
    if |groupValueA| != |groupValueB| {
      return Some(CompareTo(groupValueA, groupValueB));
    }
    return None;
  }

  /** One digit loop of compareStringsSmart: appends the digits that start at
      `offset` to the (empty) group and returns the offset after them. */
  method AppendDigits(s: string, offset: nat, numberGroup: string) returns (group: string, next: nat)
    requires offset <= |s| && numberGroup == []
    ensures group == DigitPrefix(s[offset..])
    ensures next == offset + |group| <= |s|
    ensures s[offset..][|group|..] == s[next..]
  {
    group := numberGroup;
    next := offset;
    while next < |s| && IsDigit(s[next])
      invariant offset <= next <= |s|
      invariant group == s[offset..next]
      invariant forall i :: offset <= i < next ==> IsDigit(s[i])
    {
      assert s[offset..next + 1] == s[offset..next] + [s[next]];
      group := group + [s[next]];
      next := next + 1;
    }
    assert s[offset..][..next - offset] == group;
    DigitPrefixIs(s[offset..], next - offset);
  }

  // ---------------------------------------------------------------------------
  // Properties of the order
  // ---------------------------------------------------------------------------

  /** Two digit strings of the same length with the same value are equal. */
  lemma {:induction false} DigitsValueInjective(x: string, y: string)
    requires AllDigits(x) && AllDigits(y) && |x| == |y|
    requires DigitsValue(x) == DigitsValue(y)
    ensures x == y
  {
    if x != [] {
      var px := x[..|x| - 1];
      var py := y[..|y| - 1];
      var dx := x[|x| - 1] as int - '0' as int;
      var dy := y[|y| - 1] as int - '0' as int;
      LastDigitAndRest(DigitsValue(px), dx, DigitsValue(py), dy);
      DigitsValueInjective(px, py);
      assert x == px + [x[|x| - 1]];
      assert y == py + [y[|y| - 1]];
    }
  }

  /** A number written in decimal determines its last digit and the rest. */
  lemma LastDigitAndRest(p: nat, dx: int, q: nat, dy: int)
    requires 0 <= dx < 10 && 0 <= dy < 10
    requires p * 10 + dx == q * 10 + dy
    ensures p == q && dx == dy
  {
  }

  /** Two digit groups let the scan go on exactly when they are equal. */
  lemma CompareGroupsNoneIff(ga: string, gb: string)
    requires AllDigits(ga) && AllDigits(gb)
    ensures CompareGroups(ga, gb).None? <==> ga == gb
    ensures CompareGroups(ga, gb).Some? ==> CompareGroups(ga, gb).value != 0
  {
    CompareToAntisymmetric(ga, gb);
    if ParseLongDigits(ga).Some? && ParseLongDigits(gb).Some? && |ga| == |gb| && DigitsValue(ga) == DigitsValue(gb) {
      DigitsValueInjective(ga, gb);
    }
  }

  /** Swapping the groups negates their verdict. */
  lemma CompareGroupsAntisymmetric(ga: string, gb: string)
    requires AllDigits(ga) && AllDigits(gb)
    ensures CompareGroups(ga, gb).None? <==> CompareGroups(gb, ga).None?
    ensures CompareGroups(ga, gb).Some? ==> CompareGroups(gb, ga) == Some(-CompareGroups(ga, gb).value)
  {
    CompareToAntisymmetric(ga, gb);
    CompareGroupsNoneIff(ga, gb);
    CompareGroupsNoneIff(gb, ga);
  }

  /** A string splits into its digit prefix and the rest. */
  lemma PrefixAndRest(s: string)
    ensures s == DigitPrefix(s) + s[|DigitPrefix(s)|..]
  {
  }

  /** The order tells strings apart: it answers 0 exactly for equal strings. */
  lemma {:induction false} SmartCompareZeroIff(a: string, b: string)
    ensures SmartCompare(a, b) == 0 <==> a == b
    decreases |a| + |b|
  {
    if a != [] && !IsDigit(a[0]) {
      if b != [] && !IsDigit(b[0]) && a[0] == b[0] {
        SmartCompareZeroIff(a[1..], b[1..]);
        assert a == [a[0]] + a[1..] && b == [b[0]] + b[1..];
      }
    } else if b != [] && !IsDigit(b[0]) {
    } else {
      var ga := DigitPrefix(a);
      var gb := DigitPrefix(b);
      if ga != [] && gb != [] {
        CompareGroupsNoneIff(ga, gb);
        PrefixAndRest(a);
        PrefixAndRest(b);
        SmartCompareZeroIff(a[|ga|..], b[|gb|..]);
      } else if ga == [] && gb == [] {
        assert a == [] && b == [];
      }
    }
  }

  /** Swapping the arguments negates the answer, as Comparator requires. */
  lemma {:induction false} SmartCompareAntisymmetric(a: string, b: string)
    ensures SmartCompare(a, b) == -SmartCompare(b, a)
    decreases |a| + |b|
  {
    if a != [] && !IsDigit(a[0]) {
      if b != [] && !IsDigit(b[0]) && a[0] == b[0] {
        SmartCompareAntisymmetric(a[1..], b[1..]);
      }
    } else if b != [] && !IsDigit(b[0]) {
    } else {
      var ga := DigitPrefix(a);
      var gb := DigitPrefix(b);
      if ga != [] && gb != [] {
        CompareGroupsAntisymmetric(ga, gb);
        if CompareGroups(ga, gb).None? {
          SmartCompareAntisymmetric(a[|ga|..], b[|gb|..]);
        }
      }
    }
  }

  /** A number alone is its own digit prefix, with nothing after it. */
  lemma DecimalIsGroup(n: nat)
    ensures DigitPrefix(Decimal(n)) == Decimal(n)
  {
    DigitPrefixIs(Decimal(n), |Decimal(n)|);
  }

  /** Two numbers that fit in a long compare by value. */
  lemma NumbersAlone(m: nat, n: nat)
    requires m <= LONG_MAX && n <= LONG_MAX
    ensures m < n ==> SmartCompare(Decimal(m), Decimal(n)) == -1
    ensures m == n ==> SmartCompare(Decimal(m), Decimal(n)) == 0
    ensures m > n ==> SmartCompare(Decimal(m), Decimal(n)) == 1
  {
    var a := Decimal(m);
    var b := Decimal(n);
    DecimalIsGroup(m);
    DecimalIsGroup(n);
    DecimalValue(m);
    DecimalValue(n);
    assert IsDigit(a[0]) && IsDigit(b[0]);
    assert ParseLongDigits(a) == Some(m) && ParseLongDigits(b) == Some(n);
    if m == n {
      assert a[|a|..] == [];
      assert SmartCompare(a, b) == SmartCompare([], []);
    }
  }

  /** The same non-digit text followed by two numbers that fit in a long
      compares as the numbers do: "a2" before "a10". */
  lemma {:induction false} NumbersCompareByValue(w: string, m: nat, n: nat)
    requires forall i :: 0 <= i < |w| ==> !IsDigit(w[i])
    requires m <= LONG_MAX && n <= LONG_MAX
    ensures m < n ==> SmartCompare(w + Decimal(m), w + Decimal(n)) == -1
    ensures m == n ==> SmartCompare(w + Decimal(m), w + Decimal(n)) == 0
    ensures m > n ==> SmartCompare(w + Decimal(m), w + Decimal(n)) == 1
  {
    if w == [] {
      assert w + Decimal(m) == Decimal(m) && w + Decimal(n) == Decimal(n);
      NumbersAlone(m, n);
    } else {
      var a := w + Decimal(m);
      var b := w + Decimal(n);
      assert a[0] == w[0] == b[0] && !IsDigit(w[0]);
      assert a[1..] == w[1..] + Decimal(m);
      assert b[1..] == w[1..] + Decimal(n);
      assert SmartCompare(a, b) == SmartCompare(a[1..], b[1..]);
      NumbersCompareByValue(w[1..], m, n);
    }
  }

  /** The motivating example of the natural order. */
  lemma TwoBeforeTen()
    ensures SmartCompare("a2", "a10") < 0
  {
    assert Decimal(2) == "2";
    assert Decimal(10) == "10";
    NumbersCompareByValue("a", 2, 10);
    assert "a" + Decimal(2) == "a2" && "a" + Decimal(10) == "a10";
  }


  /** 3 followed by nineteen zeros: 3 * 10^19, a digit group that does not
      fit in a long. */
  predicate ThreeE19(s: string)
  {
    |s| == 20 && s[0] == '3' && forall i :: 1 <= i < 20 ==> s[i] == '0'
  }

  function Pow10(n: nat): nat
  {
    if n == 0 then 1 else 10 * Pow10(n - 1)
  }

  /** A digit string is at least its leading digit times 10^(length - 1). */
  lemma {:induction false} LeadingDigitBound(s: string)
    requires AllDigits(s) && |s| >= 1
    ensures DigitsValue(s) >= (s[0] as int - '0' as int) * Pow10(|s| - 1)
    decreases |s|
  {
    if |s| > 1 {
      var p := s[..|s| - 1];
      var lead := s[0] as int - '0' as int;
      assert p[0] == s[0];
      LeadingDigitBound(p);
      assert DigitsValue(s) >= DigitsValue(p) * 10;
      assert DigitsValue(p) * 10 >= lead * Pow10(|p| - 1) * 10;
    }
  }

  lemma BigOverflows(big: string)
    requires ThreeE19(big)
    ensures AllDigits(big) && DigitPrefix(big) == big
    ensures ParseLongDigits(big).None?
  {
    assert big[..|big|] == big;
    DigitPrefixIs(big, |big|);
    LeadingDigitBound(big);
    assert Pow10(0) == 1;
    assert Pow10(1) == 10;
    assert Pow10(2) == 100;
    assert Pow10(3) == 1000;
    assert Pow10(4) == 10000;
    assert Pow10(5) == 100000;
    assert Pow10(6) == 1000000;
    assert Pow10(7) == 10000000;
    assert Pow10(8) == 100000000;
    assert Pow10(9) == 1000000000;
    assert Pow10(10) == 10000000000;
    assert Pow10(11) == 100000000000;
    assert Pow10(12) == 1000000000000;
    assert Pow10(13) == 10000000000000;
    assert Pow10(14) == 100000000000000;
    assert Pow10(15) == 1000000000000000;
    assert Pow10(16) == 10000000000000000;
    assert Pow10(17) == 100000000000000000;
    assert Pow10(18) == 1000000000000000000;
    assert Pow10(19) == 10000000000000000000;
  }

  lemma BigBeforeFour(big: string)
    requires ThreeE19(big)
    ensures SmartCompare(big, "4") < 0
  {
    BigOverflows(big);
    DigitPrefixIs("4", 1);
    assert CompareTo(big, "4") == -1;
  }

  lemma FourBeforeHundred()
    ensures SmartCompare("4", "100") < 0
  {
    DigitPrefixIs("4", 1);
    DigitPrefixIs("100", 3);
    assert DigitsValue("4") == 4;
    assert "100"[..1] == "1" && "100"[..2] == "10" && "100"[..3] == "100";
    assert DigitsValue("100") == 100;
  }

  lemma HundredBeforeBig(big: string)
    requires ThreeE19(big)
    ensures SmartCompare("100", big) < 0
  {
    BigOverflows(big);
    DigitPrefixIs("100", 3);
    assert CompareTo("100", big) == -2;
  }

  /** The order is not transitive once a digit group does not fit in a long:
      such a group compares as a string, so 3 * 10^19 comes before "4"
      ('3' < '4'), "4" before "100" (by value), and "100" before 3 * 10^19
      ('1' < '3'). */
  lemma SmartCompareNotTransitive(big: string)
    requires ThreeE19(big)
    ensures SmartCompare(big, "4") < 0 && SmartCompare("4", "100") < 0 && SmartCompare("100", big) < 0
  {
    BigBeforeFour(big);
    FourBeforeHundred();
    HundredBeforeBig(big);
  }

  /** The cycle on the concrete strings "30000000000000000000", "4", "100". */
  lemma SmartCompareCycle()
    ensures var big := "30000000000000000000";
      SmartCompare(big, "4") < 0 && SmartCompare("4", "100") < 0 && SmartCompare("100", big) < 0
  {
    SmartCompareNotTransitive("30000000000000000000");
  }
}
