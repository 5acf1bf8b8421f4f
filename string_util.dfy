/**
 * Character-level helpers of StringUtil: emptiness and blankness, the equality
 * family, space stripping and trimming, line-break normalisation, single-line
 * clean-up, middle-ellipsis shrinking, HTML quoting, the Cyrillic-letter test
 * and the 64-bit polynomial hash. A Java `null` string is `None`.
 */
module StringUtil {
  import opened JavaLang

  type NullableString = Option<string>

  // ---------------------------------------------------------------- emptiness

  /** isEmpty: null or of length 0. */
  predicate IsEmpty(s: NullableString)
    ensures IsEmpty(s) ==> Blank(s)
  {
    s.None? || s.value == []
  }

  /** What isBlank promises: null, or every character is whitespace. */
  predicate Blank(s: NullableString)
  {
    s.None? || forall i :: 0 <= i < |s.value| ==> IsWhitespace(s.value[i])
  }

  /** isBlank scans the string from its last character down. */
  method IsBlank(s: NullableString) returns (b: bool)
    ensures b <==> Blank(s)
  {
    if s.None? || s.value == [] {
      return true;
    }
    var str := s.value;
    var charIndex := |str| - 1;
    while charIndex >= 0
      invariant -1 <= charIndex < |str|
      invariant forall i :: charIndex < i < |str| ==> IsWhitespace(str[i])
    {
      if !IsWhitespace(str[charIndex]) {
        return false;
      }
      charIndex := charIndex - 1;
    }
    return true;
  }

  /** isBlank is strictly weaker than isEmpty. */
  lemma BlankNotEmpty()
    ensures !Blank(Some("x")) && Blank(Some(" ")) && !IsEmpty(Some(" "))
  {
    assert Some("x").value[0] == 'x';
  }

  // ---------------------------------------------------------------- equality

  /** The value an empty string is identified with by the *OrEmpty comparisons. */
  function EmptyAsNull(s: NullableString): NullableString
  {
    if IsEmpty(s) then None else s
  }

  /** The value a blank string is identified with by the *OrBlank comparisons. */
  function BlankAsNull(s: NullableString): NullableString
  {
    if Blank(s) then None else s
  }

  /** Case folding of String.equalsIgnoreCase, restricted to ASCII letters. */
  function FoldCase(c: char): char
  {
    if 'a' <= c <= 'z' then (c as int - 32) as char else c
  }

  function FoldString(s: NullableString): NullableString
  {
    if s.None? then None else Some(seq(|s.value|, i requires 0 <= i < |s.value| => FoldCase(s.value[i])))
  }

  function Equals(a: NullableString, b: NullableString): (r: bool)
    ensures r <==> a == b
  {
    if a.None? then b.None? else b.Some? && a.value == b.value
  }

  function EqualsOrEmpty(a: NullableString, b: NullableString): (r: bool)
    ensures r <==> EmptyAsNull(a) == EmptyAsNull(b)
  {
    if IsEmpty(a) then IsEmpty(b) else Equals(a, b)
  }

  function EqualsOrBlank(a: NullableString, b: NullableString): (r: bool)
    ensures r <==> BlankAsNull(a) == BlankAsNull(b)
  {
    if Blank(a) then Blank(b) else Equals(a, b)
  }

  /** String.equalsIgnoreCase: same length, characters equal after folding. */
  function EqualsIgnoreCaseJava(a: string, b: NullableString): bool
  {
    b.Some? && |a| == |b.value| && forall i :: 0 <= i < |a| ==> FoldCase(a[i]) == FoldCase(b.value[i])
  }

  lemma FoldedEqual(a: string, b: NullableString)
    ensures EqualsIgnoreCaseJava(a, b) <==> FoldString(Some(a)) == FoldString(b)
  {
    if EqualsIgnoreCaseJava(a, b) {
      assert FoldString(Some(a)).value == FoldString(b).value;
    }
    if b.Some? && FoldString(Some(a)) == FoldString(b) {
      forall i | 0 <= i < |a|
        ensures FoldCase(a[i]) == FoldCase(b.value[i])
      {
        assert FoldString(Some(a)).value[i] == FoldString(b).value[i];
      }
    }
  }

  function EqualsIgnoreCase(a: NullableString, b: NullableString): (r: bool)
    ensures r <==> FoldString(a) == FoldString(b)
  {
    if a.None? then b.None? else FoldedEqual(a.value, b); EqualsIgnoreCaseJava(a.value, b)
  }

  function EqualsOrEmptyIgnoreCase(a: NullableString, b: NullableString): (r: bool)
    ensures r <==> FoldString(EmptyAsNull(a)) == FoldString(EmptyAsNull(b))
  {
    if IsEmpty(a) then IsEmpty(b) else FoldedEqual(a.value, b); EqualsIgnoreCaseJava(a.value, b)
  }

  function EqualsOrBlankIgnoreCase(a: NullableString, b: NullableString): (r: bool)
    ensures r <==> FoldString(BlankAsNull(a)) == FoldString(BlankAsNull(b))
  {
    if Blank(a) then Blank(b) else FoldedEqual(a.value, b); EqualsIgnoreCaseJava(a.value, b)
  }

  /** Each comparison of the family is coarser than the one before it. */
  lemma EqualityChain(a: NullableString, b: NullableString)
    ensures Equals(a, b) ==> EqualsOrEmpty(a, b)
    ensures EqualsOrEmpty(a, b) ==> EqualsOrBlank(a, b)
    ensures Equals(a, b) ==> EqualsIgnoreCase(a, b)
    ensures EqualsOrBlank(a, b) ==> EqualsOrBlankIgnoreCase(a, b)
  {
  }

  // ---------------------------------------------------------------- stripping

  /** The input with every ' ' removed and every other character kept in order. */
  function WithoutSpaces(s: string): (r: string)
    ensures |r| <= |s|
  {
    if s == [] then []
    else WithoutSpaces(s[..|s| - 1]) + (if s[|s| - 1] == ' ' then [] else [s[|s| - 1]])
  }

  lemma {:induction false} NoSpaceLeft(s: string)
    ensures ' ' !in WithoutSpaces(s)
  {
    if s != [] {
      NoSpaceLeft(s[..|s| - 1]);
    }
  }

  lemma {:induction false} WithoutSpacesAppend(a: string, b: string)
    ensures WithoutSpaces(a + b) == WithoutSpaces(a) + WithoutSpaces(b)
    decreases |b|
  {
    if b != [] {
      var b' := b[..|b| - 1];
      assert (a + b)[..|a + b| - 1] == a + b';
      WithoutSpacesAppend(a, b');
    } else {
      assert a + b == a;
    }
  }

  lemma {:induction false} WithoutSpacesKeepsOthers(s: string)
    ensures multiset(WithoutSpaces(s)) == multiset(s)[' ' := 0]
  {
    if s != [] {
      var p := s[..|s| - 1];
      var c := s[|s| - 1];
      WithoutSpacesKeepsOthers(p);
      assert s == p + [c];
      assert multiset(s) == multiset(p) + multiset{c};
    }
  }

  /** Removing spaces changes a text exactly when it has one. */
  lemma {:induction false} WithoutSpacesFixpoint(s: string)
    ensures WithoutSpaces(s) == s <==> ' ' !in s
  {
    if ' ' in s {
      NoSpaceLeft(s);
    } else if s != [] {
      var p := s[..|s| - 1];
      assert ' ' !in p;
      WithoutSpacesFixpoint(p);
      assert s == p + [s[|s| - 1]];
    }
  }

  method StripSpaces(s: NullableString) returns (r: NullableString)
    ensures s.None? ==> r.None?
    ensures s.Some? ==> r == Some(WithoutSpaces(s.value))
  {
    if s.None? {
      return None;
    }
    var str := s.value;
    var sb := "";
    for i := 0 to |str|
      invariant sb == WithoutSpaces(str[..i])
    {
      assert str[..i + 1][..i] == str[..i];
      if str[i] != ' ' {
        sb := sb + [str[i]];
      }
    }
    assert str[..|str|] == str;
    return Some(sb);
  }

  // ---------------------------------------------------------------- trimming

  /** trimRight: the result is TrimEnd(s), the longest prefix of s that is empty
      or ends above ' ' once only characters at or below ' ' follow it. */
  method TrimRight(s: string) returns (r: string)
    ensures r == TrimEnd(s)
  {
    var lastIndex := |s| - 1;
    var index := lastIndex;
    while index >= 0 && s[index] <= ' '
      invariant -1 <= index <= lastIndex
      invariant forall i :: index < i < |s| ==> s[i] <= ' '
    {
      index := index - 1;
    }
    assert TrimEnd(s) == s[..index + 1] by {
      TrimEndSkips(s, index + 1);
    }
    if index == lastIndex {
      r := s;
    } else {
      r := s[..index + 1];
    }
  }

  lemma {:induction false} TrimEndSkips(s: string, k: nat)
    requires k <= |s|
    requires forall i :: k <= i < |s| ==> s[i] <= ' '
    requires k > 0 ==> s[k - 1] > ' '
    ensures TrimEnd(s) == s[..k]
  {
    if k < |s| {
      var p := s[..|s| - 1];
      assert p[..k] == s[..k];
      TrimEndSkips(p, k);
    }
  }

  /** trimLeft: the mirror image of TrimRight. */
  method TrimLeft(s: string) returns (r: string)
    ensures r == TrimStart(s)
  {
    var lastIndex := |s| - 1;
    var index := 0;
    while index <= lastIndex && s[index] <= ' '
      invariant 0 <= index <= |s|
      invariant forall i :: 0 <= i < index ==> s[i] <= ' '
    {
      index := index + 1;
    }
    TrimStartSkips(s, index);
    if index == 0 {
      r := s;
    } else {
      r := s[index..lastIndex + 1];
    }
  }

  lemma {:induction false} TrimStartSkips(s: string, k: nat)
    requires k <= |s|
    requires forall i :: 0 <= i < k ==> s[i] <= ' '
    requires k < |s| ==> s[k] > ' '
    ensures TrimStart(s) == if k == 0 then s else s[k..|s|]
  {
    if k > 0 {
      var t := s[1..];
      TrimStartSkips(t, k - 1);
      assert TrimStart(s) == TrimStart(t);
      if k > 1 {
        assert t[k - 1..|t|] == s[k..|s|];
      } else {
        assert t == s[1..|s|];
      }
    }
  }

  /** Trimming leaves a string alone when its last (first) character is above
      ' ', and trimming twice is trimming once. */
  lemma TrimmedUnchanged(s: string)
    ensures s != [] && s[|s| - 1] > ' ' ==> TrimEnd(s) == s
    ensures s != [] && s[0] > ' ' ==> TrimStart(s) == s
    ensures TrimEnd(TrimEnd(s)) == TrimEnd(s)
    ensures TrimStart(TrimStart(s)) == TrimStart(s)
  {
    TrimStartFacts(s);
  }

  // ---------------------------------------------------------------- line breaks

  /** toWindowsLineBreaks: a '\r' goes before every '\n' that does not already
      follow one. */
  function WindowsLineBreaks(s: string): (r: string)
    ensures s == [] <==> r == []
    ensures s != [] ==> r[|r| - 1] == s[|s| - 1]
    ensures |r| >= |s|
  {
    if s == [] then []
    else
      var p := s[..|s| - 1];
      var c := s[|s| - 1];
      if c == '\n' && (p == [] || p[|p| - 1] != '\r') then WindowsLineBreaks(p) + "\r\n"
      else WindowsLineBreaks(p) + [c]
  }

  method ToWindowsLineBreaks(s: string) returns (r: string)
    ensures r == WindowsLineBreaks(s)
  {
    var sb := "";
    for i := 0 to |s|
      invariant sb == WindowsLineBreaks(s[..i])
    {
      assert s[..i + 1][..i] == s[..i];
      var c := s[i];
      if c == '\n' {
        if |sb| == 0 || sb[|sb| - 1] != '\r' {
          sb := sb + ['\r'];
        }
        sb := sb + ['\n'];
      } else {
        sb := sb + [c];
      }
    }
    assert s[..|s|] == s;
    r := sb;
  }

  /** Every '\n' is immediately preceded by '\r'. */
  predicate CrBeforeEveryLf(t: string)
  {
    forall i :: 0 <= i < |t| && t[i] == '\n' ==> i > 0 && t[i - 1] == '\r'
  }

  /** The text with every '\r' deleted. */
  function WithoutCr(s: string): string
  {
    if s == [] then [] else WithoutCr(s[..|s| - 1]) + (if s[|s| - 1] == '\r' then [] else [s[|s| - 1]])
  }

  /** After the conversion every '\n' follows a '\r'. */
  lemma {:induction false} WindowsLineBreaksCorrect(s: string)
    ensures CrBeforeEveryLf(WindowsLineBreaks(s))
  {
    if s != [] {
      var p := s[..|s| - 1];
      var c := s[|s| - 1];
      WindowsLineBreaksCorrect(p);
      var w := WindowsLineBreaks(p);
      if c == '\n' && (p == [] || p[|p| - 1] != '\r') {
        assert WindowsLineBreaks(s) == w + ['\r'] + ['\n'];
      } else {
        assert WindowsLineBreaks(s) == w + [c];
      }
    }
  }

  /** The conversion adds '\r's and nothing else. */
  lemma {:induction false} WindowsLineBreaksKeepsText(s: string)
    ensures WithoutCr(WindowsLineBreaks(s)) == WithoutCr(s)
  {
    if s != [] {
      var p := s[..|s| - 1];
      var c := s[|s| - 1];
      WindowsLineBreaksKeepsText(p);
      var w := WindowsLineBreaks(p);
      var kept := if c == '\r' then [] else [c];
      assert WithoutCr(s) == WithoutCr(p) + kept;
      if c == '\n' && (p == [] || p[|p| - 1] != '\r') {
        assert WindowsLineBreaks(s) == (w + ['\r']) + ['\n'];
        WithoutCrSnoc(w, '\r');
        assert WithoutCr(w + ['\r']) == WithoutCr(w);
        WithoutCrSnoc(w + ['\r'], '\n');
      } else {
        assert WindowsLineBreaks(s) == w + [c];
        WithoutCrSnoc(w, c);
      }
    }
  }

  lemma WithoutCrSnoc(w: string, c: char)
    ensures WithoutCr(w + [c]) == WithoutCr(w) + (if c == '\r' then [] else [c])
  {
    assert (w + [c])[..|w|] == w;
  }

  /** A text is left alone exactly when every '\n' in it already follows '\r'. */
  lemma {:induction false} WindowsLineBreaksFixpoint(t: string)
    ensures WindowsLineBreaks(t) == t <==> CrBeforeEveryLf(t)
  {
    if CrBeforeEveryLf(t) {
      FixpointOfCrBeforeEveryLf(t);
    } else {
      WindowsLineBreaksCorrect(t);
    }
  }

  lemma {:induction false} FixpointOfCrBeforeEveryLf(t: string)
    requires CrBeforeEveryLf(t)
    ensures WindowsLineBreaks(t) == t
  {
    if t != [] {
      var p := t[..|t| - 1];
      assert CrBeforeEveryLf(p);
      FixpointOfCrBeforeEveryLf(p);
      assert t == p + [t[|t| - 1]];
    }
  }

  lemma WindowsLineBreaksIdempotent(s: string)
    ensures WindowsLineBreaks(WindowsLineBreaks(s)) == WindowsLineBreaks(s)
  {
    WindowsLineBreaksCorrect(s);
    FixpointOfCrBeforeEveryLf(WindowsLineBreaks(s));
  }

  // ---------------------------------------------------------------- single line

  /** No character below ' ' and no two spaces in a row. */
  predicate SpacesCollapsed(t: string)
  {
    && (forall i :: 0 <= i < |t| ==> t[i] >= ' ')
    && (forall i :: 0 < i < |t| ==> !(t[i - 1] == ' ' && t[i] == ' '))
  }

  function ControlAsSpace(c: char): char
  {
    if c < ' ' then ' ' else c
  }

  /** The line with every control character replaced by a space. */
  function ControlsAsSpaces(line: string): (r: string)
    ensures |r| == |line|
    ensures forall i :: 0 <= i < |line| ==> r[i] == ControlAsSpace(line[i])
  {
    if line == [] then [] else ControlsAsSpaces(line[..|line| - 1]) + [ControlAsSpace(line[|line| - 1])]
  }

  /** The StringBuilder of wellformSingleLineForWindows before the final trim:
      control characters become spaces, and a space is dropped at the start or
      after another space. */
  function Collapsed(line: string): (r: string)
    ensures SpacesCollapsed(r)
    ensures r == [] || r[0] != ' '
  {
    if line == [] then []
    else
      var sb := Collapsed(line[..|line| - 1]);
      var c := ControlAsSpace(line[|line| - 1]);
      if (sb == [] || sb[|sb| - 1] == ' ') && c == ' ' then sb else sb + [c]
  }

  method WellformSingleLineForWindows(line: string) returns (r: string)
    ensures r == Trim(Collapsed(line))
  {
    var sb := "";
    for i := 0 to |line|
      invariant sb == Collapsed(line[..i])
    {
      assert line[..i + 1][..i] == line[..i];
      var c := line[i];
      if c < ' ' {
        c := ' ';
      }
      if (|sb| == 0 || sb[|sb| - 1] == ' ') && c == ' ' {
        continue;
      }
      sb := sb + [c];
    }
    assert line[..|line|] == line;
    r := Trim(sb);
  }

  /** The cleaned line has no control character, no double space and no space
      at either end. */
  lemma WellformedSingleLine(line: string)
    ensures var r := Trim(Collapsed(line));
      SpacesCollapsed(r) && (r == [] || (r[0] != ' ' && r[|r| - 1] != ' '))
  {
    var t := Collapsed(line);
    var r := Trim(t);
    assert SpacesCollapsed(r) by {
      var e := |TrimEnd(t)|;
      assert r == t[e - |r|..e];
      CollapsedSlice(t, e - |r|, e);
    }
    assert r == [] || (r[0] > ' ' && r[|r| - 1] > ' ');
  }

  lemma CollapsedSlice(t: string, k: nat, e: nat)
    requires k <= e <= |t| && SpacesCollapsed(t)
    ensures SpacesCollapsed(t[k..e])
  {
    var r := t[k..e];
    forall i | 0 < i < |r|
      ensures !(r[i - 1] == ' ' && r[i] == ' ')
    {
      assert r[i - 1] == t[k + i - 1] && r[i] == t[k + i];
    }
  }

  /** Cleaning keeps every character other than spaces and controls, in order. */
  lemma {:induction false} CollapsedKeepsText(line: string)
    ensures WithoutSpaces(Collapsed(line)) == WithoutSpaces(ControlsAsSpaces(line))
  {
    if line != [] {
      var p := line[..|line| - 1];
      var c := ControlAsSpace(line[|line| - 1]);
      var spaced := ControlsAsSpaces(line);
      CollapsedKeepsText(p);
      assert spaced[..|spaced| - 1] == ControlsAsSpaces(p);
      var sb := Collapsed(p);
      if !((sb == [] || sb[|sb| - 1] == ' ') && c == ' ') {
        assert (sb + [c])[..|sb|] == sb;
      }
    }
  }

  lemma TrimKeepsText(s: string)
    requires forall i :: 0 <= i < |s| ==> s[i] >= ' '
    ensures WithoutSpaces(Trim(s)) == WithoutSpaces(s)
  {
    var r := Trim(s);
    var e := |TrimEnd(s)|;
    var k := e - |r|;
    assert r == s[k..e];
    forall i | 0 <= i < k || e <= i < |s|
      ensures s[i] == ' '
    {
      OnlySpace(s[i]);
    }
    PaddingIsSpaces(s, k, e);
  }

  lemma OnlySpace(c: char)
    requires ' ' <= c <= ' '
    ensures c == ' '
  {
    assert c as int == ' ' as int;
  }

  lemma WithoutSpacesSplit(s: string, k: nat)
    requires k <= |s|
    ensures WithoutSpaces(s) == WithoutSpaces(s[..k]) + WithoutSpaces(s[k..])
  {
    assert s == s[..k] + s[k..];
    WithoutSpacesAppend(s[..k], s[k..]);
  }

  lemma DropSpacesPrefix(s: string, k: nat)
    requires k <= |s|
    requires forall i :: 0 <= i < k ==> s[i] == ' '
    ensures WithoutSpaces(s[k..]) == WithoutSpaces(s)
  {
    WithoutSpacesSplit(s, k);
    AllSpaces(s[..k]);
  }

  lemma DropSpacesSuffix(s: string, e: nat)
    requires e <= |s|
    requires forall i :: e <= i < |s| ==> s[i] == ' '
    ensures WithoutSpaces(s[..e]) == WithoutSpaces(s)
  {
    WithoutSpacesSplit(s, e);
    AllSpaces(s[e..]);
  }

  /** A text padded on both sides with nothing but spaces has the same
      non-space content as its middle. */
  lemma PaddingIsSpaces(s: string, k: nat, e: nat)
    requires k <= e <= |s|
    requires forall i :: 0 <= i < k ==> s[i] == ' '
    requires forall i :: e <= i < |s| ==> s[i] == ' '
    ensures WithoutSpaces(s[k..e]) == WithoutSpaces(s)
  {
    DropSpacesSuffix(s, e);
    DropSpacesPrefix(s[..e], k);
    assert s[..e][k..] == s[k..e];
  }

  lemma {:induction false} AllSpaces(s: string)
    requires forall i :: 0 <= i < |s| ==> s[i] == ' '
    ensures WithoutSpaces(s) == []
  {
    if s != [] {
      AllSpaces(s[..|s| - 1]);
    }
  }

  lemma WellformKeepsText(line: string)
    ensures WithoutSpaces(Trim(Collapsed(line)))
         == WithoutSpaces(ControlsAsSpaces(line))
  {
    CollapsedKeepsText(line);
    TrimKeepsText(Collapsed(line));
  }

  // ---------------------------------------------------------------- shrinking

  const MAX_LENGTH_MESSAGE := "Argument maxLength is expected to be at least 8."
  const MAX_LINE_COUNT_MESSAGE := "Argument maxLineCount is expected to be at least 8."

  /** shrinkTo: a string longer than maxLength keeps its first maxLength/2
      characters and a suffix, with "..." between, maxLength characters in all. */
  function ShrinkTo(s: NullableString, maxLength: Int32): (r: Result<NullableString, Exception>)
    ensures r.Err? <==> maxLength < 8
    ensures r.Err? ==> r.error == IllegalArgumentException(MAX_LENGTH_MESSAGE)
    ensures r.Ok? ==> (r.value.None? <==> s.None?)
    ensures r.Ok? && r.value.Some? ==> |r.value.value| <= maxLength
    ensures r.Ok? && s.Some? && |s.value| <= maxLength ==> r.value == s
    ensures r.Ok? && s.Some? && |s.value| > maxLength ==>
      var t := r.value.value; var p := maxLength / 2;
      && |t| == maxLength
      && t[..p] == s.value[..p]
      && t[p..p + 3] == "..."
      && t[p + 3..] == s.value[|s.value| - (maxLength - p - 3)..]
  {
    if maxLength < 8 then Err(IllegalArgumentException(MAX_LENGTH_MESSAGE))
    else if s.None? || |s.value| <= maxLength then Ok(s)
    else
      var prefixLength := maxLength / 2;
      var suffixLength := maxLength - prefixLength - 3;
      Ok(Some(s.value[..prefixLength] + "..." + s.value[|s.value| - suffixLength..]))
  }

  function ShrunkLine(line: NullableString, maxLineLength: Int32): NullableString
    requires maxLineLength >= 8
  {
    ShrinkTo(line, maxLineLength).value
  }

  /** shrinkLinesTo: with more than maxLineCount lines, keeps the first half,
      a "..." line and the last lines, maxLineCount lines in all; every kept
      line goes through shrinkTo. */
  method ShrinkLinesTo(lines: Option<seq<NullableString>>, maxLineLength: Int32, maxLineCount: Int32)
    returns (r: Result<Option<seq<NullableString>>, Exception>)
    ensures maxLineCount < 8 ==> r == Err(IllegalArgumentException(MAX_LINE_COUNT_MESSAGE))
    ensures maxLineCount >= 8 && lines.None? ==> r == Ok(None)
    ensures maxLineCount >= 8 && lines.Some? && |lines.value| > 0 && maxLineLength < 8 ==>
      r == Err(IllegalArgumentException(MAX_LENGTH_MESSAGE))
    ensures maxLineCount >= 8 && lines.Some? && (|lines.value| == 0 || maxLineLength >= 8) ==>
      r.Ok? && r.value.Some? && |r.value.value| <= maxLineCount
    ensures maxLineCount >= 8 && lines.Some? && maxLineLength >= 8 && |lines.value| <= maxLineCount ==>
      r.Ok? && r.value.Some? && |r.value.value| == |lines.value| &&
      forall i :: 0 <= i < |lines.value| ==> r.value.value[i] == ShrunkLine(lines.value[i], maxLineLength)
    ensures maxLineCount >= 8 && lines.Some? && maxLineLength >= 8 && |lines.value| > maxLineCount ==>
      var ls := lines.value; var half := maxLineCount / 2;
      && r.Ok? && r.value.Some? && |r.value.value| == maxLineCount
      && (forall i :: 0 <= i < half ==> r.value.value[i] == ShrunkLine(ls[i], maxLineLength))
      && r.value.value[half] == Some("...")
      && (forall i :: half < i < maxLineCount ==>
            r.value.value[i] == ShrunkLine(ls[|ls| - maxLineCount + i], maxLineLength))
  {
    if maxLineCount < 8 {
      return Err(IllegalArgumentException(MAX_LINE_COUNT_MESSAGE));
    }
    if lines.None? {
      return Ok(None);
    }
    var ls := lines.value;
    if |ls| > 0 && maxLineLength < 8 {
      // the first call of shrinkTo throws
      return Err(IllegalArgumentException(MAX_LENGTH_MESSAGE));
    }
    var result: seq<NullableString> := [];
    if |ls| <= maxLineCount {
      for lineIndex := 0 to |ls|
        invariant |result| == lineIndex
        invariant forall i :: 0 <= i < lineIndex ==> result[i] == ShrunkLine(ls[i], maxLineLength)
      {
        result := result + [ShrunkLine(ls[lineIndex], maxLineLength)];
      }
    } else {
      var prefixLineCount := maxLineCount / 2;
      var suffixLineCount := maxLineCount - prefixLineCount - 1;
      for lineIndex := 0 to prefixLineCount
        invariant |result| == lineIndex
        invariant forall i :: 0 <= i < lineIndex ==> result[i] == ShrunkLine(ls[i], maxLineLength)
      {
        result := result + [ShrunkLine(ls[lineIndex], maxLineLength)];
      }
      result := result + [Some("...")];
      for lineIndex := |ls| - suffixLineCount to |ls|
        invariant |result| == prefixLineCount + 1 + lineIndex - (|ls| - suffixLineCount)
        invariant forall i :: 0 <= i < prefixLineCount ==> result[i] == ShrunkLine(ls[i], maxLineLength)
        invariant result[prefixLineCount] == Some("...")
        invariant forall i :: prefixLineCount < i < |result| ==>
                    result[i] == ShrunkLine(ls[|ls| - maxLineCount + i], maxLineLength)
      {
        result := result + [ShrunkLine(ls[lineIndex], maxLineLength)];
      }
      assert |result| == maxLineCount;
    }
    return Ok(Some(result));
  }

  // ---------------------------------------------------------------- HTML

  /** Pattern.matcher(s).replaceAll(replacement) for a one-character pattern. */
  function ReplaceAll(s: string, c: char, replacement: string): string
  {
    if s == [] then []
    else ReplaceAll(s[..|s| - 1], c, replacement) + (if s[|s| - 1] == c then replacement else [s[|s| - 1]])
  }

  /** A replacement that does not contain `d` introduces no `d`. */
  lemma {:induction false} ReplaceAllAvoids(s: string, c: char, replacement: string, d: char)
    requires d !in replacement && (d == c || d !in s)
    ensures d !in ReplaceAll(s, c, replacement)
    decreases |s|
  {
    if s != [] {
      assert d != c ==> d !in s[..|s| - 1];
      ReplaceAllAvoids(s[..|s| - 1], c, replacement, d);
    }
  }

  /** quoteHtml: '&' first, then '<', then '>'. No '<' or '>' survives. */
  function QuoteHtml(html: string): (r: string)
    ensures '<' !in r && '>' !in r
  {
    var ampersands := ReplaceAll(html, '&', "&amp;");
    ReplaceAllAvoids(ampersands, '<', "&lt;", '<');
    ReplaceAllAvoids(ReplaceAll(ampersands, '<', "&lt;"), '>', "&gt;", '<');
    ReplaceAllAvoids(ReplaceAll(ampersands, '<', "&lt;"), '>', "&gt;", '>');
    ReplaceAll(ReplaceAll(ReplaceAll(html, '&', "&amp;"), '<', "&lt;"), '>', "&gt;")
  }

  function EscapeChar(c: char): string
  {
    if c == '&' then "&amp;" else if c == '<' then "&lt;" else if c == '>' then "&gt;" else [c]
  }

  /** The per-character reference definition of HTML quoting. */
  function Escaped(s: string): (r: string)
    ensures '<' !in r && '>' !in r
  {
    if s == [] then [] else Escaped(s[..|s| - 1]) + EscapeChar(s[|s| - 1])
  }

  lemma {:induction false} ReplaceAllAppend(a: string, b: string, c: char, replacement: string)
    ensures ReplaceAll(a + b, c, replacement) == ReplaceAll(a, c, replacement) + ReplaceAll(b, c, replacement)
    decreases |b|
  {
    if b == [] {
      assert a + b == a;
    } else {
      var b' := b[..|b| - 1];
      assert (a + b)[..|a + b| - 1] == a + b';
      ReplaceAllAppend(a, b', c, replacement);
    }
  }

  lemma QuoteHtmlAppend(a: string, b: string)
    ensures QuoteHtml(a + b) == QuoteHtml(a) + QuoteHtml(b)
  {
    var a1, b1 := ReplaceAll(a, '&', "&amp;"), ReplaceAll(b, '&', "&amp;");
    ReplaceAllAppend(a, b, '&', "&amp;");
    var a2, b2 := ReplaceAll(a1, '<', "&lt;"), ReplaceAll(b1, '<', "&lt;");
    ReplaceAllAppend(a1, b1, '<', "&lt;");
    ReplaceAllAppend(a2, b2, '>', "&gt;");
  }

  lemma ReplaceAllChar(x: char, c: char, replacement: string)
    ensures ReplaceAll([x], c, replacement) == if x == c then replacement else [x]
  {
    assert [x][..0] == [];
  }

  lemma {:induction false} ReplaceAllAbsent(s: string, c: char, replacement: string)
    requires c !in s
    ensures ReplaceAll(s, c, replacement) == s
  {
    if s != [] {
      ReplaceAllAbsent(s[..|s| - 1], c, replacement);
      assert s == s[..|s| - 1] + [s[|s| - 1]];
    }
  }

  lemma QuoteHtmlChar(x: char)
    ensures QuoteHtml([x]) == EscapeChar(x)
  {
    ReplaceAllChar(x, '&', "&amp;");
    if x == '&' {
      ReplaceAllAbsent("&amp;", '<', "&lt;");
      ReplaceAllAbsent("&amp;", '>', "&gt;");
    } else {
      ReplaceAllChar(x, '<', "&lt;");
      if x == '<' {
        ReplaceAllAbsent("&lt;", '>', "&gt;");
      } else {
        ReplaceAllChar(x, '>', "&gt;");
      }
    }
  }

  /** The three sequential passes of quoteHtml escape each character on its own:
      no replacement text contains a character a later pass looks for. */
  lemma {:induction false} QuoteHtmlPerCharacter(html: string)
    ensures QuoteHtml(html) == Escaped(html)
  {
    if html != [] {
      var p := html[..|html| - 1];
      var x := html[|html| - 1];
      assert html == p + [x];
      QuoteHtmlPerCharacter(p);
      QuoteHtmlAppend(p, [x]);
      QuoteHtmlChar(x);
    }
  }

  // ---------------------------------------------------------------- Cyrillic

  predicate IsRussianLetter(c: char)
  {
    ('а' <= c <= 'я') || ('А' <= c <= 'Я')
  }

  method ContainsRussianLetters(s: NullableString) returns (b: bool)
    ensures b <==> s.Some? && exists i :: 0 <= i < |s.value| && IsRussianLetter(s.value[i])
  {
    if s.None? {
      return false;
    }
    var str := s.value;
    for charIndex := 0 to |str|
      invariant forall i :: 0 <= i < charIndex ==> !IsRussianLetter(str[i])
    {
      if IsRussianLetter(str[charIndex]) {
        return true;
      }
    }
    return false;
  }

  // ---------------------------------------------------------------- hashing

  const HASH_SEED := 1171432692373
  const HASH_MULTIPLIER := 9369319
  const HASH_CHAR_FACTOR := 39916801
  const HASH_INCREMENT := 7561

  /** longHashCode as computed: every step wraps to 64 bits. */
  function LongHash(s: string): Int64
  {
    if s == [] then HASH_SEED
    else Wrap64(LongHash(s[..|s| - 1]) * HASH_MULTIPLIER + (s[|s| - 1] as int) * HASH_CHAR_FACTOR + HASH_INCREMENT)
  }

  /** The same recurrence over unbounded integers. */
  function Polynomial(s: string): int
  {
    if s == [] then HASH_SEED
    else Polynomial(s[..|s| - 1]) * HASH_MULTIPLIER + (s[|s| - 1] as int) * HASH_CHAR_FACTOR + HASH_INCREMENT
  }

  method LongHashCode(s: NullableString) returns (h: Int64)
    ensures s.None? ==> h == 0
    ensures s.Some? ==> h == LongHash(s.value)
  {
    if s.None? {
      return 0;
    }
    var str := s.value;
    var result: Int64 := HASH_SEED;
    for i := 0 to |str|
      invariant result == LongHash(str[..i])
    {
      assert str[..i + 1][..i] == str[..i];
      result := Wrap64(result * HASH_MULTIPLIER + (str[i] as int) * HASH_CHAR_FACTOR + HASH_INCREMENT);
    }
    assert str[..|str|] == str;
    return result;
  }

  lemma WrapStep(x: int, c: int)
    ensures Wrap64(Wrap64(x) * HASH_MULTIPLIER + c) == Wrap64(x * HASH_MULTIPLIER + c)
  {
    var M := 0x1_0000_0000_0000_0000;
    var H := 0x8000_0000_0000_0000;
    var q := (x + H) / M;
    assert Wrap64(x) == x - M * q;
    assert Wrap64(x) * HASH_MULTIPLIER + c == x * HASH_MULTIPLIER + c + M * (-q * HASH_MULTIPLIER);
    WrapModular(x * HASH_MULTIPLIER + c, -q * HASH_MULTIPLIER);
  }

  /** Wrapping at every step equals wrapping once at the end: longHashCode is
      the polynomial hash of the string modulo 2^64. */
  lemma {:induction false} LongHashIsPolynomialMod64(s: string)
    ensures LongHash(s) == Wrap64(Polynomial(s))
  {
    if s != [] {
      var p := s[..|s| - 1];
      LongHashIsPolynomialMod64(p);
      WrapStep(Polynomial(p), (s[|s| - 1] as int) * HASH_CHAR_FACTOR + HASH_INCREMENT);
    }
  }
}
