# codeforces-commons core, modelled in Dafny

This project models four parts of the codeforces-commons Java library and proves properties of them:

- **`LocalAndRemoteByteCache`.** A byte cache made of a local and a remote tier, each of which may be optional.
  - Reads go through the local tier, and a remote hit is written back into it.
  - Writes go to both tiers, local first.
  - Removals go to the remote tier first.
  - A uniform fault policy turns a missing or throwing tier into either a miss or an `IllegalStateException`.
- **The character-level helpers of `StringUtil`:**
  - emptiness and blankness;
  - the equality family;
  - space stripping and trimming;
  - line-break normalisation and single-line clean-up;
  - middle-ellipsis shrinking and HTML quoting;
  - the Cyrillic-letter test and the 64-bit polynomial hash;
  - the integer-list parser and formatter;
  - the "smart" comparator that orders digit groups by their numeric value.
- **`ThreadUtil.execute` with its `ExecutionStrategy`.** It retries an operation up to a number of attempts. It calls an optional handler after each failure and sleeps between attempts for a delay that is constant, linear or square in the attempt index.
- **The four `ArrayUtil.shuffle` overloads.** Each is an in-place Fisher-Yates shuffle.

The files and their modules:

| file | module | models |
|---|---|---|
| `java_lang.dfy` | `JavaLang` | The Java library behaviour the core relies on (see below). |
| `string_util.dfy` | `StringUtil` | The character-level helpers. |
| `integer_list.dfy` | `IntegerLists` | `parseIntegers` and `formatIntegers`. |
| `smart_compare.dfy` | `SmartComparison` | `compareStringsSmart`. |
| `thread_util.dfy` | `ThreadUtil` | `execute` and `ExecutionStrategy`. |
| `array_util.dfy` | `ArrayUtil` | The `shuffle` overloads. |
| `byte_cache.dfy` | `ByteCaches` | `LocalAndRemoteByteCache`. |

`JavaLang` covers these pieces of the Java library:

- `int` and `long` with their wrap-around;
- `Character.isWhitespace` and `Character.isDigit`;
- `String.trim`, `String.split` and `String.compareTo`;
- `Integer.parseInt`;
- the exceptions.

Modelling conventions:

- Java `null` is `None`.
- A thrown exception is the `Err` case of a `Result`.
- Code that works with loops and mutable builders becomes a `method` proved against a specification function.
- Where the source mutates state in place, so does the model:
  - the array in `shuffle`;
  - the two tiers of the cache, which are fields of a class.

The environment each operation cannot see becomes an explicit argument:

- **`shuffle`:** the values `Random.nextInt` returns, as a sequence.
- **`execute`:** the outcome of each attempt, as a function from the attempt index. The handler calls and the sleeps are returned as traces.
- **Cache operations:** whether each call into a tier throws, and what it throws. Each operation takes one `Option<Exception>` per tier call.

## Model

| member | source | states |
|---|---|---|
| StringUtil.IsBlank | code/src/main/java/com/codeforces/commons/text/StringUtil.java:51-63 | True iff the string is null or every character is whitespace. The backwards scan is proved against that predicate. |
| StringUtil.IsEmpty | code/src/main/java/com/codeforces/commons/text/StringUtil.java:43-45 | A string is empty when it is null or of length 0, and every empty string is blank. |
| StringUtil.BlankNotEmpty | code/src/main/java/com/codeforces/commons/text/StringUtil.java:43-63 | Blank is strictly weaker than empty: `" "` is blank but not empty, and `"x"` is not blank. |
| StringUtil.Equals | code/src/main/java/com/codeforces/commons/text/StringUtil.java:73-75 | Null-safe equality is exactly equality of the nullable values. |
| StringUtil.EqualsOrEmpty | code/src/main/java/com/codeforces/commons/text/StringUtil.java:85-87 | True iff the two values are equal once the empty string is identified with null. |
| StringUtil.EqualsOrBlank | code/src/main/java/com/codeforces/commons/text/StringUtil.java:97-99 | True iff the two values are equal once every blank string is identified with null. |
| StringUtil.FoldedEqual | code/src/main/java/com/codeforces/commons/text/StringUtil.java:109-111 | The character-wise `equalsIgnoreCase` holds iff the ASCII-case-folded strings are equal. |
| StringUtil.EqualsIgnoreCase | code/src/main/java/com/codeforces/commons/text/StringUtil.java:109-111 | True iff the ASCII-case-folded nullable values are equal. |
| StringUtil.EqualsOrEmptyIgnoreCase | code/src/main/java/com/codeforces/commons/text/StringUtil.java:121-123 | True iff the values are equal after identifying empty with null and folding ASCII case. |
| StringUtil.EqualsOrBlankIgnoreCase | code/src/main/java/com/codeforces/commons/text/StringUtil.java:133-135 | True iff the values are equal after identifying blank with null and folding ASCII case. |
| StringUtil.EqualityChain | code/src/main/java/com/codeforces/commons/text/StringUtil.java:73-135 | The comparisons form a chain of implications: `equals` ⇒ `equalsOrEmpty` ⇒ `equalsOrBlank` ⇒ `equalsOrBlankIgnoreCase`, and `equals` ⇒ `equalsIgnoreCase`. |
| StringUtil.StripSpaces | code/src/main/java/com/codeforces/commons/text/StringUtil.java:376-388 | Null maps to null. Otherwise the result is the input with every `' '` removed. |
| StringUtil.NoSpaceLeft | code/src/main/java/com/codeforces/commons/text/StringUtil.java:376-388 | The stripped string contains no `' '`. |
| StringUtil.WithoutSpacesAppend | code/src/main/java/com/codeforces/commons/text/StringUtil.java:376-388 | Stripping distributes over concatenation, so the other characters keep their order. |
| StringUtil.WithoutSpacesKeepsOthers | code/src/main/java/com/codeforces/commons/text/StringUtil.java:376-388 | The stripped string has the input's multiset of characters with the spaces taken out. |
| StringUtil.WithoutSpacesFixpoint | code/src/main/java/com/codeforces/commons/text/StringUtil.java:376-388 | Stripping leaves a string unchanged iff it has no space. |
| StringUtil.TrimRight | code/src/main/java/com/codeforces/commons/text/StringUtil.java:390-399 | The result is the longest prefix that is empty or ends above `' '`, and everything cut off is at most `' '`. It is proved against `TrimEnd`. |
| StringUtil.TrimLeft | code/src/main/java/com/codeforces/commons/text/StringUtil.java:401-410 | The mirror image of `TrimRight`: the suffix left after dropping the leading characters that are at most `' '`. |
| StringUtil.TrimEndSkips | code/src/main/java/com/codeforces/commons/text/StringUtil.java:390-399 | If the characters from k on are at most `' '` and the one before k is above it, the right-trimmed string is the prefix of length k. |
| StringUtil.TrimStartSkips | code/src/main/java/com/codeforces/commons/text/StringUtil.java:401-410 | If the characters before k are at most `' '` and the one at k is above it, the left-trimmed string is the suffix from k. |
| StringUtil.TrimmedUnchanged | code/src/main/java/com/codeforces/commons/text/StringUtil.java:390-410 | A string whose last (first) character is above `' '` is its own right (left) trim. Both trims are idempotent. |
| StringUtil.WindowsLineBreaks | code/src/main/java/com/codeforces/commons/text/StringUtil.java:551-565 | The converted text is empty iff the input is. It is no shorter than the input and ends with the same character. |
| StringUtil.ToWindowsLineBreaks | code/src/main/java/com/codeforces/commons/text/StringUtil.java:551-565 | The builder loop computes exactly the `WindowsLineBreaks` conversion. |
| StringUtil.WindowsLineBreaksCorrect | code/src/main/java/com/codeforces/commons/text/StringUtil.java:551-565 | In the result, every `'\n'` is immediately preceded by `'\r'`. |
| StringUtil.WindowsLineBreaksKeepsText | code/src/main/java/com/codeforces/commons/text/StringUtil.java:551-565 | Apart from `'\r'` characters, the result is the input. |
| StringUtil.WindowsLineBreaksFixpoint | code/src/main/java/com/codeforces/commons/text/StringUtil.java:551-565 | A text is left unchanged iff every `'\n'` in it already follows a `'\r'`. |
| StringUtil.WindowsLineBreaksIdempotent | code/src/main/java/com/codeforces/commons/text/StringUtil.java:551-565 | Converting twice is the same as converting once. |
| StringUtil.Collapsed | code/src/main/java/com/codeforces/commons/text/StringUtil.java:598-611 | After controls become spaces and runs of spaces collapse, no two spaces are adjacent and there is no leading space. |
| StringUtil.WellformSingleLineForWindows | code/src/main/java/com/codeforces/commons/text/StringUtil.java:598-613 | The loop computes `trim` of the collapsed line. |
| StringUtil.WellformedSingleLine | code/src/main/java/com/codeforces/commons/text/StringUtil.java:598-613 | The result has no two adjacent spaces and neither starts nor ends with a space. |
| StringUtil.CollapsedKeepsText | code/src/main/java/com/codeforces/commons/text/StringUtil.java:598-611 | Collapsing keeps every non-space character of the control-free line, in order. |
| StringUtil.TrimKeepsText | code/src/main/java/com/codeforces/commons/text/StringUtil.java:612 | On a line without control characters, `trim` removes only spaces. |
| StringUtil.WellformKeepsText | code/src/main/java/com/codeforces/commons/text/StringUtil.java:598-613 | The clean-up drops spaces only: every other character survives, in order, with controls turned into spaces. |
| StringUtil.ShrinkTo | code/src/main/java/com/codeforces/commons/text/StringUtil.java:642-654 | A `maxLength` below 8 gives IllegalArgumentException. Null stays null, and a short string is unchanged. A long string becomes its first `maxLength/2` characters, then `"..."`, then its last characters, exactly `maxLength` long. |
| StringUtil.ShrinkLinesTo | code/src/main/java/com/codeforces/commons/text/StringUtil.java:656-686 | The argument errors come in the source's order. With at most `maxLineCount` lines, every line is shrunk. Otherwise the result is the first half, a `"..."` line and the last lines, each shrunk, exactly `maxLineCount` lines. |
| StringUtil.QuoteHtml | code/src/main/java/com/codeforces/commons/text/StringUtil.java:524-529 | The three replace-alls, `&` first. The result contains no `<` and no `>`. |
| StringUtil.Escaped | code/src/main/java/com/codeforces/commons/text/StringUtil.java:524-529 | The per-character escaping leaves no `<` or `>`. |
| StringUtil.QuoteHtmlPerCharacter | code/src/main/java/com/codeforces/commons/text/StringUtil.java:524-529 | The three successive replace-alls equal per-character escaping of `&`, `<` and `>`. |
| StringUtil.QuoteHtmlAppend | code/src/main/java/com/codeforces/commons/text/StringUtil.java:524-529 | Quoting distributes over concatenation. |
| StringUtil.ContainsRussianLetters | code/src/main/java/com/codeforces/commons/text/StringUtil.java:716-729 | True iff the string is non-null and has a character in а..я or А..Я. |
| StringUtil.LongHashCode | code/src/main/java/com/codeforces/commons/text/StringUtil.java:900-910 | Null hashes to 0. Otherwise the loop computes the 64-bit recurrence `LongHash`. |
| StringUtil.LongHashIsPolynomialMod64 | code/src/main/java/com/codeforces/commons/text/StringUtil.java:900-910 | Wrapping at every step equals computing the polynomial over the integers and wrapping once to a signed 64-bit value. |
| IntegerLists.ParseIntegers | code/src/main/java/com/codeforces/commons/text/StringUtil.java:417-451 | The parser loop computes `ParseIntegersSpec`: null gives the empty set, and the comma-split trimmed tokens are added in turn. The first bad token ends the parse with its error. |
| IntegerLists.ParseToken | code/src/main/java/com/codeforces/commons/text/StringUtil.java:423-445 | A token adds nothing iff it is blank after `trim`. Every error is one of the three "Illegal ..." messages of the source. |
| IntegerLists.ParseParts | code/src/main/java/com/codeforces/commons/text/StringUtil.java:425-445 | A non-blank token yields a non-empty set or one of the three errors. |
| IntegerLists.AddToken | code/src/main/java/com/codeforces/commons/text/StringUtil.java:423-446 | One loop step adds the token's numbers to the set, or fails with the token's error. |
| IntegerLists.AddParts | code/src/main/java/com/codeforces/commons/text/StringUtil.java:425-445 | The `-`-split cases: one part is a number, two parts are a range with `from <= to`, and anything else is a syntax error. |
| IntegerLists.AddRange | code/src/main/java/com/codeforces/commons/text/StringUtil.java:437-439 | Adds exactly the integers from `from` to `to`. It also terminates when `to` is `Integer.MAX_VALUE`; see Findings. |
| IntegerLists.ErrorIsFinal | code/src/main/java/com/codeforces/commons/text/StringUtil.java:421-449 | Once a token fails, later tokens do not change the outcome. |
| IntegerLists.BlankTokensGiveEmptySet | code/src/main/java/com/codeforces/commons/text/StringUtil.java:424-425 | A list of blank tokens parses to the empty set. |
| IntegerLists.RangeLoopNeverExitsAtMaxValue | code/src/main/java/com/codeforces/commons/text/StringUtil.java:437-439 | As written in Java, the `int` loop `i <= to` never exits when `to == Integer.MAX_VALUE`, whatever the number of steps. |
| IntegerLists.RangeLoopExitsBelowMaxValue | code/src/main/java/com/codeforces/commons/text/StringUtil.java:437-439 | Below `Integer.MAX_VALUE`, the Java loop exits after exactly `to - from + 1` steps. |
| IntegerLists.FormatIntegers | code/src/main/java/com/codeforces/commons/text/StringUtil.java:473-518 | The loop over the ascending numbers computes the join of the maximal runs. Each run is written `start` or `start-end`, joined by the item separator. The result is empty iff the set is. |
| IntegerLists.AscendingSorted | code/src/main/java/com/codeforces/commons/text/StringUtil.java:486 | The iteration order is strictly ascending and has exactly the set's elements. |
| IntegerLists.RunsOrdered | code/src/main/java/com/codeforces/commons/text/StringUtil.java:486-515 | Every run starts at or after the first number and is non-decreasing. |
| IntegerLists.RunsAreMaximal | code/src/main/java/com/codeforces/commons/text/StringUtil.java:489-500 | Consecutive runs are separated by a gap of at least one missing integer, so runs are maximal. |
| IntegerLists.RunsCover | code/src/main/java/com/codeforces/commons/text/StringUtil.java:486-515 | The runs cover exactly the numbers they came from. |
| IntegerLists.TokenRoundTrip | code/src/main/java/com/codeforces/commons/text/StringUtil.java:423-439 | A formatted non-negative run parses back to the integers it covers. |
| IntegerLists.SplitJoin | code/src/main/java/com/codeforces/commons/text/StringUtil.java:421 | Splitting the formatted list on commas gives back one piece per run. |
| IntegerLists.ParsePieces | code/src/main/java/com/codeforces/commons/text/StringUtil.java:421-447 | Parsing the pieces of non-negative runs gives the union of the runs. |
| IntegerLists.FormatThenParse | code/src/main/java/com/codeforces/commons/text/StringUtil.java:417-518 | For every set of non-negative integers, `parseIntegers(formatIntegers(S)) == S`. |
| IntegerLists.RangeListParses | code/src/main/java/com/codeforces/commons/text/StringUtil.java:430-439 | The text `a-b` parses to [a, b] when a <= b, and otherwise to the "Illegal range" error. |
| SmartComparison.CompareStringsSmart | code/src/main/java/com/codeforces/commons/text/StringUtil.java:794-880 | The two-offset loop computes `SmartCompare`. Outside digits, characters compare by code. Digit groups compare by numeric value, or by `compareTo` when they overflow a long. |
| SmartComparison.DecideGroups | code/src/main/java/com/codeforces/commons/text/StringUtil.java:842-877 | The parse-and-compare block decides iff the two digit groups differ, and then gives a non-zero sign. |
| SmartComparison.AppendDigits | code/src/main/java/com/codeforces/commons/text/StringUtil.java:824-832 | The digit loop collects exactly the maximal digit run at the offset. |
| SmartComparison.DigitPrefix | code/src/main/java/com/codeforces/commons/text/StringUtil.java:824-832 | The digit group is a prefix made of digits, followed by the end or a non-digit. |
| SmartComparison.CompareGroupsNoneIff | code/src/main/java/com/codeforces/commons/text/StringUtil.java:842-877 | Two groups leave the comparison undecided iff they are the same digits. A decision is never 0. |
| SmartComparison.CompareGroupsAntisymmetric | code/src/main/java/com/codeforces/commons/text/StringUtil.java:842-877 | Swapping the groups negates the decision. |
| SmartComparison.SmartCompareZeroIff | code/src/main/java/com/codeforces/commons/text/StringUtil.java:794-880 | The model's comparator, whose digits are ASCII only, returns 0 iff the strings are equal. The source's comparator does not have this property (see "## Left out"). |
| SmartComparison.SmartCompareAntisymmetric | code/src/main/java/com/codeforces/commons/text/StringUtil.java:794-880 | `compare(a, b) == -compare(b, a)`. |
| SmartComparison.SmartCompareNotTransitive | code/src/main/java/com/codeforces/commons/text/StringUtil.java:842-878 | The order is not transitive. A group of 3 followed by nineteen zeros (3 * 10^19) does not fit in a long, so it is compared as a string: it comes before "4" because '3' < '4'. "4" comes before "100" by value. "100" comes before the big group because '1' < '3'. |
| SmartComparison.SmartCompareCycle | code/src/main/java/com/codeforces/commons/text/StringUtil.java:842-878 | The same cycle on the concrete strings "30000000000000000000", "4" and "100". |
| SmartComparison.NumbersCompareByValue | code/src/main/java/com/codeforces/commons/text/StringUtil.java:794-880 | After a common digit-free prefix, numbers up to `Long.MAX_VALUE` compare by numeric value: -1, 0 or 1. |
| SmartComparison.TwoBeforeTen | code/src/main/java/com/codeforces/commons/text/StringUtil.java:794-880 | `"a2"` sorts before `"a10"`. |
| ThreadUtil.NewExecutionStrategy | code/src/main/java/com/codeforces/commons/process/ThreadUtil.java:113-133 | Construction succeeds iff `delayTimeMillis >= 1` and the type is non-null, checked in that order with the source's messages. |
| ThreadUtil.GetDelayTimeMillis | code/src/main/java/com/codeforces/commons/process/ThreadUtil.java:143-158 | It fails iff the attempt index is below 1, with the "attemptNumber" message. Otherwise it is the constant, linear or square delay wrapped to a long, as Java's long multiplication wraps. |
| ThreadUtil.DelayIsIdeal | code/src/main/java/com/codeforces/commons/process/ThreadUtil.java:143-158 | Without overflow, the delay is `d`, `d*i` or `d*i*i` for CONSTANT, LINEAR and SQUARE. |
| ThreadUtil.DelayGrows | code/src/main/java/com/codeforces/commons/process/ThreadUtil.java:143-158 | Without overflow, every delay is at least the base delay and is monotone in the attempt index. |
| ThreadUtil.DelayWrapsAround | code/src/main/java/com/codeforces/commons/process/ThreadUtil.java:152 | The long product does wrap: base delay 2^62, LINEAR, attempt 2 gives `Long.MIN_VALUE`. |
| ThreadUtil.ArgumentsError | code/src/main/java/com/codeforces/commons/process/ThreadUtil.java:83-95 | `execute` rejects nothing iff the operation and the strategy are non-null and `attemptCount >= 1`. |
| ThreadUtil.LastAttemptIsFirstEnd | code/src/main/java/com/codeforces/commons/process/ThreadUtil.java:58-76 | The run ends at the first attempt that succeeds or whose unsuccess handler throws, or else at the last allowed attempt. Every attempt before it failed, and its handler returned normally. |
| ThreadUtil.Outcome | code/src/main/java/com/codeforces/commons/process/ThreadUtil.java:58-76 | The ending attempt returns its value when it succeeded. Otherwise it throws the handler's exception if the handler threw, and its own exception if not. |
| ThreadUtil.Execute | code/src/main/java/com/codeforces/commons/process/ThreadUtil.java:55-81 | Argument errors come first, with empty traces. Otherwise the outcome is that of the ending attempt, and a throwing handler ends the run with its own exception. The handler is called with 1..k for the k failures, including the one whose handler threw. The sleeps are `getDelayTimeMillis(1..n-1)`, one before every attempt but the first. The fall-through is unreachable. |
| ThreadUtil.ExecuteOutcome | code/src/main/java/com/codeforces/commons/process/ThreadUtil.java:58-78 | At most `attemptCount` attempts run. Every earlier attempt failed and its handler returned normally. An operation exception escapes only from the last attempt. Fewer sleeps happen than attempts. |
| ArrayUtil.Shuffle | code/src/main/java/com/codeforces/commons/collection/ArrayUtil.java:14-24 | Null asks for no draws. Otherwise the array becomes the specification `Shuffled` of its old contents, and the bounds asked of the generator are `count, count-1, ..., 2`. |
| ArrayUtil.ShuffleDoubles | code/src/main/java/com/codeforces/commons/collection/ArrayUtil.java:26-36 | The same contract for `double[]`. |
| ArrayUtil.ShuffleInts | code/src/main/java/com/codeforces/commons/collection/ArrayUtil.java:38-48 | The same contract for `int[]`. |
| ArrayUtil.ShuffleLongs | code/src/main/java/com/codeforces/commons/collection/ArrayUtil.java:50-60 | The same contract for `long[]`. |
| ArrayUtil.Bounds | code/src/main/java/com/codeforces/commons/collection/ArrayUtil.java:17-18 | The k-th draw is requested with bound `count - k`, which is `index + 1`. |
| ArrayUtil.ShuffledPermutes | code/src/main/java/com/codeforces/commons/collection/ArrayUtil.java:17-22 | The shuffled array has the same length and the same multiset of elements. |
| ArrayUtil.ShuffleDownKeepsAbove | code/src/main/java/com/codeforces/commons/collection/ArrayUtil.java:17-21 | Once the step at `index` is done, cells above it are never written again. |
| ArrayUtil.ShuffledLast | code/src/main/java/com/codeforces/commons/collection/ArrayUtil.java:17-21 | The last cell ends up holding the element the first draw picked. |
| ArrayUtil.ShuffledIdentity | code/src/main/java/com/codeforces/commons/collection/ArrayUtil.java:17-21 | If every draw equals its index, every swap is a no-op and the array is unchanged. |
| ByteCaches.InternalValidate | code/src/main/java/com/codeforces/commons/cache/util/LocalAndRemoteByteCache.java:41-43 | An optional tier always passes. A mandatory tier that passes is present and valid itself. |
| ByteCaches.InternalContains | code/src/main/java/com/codeforces/commons/cache/util/LocalAndRemoteByteCache.java:67-90 | True iff the tier is reachable and holds the key. It fails iff the tier is mandatory and missing or throwing, with the wrapped `IllegalStateException`. |
| ByteCaches.InternalGet | code/src/main/java/com/codeforces/commons/cache/util/LocalAndRemoteByteCache.java:195-219 | A value iff the tier is reachable and holds the key, and then the stored bytes. Failure follows the same rule. |
| ByteCaches.InternalPut | code/src/main/java/com/codeforces/commons/cache/util/LocalAndRemoteByteCache.java:98-131 | A reachable tier stores the entry. Every other key keeps its entry, and the tier keeps its validity and closed flag. An unreachable optional tier is untouched. A mandatory one fails. |
| ByteCaches.InternalPutIfAbsent | code/src/main/java/com/codeforces/commons/cache/util/LocalAndRemoteByteCache.java:139-172 | A reachable tier gains the entry only if it lacks the key. Otherwise the tier is unchanged, with the same failure rule. |
| ByteCaches.InternalRemove | code/src/main/java/com/codeforces/commons/cache/util/LocalAndRemoteByteCache.java:228-244 | It reports true iff the tier is reachable and held the key. The key is gone afterwards. Every other key keeps its entry, and the tier keeps its validity and closed flag. |
| ByteCaches.Invalid | code/src/main/java/com/codeforces/commons/cache/util/LocalAndRemoteByteCache.java:77-85 | A mandatory failure is `IllegalStateException("ByteCache is invalid.")`. It wraps what the tier threw, or, for a null tier, a second such exception. |
| ByteCaches.Direct | code/src/main/java/com/codeforces/commons/cache/util/LocalAndRemoteByteCache.java:247-262 | Without the fault policy, a null tier is a NullPointerException and a tier's own exception escapes as it is. |
| ByteCaches.WithoutSection | code/src/main/java/com/codeforces/commons/cache/util/LocalAndRemoteByteCache.java:247-250 | Clearing a section keeps exactly the entries of the other sections. |
| ByteCaches.LocalAndRemoteByteCache.Validate | code/src/main/java/com/codeforces/commons/cache/util/LocalAndRemoteByteCache.java:36-39 | Both tiers pass internalValidate. In a cache that validates, no mandatory tier is null. A cache with two optional tiers always validates. Every mutating method keeps the result of validate unchanged. |
| ByteCaches.LocalAndRemoteByteCache.constructor | code/src/main/java/com/codeforces/commons/cache/util/LocalAndRemoteByteCache.java:25-34 | Stores the tiers and their optionality; the result validates. |
| ByteCaches.LocalAndRemoteByteCache.Create | code/src/main/java/com/codeforces/commons/cache/util/LocalAndRemoteByteCache.java:21-43 | Construction succeeds iff each tier is optional, or present and valid. Otherwise it fails with IllegalArgumentException("Can't validate cache."). |
| ByteCaches.LocalAndRemoteByteCache.Contains | code/src/main/java/com/codeforces/commons/cache/util/LocalAndRemoteByteCache.java:46-65 | A local hit answers true without touching anything. On a local miss, a remote get decides, and a remote value is backfilled locally. The remote tier is never written. Without faults, true iff either tier holds the key, and afterwards the local one does. |
| ByteCaches.LocalAndRemoteByteCache.Get | code/src/main/java/com/codeforces/commons/cache/util/LocalAndRemoteByteCache.java:174-193 | A local hit returns the local value and changes nothing. On a local miss it returns the remote value and backfills it, or leaves the local tier unchanged when the remote has none. The remote tier is never written. |
| ByteCaches.LocalAndRemoteByteCache.PutEntry | code/src/main/java/com/codeforces/commons/cache/util/LocalAndRemoteByteCache.java:92-131 | Writes the local tier first. A mandatory local failure stops before the remote tier; otherwise the remote tier is written next. |
| ByteCaches.LocalAndRemoteByteCache.Put | code/src/main/java/com/codeforces/commons/cache/util/LocalAndRemoteByteCache.java:92-96 | The same outcome and new state as PutEntry for `Entry(value, no lifetime)`, in every fault case. For example, a missing optional local tier is skipped and the remote tier is still written. Without faults, both tiers hold the value under the key with no lifetime, and every other entry is unchanged. Failure requires a mandatory tier that is missing or throwing. |
| ByteCaches.LocalAndRemoteByteCache.PutWithLifetime | code/src/main/java/com/codeforces/commons/cache/util/LocalAndRemoteByteCache.java:112-116 | The same outcome and new state as PutEntry for `Entry(value, Some(lifetimeMillis))`, in every fault case. The lifetime reaches both tiers unchanged. |
| ByteCaches.LocalAndRemoteByteCache.PutEntryIfAbsent | code/src/main/java/com/codeforces/commons/cache/util/LocalAndRemoteByteCache.java:133-172 | Local first, then remote. Each tier decides on its own. |
| ByteCaches.LocalAndRemoteByteCache.PutIfAbsent | code/src/main/java/com/codeforces/commons/cache/util/LocalAndRemoteByteCache.java:133-137 | The same outcome and new state as PutEntryIfAbsent for `Entry(value, no lifetime)`, in every fault case. Without faults, each tier keeps its own earlier entry or gains the new one, independently. The tiers can therefore end up holding different values. |
| ByteCaches.LocalAndRemoteByteCache.PutIfAbsentWithLifetime | code/src/main/java/com/codeforces/commons/cache/util/LocalAndRemoteByteCache.java:153-157 | The same outcome and new state as PutEntryIfAbsent for `Entry(value, Some(lifetimeMillis))`, in every fault case. |
| ByteCaches.LocalAndRemoteByteCache.Remove | code/src/main/java/com/codeforces/commons/cache/util/LocalAndRemoteByteCache.java:221-226 | Removes from the remote tier, then the local one, and returns the OR of the two reports. Without faults, true iff either tier held the key, and neither holds it afterwards. |
| ByteCaches.LocalAndRemoteByteCache.ClearSection | code/src/main/java/com/codeforces/commons/cache/util/LocalAndRemoteByteCache.java:246-250 | Remote, then local, with no fault policy. A null or throwing tier fails the call even when optional, and the local tier is untouched if the remote one failed. |
| ByteCaches.LocalAndRemoteByteCache.Clear | code/src/main/java/com/codeforces/commons/cache/util/LocalAndRemoteByteCache.java:252-256 | The same order and failure rule. Each reached tier is emptied. |
| ByteCaches.LocalAndRemoteByteCache.Close | code/src/main/java/com/codeforces/commons/cache/util/LocalAndRemoteByteCache.java:258-262 | The same order and failure rule. Each reached tier is marked closed. |

Two consequences of the cache's code that the model keeps:

- **A null mandatory tier.** The `IllegalStateException("ByteCache is invalid.")` is thrown inside the guarded block. The `catch` of that same block then wraps it in a second `IllegalStateException` with the same message (`ByteCaches.Invalid`). The constructor refuses a null mandatory tier, and the tier fields are final. So a cache that validates never takes this path (`ByteCaches.LocalAndRemoteByteCache.Validate`).
- **The `get` and `contains` backfill.** The remote value is copied into the local tier through `internalPut`. When the local tier is mandatory and that call throws, `get` and `contains` fail with the wrapped exception instead of returning the remote value.

## Left out

- Reflection-based `toString`, `getDeepValue`, `fieldToString` and `valueToString` are not modelled, and neither is the field cache. They rely on Java reflection and a concurrent map.
- `sha1*`, `subscribe` and `unsubscribe` are not modelled: they are foreign calls into message digests, Base64/Hex codecs and a properties lookup.
- `convertFileToLinuxStyle` is file I/O.
- The regex-driven `formatComments`, `wellformForWindows` and `cropLines` are not modelled. `quoteHtml` is modelled as three single-character replace-alls.
- `sortStringsSmart` is not modelled: it is a library sort around the comparator.
- The thread-creation helpers of `ThreadUtil` and all logging are not modelled.
- `Character.isDigit` is modelled on the ASCII digits only. The source's `Character.isDigit` also accepts the other Unicode decimal digits, which `Long.parseLong` parses too.
- SmartComparison.DigitPrefix: recognises ASCII digit groups only. The source also groups the other Unicode decimal digits, such as '١' or '１'.
- SmartComparison.AppendDigits: collects ASCII digits only, as SmartComparison.DigitPrefix does.
- SmartComparison.CompareStringsSmart: groups ASCII digits only. For `"a١٢"` against `"a٣"` the source compares 12 with 3 and returns 1, while the model compares two non-digit characters and returns -2.
- SmartComparison.SmartCompareZeroIff: holds of the model only, because its digits are ASCII. In the source, `compareStringsSmart("１", "1")` returns 0 for these two different strings, the first being the fullwidth digit one: both groups parse to 1 and have the same length. A sort or sorted map using the comparator then treats the two strings as one key.
- IntegerLists.ParseToken: inherits the ASCII-only JavaLang.ParseInt. The token "١٢" is an "Illegal number" error here and {12} in the source.
- IntegerLists.ParseParts: the same ASCII-only number parse as IntegerLists.ParseToken.
- IntegerLists.AddToken: the same ASCII-only number parse as IntegerLists.ParseToken.
- IntegerLists.AddParts: the same ASCII-only number parse as IntegerLists.ParseToken.
- JavaLang.ParseInt: accepts ASCII digits only. `Integer.parseInt` accepts any Unicode decimal digit, for example the Arabic-Indic digits of "١٢", which it reads as 12.
- IntegerLists.ParseIntegers: because of JavaLang.ParseInt, a token written in non-ASCII decimal digits gives the "Illegal number" error here. The source accepts it: `parseIntegers("١٢")` returns {12}.
- `String.equalsIgnoreCase` is modelled with ASCII case folding only.
- StringUtil.FoldedEqual: folds ASCII letters only. `String.equalsIgnoreCase` also folds every other letter, so `"п".equalsIgnoreCase("П")` is true in the source.
- StringUtil.EqualsIgnoreCase: inherits the ASCII-only folding. `EqualsIgnoreCase(Some("п"), Some("П"))` is false here, while the source returns true.
- StringUtil.EqualsOrEmptyIgnoreCase: the same ASCII-only folding.
- StringUtil.EqualsOrBlankIgnoreCase: the same ASCII-only folding.
- Strings are sequences of Unicode code points, not of UTF-16 code units as a Java `String` is. A character outside the Basic Multilingual Plane is one element here and two `char`s in Java, and a lone surrogate cannot be represented. The members below therefore differ from the source on such characters:
- JavaLang.CompareTo: compares code points. `String.compareTo` compares UTF-16 units, so it ranks `"\uFFFF"` above `"😀"` (0xFFFF > 0xD83D), while the model ranks it below (0xFFFF < 0x1F600).
- SmartComparison.CompareStringsSmart: inherits the code-point order of JavaLang.CompareTo, and its character-by-character walk steps over code points.
- StringUtil.LongHash: takes one step per code point. Java's `longHashCode` takes one step per UTF-16 unit, so the hash of a supplementary character differs. For example, Java hashes 😀 as the two steps 0xD83D and 0xDE00, and the model as the one step 0x1F600.
- StringUtil.LongHashCode: the same difference as StringUtil.LongHash.
- StringUtil.ShrinkTo: measures the length and the cut points in code points. Java measures them in UTF-16 units and can split a surrogate pair.
- StringUtil.ShrinkLinesTo: shrinks each line by its code-point length, as StringUtil.ShrinkTo does.
- SmartComparison.SmartCompare: the smart order is not transitive once a digit group does not fit in a long (`SmartCompareNotTransitive`). `sortStringsSmart` hands this comparator to the library sort, which is not modelled. So the sorted order of such strings may depend on their input order, and the sort may reject the comparator. The order is transitive neither in the model nor in the source. The model proves antisymmetry for all strings, and zero-iff-equal for its ASCII-digit comparator only (see SmartComparison.SmartCompareZeroIff above).
- IntegerLists.FormatThenParse: the round trip is proved for sets of non-negative integers only. A negative number such as -1 is written `-1`, which `parseIntegers` splits on `-` and rejects.
- IntegerLists.FormatIntegers: the input is a set in natural order. A `SortedSet` with another comparator, and arbitrary separators in the round trip, are not modelled.
- ThreadUtil.Execute: `Thread.sleep` is recorded, not performed, so two JDK behaviours are not modelled:
  - Rejecting a negative delay with IllegalArgumentException. This is reachable only after the long overflow shown by `DelayWrapsAround`.
  - An interrupt, which the source ignores.
- ArrayUtil.Shuffle: the generator is the sequence of values its `nextInt` calls return, so a null `random` cannot be expressed. In the source, every `shuffle` overload throws NullPointerException at the first `nextInt` call when `random` is null and the array has more than one element. The same holds for ArrayUtil.ShuffleDoubles, ArrayUtil.ShuffleInts and ArrayUtil.ShuffleLongs.
- ThreadUtil.Execute: the unsuccess handler is an oracle from the attempt index to the exception it throws, if any. A handler that throws ends `execute` with that exception, as the model shows.
- ThreadUtil.Execute: the operation is an oracle from the attempt index to its outcome. `Throwable`s that are not exceptions are treated like exceptions.
- ByteCaches: the concrete tiers are not modelled: their expiry, eviction and thread safety. The lifetime is stored with the entry but never expires.
- ByteCaches: a tier call that throws is taken to leave that tier's contents unchanged.
- ByteCaches: the local and remote tiers are values, so aliasing (the same cache object passed as both tiers) is not modelled.
- ByteCaches: concurrent calls are not modelled.
- ByteCaches.LocalAndRemoteByteCache.Validate: the tiers' own `validate()` is a stored flag.

## Findings

| source | as written | input that shows it | evidently intended | confidence | as-written member | corrected member |
|---|---|---|---|---|---|---|
| code/src/main/java/com/codeforces/commons/text/StringUtil.java:437-439 | `for (int i = from; i <= to; i++)` on Java `int`: when `to == Integer.MAX_VALUE` the increment wraps to `Integer.MIN_VALUE` and `i <= to` stays true, so the loop never ends. | `parseIntegers("0-2147483647")`, or any range ending at 2147483647 | Add every integer of [from, to] and stop. | not executed | IntegerLists.RangeLoopNeverExitsAtMaxValue | IntegerLists.AddRange |
