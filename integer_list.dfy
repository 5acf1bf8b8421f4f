/**
 * StringUtil.parseIntegers and StringUtil.formatIntegers: a comma-separated
 * list of integers and inclusive ranges `a-b`, read into a set and written
 * back as the maximal runs of consecutive integers in ascending order.
 */
module IntegerLists {
  import opened JavaLang

  /** A run of consecutive integers, first and last inclusive. */
  type Run = (Int32, Int32)

  function NumberError(s: string): Exception
  {
    IllegalArgumentException("Illegal number in integer list: '" + s + "'.")
  }

  function RangeError(s: string): Exception
  {
    IllegalArgumentException("Illegal range in integer list: '" + s + "'.")
  }

  function SyntaxError(s: string): Exception
  {
    IllegalArgumentException("Illegal syntax in integer list: '" + s + "'.")
  }

  /** Range membership, named so that quantifiers over a range have a trigger. */
  predicate Between(from: int, i: int, last: int)
  {
    from <= i <= last
  }

  /** The integers from `from` to `last`, both included. */
  function Range(from: int, last: int): set<Int32>
  {
    set i: Int32 | Between(from, i, last)
  }

  lemma RangeGrows(from: int, last: Int32)
    requires from <= last
    ensures Range(from, last) == Range(from, last - 1) + {last}
  {
    forall i: Int32
      ensures i in Range(from, last) <==> i in Range(from, last - 1) + {last}
    {
    }
  }

  // ---------------------------------------------------------------------------
  // parseIntegers
  // ---------------------------------------------------------------------------

  /** Integer.parseInt on one part of a token; a NumberFormatException becomes
      the list's "Illegal number" exception. */
  function ParseNumber(s: string, text: string): (r: Result<Int32, Exception>)
    ensures r.Err? ==> r.error == NumberError(s)
  {
    match ParseInt(text)
    case None => Err(NumberError(s))
    case Some(v) => Ok(v)
  }

  /** A non-blank token split on '-': one part is a number, two parts a range.
      ParseToken and ParseParts say what a token contributes as a value; the
      methods AddToken and AddParts below are the loop body that adds it to
      the set step by step, and are proved to agree with them. */
  function ParseParts(s: string, parts: seq<string>): (r: Result<set<Int32>, Exception>)
    ensures r.Err? ==> r.error == NumberError(s) || r.error == RangeError(s) || r.error == SyntaxError(s)
    ensures r.Ok? ==> r.value != {}
  {
    if |parts| == 1 then
      match ParseNumber(s, parts[0])
      case Err(e) => Err(e)
      case Ok(v) => Ok({v})
    else if |parts| == 2 then
      match ParseNumber(s, parts[0])
      case Err(e) => Err(e)
      case Ok(from) =>
        match ParseNumber(s, parts[1])
        case Err(e) => Err(e)
        case Ok(last) =>
          if from > last then Err(RangeError(s))
          else assert from in Range(from, last); Ok(Range(from, last))
    else Err(SyntaxError(s))
  }

  /** What one comma-separated token adds to the set, or the exception it raises.
      `s` is the whole input, which every message quotes. */
  function ParseToken(s: string, token: string): (r: Result<set<Int32>, Exception>)
    ensures r.Err? ==> r.error == NumberError(s) || r.error == RangeError(s) || r.error == SyntaxError(s)
    ensures r.Ok? ==> (r.value == {} <==> Trim(token) == [])
  {
    var t := Trim(token);
    if t == [] then Ok({}) else ParseParts(s, Split(t, '-'))
  }

  /** The tokens read left to right; the first exception ends the parse. */
  function ParseTokens(s: string, tokens: seq<string>): Result<set<Int32>, Exception>
  {
    if tokens == [] then Ok({})
    else
      match ParseTokens(s, tokens[..|tokens| - 1])
      case Err(e) => Err(e)
      case Ok(acc) =>
        match ParseToken(s, tokens[|tokens| - 1])
        case Err(e) => Err(e)
        case Ok(v) => Ok(acc + v)
  }

  /** parseIntegers as a function of its (nullable) input. */
  function ParseIntegersSpec(s: Option<string>): Result<set<Int32>, Exception>
  {
    match s
    case None => Ok({})
    case Some(x) => ParseTokens(x, Split(x, ','))
  }

  /** Once a prefix of the tokens fails, the whole list fails with the same exception. */
  lemma {:induction false} ErrorIsFinal(s: string, tokens: seq<string>, k: nat)
    requires k < |tokens| && ParseTokens(s, tokens[..k + 1]).Err?
    ensures ParseTokens(s, tokens) == ParseTokens(s, tokens[..k + 1])
    decreases |tokens|
  {
    if k + 1 < |tokens| {
      var prefix := tokens[..|tokens| - 1];
      assert prefix[..k + 1] == tokens[..k + 1];
      ErrorIsFinal(s, prefix, k);
    } else {
      assert tokens[..k + 1] == tokens;
    }
  }

  /** One more token: the prefix's set grows by the token's integers, or the token's exception ends the parse. */
  lemma NextToken(s: string, tokens: seq<string>, k: nat, acc: set<Int32>)
    requires k < |tokens| && ParseTokens(s, tokens[..k]) == Ok(acc)
    ensures ParseTokens(s, tokens[..k + 1]) ==
      match ParseToken(s, tokens[k])
      case Err(e) => Err(e)
      case Ok(v) => Ok(acc + v)
  {
    assert tokens[..k + 1][..k] == tokens[..k];
  }

  /** parseIntegers. */
  method ParseIntegers(s: Option<string>) returns (r: Result<set<Int32>, Exception>)
    ensures r == ParseIntegersSpec(s)
  {
    var integers: set<Int32> := {};
    if s.Some? {
      var x := s.value;
      var tokens := Split(x, ',');
      var tokenIndex := 0;
      while tokenIndex < |tokens|
        invariant 0 <= tokenIndex <= |tokens|
        invariant ParseTokens(x, tokens[..tokenIndex]) == Ok(integers)
      {
        NextToken(x, tokens, tokenIndex, integers);
        var added := AddToken(x, tokens[tokenIndex], integers);
        if added.Err? {
          ErrorIsFinal(x, tokens, tokenIndex);
          return added;
        }
        integers := added.value;
        tokenIndex := tokenIndex + 1;
      }
      assert tokens[..tokenIndex] == tokens;
    }
    r := Ok(integers);
  }

  /** The body of parseIntegers' token loop: adds the integers of one token to
      `integers`, or stops with the exception the token raises. */
  method AddToken(s: string, rawToken: string, integers: set<Int32>) returns (r: Result<set<Int32>, Exception>)
    ensures r == match ParseToken(s, rawToken)
                 case Err(e) => Err(e)
                 case Ok(v) => Ok(integers + v)
  {
    var token := Trim(rawToken);
    if token == [] {
      assert integers + {} == integers;
      return Ok(integers);
    }
    r := AddParts(s, Split(token, '-'), integers);
  }

  /** A non-blank token split on '-': a single number is added, a range is
      checked and added by the range loop, anything else is rejected. */
  method AddParts(s: string, tt: seq<string>, integers: set<Int32>) returns (r: Result<set<Int32>, Exception>)
    ensures r == match ParseParts(s, tt)
                 case Err(e) => Err(e)
                 case Ok(v) => Ok(integers + v)
  {
    if |tt| == 1 {
      var v := ParseInt(tt[0]);
      if v.None? {
        return Err(NumberError(s));
      }
      return Ok(integers + {v.value});
    } else if |tt| == 2 {
      var from := ParseInt(tt[0]);
      if from.None? {
        return Err(NumberError(s));
      }
      var last := ParseInt(tt[1]);
      if last.None? {
        return Err(NumberError(s));
      }
      if from.value > last.value {
        return Err(RangeError(s));
      }
      var result := AddRange(integers, from.value, last.value);
      return Ok(result);
    } else {
      return Err(SyntaxError(s));
    }
  }

  /** The range loop of parseIntegers: adds `from`, ..., `last` to `integers`.
      It counts with an unbounded integer, so it also ends when `last` is
      Integer.MAX_VALUE (RangeLoopNeverExitsAtMaxValue is the loop as written). */
  method AddRange(integers: set<Int32>, from: Int32, last: Int32) returns (result: set<Int32>)
    requires from <= last
    ensures result == integers + Range(from, last)
  {
    result := integers;
    var i: int := from;
    while i <= last
      invariant from <= i <= last + 1
      invariant result == integers + Range(from, i - 1)
    {
      RangeGrows(from, i);
      result := result + {i};
      i := i + 1;
    }
  }

  /** A list whose tokens are all blank reads as the empty set. */
  lemma {:induction false} BlankTokensGiveEmptySet(s: string, tokens: seq<string>)
    requires forall i :: 0 <= i < |tokens| ==> Trim(tokens[i]) == []
    ensures ParseTokens(s, tokens) == Ok({})
  {
    if tokens != [] {
      var prefix := tokens[..|tokens| - 1];
      BlankTokensGiveEmptySet(s, prefix);
      assert Trim(tokens[|tokens| - 1]) == [];
      assert ParseToken(s, tokens[|tokens| - 1]) == Ok({});
      var empty: set<Int32> := {};
      assert ParseTokens(s, tokens) == Ok(empty + empty);
      assert empty + empty == empty;
    }
  }

  // ---------------------------------------------------------------------------
  // The range loop as written: `for (int i = from; i <= to; i++)`
  // ---------------------------------------------------------------------------

  /** Whether the Java loop, whose `int` counter wraps on `i++`, has ended after at
      most `steps` iterations when its counter is now `i`. */
  function JavaRangeLoopExits(i: Int32, last: Int32, steps: nat): bool
    decreases steps
  {
    if i > last then true
    else if steps == 0 then false
    else JavaRangeLoopExits(Wrap32(i + 1), last, steps - 1)
  }

  /** A range ending at Integer.MAX_VALUE keeps the loop running forever:
      `i <= Integer.MAX_VALUE` holds for every `int`, and `i++` wraps. */
  lemma {:induction false} RangeLoopNeverExitsAtMaxValue(i: Int32, steps: nat)
    ensures !JavaRangeLoopExits(i, INT_MAX, steps)
    decreases steps
  {
    if steps > 0 {
      RangeLoopNeverExitsAtMaxValue(Wrap32(i + 1), steps - 1);
    }
  }

  /** Below Integer.MAX_VALUE the loop ends after `last - i + 1` iterations. */
  lemma {:induction false} RangeLoopExitsBelowMaxValue(i: Int32, last: Int32)
    requires i <= last < INT_MAX
    ensures JavaRangeLoopExits(i, last, last as int - i + 1)
    decreases last as int - i
  {
    if i < last {
      RangeLoopExitsBelowMaxValue(i + 1, last);
    }
  }

  // ---------------------------------------------------------------------------
  // formatIntegers
  // ---------------------------------------------------------------------------

  /** Each element is below the next one. */
  predicate StrictlyAscending(xs: seq<Int32>)
  {
    forall i :: 0 <= i < |xs| - 1 ==> xs[i] < xs[i + 1]
  }

  /** `m` is at most every element of `S`. */
  predicate IsLeast(m: Int32, S: set<Int32>)
  {
    forall y :: y in S ==> m <= y
  }

  lemma {:induction false} MinExists(S: set<Int32>)
    requires S != {}
    ensures exists m :: m in S && IsLeast(m, S)
    decreases |S|
  {
    var x :| x in S;
    var others := S - {x};
    if others == {} {
      assert S == {x};
      assert IsLeast(x, S);
    } else {
      MinExists(others);
      var m :| m in others && IsLeast(m, others);
      var least := if x < m then x else m;
      assert forall y :: y in S ==> y == x || y in others;
      assert least in S && IsLeast(least, S);
    }
  }

  ghost function Min(S: set<Int32>): (m: Int32)
    requires S != {}
    ensures m in S && IsLeast(m, S)
  {
    MinExists(S);
    var m :| m in S && IsLeast(m, S); m
  }

  /** The elements of a set in the order a TreeSet iterates them. */
  ghost function Ascending(S: set<Int32>): seq<Int32>
    decreases |S|
  {
    if S == {} then [] else [Min(S)] + Ascending(S - {Min(S)})
  }

  /** Ascending lists each element of the set once, smallest first. */
  lemma {:induction false} AscendingSorted(S: set<Int32>)
    ensures forall x :: x in Ascending(S) <==> x in S
    ensures StrictlyAscending(Ascending(S))
    decreases |S|
  {
    if S != {} {
      var m := Min(S);
      var rest := Ascending(S - {m});
      AscendingSorted(S - {m});
      assert Ascending(S) == [m] + rest;
      if rest != [] {
        assert rest[0] in S - {m};
      }
    }
  }

  /** The runs of a sequence as formatIntegers forms them, read left to right:
      a value more than one above the previous one starts a new run, any
      other value extends the current run up to itself. */
  function Runs(xs: seq<Int32>): (runs: seq<Run>)
    ensures |runs| == 0 <==> xs == []
    ensures xs != [] ==> runs[|runs| - 1].1 == xs[|xs| - 1]
  {
    if xs == [] then []
    else
      var runs := Runs(xs[..|xs| - 1]);
      var x := xs[|xs| - 1];
      if runs == [] || x as int > runs[|runs| - 1].1 as int + 1 then
        runs + [(x, x)]
      else
        runs[..|runs| - 1] + [(runs[|runs| - 1].0, x)]
  }

  /** How one more value changes the runs. */
  lemma RunsStep(xs: seq<Int32>, x: Int32)
    ensures var runs := Runs(xs);
      var next := Runs(xs + [x]);
      if runs == [] || x as int > runs[|runs| - 1].1 as int + 1 then
        next == runs + [(x, x)] && next[..|runs|] == runs
      else
        next == runs[..|runs| - 1] + [(runs[|runs| - 1].0, x)] && next[..|runs| - 1] == runs[..|runs| - 1]
  {
    assert (xs + [x])[..|xs|] == xs;
  }

  /** One run as formatIntegers writes it: `start`, or `start<sep>end`. */
  function FormatRun(run: Run, intervalSeparator: string): string
  {
    if run.1 > run.0 then IntToString(run.0) + intervalSeparator + IntToString(run.1)
    else IntToString(run.0)
  }

  /** The runs joined by the item separator. */
  function Join(runs: seq<Run>, itemSeparator: string, intervalSeparator: string): string
  {
    if runs == [] then ""
    else if |runs| == 1 then FormatRun(runs[0], intervalSeparator)
    else FormatRun(runs[0], intervalSeparator) + itemSeparator + Join(runs[1..], itemSeparator, intervalSeparator)
  }

  /** formatIntegers as a function of the set it is given. */
  ghost function FormatIntegersSpec(numbers: set<Int32>, itemSeparator: string, intervalSeparator: string): string
  {
    Join(Runs(Ascending(numbers)), itemSeparator, intervalSeparator)
  }

  lemma {:induction false} JoinSnoc(runs: seq<Run>, run: Run, itemSeparator: string, intervalSeparator: string)
    requires runs != []
    ensures Join(runs + [run], itemSeparator, intervalSeparator)
         == Join(runs, itemSeparator, intervalSeparator) + itemSeparator + FormatRun(run, intervalSeparator)
  {
    if |runs| > 1 {
      assert (runs + [run])[1..] == runs[1..] + [run];
      JoinSnoc(runs[1..], run, itemSeparator, intervalSeparator);
    }
  }

  /** The state of formatIntegers' loop after the numbers `done`: the last run
      of `done` is still open, from `start` to `previous`, and `result` holds
      the runs before it. */
  ghost predicate Pending(done: seq<Int32>, result: string, firstAppendix: bool, start: Int32, previous: Int32,
                          itemSeparator: string, intervalSeparator: string)
  {
    var runs := Runs(done);
    && done != []
    && runs[|runs| - 1] == (start, previous)
    && result == Join(runs[..|runs| - 1], itemSeparator, intervalSeparator)
    && (firstAppendix <==> |runs| == 1)
  }

  /** What formatIntegers writes when it closes the open run. */
  function Closed(result: string, firstAppendix: bool, start: Int32, previous: Int32,
                  itemSeparator: string, intervalSeparator: string): string
  {
    (if firstAppendix then result else result + itemSeparator) + FormatRun((start, previous), intervalSeparator)
  }

  lemma PendingFirst(number: Int32, itemSeparator: string, intervalSeparator: string)
    ensures Pending([number], [], true, number, number, itemSeparator, intervalSeparator)
  {
    assert [number][..0] == [];
  }

  lemma PendingExtend(done: seq<Int32>, result: string, firstAppendix: bool, start: Int32, previous: Int32,
                      itemSeparator: string, intervalSeparator: string, number: Int32)
    requires Pending(done, result, firstAppendix, start, previous, itemSeparator, intervalSeparator)
    requires number as int <= previous as int + 1
    ensures Pending(done + [number], result, firstAppendix, start, number, itemSeparator, intervalSeparator)
  {
    RunsStep(done, number);
  }

  lemma PendingNewRun(done: seq<Int32>, result: string, firstAppendix: bool, start: Int32, previous: Int32,
                      itemSeparator: string, intervalSeparator: string, number: Int32)
    requires Pending(done, result, firstAppendix, start, previous, itemSeparator, intervalSeparator)
    requires number as int > previous as int + 1
    ensures Pending(done + [number], Closed(result, firstAppendix, start, previous, itemSeparator, intervalSeparator),
                    false, number, number, itemSeparator, intervalSeparator)
  {
    RunsStep(done, number);
    PendingFinish(done, result, firstAppendix, start, previous, itemSeparator, intervalSeparator);
  }

  lemma PendingFinish(done: seq<Int32>, result: string, firstAppendix: bool, start: Int32, previous: Int32,
                      itemSeparator: string, intervalSeparator: string)
    requires Pending(done, result, firstAppendix, start, previous, itemSeparator, intervalSeparator)
    ensures Closed(result, firstAppendix, start, previous, itemSeparator, intervalSeparator)
         == Join(Runs(done), itemSeparator, intervalSeparator)
  {
    var runs := Runs(done);
    assert runs[..|runs| - 1] + [runs[|runs| - 1]] == runs;
    if !firstAppendix {
      JoinSnoc(runs[..|runs| - 1], runs[|runs| - 1], itemSeparator, intervalSeparator);
    } else {
      assert result == [];
    }
  }

  /** Taking the least remaining number extends the ascending prefix by one. */
  lemma AscendingStep(numbers: set<Int32>, done: seq<Int32>, rest: set<Int32>, number: Int32)
    requires Ascending(numbers) == done + Ascending(rest)
    requires number in rest && IsLeast(number, rest)
    ensures Ascending(numbers) == (done + [number]) + Ascending(rest - {number})
    ensures |rest - {number}| < |rest|
  {
    assert number == Min(rest);
  }

  /** formatIntegers: walks the numbers in ascending order, keeping the start of
      the open run and the previous number, and writes a run out when the next
      number leaves a gap. */
  method FormatIntegers(numbers: set<Int32>, itemSeparator: string, intervalSeparator: string) returns (r: string)
    ensures r == FormatIntegersSpec(numbers, itemSeparator, intervalSeparator)
    ensures numbers == {} <==> r == []
  {
    if numbers == {} {
      return "";
    }
    var result := "";
    var firstAppendix := true;
    var intervalStart: Option<Int32> := None;
    var previousNumber: Int32 := 0;  // read only once intervalStart is set
    var rest: set<Int32> := numbers;
    ghost var done: seq<Int32> := [];
    while rest != {}
      invariant Ascending(numbers) == done + Ascending(rest)
      invariant intervalStart.None? ==> done == [] && result == [] && firstAppendix
      invariant intervalStart.Some? ==>
        Pending(done, result, firstAppendix, intervalStart.value, previousNumber, itemSeparator, intervalSeparator)
      decreases |rest|
    {
      MinExists(rest);
      var number :| number in rest && IsLeast(number, rest);
      AscendingStep(numbers, done, rest, number);
      if intervalStart.None? {
        PendingFirst(number, itemSeparator, intervalSeparator);
        intervalStart := Some(number);
      } else if number as int > previousNumber as int + 1 {
        PendingNewRun(done, result, firstAppendix, intervalStart.value, previousNumber, itemSeparator, intervalSeparator, number);
        if firstAppendix {
          firstAppendix := false;
        } else {
          result := result + itemSeparator;
        }
        result := result + FormatRun((intervalStart.value, previousNumber), intervalSeparator);
        intervalStart := Some(number);
      } else {
        PendingExtend(done, result, firstAppendix, intervalStart.value, previousNumber, itemSeparator, intervalSeparator, number);
      }
      previousNumber := number;
      done := done + [number];
      rest := rest - {number};
    }
    assert done == Ascending(numbers) by {
      assert Ascending(rest) == [];
      assert done + [] == done;
    }
    PendingFinish(done, result, firstAppendix, intervalStart.value, previousNumber, itemSeparator, intervalSeparator);
    var lastRun := FormatRun((intervalStart.value, previousNumber), intervalSeparator);
    assert |lastRun| > 0;
    if !firstAppendix {
      result := result + itemSeparator;
    }
    result := result + lastRun;
    r := result;
  }

  // ---------------------------------------------------------------------------
  // What the runs are, and the round trip
  // ---------------------------------------------------------------------------

  lemma RangeSingleton(x: Int32)
    ensures Range(x, x) == {x}
  {
    assert x in Range(x, x);
  }

  /** The integers a list of runs covers. */
  ghost function Covered(runs: seq<Run>): set<Int32>
  {
    if runs == [] then {}
    else Covered(runs[..|runs| - 1]) + Range(runs[|runs| - 1].0, runs[|runs| - 1].1)
  }

  lemma AscendingPrefix(xs: seq<Int32>)
    requires StrictlyAscending(xs) && xs != []
    ensures StrictlyAscending(xs[..|xs| - 1])
    ensures |xs| > 1 ==> xs[|xs| - 2] < xs[|xs| - 1]
  {
  }

  /** On ascending input every run is ordered and lies above the first value. */
  lemma {:induction false} RunsOrdered(xs: seq<Int32>)
    requires StrictlyAscending(xs)
    ensures forall i :: 0 <= i < |Runs(xs)| ==> xs[0] <= Runs(xs)[i].0 <= Runs(xs)[i].1
  {
    if |xs| > 1 {
      var prefix := xs[..|xs| - 1];
      var x := xs[|xs| - 1];
      assert xs == prefix + [x];
      AscendingPrefix(xs);
      RunsOrdered(prefix);
      RunsStep(prefix, x);
      var before := Runs(prefix);
      var after := Runs(xs);
      assert before[|before| - 1].1 == prefix[|prefix| - 1] < x;
      forall i | 0 <= i < |after|
        ensures xs[0] <= after[i].0 <= after[i].1
      {
        if i < |before| - 1 {
          assert after[i] == before[i];
        }
      }
    } else if xs != [] {
      assert xs == [] + [xs[0]];
      RunsStep([], xs[0]);
    }
  }

  /** On ascending input consecutive runs are separated by a missing integer,
      so no two runs could be merged: the runs are maximal. */
  lemma {:induction false} RunsAreMaximal(xs: seq<Int32>)
    requires StrictlyAscending(xs)
    ensures forall i :: 0 <= i < |Runs(xs)| - 1 ==> Runs(xs)[i].1 as int + 1 < Runs(xs)[i + 1].0 as int
  {
    if xs != [] {
      var prefix := xs[..|xs| - 1];
      var x := xs[|xs| - 1];
      assert xs == prefix + [x];
      AscendingPrefix(xs);
      RunsAreMaximal(prefix);
      RunsStep(prefix, x);
      var before := Runs(prefix);
      var after := Runs(xs);
      forall i | 0 <= i < |after| - 1
        ensures after[i].1 as int + 1 < after[i + 1].0 as int
      {
        if i + 1 < |before| {
          assert after[i] == before[i];
          if i + 1 < |before| - 1 {
            assert after[i + 1] == before[i + 1];
          } else {
            assert after[i + 1].0 == before[i + 1].0;
          }
        }
      }
    }
  }

  lemma CoveredSnoc(runs: seq<Run>, run: Run)
    ensures Covered(runs + [run]) == Covered(runs) + Range(run.0, run.1)
  {
    assert (runs + [run])[..|runs|] == runs;
  }

  /** The values of a sequence, as a set. */
  ghost function Elements(xs: seq<Int32>): set<Int32>
  {
    if xs == [] then {} else Elements(xs[..|xs| - 1]) + {xs[|xs| - 1]}
  }

  lemma {:induction false} ElementsMembership(xs: seq<Int32>)
    ensures forall v :: v in Elements(xs) <==> v in xs
  {
    if xs != [] {
      var prefix := xs[..|xs| - 1];
      ElementsMembership(prefix);
      assert xs == prefix + [xs[|xs| - 1]];
    }
  }

  /** The runs of an ascending sequence cover exactly its values. */
  lemma {:induction false} RunsCover(xs: seq<Int32>)
    requires StrictlyAscending(xs)
    ensures Covered(Runs(xs)) == Elements(xs)
  {
    if xs != [] {
      var prefix := xs[..|xs| - 1];
      var x := xs[|xs| - 1];
      assert xs == prefix + [x];
      AscendingPrefix(xs);
      RunsCover(prefix);
      RunsOrdered(prefix);
      RunsStep(prefix, x);
      var before := Runs(prefix);
      var after := Runs(xs);
      if before == [] || x as int > before[|before| - 1].1 as int + 1 {
        assert after == before + [(x, x)];
        CoveredSnoc(before, (x, x));
        RangeSingleton(x);
      } else {
        var last := before[|before| - 1];
        var others := before[..|before| - 1];
        assert last.1 == prefix[|prefix| - 1] == x - 1;
        assert after == others + [(last.0, x)];
        assert before == others + [last];
        CoveredSnoc(others, (last.0, x));
        CoveredSnoc(others, last);
        RangeGrows(last.0, x);
      }
    }
  }

  /** The pieces formatIntegers writes, one per run. */
  ghost function Pieces(runs: seq<Run>): (pieces: seq<string>)
    ensures |pieces| == |runs|
    ensures forall i :: 0 <= i < |runs| ==> pieces[i] == FormatRun(runs[i], "-")
  {
    if runs == [] then [] else [FormatRun(runs[0], "-")] + Pieces(runs[1..])
  }

  lemma NoCommaInRun(run: Run)
    ensures ',' !in FormatRun(run, "-")
    ensures |FormatRun(run, "-")| > 0
  {
    var a := Decimal(if run.0 < 0 then -(run.0 as int) else run.0);
    var b := Decimal(if run.1 < 0 then -(run.1 as int) else run.1);
    assert forall i :: 0 <= i < |a| ==> a[i] != ',';
    assert forall i :: 0 <= i < |b| ==> b[i] != ',';
  }

  lemma {:induction false} RawSplitJoin(runs: seq<Run>)
    requires runs != []
    ensures RawSplit(Join(runs, ",", "-"), ',') == Pieces(runs)
  {
    NoCommaInRun(runs[0]);
    var first := FormatRun(runs[0], "-");
    if |runs| == 1 {
      RawSplitNoSep(first, ',');
    } else {
      RawSplitJoin(runs[1..]);
      RawSplitAppend(first, ',', Join(runs[1..], ",", "-"));
    }
  }

  /** Splitting the formatted list on ',' gives back one piece per run. */
  lemma SplitJoin(runs: seq<Run>)
    requires runs != []
    ensures Split(Join(runs, ",", "-"), ',') == Pieces(runs)
  {
    var text := Join(runs, ",", "-");
    NoCommaInRun(runs[0]);
    if |runs| == 1 {
      assert text == FormatRun(runs[0], "-");
    } else {
      assert text[|FormatRun(runs[0], "-")|] == ',';
      RawSplitJoin(runs);
      NoCommaInRun(runs[|runs| - 1]);
      assert Pieces(runs)[|runs| - 1] != [];
    }
  }

  /** `a-b` written in decimal holds only digits and the one '-'. */
  lemma RangeTextChars(a: nat, b: nat)
    ensures var text := Decimal(a) + "-" + Decimal(b);
      && text[|Decimal(a)|] == '-'
      && forall i :: 0 <= i < |text| ==> IsDigit(text[i]) || i == |Decimal(a)|
  {
    var da := Decimal(a);
    var db := Decimal(b);
    var text := da + "-" + db;
    forall i | 0 <= i < |text| && i != |da|
      ensures IsDigit(text[i])
    {
      if i < |da| {
        assert text[i] == da[i];
      } else {
        assert text[i] == db[i - |da| - 1];
      }
    }
  }

  /** `a-b` written in decimal splits on '-' into its two numbers. */
  lemma RangeParts(a: nat, b: nat)
    ensures Split(Decimal(a) + "-" + Decimal(b), '-') == [Decimal(a), Decimal(b)]
  {
    var da := Decimal(a);
    var db := Decimal(b);
    assert '-' !in da && '-' !in db;
    assert (da + "-" + db)[|da|] == '-';
    RawSplitAppend(da, '-', db);
    RawSplitNoSep(db, '-');
  }

  /** A token `a-b` adds [a, b] when a <= b and is rejected when a > b. */
  lemma RangeToken(s: string, a: nat, b: nat)
    requires a <= INT_MAX && b <= INT_MAX
    ensures ParseToken(s, Decimal(a) + "-" + Decimal(b))
         == if a <= b then Ok(Range(a, b)) else Err(RangeError(s))
  {
    var text := Decimal(a) + "-" + Decimal(b);
    assert Trim(text) == text by {
      RangeTextChars(a, b);
      TrimNoControls(text);
    }
    assert ParseToken(s, text) == ParseParts(s, [Decimal(a), Decimal(b)]) by {
      RangeParts(a, b);
    }
    assert ParseNumber(s, Decimal(a)) == Ok(a) by {
      ParseIntDecimal(a);
    }
    assert ParseNumber(s, Decimal(b)) == Ok(b) by {
      ParseIntDecimal(b);
    }
  }

  /** A list of one token is that token's result. */
  lemma SingleToken(s: string, token: string)
    ensures ParseTokens(s, [token]) == match ParseToken(s, token)
                                       case Err(e) => Err(e)
                                       case Ok(v) => Ok(v)
  {
    assert [token][..0] == [];
    var empty: set<Int32> := {};
    if ParseToken(s, token).Ok? {
      assert empty + ParseToken(s, token).value == ParseToken(s, token).value;
    }
  }

  /** A token holding one decimal number adds just that number. */
  lemma NumberToken(s: string, a: nat)
    requires a <= INT_MAX
    ensures ParseToken(s, Decimal(a)) == Ok({a})
  {
    var d := Decimal(a);
    assert forall i :: 0 <= i < |d| ==> d[i] > ' ' && d[i] != '-';
    TrimNoControls(d);
    assert '-' !in d;
    assert Split(d, '-') == [d];
    ParseIntDecimal(a);
    assert ParseNumber(s, d) == Ok(a);
  }

  /** One formatted run reads back as the integers of the run. */
  lemma TokenRoundTrip(s: string, run: Run)
    requires 0 <= run.0 <= run.1
    ensures ParseToken(s, FormatRun(run, "-")) == Ok(Range(run.0, run.1))
  {
    var a: nat := run.0;
    var b: nat := run.1;
    if a < b {
      assert ParseToken(s, FormatRun(run, "-")) == Ok(Range(a, b)) by {
        assert FormatRun(run, "-") == Decimal(a) + "-" + Decimal(b);
        RangeToken(s, a, b);
      }
    } else {
      assert ParseToken(s, FormatRun(run, "-")) == Ok(Range(a, b)) by {
        assert FormatRun(run, "-") == Decimal(a);
        NumberToken(s, a);
        RangeSingleton(a);
      }
    }
  }

  lemma {:induction false} ParsePieces(s: string, runs: seq<Run>)
    requires forall i :: 0 <= i < |runs| ==> 0 <= runs[i].0 <= runs[i].1
    ensures ParseTokens(s, Pieces(runs)) == Ok(Covered(runs))
  {
    if runs != [] {
      var prefix := runs[..|runs| - 1];
      var run := runs[|runs| - 1];
      var pieces := Pieces(runs);
      assert pieces[..|pieces| - 1] == Pieces(prefix);
      assert pieces[|pieces| - 1] == FormatRun(run, "-");
      ParsePieces(s, prefix);
      TokenRoundTrip(s, run);
      assert ParseTokens(s, pieces) == Ok(Covered(prefix) + Range(run.0, run.1));
    }
  }

  /** parseIntegers(formatIntegers(S)) == S for every set of non-negative ints. */
  lemma FormatThenParse(S: set<Int32>)
    requires forall x :: x in S ==> x >= 0
    ensures ParseIntegersSpec(Some(FormatIntegersSpec(S, ",", "-"))) == Ok(S)
  {
    var xs := Ascending(S);
    AscendingSorted(S);
    var runs := Runs(xs);
    RunsOrdered(xs);
    RunsCover(xs);
    ElementsMembership(xs);
    assert Covered(runs) == S;
    var text := Join(runs, ",", "-");
    if runs == [] {
      assert text == [];
      BlankTokensGiveEmptySet(text, [[]]);
    } else {
      SplitJoin(runs);
      ParsePieces(text, runs);
    }
  }

  /** A list holding the single range `a-b` reads as [a, b] when a <= b, up to
      and including Integer.MAX_VALUE, and is rejected when a > b. */
  lemma RangeListParses(a: nat, b: nat)
    requires a <= INT_MAX && b <= INT_MAX
    ensures var text := Decimal(a) + "-" + Decimal(b);
      ParseIntegersSpec(Some(text)) == if a <= b then Ok(Range(a, b)) else Err(RangeError(text))
  {
    var text := Decimal(a) + "-" + Decimal(b);
    RangeTextChars(a, b);
    assert ',' !in text;
    RangeToken(text, a, b);
    SingleToken(text, text);
  }
}
