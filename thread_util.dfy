/**
 * ThreadUtil.execute and ExecutionStrategy: run an operation up to a given
 * number of attempts, calling an optional handler after each failure and
 * sleeping between attempts for a delay that is constant, linear or square
 * in the attempt index.
 *
 * The operation is an oracle from the 1-based attempt index to the outcome of
 * that attempt, and the unsuccess handler one from the attempt index to the
 * exception it throws, if any; the indices the handler is called with are
 * recorded, as is every delay passed to sleep.
 */
module ThreadUtil {
  import opened JavaLang

  datatype StrategyType = Constant | Linear | Square

  /** A constructed strategy; `hasUnsuccessHandler` says whether the
      handler reference is non-null. */
  datatype ExecutionStrategy = ExecutionStrategy(delayTimeMillis: Int64, strategyType: StrategyType, hasUnsuccessHandler: bool)

  const DELAY_MESSAGE: string := "Argument 'delayTimeMillis' should be positive."
  const TYPE_MESSAGE: string := "Argument 'type' can't be 'null'."
  const ATTEMPT_INDEX_MESSAGE: string := "Argument 'attemptNumber' should be positive."
  const OPERATION_MESSAGE: string := "Argument 'operation' can't be 'null'."
  const ATTEMPT_COUNT_MESSAGE: string := "Argument 'attemptCount' should be positive."
  const STRATEGY_MESSAGE: string := "Argument 'strategy' can't be 'null'."

  /** What every strategy the constructor lets through satisfies. */
  predicate ValidStrategy(strategy: ExecutionStrategy)
  {
    strategy.delayTimeMillis >= 1
  }

  /** The three-argument constructor with its argument checks; a null type is
      None. The two-argument constructor is this with no handler. */
  function NewExecutionStrategy(delayTimeMillis: Int64, strategyType: Option<StrategyType>, hasUnsuccessHandler: bool)
    : (r: Result<ExecutionStrategy, Exception>)
    ensures r.Ok? <==> delayTimeMillis >= 1 && strategyType.Some?
    ensures r.Ok? ==> ValidStrategy(r.value) && r.value.delayTimeMillis == delayTimeMillis
                      && r.value.strategyType == strategyType.value && r.value.hasUnsuccessHandler == hasUnsuccessHandler
    ensures delayTimeMillis < 1 ==> r == Err(IllegalArgumentException(DELAY_MESSAGE))
    ensures delayTimeMillis >= 1 && strategyType.None? ==> r == Err(IllegalArgumentException(TYPE_MESSAGE))
  {
    if delayTimeMillis < 1 then Err(IllegalArgumentException(DELAY_MESSAGE))
    else if strategyType.None? then Err(IllegalArgumentException(TYPE_MESSAGE))
    else Ok(ExecutionStrategy(delayTimeMillis, strategyType.value, hasUnsuccessHandler))
  }

  /** getDelayTimeMillis(attemptIndex), in Java long arithmetic: the products
      wrap around on overflow. */
  function GetDelayTimeMillis(strategy: ExecutionStrategy, attemptIndex: Int32): (r: Result<Int64, Exception>)
    ensures r.Err? <==> attemptIndex < 1
    ensures r.Err? ==> r.error == IllegalArgumentException(ATTEMPT_INDEX_MESSAGE)
    ensures r.Ok? ==> r.value == Wrap64(IdealDelay(strategy, attemptIndex))
  {
    if attemptIndex < 1 then Err(IllegalArgumentException(ATTEMPT_INDEX_MESSAGE))
    else
      var d := strategy.delayTimeMillis;
      match strategy.strategyType
      case Constant => Ok(d)
      case Linear => Ok(Wrap64(d * attemptIndex))
      case Square =>
        WrapMul(d * attemptIndex, attemptIndex);
        Ok(Wrap64(Wrap64(d * attemptIndex) * attemptIndex))
  }

  /** The delay the strategy type describes, over the mathematical integers. */
  function IdealDelay(strategy: ExecutionStrategy, attemptIndex: int): int
  {
    var d := strategy.delayTimeMillis;
    match strategy.strategyType
    case Constant => d
    case Linear => d * attemptIndex
    case Square => d * attemptIndex * attemptIndex
  }

  lemma MulMonotone(a: int, b: int, c: int)
    requires a >= 0 && b <= c
    ensures a * b <= a * c
  {
    assert a * c - a * b == a * (c - b);
  }

  lemma ProductGrows(d: int, i: int, j: int)
    requires d >= 1 && 1 <= i <= j
    ensures d <= d * i <= d * j
    ensures d * i * i <= d * j * j
    ensures d * i <= d * i * i
  {
    MulMonotone(d, 1, i);
    MulMonotone(d, i, j);
    MulMonotone(d * i, i, j);
    MulMonotone(d * j, i, j);
    MulMonotone(d * i, 1, i);
  }

  /** Without overflow, the delay is exactly the one the type describes. */
  lemma DelayIsIdeal(strategy: ExecutionStrategy, attemptIndex: Int32)
    requires ValidStrategy(strategy) && attemptIndex >= 1
    requires IdealDelay(strategy, attemptIndex) <= LONG_MAX
    ensures GetDelayTimeMillis(strategy, attemptIndex) == Ok(IdealDelay(strategy, attemptIndex))
  {
    ProductGrows(strategy.delayTimeMillis, attemptIndex, attemptIndex);
  }

  /** Without overflow, no delay is shorter than the base delay, and a later
      attempt never waits less than an earlier one. */
  lemma DelayGrows(strategy: ExecutionStrategy, i: Int32, j: Int32)
    requires ValidStrategy(strategy) && 1 <= i <= j
    requires IdealDelay(strategy, j) <= LONG_MAX
    ensures GetDelayTimeMillis(strategy, i).Ok? && GetDelayTimeMillis(strategy, j).Ok?
    ensures strategy.delayTimeMillis <= GetDelayTimeMillis(strategy, i).value <= GetDelayTimeMillis(strategy, j).value
  {
    var d := strategy.delayTimeMillis;
    ProductGrows(d, i, j);
    ProductGrows(d, i, i);
    DelayIsIdeal(strategy, i);
    DelayIsIdeal(strategy, j);
  }

  /** The long products do wrap: a linear strategy with a base delay of 2^62
      asks for a negative delay at the second attempt. */
  lemma DelayWrapsAround()
    ensures GetDelayTimeMillis(ExecutionStrategy(0x4000_0000_0000_0000, Linear, false), 2) == Ok(LONG_MIN)
  {
    assert Wrap64(0x4000_0000_0000_0000 * 2) == LONG_MIN;
  }

  // ---------------------------------------------------------------------------
  // execute
  // ---------------------------------------------------------------------------

  /** The argument check of execute: the first violated requirement, if any. */
  function ArgumentsError(hasOperation: bool, attemptCount: Int32, hasStrategy: bool): (e: Option<Exception>)
    ensures e.None? <==> hasOperation && attemptCount >= 1 && hasStrategy
  {
    if !hasOperation then Some(IllegalArgumentException(OPERATION_MESSAGE))
    else if attemptCount < 1 then Some(IllegalArgumentException(ATTEMPT_COUNT_MESSAGE))
    else if !hasStrategy then Some(IllegalArgumentException(STRATEGY_MESSAGE))
    else None
  }

  /** What the unsuccess handler throws when called with an attempt index:
      None when the strategy has no handler or handle returns normally. */
  function HandlerFault(strategy: ExecutionStrategy, handler: int -> Option<Exception>, attemptIndex: int): (e: Option<Exception>)
    ensures !strategy.hasUnsuccessHandler ==> e.None?
  {
    if strategy.hasUnsuccessHandler then handler(attemptIndex) else None
  }

  /** Whether the attempt ends the run: it succeeds, the handler called after
      its failure throws, or it is the last one allowed. */
  predicate EndsRun<T>(operation: int -> Result<T, Exception>, strategy: ExecutionStrategy, handler: int -> Option<Exception>,
                       attemptIndex: int, attemptCount: int)
  {
    attemptIndex >= attemptCount || operation(attemptIndex).Ok? || HandlerFault(strategy, handler, attemptIndex).Some?
  }

  /** The index of the attempt that ends the run when attempts `from` onwards
      are still to come. */
  function LastAttempt<T>(operation: int -> Result<T, Exception>, strategy: ExecutionStrategy, handler: int -> Option<Exception>,
                          from: int, attemptCount: int): (n: int)
    ensures from <= n && (from <= attemptCount ==> n <= attemptCount)
    decreases attemptCount - from
  {
    if EndsRun(operation, strategy, handler, from, attemptCount) then from
    else LastAttempt(operation, strategy, handler, from + 1, attemptCount)
  }

  /** The run ends at the first attempt that succeeds or whose handler
      throws, or at the last allowed one; every attempt before it failed and
      its handler returned normally. */
  lemma {:induction false} LastAttemptIsFirstEnd<T>(operation: int -> Result<T, Exception>, strategy: ExecutionStrategy,
                                                    handler: int -> Option<Exception>, from: int, attemptCount: int)
    requires from <= attemptCount
    ensures var n := LastAttempt(operation, strategy, handler, from, attemptCount);
      && (forall k :: from <= k < n ==> operation(k).Err? && HandlerFault(strategy, handler, k).None?)
      && (n < attemptCount ==> operation(n).Ok? || HandlerFault(strategy, handler, n).Some?)
    decreases attemptCount - from
  {
    if !EndsRun(operation, strategy, handler, from, attemptCount) {
      LastAttemptIsFirstEnd(operation, strategy, handler, from + 1, attemptCount);
    }
  }

  /** What the attempt that ends the run makes execute return or throw: its
      value, else the handler's exception, else its own exception. */
  function Outcome<T>(operation: int -> Result<T, Exception>, strategy: ExecutionStrategy, handler: int -> Option<Exception>,
                      attemptIndex: int): (r: Result<T, Exception>)
    ensures r.Ok? <==> operation(attemptIndex).Ok?
    ensures r.Ok? ==> r == operation(attemptIndex)
    ensures r.Err? && HandlerFault(strategy, handler, attemptIndex).None? ==> r == operation(attemptIndex)
    ensures r.Err? && HandlerFault(strategy, handler, attemptIndex).Some? ==> r.error == HandlerFault(strategy, handler, attemptIndex).value
  {
    if operation(attemptIndex).Ok? then operation(attemptIndex)
    else match HandlerFault(strategy, handler, attemptIndex)
      case Some(e) => Err(e)
      case None => operation(attemptIndex)
  }

  /** 1, 2, ..., count */
  function Indices(count: nat): (r: seq<Int32>)
    requires count <= INT_MAX
    ensures |r| == count && forall i :: 0 <= i < count ==> r[i] == i + 1
  {
    if count == 0 then [] else Indices(count - 1) + [count]
  }

  /** The delays slept after the failures of attempts 1, ..., count. */
  function Delays(strategy: ExecutionStrategy, count: nat): (r: seq<Int64>)
    requires count <= INT_MAX
    ensures |r| == count
    ensures forall i :: 0 <= i < count ==> Ok(r[i]) == GetDelayTimeMillis(strategy, i + 1)
  {
    if count == 0 then [] else Delays(strategy, count - 1) + [GetDelayTimeMillis(strategy, count).value]
  }

  /** execute(operation, attemptCount, strategy). `handler` is what the
      strategy's unsuccess handler does when called. Returns the outcome of the
      call (a value, or the exception it throws), the indices the unsuccess
      handler was called with, and the delays passed to sleep. */
  method Execute<T>(operation: Option<int -> Result<T, Exception>>, attemptCount: Int32, strategy: Option<ExecutionStrategy>,
                    handler: int -> Option<Exception>)
    returns (r: Result<T, Exception>, handled: seq<Int32>, sleeps: seq<Int64>)
    ensures ArgumentsError(operation.Some?, attemptCount, strategy.Some?).Some? ==>
      r == Err(ArgumentsError(operation.Some?, attemptCount, strategy.Some?).value) && handled == [] && sleeps == []
    ensures ArgumentsError(operation.Some?, attemptCount, strategy.Some?).None? ==>
      var n := LastAttempt(operation.value, strategy.value, handler, 1, attemptCount);
      var failures := if operation.value(n).Ok? then n - 1 else n;
      && r == Outcome(operation.value, strategy.value, handler, n)
      && handled == (if strategy.value.hasUnsuccessHandler then Indices(failures) else [])
      && sleeps == Delays(strategy.value, n - 1)
  {
    handled := [];
    sleeps := [];
    var error := ArgumentsError(operation.Some?, attemptCount, strategy.Some?);
    if error.Some? {
      return Err(error.value), handled, sleeps;
    }
    var run := operation.value;
    var policy := strategy.value;
    var attemptIndex: Int32 := 1;
    while attemptIndex <= attemptCount
      invariant 1 <= attemptIndex <= attemptCount
      invariant LastAttempt(run, policy, handler, attemptIndex, attemptCount) == LastAttempt(run, policy, handler, 1, attemptCount)
      invariant handled == (if policy.hasUnsuccessHandler then Indices(attemptIndex - 1) else [])
      invariant sleeps == Delays(policy, attemptIndex - 1)
      decreases attemptCount - attemptIndex
    {
      var outcome := run(attemptIndex);
      if outcome.Ok? {
        return outcome, handled, sleeps;
      }
      if policy.hasUnsuccessHandler {
        handled := handled + [attemptIndex];
        var thrown := handler(attemptIndex);
        if thrown.Some? {
          return Err(thrown.value), handled, sleeps;
        }
      }
      if attemptIndex < attemptCount {
        var delay := GetDelayTimeMillis(policy, attemptIndex);
        sleeps := sleeps + [delay.value];
      } else {
        return outcome, handled, sleeps;
      }
      attemptIndex := attemptIndex + 1;
    }
    assert false;
  }

  /** What execute promises about a run with valid arguments: the operation is
      tried at most attemptCount times; the outcome is that of the first
      successful attempt, or the exception of a throwing handler, or else the
      exception of the last attempt; and a delay is slept only between
      consecutive attempts. */
  lemma ExecuteOutcome<T>(operation: int -> Result<T, Exception>, attemptCount: Int32, strategy: ExecutionStrategy,
                          handler: int -> Option<Exception>)
    requires attemptCount >= 1
    ensures var n := LastAttempt(operation, strategy, handler, 1, attemptCount);
      && 1 <= n <= attemptCount
      && (forall k :: 1 <= k < n ==> operation(k).Err? && HandlerFault(strategy, handler, k).None?)
      && (Outcome(operation, strategy, handler, n).Err? && HandlerFault(strategy, handler, n).None? ==>
            n == attemptCount && Outcome(operation, strategy, handler, n) == operation(attemptCount))
      && |Delays(strategy, n - 1)| < attemptCount
  {
    LastAttemptIsFirstEnd(operation, strategy, handler, 1, attemptCount);
  }
}
