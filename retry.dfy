/**
 * The retry helpers of src/utils.ts. `retry` calls an asynchronous function
 * until it resolves, sleeping a fixed delay after each failure, unless an error
 * handler declares a failure final. `autoRetry` fills in defaults and races
 * each call against a timer.
 *
 * A call of the function is modelled by its result. A run of `retry` is
 * modelled by the results of its successive calls and the trace of calls and
 * sleeps it performs. When those results run out, `retry` would still be
 * looping: that is the outcome Pending.
 */
module Retry {
  import opened Wrappers

  /** The settled result of one call. */
  datatype Attempt<T, E> = Resolved(value: T) | Rejected(error: E)

  /** What retry does, in order: call the function, or sleep for a number of milliseconds. */
  datatype Event = Call | Sleep(ms: int)

  /** How a run of retry ends: it returns a value, throws an error, or has not ended yet. */
  datatype Outcome<T, E> = Returned(value: T) | Thrown(error: E) | Pending

  /** `errorHandler(e)` when a handler is given; without one, revert stays false. */
  predicate Reverts<E>(errorHandler: Option<E -> bool>, e: E) {
    errorHandler.Some? && errorHandler.value(e)
  }

  /** An attempt that ends the run: a success, or a failure the handler declares final. */
  predicate Stops<T, E>(errorHandler: Option<E -> bool>, a: Attempt<T, E>) {
    a.Resolved? || Reverts(errorHandler, a.error)
  }

  /** The outcome of retry over these attempts, one attempt at a time. */
  function RetryOutcome<T, E>(attempts: seq<Attempt<T, E>>, errorHandler: Option<E -> bool>): Outcome<T, E>
  {
    if attempts == [] then Pending
    else match attempts[0]
      case Resolved(v) => Returned(v)
      case Rejected(e) => if Reverts(errorHandler, e) then Thrown(e) else RetryOutcome(attempts[1..], errorHandler)
  }

  /** The calls and sleeps of retry over these attempts. */
  function RetryTrace<T, E>(attempts: seq<Attempt<T, E>>, errorHandler: Option<E -> bool>, delay: int): seq<Event>
  {
    if attempts == [] then []
    else if Stops(errorHandler, attempts[0]) then [Call]
    else [Call, Sleep(delay)] + RetryTrace(attempts[1..], errorHandler, delay)
  }

  /**
   * retry: the loop of the source, with its `success` and `revert` flags. The
   * result is the one described by RetryOutcome and RetryTrace.
   */
  method Retry<T, E>(attempts: seq<Attempt<T, E>>, delay: int, errorHandler: Option<E -> bool>)
    returns (outcome: Outcome<T, E>, trace: seq<Event>)
    ensures outcome == RetryOutcome(attempts, errorHandler)
    ensures trace == RetryTrace(attempts, errorHandler, delay)
  {
    var success := false;
    var revert := false;
    var i := 0;
    trace := [];
    while !success
      invariant 0 <= i <= |attempts|
      invariant !revert
      invariant RetryOutcome(attempts[i..], errorHandler) == RetryOutcome(attempts, errorHandler)
      invariant trace + RetryTrace(attempts[i..], errorHandler, delay) == RetryTrace(attempts, errorHandler, delay)
      decreases |attempts| - i, !success
    {
      if i == |attempts| {
        return Pending, trace;
      }
      trace := trace + [Call];
      match attempts[i] {
        case Resolved(v) =>
          success := true;
          return Returned(v), trace;
        case Rejected(e) =>
          if errorHandler.Some? {
            revert := errorHandler.value(e);
          }
          if revert {
            return Thrown(e), trace;
          }
      }
      assert attempts[i..][1..] == attempts[i + 1..];
      trace := trace + [Sleep(delay)];
      i := i + 1;
    }
    outcome := Pending;
  }

  /** The index of the first attempt that ends the run, or the number of attempts if none does. */
  function FirstStop<T, E>(attempts: seq<Attempt<T, E>>, errorHandler: Option<E -> bool>): (k: nat)
    ensures k <= |attempts|
    ensures forall j :: 0 <= j < k ==> !Stops(errorHandler, attempts[j])
    ensures k < |attempts| ==> Stops(errorHandler, attempts[k])
  {
    if attempts == [] then 0
    else if Stops(errorHandler, attempts[0]) then 0
    else 1 + FirstStop(attempts[1..], errorHandler)
  }

  /** k rounds of a failed call followed by a sleep. */
  function Rounds(k: nat, delay: int): (r: seq<Event>)
    ensures |r| == 2 * k
  {
    if k == 0 then [] else Rounds(k - 1, delay) + [Call, Sleep(delay)]
  }

  /** The j-th round is a call followed by a sleep of the delay. */
  lemma {:induction false} RoundsShape(k: nat, delay: int)
    ensures forall j :: 0 <= j < k ==> Rounds(k, delay)[2 * j] == Call && Rounds(k, delay)[2 * j + 1] == Sleep(delay)
  {
    if k > 0 {
      RoundsShape(k - 1, delay);
    }
  }

  lemma {:induction false} RoundsCons(k: nat, delay: int)
    ensures [Call, Sleep(delay)] + Rounds(k, delay) == Rounds(k + 1, delay)
  {
    if k > 0 {
      RoundsCons(k - 1, delay);
    }
  }

  /**
   * The whole behaviour of retry: every failure before the first stopping
   * attempt is followed by exactly one sleep of the configured delay; the run
   * then returns the first success or throws the first final error at once,
   * with no sleep and no further call; if no attempt stops, it is still going.
   */
  lemma RetryCharacterised<T, E>(attempts: seq<Attempt<T, E>>, errorHandler: Option<E -> bool>, delay: int)
    ensures var k := FirstStop(attempts, errorHandler);
      && (k == |attempts| ==>
            RetryOutcome(attempts, errorHandler) == Pending && RetryTrace(attempts, errorHandler, delay) == Rounds(k, delay))
      && (k < |attempts| ==> RetryTrace(attempts, errorHandler, delay) == Rounds(k, delay) + [Call])
      && (k < |attempts| && attempts[k].Resolved? ==> RetryOutcome(attempts, errorHandler) == Returned(attempts[k].value))
      && (k < |attempts| && attempts[k].Rejected? ==> RetryOutcome(attempts, errorHandler) == Thrown(attempts[k].error))
  {
    OutcomeAtFirstStop(attempts, errorHandler);
    TraceAtFirstStop(attempts, errorHandler, delay);
  }

  lemma {:induction false} OutcomeAtFirstStop<T, E>(attempts: seq<Attempt<T, E>>, errorHandler: Option<E -> bool>)
    ensures var k := FirstStop(attempts, errorHandler);
      && (k == |attempts| ==> RetryOutcome(attempts, errorHandler) == Pending)
      && (k < |attempts| && attempts[k].Resolved? ==> RetryOutcome(attempts, errorHandler) == Returned(attempts[k].value))
      && (k < |attempts| && attempts[k].Rejected? ==> RetryOutcome(attempts, errorHandler) == Thrown(attempts[k].error))
  {
    if attempts != [] && !Stops(errorHandler, attempts[0]) {
      var k' := FirstStop(attempts[1..], errorHandler);
      OutcomeAtFirstStop(attempts[1..], errorHandler);
      if k' < |attempts[1..]| {
        assert attempts[1..][k'] == attempts[k' + 1];
      }
    }
  }

  lemma {:induction false} TraceAtFirstStop<T, E>(attempts: seq<Attempt<T, E>>, errorHandler: Option<E -> bool>, delay: int)
    ensures var k := FirstStop(attempts, errorHandler);
      && (k == |attempts| ==> RetryTrace(attempts, errorHandler, delay) == Rounds(k, delay))
      && (k < |attempts| ==> RetryTrace(attempts, errorHandler, delay) == Rounds(k, delay) + [Call])
  {
    if attempts != [] && !Stops(errorHandler, attempts[0]) {
      var k' := FirstStop(attempts[1..], errorHandler);
      assert FirstStop(attempts, errorHandler) == k' + 1;
      TraceAtFirstStop(attempts[1..], errorHandler, delay);
      RoundsCons(k', delay);
      var tail := RetryTrace(attempts[1..], errorHandler, delay);
      assert RetryTrace(attempts, errorHandler, delay) == [Call, Sleep(delay)] + tail;
      if k' < |attempts[1..]| {
        assert [Call, Sleep(delay)] + (Rounds(k', delay) + [Call]) == ([Call, Sleep(delay)] + Rounds(k', delay)) + [Call];
      }
    }
  }

  /** Without an error handler nothing is final: retry never throws. */
  lemma {:induction false} NoHandlerNeverThrows<T, E>(attempts: seq<Attempt<T, E>>)
    ensures !RetryOutcome(attempts, None).Thrown?
  {
    if attempts != [] {
      NoHandlerNeverThrows(attempts[1..]);
    }
  }

  /** Only the attempts up to the first stopping one matter: what would come after it is never called. */
  lemma {:induction false} LaterAttemptsIgnored<T, E>(attempts: seq<Attempt<T, E>>, more: seq<Attempt<T, E>>, errorHandler: Option<E -> bool>, delay: int)
    requires FirstStop(attempts, errorHandler) < |attempts|
    ensures RetryOutcome(attempts + more, errorHandler) == RetryOutcome(attempts, errorHandler)
    ensures RetryTrace(attempts + more, errorHandler, delay) == RetryTrace(attempts, errorHandler, delay)
  {
    if !Stops(errorHandler, attempts[0]) {
      assert (attempts + more)[1..] == attempts[1..] + more;
      LaterAttemptsIgnored(attempts[1..], more, errorHandler, delay);
    }
  }

  /** The failure an autoRetry call rejects with: the function's own error, or the timer's undefined. */
  datatype Failure<E> = Raised(error: E) | TimedOut

  /** One call made by autoRetry: what the function settles to, and after how many milliseconds. */
  datatype Run<T, E> = Run(result: Attempt<T, E>, duration: nat)

  /** autoRetry's config; None where a property is left undefined. */
  datatype Config<!E> = Config(delay: Option<int>, printError: Option<bool>, timeout: Option<int>,
                              errorHandler: Option<Failure<E> -> bool>)

  /** The config autoRetry uses when none is passed. */
  function DefaultConfig<E>(): Config<E> {
    Config(Some(1000), Some(false), Some(30000), None)
  }

  /** `delay || 1000`: an undefined or zero delay becomes one second. */
  function EffectiveDelay(delay: Option<int>): (d: int)
    ensures d != 0
    ensures delay.Some? && delay.value != 0 ==> d == delay.value
    ensures delay.None? || delay == Some(0) ==> d == 1000
  {
    if delay.Some? && delay.value != 0 then delay.value else 1000
  }

  /** The timer of each call: none for a timeout of 0, thirty seconds for an undefined one. */
  function Deadline(timeout: Option<int>): (r: Option<int>)
    ensures r.None? <==> timeout == Some(0)
    ensures r.Some? ==> r.value != 0
    ensures timeout.Some? && timeout.value != 0 ==> r == timeout
    ensures timeout.None? ==> r == Some(30000)
  {
    if timeout == Some(0) then None
    else if timeout.Some? then timeout
    else Some(30000)
  }

  /**
   * Node's timers fire after at least one millisecond: a delay below 1 or above
   * 2^31 - 1 is replaced by 1.
   */
  function TimerDelay(ms: int): (r: int)
    ensures 1 <= r <= 0x7fff_ffff
    ensures 1 <= ms <= 0x7fff_ffff ==> r == ms
    ensures !(1 <= ms <= 0x7fff_ffff) ==> r == 1
  {
    if 1 <= ms <= 0x7fff_ffff then ms else 1
  }

  /** A call raced against the timer. A tie is taken to go to the function. */
  function Race<T, E>(run: Run<T, E>, deadline: Option<int>): (a: Attempt<T, Failure<E>>)
    ensures deadline.Some? && run.duration > TimerDelay(deadline.value) ==> a == Rejected(TimedOut)
    ensures a.Resolved? ==> run.result == Resolved(a.value)
    ensures a.Rejected? && a.error.Raised? ==> run.result == Rejected(a.error.error)
    ensures !(deadline.Some? && run.duration > TimerDelay(deadline.value)) ==>
      && (run.result.Resolved? ==> a == Resolved(run.result.value))
      && (run.result.Rejected? ==> a == Rejected(Raised(run.result.error)))
  {
    if deadline.Some? && run.duration > TimerDelay(deadline.value) then Rejected(TimedOut)
    else match run.result
      case Resolved(v) => Resolved(v)
      case Rejected(e) => Rejected(Raised(e))
  }

  function RaceAll<T, E>(runs: seq<Run<T, E>>, deadline: Option<int>): (r: seq<Attempt<T, Failure<E>>>)
    ensures |r| == |runs|
    ensures forall j :: 0 <= j < |runs| ==> r[j] == Race(runs[j], deadline)
  {
    if runs == [] then [] else [Race(runs[0], deadline)] + RaceAll(runs[1..], deadline)
  }

  /**
   * autoRetry: retry over the raced calls, with the delay defaulted and the
   * error handler passed through; `config` None is a call without a config.
   */
  method AutoRetry<T, E>(runs: seq<Run<T, E>>, config: Option<Config<E>>)
    returns (outcome: Outcome<T, Failure<E>>, trace: seq<Event>)
    ensures var c := if config.Some? then config.value else DefaultConfig();
      && outcome == RetryOutcome(RaceAll(runs, Deadline(c.timeout)), c.errorHandler)
      && trace == RetryTrace(RaceAll(runs, Deadline(c.timeout)), c.errorHandler, EffectiveDelay(c.delay))
  {
    var c := if config.Some? then config.value else DefaultConfig();
    var attempts := RaceAll(runs, Deadline(c.timeout));
    outcome, trace := Retry(attempts, EffectiveDelay(c.delay), c.errorHandler);
  }

  /** Passing no config and passing an empty one behave alike: one second between calls, thirty seconds per call. */
  lemma DefaultsMatchEmptyConfig<E>(handler: Option<Failure<E> -> bool>)
    ensures EffectiveDelay(DefaultConfig<E>().delay) == EffectiveDelay(None) == 1000
    ensures Deadline(DefaultConfig<E>().timeout) == Deadline(None) == Some(30000)
  {
  }

  /** With a timeout of 0 no call ever times out: every failure is the function's own. */
  lemma NoDeadlineNoTimeouts<T, E>(runs: seq<Run<T, E>>)
    ensures forall j :: 0 <= j < |runs| ==> RaceAll(runs, Deadline(Some(0)))[j] != Rejected(TimedOut)
  {
  }

  /** A call slower than the timer counts as a failure even if it would have resolved. */
  lemma SlowCallFails<T, E>(run: Run<T, E>, timeout: Option<int>)
    requires timeout != Some(0)
    requires run.duration > TimerDelay(Deadline(timeout).value)
    ensures Race(run, Deadline(timeout)) == Rejected(TimedOut)
  {
  }
}
