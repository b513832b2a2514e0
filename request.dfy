/**
 * getRequest of src/updater/index.ts: an HTTP GET against the ord server,
 * retried through autoRetry without a per-call timer. A 4xx response is final;
 * every other failure is retried after a short random delay.
 *
 * axios and the server are not part of this model: each call is given by its
 * result, and Math.random by a number in [0, 1).
 */
module Request {
  import opened Wrappers
  import opened Retry

  /** What an axios request rejects with: an error carrying a response status, or one without a response. */
  datatype HttpError = Response(status: int) | NoResponse

  /**
   * The error handler of getRequest: the error has a response whose status,
   * divided by 100 and rounded down, is 4. The timer's undefined never reaches
   * it, because getRequest sets no timer.
   */
  predicate IsClientError(f: Failure<HttpError>): (b: bool)
    ensures b <==> f.Raised? && f.error.Response? && 400 <= f.error.status <= 499
  {
    f.Raised? && f.error.Response? && (ClientErrorIsFourHundreds(f.error.status); f.error.status / 100 == 4)
  }

  /** The rounded-down division picks out exactly the statuses 400 to 499. */
  lemma ClientErrorIsFourHundreds(status: int)
    ensures status / 100 == 4 <==> 400 <= status <= 499
  {
    var q := status / 100;
    assert status == 100 * q + status % 100 && 0 <= status % 100 < 100;
    if 400 <= status <= 499 {
      assert 100 * 4 <= status < 100 * 5;
    }
  }

  /** The default delay between calls: floor(random * 91) + 10 milliseconds, from 10 to 100. */
  function DefaultRequestDelay(random: real): (d: int)
    requires 0.0 <= random < 1.0
    ensures 10 <= d <= 100
  {
    (random * 91.0).Floor + 10
  }

  /** The config getRequest hands to autoRetry. */
  function RequestConfig(delay: int): (c: Config<HttpError>)
    ensures c.timeout == Some(0) && c.delay == Some(delay)
    ensures c.errorHandler.Some? && forall f :: c.errorHandler.value(f) == IsClientError(f)
  {
    Config(Some(delay), None, Some(0), Some(f => IsClientError(f)))
  }

  /**
   * getRequest: `delay` is the caller's argument (None when left out), `random`
   * the draw of Math.random that the default uses.
   */
  method GetRequest<T>(runs: seq<Run<T, HttpError>>, delay: Option<int>, random: real)
    returns (outcome: Outcome<T, Failure<HttpError>>, trace: seq<Event>)
    requires 0.0 <= random < 1.0
    ensures var d := if delay.Some? then delay.value else DefaultRequestDelay(random);
      && outcome == RetryOutcome(RaceAll(runs, None), RequestConfig(d).errorHandler)
      && trace == RetryTrace(RaceAll(runs, None), RequestConfig(d).errorHandler, EffectiveDelay(Some(d)))
  {
    var d := if delay.Some? then delay.value else DefaultRequestDelay(random);
    outcome, trace := AutoRetry(runs, Some(RequestConfig(d)));
  }

  /**
   * Which calls end a request: a success, or a failure with a 4xx status. A
   * failure without a response or with any other status, however slow, is
   * retried.
   */
  lemma RequestStops<T>(run: Run<T, HttpError>, delay: int)
    ensures Stops(RequestConfig(delay).errorHandler, Race(run, None)) <==>
      run.result.Resolved? || (run.result.error.Response? && 400 <= run.result.error.status <= 499)
  {
    if run.result.Rejected? && run.result.error.Response? {
      ClientErrorIsFourHundreds(run.result.error.status);
    }
  }

  /** A request whose calls keep failing without a 4xx status never ends: getRequest waits for the server indefinitely. */
  lemma {:induction false} ServerErrorsRetriedForever<T>(runs: seq<Run<T, HttpError>>, delay: int)
    requires forall j :: 0 <= j < |runs| ==>
      runs[j].result.Rejected? && !(runs[j].result.error.Response? && 400 <= runs[j].result.error.status <= 499)
    ensures RetryOutcome(RaceAll(runs, None), RequestConfig(delay).errorHandler) == Pending
  {
    var attempts := RaceAll(runs, None);
    forall j | 0 <= j < |runs|
      ensures !Stops(RequestConfig(delay).errorHandler, attempts[j])
    {
      RequestStops(runs[j], delay);
    }
    RetryCharacterised(attempts, RequestConfig(delay).errorHandler, 0);
  }

  /** Without an explicit delay, every sleep between calls lasts from 10 to 100 milliseconds. */
  lemma DefaultDelayBetweenCalls(random: real)
    requires 0.0 <= random < 1.0
    ensures 10 <= EffectiveDelay(Some(DefaultRequestDelay(random))) <= 100
  {
  }
}
