/** The retry loops of the two model clients (rice_factor/adapters/llm/claude_client.py and
openai_client.py). They are written differently and are meant to behave alike. */
module RetryLoops {
  import opened Sequences

  /** How one call to the API ends. */
  datatype ApiOutcome = Response(body: string) | Timeout | RateLimited | ApiError(status: Option<int>)

  datatype Ending = Returned(body: string) | RaisedTimeout | RaisedRateLimit | RaisedApi(status: Option<int>)

  const BASE_DELAY := 1.0
  const MAX_DELAY := 16.0
  const BACKOFF_FACTOR := 2.0

  function NextDelay(delay: real): real {
    if delay * BACKOFF_FACTOR < MAX_DELAY then delay * BACKOFF_FACTOR else MAX_DELAY
  }

  /** Claude: the last error is remembered and raised behind the loop. */
  method CreateMessage(outcome: nat -> ApiOutcome, maxRetries: int)
      returns (calls: nat, sleeps: seq<real>, ending: Ending)
    ensures AsDescribed(outcome, maxRetries, calls, sleeps, ending)
  {
    calls, sleeps := 0, [];
    var delay := BASE_DELAY;
    var lastError: Option<Ending> := None;
    var attempt := 0;
    while attempt < maxRetries + 1
      invariant 0 <= attempt && (maxRetries >= 0 ==> attempt <= maxRetries + 1) && calls == attempt
      invariant maxRetries < 0 ==> calls == 0 && sleeps == []
      invariant forall i :: 0 <= i < attempt ==> Retryable(outcome(i))
      invariant attempt <= maxRetries ==> sleeps == Delays(attempt) && delay == DelayAt(attempt)
      invariant 0 < attempt == maxRetries + 1 ==> sleeps == Delays(attempt - 1)
      invariant lastError == if attempt == 0 then None else Some(EndingOf(outcome(attempt - 1)))
    {
      var o := outcome(attempt);
      calls := calls + 1;
      match o {
        case Response(body) => return calls, sleeps, Returned(body);
        case RateLimited => return calls, sleeps, RaisedRateLimit;
        case Timeout =>
          lastError := Some(RaisedTimeout);
          if attempt < maxRetries {
            sleeps := sleeps + [delay];
            delay := NextDelay(delay);
          }
        case ApiError(status) =>
          if status.Some? && status.value >= 500 {
            lastError := Some(RaisedApi(status));
            if attempt < maxRetries {
              sleeps := sleeps + [delay];
              delay := NextDelay(delay);
            }
          } else {
            return calls, sleeps, RaisedApi(status);
          }
      }
      attempt := attempt + 1;
    }
    ending := if lastError.Some? then lastError.value else RaisedApi(None);
  }

  /** OpenAI: the last error is raised where it happens. */
  method CreateChatCompletion(outcome: nat -> ApiOutcome, maxRetries: int)
      returns (calls: nat, sleeps: seq<real>, ending: Ending)
    ensures AsDescribed(outcome, maxRetries, calls, sleeps, ending)
  {
    calls, sleeps := 0, [];
    var delay := BASE_DELAY;
    var attempt := 0;
    while attempt < maxRetries + 1
      invariant 0 <= attempt && calls == attempt && (maxRetries >= 0 ==> attempt <= maxRetries)
      invariant forall i :: 0 <= i < attempt ==> Retryable(outcome(i))
      invariant sleeps == Delays(attempt) && delay == DelayAt(attempt)
      invariant maxRetries < 0 ==> attempt == 0
    {
      var o := outcome(attempt);
      calls := calls + 1;
      match o {
        case Response(body) => return calls, sleeps, Returned(body);
        case RateLimited => return calls, sleeps, RaisedRateLimit;
        case Timeout =>
          if attempt < maxRetries {
            sleeps := sleeps + [delay];
            delay := NextDelay(delay);
          } else {
            return calls, sleeps, RaisedTimeout;
          }
        case ApiError(status) =>
          // a status of zero counts as absent
          if status.Some? && status.value != 0 && status.value >= 500 && attempt < maxRetries {
            sleeps := sleeps + [delay];
            delay := NextDelay(delay);
          } else {
            return calls, sleeps, RaisedApi(status);
          }
      }
      attempt := attempt + 1;
    }
    ending := RaisedApi(None);
  }

  // ---------- what both do ----------

  /** Timeouts and server errors are tried again. */
  predicate Retryable(o: ApiOutcome) {
    o.Timeout? || (o.ApiError? && o.status.Some? && o.status.value >= 500)
  }

  function EndingOf(o: ApiOutcome): Ending {
    match o
    case Response(body) => Returned(body)
    case Timeout => RaisedTimeout
    case RateLimited => RaisedRateLimit
    case ApiError(status) => RaisedApi(status)
  }

  function DelayAt(i: nat): real {
    if i == 0 then BASE_DELAY else NextDelay(DelayAt(i - 1))
  }

  function Delays(n: nat): (s: seq<real>)
    ensures |s| == n
  {
    if n == 0 then [] else Delays(n - 1) + [DelayAt(n - 1)]
  }

  /** The calls go on as long as the outcome can be retried and retries are left, with the
  backoff delays in between; the last outcome decides. */
  ghost predicate AsDescribed(outcome: nat -> ApiOutcome, maxRetries: int, calls: nat, sleeps: seq<real>,
        ending: Ending)
  {
    if maxRetries < 0 then calls == 0 && sleeps == [] && ending == RaisedApi(None)
    else
      && 1 <= calls <= maxRetries + 1
      && (forall i :: 0 <= i < calls - 1 ==> Retryable(outcome(i)))
      && (calls <= maxRetries ==> !Retryable(outcome(calls - 1)))
      && sleeps == Delays(calls - 1)
      && ending == EndingOf(outcome(calls - 1))
  }

  /** Whatever the API does, the description leaves one behaviour: the two loops make the same
  number of calls, sleep the same delays and end alike. */
  lemma LoopsAgree(outcome: nat -> ApiOutcome, maxRetries: int,
      calls: nat, sleeps: seq<real>, ending: Ending, calls': nat, sleeps': seq<real>, ending': Ending)
    requires AsDescribed(outcome, maxRetries, calls, sleeps, ending)
    requires AsDescribed(outcome, maxRetries, calls', sleeps', ending')
    ensures calls == calls' && sleeps == sleeps' && ending == ending'
  {
    if maxRetries >= 0 {
      var last: nat, last': nat := calls - 1, calls' - 1;
      assert last < last' ==> Retryable(outcome(last));
      assert last' < last ==> Retryable(outcome(last'));
    }
  }

  /** A timeout, or an API error with a status of 500 or more. */
  ghost predicate Passing(o: ApiOutcome) {
    o == Timeout || exists status :: status >= 500 && o == ApiError(Some(status))
  }

  /** The first outcome that does not pass, if the retries last that long, decides: a response is
  returned, and anything else raised, at once. If all pass, the last one is raised. */
  lemma FirstOtherDecides(outcome: nat -> ApiOutcome, maxRetries: nat, n: nat,
      calls: nat, sleeps: seq<real>, ending: Ending)
    requires AsDescribed(outcome, maxRetries, calls, sleeps, ending)
    requires n <= maxRetries && forall i: nat :: i < n ==> Passing(outcome(i))
    requires n < maxRetries ==> !Passing(outcome(n))
    ensures calls == n + 1 && |sleeps| == n
    ensures forall body :: outcome(n) == Response(body) ==> ending == Returned(body)
    ensures outcome(n) == RateLimited ==> ending == RaisedRateLimit
    ensures outcome(n) == Timeout ==> ending == RaisedTimeout
    ensures forall status :: outcome(n) == ApiError(status) ==> ending == RaisedApi(status)
  {
    forall i: nat ensures Retryable(outcome(i)) == Passing(outcome(i)) {
      PassingExactly(outcome(i));
    }
    var last: nat := calls - 1;
    assert last < n ==> Passing(outcome(last));
    assert n < last ==> Retryable(outcome(n));
  }

  lemma PassingExactly(o: ApiOutcome)
    ensures Retryable(o) <==> Passing(o)
  {
    if o.ApiError? && o.status.Some? && o.status.value >= 500 {
      assert o == ApiError(Some(o.status.value));
    }
  }

  /** The delays, one after the other: 1, 2, 4 and 8 seconds, then 16. */
  lemma {:induction false} DelaysAre(n: nat)
    ensures forall i :: 0 <= i < n ==> Delays(n)[i] == if i == 0 then 1.0 else if i == 1 then 2.0 else
      if i == 2 then 4.0 else if i == 3 then 8.0 else 16.0
  {
    if n > 0 {
      DelaysAre(n - 1);
      DelayGrows(n - 1);
      assert Pow2(0) == 1 && Pow2(1) == 2 && Pow2(2) == 4 && Pow2(3) == 8;
    }
  }

  function Total(s: seq<real>): real {
    if s == [] then 0.0 else Total(s[..|s| - 1]) + s[|s| - 1]
  }

  function Pow2(n: nat): nat {
    if n == 0 then 1 else 2 * Pow2(n - 1)
  }

  lemma {:induction false} DelayGrows(i: nat)
    ensures DelayAt(i) == if i < 4 then Pow2(i) as real else 16.0
  {
    if i > 0 {
      DelayGrows(i - 1);
      assert Pow2(0) == 1 && Pow2(1) == 2 && Pow2(2) == 4 && Pow2(3) == 8;
    }
  }

  /** After r retries the client has slept 2^r - 1 seconds, or 15 + 16 (r - 4) beyond the cap. */
  lemma {:induction false} TotalDelay(r: nat)
    ensures Total(Delays(r)) == if r <= 4 then (Pow2(r) - 1) as real else 15.0 + 16.0 * (r - 4) as real
  {
    if r > 0 {
      TotalDelay(r - 1);
      DelayGrows(r - 1);
      assert Delays(r)[..r - 1] == Delays(r - 1);
      assert Pow2(0) == 1 && Pow2(1) == 2 && Pow2(2) == 4 && Pow2(3) == 8 && Pow2(4) == 16;
    }
  }
}
