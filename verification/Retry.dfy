/** The paced request loop of rag/llm_providers.py: one budget for 429 answers, another for transient transport
    failures, a backoff for each, and a pacing clock shared by every call to one provider.  Retry-After is the
    header of section 10.2.3 of RFC 9110. */
module Retry {
  import opened Common

  const MAX_TRANSIENT_TRANSPORT_ATTEMPTS := 3
  const TRANSIENT_INITIAL_BACKOFF := 1.0
  const RATE_LIMIT_INITIAL_BACKOFF := 2.0
  const RATE_LIMIT_MAX_BACKOFF := 30.0
  const TOO_MANY_REQUESTS := 429

  datatype NetworkError = ConnectionReset | Timeout | TlsFailure | UrlError(reason: NetworkError) | UrlErrorText | OtherError

  /** A reset, a timeout or a TLS failure, bare or wrapped in any number of URL errors. */
  predicate IsTransient(e: NetworkError) {
    match e
    case ConnectionReset => true
    case Timeout => true
    case TlsFailure => true
    case UrlError(reason) => IsTransient(reason)
    case _ => false
  }

  /** What URL errors wrap. */
  function Innermost(e: NetworkError): NetworkError {
    if e.UrlError? then Innermost(e.reason) else e
  }

  lemma {:induction false} TransientByCause(e: NetworkError)
    ensures IsTransient(e) <==> Innermost(e) in {ConnectionReset, Timeout, TlsFailure}
  {
    if e.UrlError? { TransientByCause(e.reason); }
  }

  /** The header as a delay from now: absent or unreadable, or a number of seconds that may be negative. */
  datatype Header = Unreadable | Delay(seconds: real)

  function ParseRetryAfter(h: Header): Option<real> {
    if h.Delay? && h.seconds >= 0.0 then Some(h.seconds) else None
  }

  datatype Reply<T> = Body(value: T) | UndecodableBody | HttpError(code: int, retryAfter: Header) | Network(error: NetworkError)

  datatype Outcome<T> =
    | InvalidArgument
    | Returned(value: T)
    | RaisedUndecodable
    | RaisedHttp(code: int)
    | RaisedNetwork(error: NetworkError)
    | RateLimitExceeded(wait: real, attempts: nat)
    | TransportFailed(attempts: nat)
    | AssertionReached

  // ---- The two budgets, as functions of the replies seen so far ----

  predicate IsRateLimit<T>(r: Reply<T>) { r.HttpError? && r.code == TOO_MANY_REQUESTS }
  predicate IsTransientReply<T>(r: Reply<T>) { r.Network? && IsTransient(r.error) }

  function RateLimits<T>(replies: nat -> Reply<T>, n: nat): nat {
    if n == 0 then 0 else RateLimits(replies, n - 1) + (if IsRateLimit(replies(n - 1)) then 1 else 0)
  }

  function Transients<T>(replies: nat -> Reply<T>, n: nat): nat {
    if n == 0 then 0 else Transients(replies, n - 1) + (if IsTransientReply(replies(n - 1)) then 1 else 0)
  }

  /** The fallback wait after k earlier 429 answers: 2, 4, 8, 16, 30, 30, ... */
  function RateLimitBackoff(k: nat): real {
    if k == 0 then RATE_LIMIT_INITIAL_BACKOFF else MinReal(RateLimitBackoff(k - 1) * 2.0, RATE_LIMIT_MAX_BACKOFF)
  }

  /** The loop's own variables. */
  datatype Budgets = Budgets(backoff: real, transients: nat, transientBackoff: real)

  const FULL_BUDGETS := Budgets(RATE_LIMIT_INITIAL_BACKOFF, 0, TRANSIENT_INITIAL_BACKOFF)

  /** The variables after a reply that is retried. */
  function Spend<T>(b: Budgets, reply: Reply<T>, cap: real): Budgets {
    if IsRateLimit(reply) then b.(backoff := MinReal(b.backoff * 2.0, RATE_LIMIT_MAX_BACKOFF))
    else if IsTransientReply(reply) then b.(transients := b.transients + 1, transientBackoff := MinReal(b.transientBackoff * 2.0, cap))
    else b
  }

  function BudgetsAt<T>(replies: nat -> Reply<T>, n: nat, cap: real): Budgets {
    if n == 0 then FULL_BUDGETS else Spend(BudgetsAt(replies, n - 1, cap), replies(n - 1), cap)
  }

  function Wait<T>(reply: Reply<T>, backoff: real): real
    requires IsRateLimit(reply)
  {
    var parsed := ParseRetryAfter(reply.retryAfter);
    if parsed.Some? then parsed.value else backoff
  }

  /** Whether the loop goes on after attempt i, its variables being b. */
  predicate Continues<T>(reply: Reply<T>, b: Budgets, i: nat, maxAttempts: int, cap: real) {
    if IsRateLimit(reply) then i != maxAttempts - 1 && Wait(reply, b.backoff) <= cap
    else IsTransientReply(reply) && b.transients + 1 < MAX_TRANSIENT_TRANSPORT_ATTEMPTS
  }

  /** What ends the loop at attempt i. */
  function Stop<T>(reply: Reply<T>, b: Budgets, i: nat): Outcome<T> {
    match reply
    case Body(value) => Returned(value)
    case UndecodableBody => RaisedUndecodable
    case HttpError(code, _) => if IsRateLimit(reply) then RateLimitExceeded(Wait(reply, b.backoff), i + 1) else RaisedHttp(code)
    case Network(e) => if IsTransient(e) then TransportFailed(b.transients + 1) else RaisedNetwork(e)
  }

  predicate GoesOn<T>(replies: nat -> Reply<T>, i: nat, maxAttempts: int, cap: real) {
    Continues(replies(i), BudgetsAt(replies, i, cap), i, maxAttempts, cap)
  }

  /** The attempt that ends the loop, or `maxAttempts` when none does. */
  function FirstStop<T>(replies: nat -> Reply<T>, i: nat, maxAttempts: nat, cap: real): (j: nat)
    requires i <= maxAttempts
    ensures i <= j <= maxAttempts
    decreases maxAttempts - i
  {
    if i == maxAttempts || !GoesOn(replies, i, maxAttempts, cap) then i
    else FirstStop(replies, i + 1, maxAttempts, cap)
  }

  function CallOutcome<T>(replies: nat -> Reply<T>, maxAttempts: int, cap: real): Outcome<T> {
    if maxAttempts < 1 || cap < 0.0 then InvalidArgument
    else var j := FirstStop(replies, 0, maxAttempts, cap);
      if j == maxAttempts then AssertionReached else Stop(replies(j), BudgetsAt(replies, j, cap), j)
  }

  function Requests<T>(replies: nat -> Reply<T>, maxAttempts: int, cap: real): nat {
    if maxAttempts < 1 || cap < 0.0 then 0
    else var j := FirstStop(replies, 0, maxAttempts, cap);
      if j == maxAttempts then j else j + 1
  }

  /** The wait after a retried attempt. */
  function Pause<T>(reply: Reply<T>, b: Budgets, cap: real): real {
    if IsRateLimit(reply) then Wait(reply, b.backoff) else MinReal(b.transientBackoff, cap)
  }

  /** The total sleep after the first n attempts are retried, from a total of `before`. */
  function BackoffSleep<T>(before: real, replies: nat -> Reply<T>, n: nat, cap: real): real {
    if n == 0 then before
    else BackoffSleep(before, replies, n - 1, cap) + Pause(replies(n - 1), BudgetsAt(replies, n - 1, cap), cap)
  }

  // ---- Pacing ----

  /** When each request was sent, the most recent one outermost. */
  datatype Log = Nothing | Sent(earlier: Log, at: real)

  function Count(log: Log): nat {
    match log case Nothing => 0 case Sent(earlier, _) => Count(earlier) + 1
  }

  /** The time of the k-th most recent request. */
  function Recent(log: Log, k: nat): real
    requires k < Count(log)
  {
    if k == 0 then log.at else Recent(log.earlier, k - 1)
  }

  ghost predicate Spaced(log: Log, interval: real) {
    log.Sent? && log.earlier.Sent? ==> log.at - log.earlier.at >= interval && Spaced(log.earlier, interval)
  }

  /** `log` is `before` followed by n more requests. */
  ghost predicate Follows(log: Log, before: Log, n: nat) {
    if n == 0 then log == before else log.Sent? && Follows(log.earlier, before, n - 1)
  }

  /** n times x, by addition. */
  function Repeated(n: nat, x: real): real {
    if n == 0 then 0.0 else Repeated(n - 1, x) + x
  }

  /** Over every call sharing the clock, any n + 1 consecutive requests take at least n intervals. */
  lemma {:induction false} RequestRateIsBounded(log: Log, interval: real, i: nat, n: nat)
    requires Spaced(log, interval) && i + n < Count(log)
    ensures Recent(log, i) - Recent(log, i + n) >= Repeated(n, interval)
    decreases i + n
  {
    if i > 0 {
      RequestRateIsBounded(log.earlier, interval, i - 1, n);
    } else if n > 0 {
      RequestRateIsBounded(log.earlier, interval, 0, n - 1);
    }
  }

  // ---- The loop over a shared clock ----

  class PacedClient {
    const interval: real
    var now: real
    var lastCallAt: real
    var log: Log               // every request sent so far, by any call
    var paced: real            // total sleep asked for by pacing
    var backedOff: real        // total sleep asked for after failed attempts

    /** Requests sent through one pacing clock start at least the interval apart. */
    ghost predicate Valid()
      reads this
    {
      lastCallAt <= now && (log.Sent? ==> log.at == lastCallAt) && Spaced(log, interval)
    }

    constructor (interval: real, now: real)
      requires now >= 0.0
      ensures Valid() && log == Nothing && this.interval == interval
    {
      this.interval, this.now, lastCallAt, log, paced, backedOff := interval, now, 0.0, Nothing, 0.0, 0.0;
    }

    /** Waits at least as long as asked. */
    method Sleep(seconds: real)
      requires Valid() && seconds >= 0.0
      modifies this`now
      ensures Valid() && now >= old(now) + seconds
    {
      var extra: real :| extra >= 0.0;
      now := now + seconds + extra;
    }

    /** Waits out the interval since the last request, then sends one, which takes some time. */
    method Send()
      requires Valid() && interval >= 0.0
      modifies this`now, this`lastCallAt, this`log, this`paced
      ensures Valid() && log == Sent(old(log), lastCallAt) && lastCallAt >= old(now)
      ensures paced == old(paced) + MaxReal(0.0, interval - (old(now) - old(lastCallAt)))
    {
      var elapsed := now - lastCallAt;
      if elapsed < interval {
        Sleep(interval - elapsed);
        paced := paced + (interval - elapsed);
      }
      lastCallAt := now;
      log := Sent(log, now);
      var took: real :| took >= 0.0;
      now := now + took;
    }

    method BackOff(seconds: real)
      requires Valid() && seconds >= 0.0
      modifies this`now, this`backedOff
      ensures Valid() && now >= old(now) + seconds && backedOff == old(backedOff) + seconds
    {
      Sleep(seconds);
      backedOff := backedOff + seconds;
    }

    /** One turn of the loop: a request, and what its reply leads to. */
    method TryOnce<T>(reply: Reply<T>, b: Budgets, attempt: nat, maxAttempts: int, cap: real)
        returns (stopped: Option<Outcome<T>>, next: Budgets)
      requires Valid() && interval >= 0.0 && cap >= 0.0 && b.backoff >= 0.0 && b.transientBackoff >= 0.0
      modifies this
      ensures Valid() && log.Sent? && log.earlier == old(log)
      ensures old(paced) <= paced <= old(paced) + interval
      ensures Continues(reply, b, attempt, maxAttempts, cap) ==>
        stopped.None? && next == Spend(b, reply, cap) && backedOff == old(backedOff) + Pause(reply, b, cap)
      ensures !Continues(reply, b, attempt, maxAttempts, cap) ==>
        stopped == Some(Stop(reply, b, attempt)) && backedOff == old(backedOff)
    {
      Send();
      next := b;
      if IsRateLimit(reply) {
        var parsed := ParseRetryAfter(reply.retryAfter);
        var wait := if parsed.Some? then parsed.value else b.backoff;
        if attempt == maxAttempts - 1 || wait > cap {
          return Some(RateLimitExceeded(wait, attempt + 1)), next;
        }
        BackOff(wait);
        return None, b.(backoff := MinReal(b.backoff * 2.0, RATE_LIMIT_MAX_BACKOFF));
      }
      if IsTransientReply(reply) {
        var transients := b.transients + 1;
        if transients >= MAX_TRANSIENT_TRANSPORT_ATTEMPTS {
          return Some(TransportFailed(transients)), next;
        }
        BackOff(MinReal(b.transientBackoff, cap));
        return None, b.(transients := transients, transientBackoff := MinReal(b.transientBackoff * 2.0, cap));
      }
      match reply {
        case Body(value) => stopped := Some(Returned(value));
        case UndecodableBody => stopped := Some(RaisedUndecodable);
        case HttpError(code, _) => stopped := Some(RaisedHttp(code));
        case Network(e) => stopped := Some(RaisedNetwork(e));
      }
    }

    method PostJson<T>(replies: nat -> Reply<T>, maxAttempts: int, cap: real) returns (outcome: Outcome<T>)
      requires Valid() && interval >= 0.0
      modifies this
      ensures Valid()
      ensures outcome == CallOutcome(replies, maxAttempts, cap)
      ensures Follows(log, old(log), Requests(replies, maxAttempts, cap))
      // It slept exactly the backoffs of the retried attempts, and at most one interval per request to pace them.
      ensures outcome.InvalidArgument? ==> backedOff == old(backedOff) && paced == old(paced)
      ensures !outcome.InvalidArgument? ==>
        backedOff == BackoffSleep(old(backedOff), replies, FirstStop(replies, 0, maxAttempts, cap), cap) &&
        old(paced) <= paced <= old(paced) + Repeated(Requests(replies, maxAttempts, cap), interval)
    {
      hide Continues;
      hide Stop;
      hide Spend;
      hide Pause;
      if maxAttempts < 1 || cap < 0.0 {
        return InvalidArgument;
      }
      var budgets := FULL_BUDGETS;
      for attempt := 0 to maxAttempts
        invariant Valid()
        invariant FirstStop(replies, 0, maxAttempts, cap) == FirstStop(replies, attempt, maxAttempts, cap)
        invariant Follows(log, old(log), attempt)
        invariant backedOff == BackoffSleep(old(backedOff), replies, attempt, cap)
        invariant old(paced) <= paced <= old(paced) + Repeated(attempt, interval)
        invariant budgets == BudgetsAt(replies, attempt, cap)
      {
        BudgetsRange(replies, attempt, cap);
        var stopped;
        stopped, budgets := TryOnce(replies(attempt), budgets, attempt, maxAttempts, cap);
        if stopped.Some? {
          StopDecides(replies, attempt, maxAttempts, cap);
          return stopped.value;
        }
      }
      outcome := AssertionReached;
    }
  }

  /** The attempt at which the loop stops decides its outcome. */
  lemma StopDecides<T>(replies: nat -> Reply<T>, i: nat, maxAttempts: nat, cap: real)
    requires i < maxAttempts && cap >= 0.0 && !GoesOn(replies, i, maxAttempts, cap)
    requires FirstStop(replies, 0, maxAttempts, cap) == FirstStop(replies, i, maxAttempts, cap)
    ensures FirstStop(replies, 0, maxAttempts, cap) == i && Requests(replies, maxAttempts, cap) == i + 1
    ensures CallOutcome(replies, maxAttempts, cap) == Stop(replies(i), BudgetsAt(replies, i, cap), i)
    ensures !CallOutcome(replies, maxAttempts, cap).InvalidArgument?
  {
  }

  lemma {:induction false} BudgetsRange<T>(replies: nat -> Reply<T>, n: nat, cap: real)
    requires cap >= 0.0
    ensures RATE_LIMIT_INITIAL_BACKOFF <= BudgetsAt(replies, n, cap).backoff <= RATE_LIMIT_MAX_BACKOFF
    ensures BudgetsAt(replies, n, cap).transientBackoff >= 0.0
  {
    if n > 0 {
      BudgetsRange(replies, n - 1, cap);
    }
  }

  /** The variables are determined by how many replies of each kind came before. */
  lemma {:induction false} BudgetsCount<T>(replies: nat -> Reply<T>, n: nat, cap: real)
    ensures BudgetsAt(replies, n, cap).transients == Transients(replies, n)
    ensures BudgetsAt(replies, n, cap).backoff == RateLimitBackoff(RateLimits(replies, n))
  {
    if n > 0 {
      BudgetsCount(replies, n - 1, cap);
    }
  }

  /** What attempt i waits for, or would, when it is answered with 429. */
  function WaitAt<T>(replies: nat -> Reply<T>, i: nat): real
    requires IsRateLimit(replies(i))
  {
    Wait(replies(i), RateLimitBackoff(RateLimits(replies, i)))
  }

  /** Nothing but a 429 and a transient transport failure is ever retried. */
  lemma OnlyTheseAreRetried<T>(replies: nat -> Reply<T>, i: nat, maxAttempts: int, cap: real)
    requires GoesOn(replies, i, maxAttempts, cap)
    ensures match replies(i)
      case HttpError(code, _) => code == 429
      case Network(e) => Innermost(e) in {ConnectionReset, Timeout, TlsFailure}
      case _ => false
  {
    if replies(i).Network? { TransientByCause(replies(i).error); }
  }

  function TwoTo(k: nat): nat { if k == 0 then 1 else 2 * TwoTo(k - 1) }

  lemma {:induction false} TransientBackoffDoubles<T>(replies: nat -> Reply<T>, n: nat, cap: real)
    requires cap >= 0.0
    ensures MinReal(BudgetsAt(replies, n, cap).transientBackoff, cap) == MinReal(TwoTo(Transients(replies, n)) as real, cap)
    ensures BudgetsAt(replies, n, cap).transientBackoff >= 0.0
  {
    if n > 0 { TransientBackoffDoubles(replies, n - 1, cap); }
  }

  /** The wait after each retried attempt: what a usable Retry-After says; without one 2, 4, 8, 16 and then always 30
      seconds after successive 429 answers; 1 and 2 seconds after transient failures, at most the cap. */
  lemma WaitsAfterFailures<T>(replies: nat -> Reply<T>, i: nat, maxAttempts: int, cap: real)
    requires cap >= 0.0 && GoesOn(replies, i, maxAttempts, cap)
    ensures var pause := Pause(replies(i), BudgetsAt(replies, i, cap), cap);
      if IsRateLimit(replies(i)) then
        pause == (match replies(i).retryAfter
          case Delay(seconds) => if seconds >= 0.0 then seconds else Scheduled(RateLimits(replies, i))
          case Unreadable => Scheduled(RateLimits(replies, i)))
      else pause == MinReal(if Transients(replies, i) == 0 then 1.0 else 2.0, cap)
  {
    BudgetsCount(replies, i, cap);
    TransientBackoffDoubles(replies, i, cap);
    BackoffIsScheduled(RateLimits(replies, i));
    assert TwoTo(0) == 1 && TwoTo(1) == 2;
  }

  function Scheduled(k: nat): real {
    if k < 4 then [2.0, 4.0, 8.0, 16.0][k] else 30.0
  }

  lemma {:induction false} BackoffIsScheduled(k: nat)
    ensures RateLimitBackoff(k) == Scheduled(k)
  {
    if k > 0 { BackoffIsScheduled(k - 1); }
  }

  // ---- What the loop guarantees for every trace of replies ----

  /** Everything before the stop was retryable, and the stop was not. */
  lemma {:induction false} FirstStopIsLeast<T>(replies: nat -> Reply<T>, i: nat, maxAttempts: nat, cap: real)
    requires i <= maxAttempts
    ensures var j := FirstStop(replies, i, maxAttempts, cap);
            (forall k :: i <= k < j ==> GoesOn(replies, k, maxAttempts, cap)) &&
            (j < maxAttempts ==> !GoesOn(replies, j, maxAttempts, cap))
    decreases maxAttempts - i
  {
    if i < maxAttempts && GoesOn(replies, i, maxAttempts, cap) {
      FirstStopIsLeast(replies, i + 1, maxAttempts, cap);
    }
  }

  lemma {:induction false} StopIsUnique<T>(replies: nat -> Reply<T>, i: nat, j: nat, maxAttempts: nat, cap: real)
    requires i <= j <= maxAttempts
    requires forall k :: i <= k < j ==> GoesOn(replies, k, maxAttempts, cap)
    requires j < maxAttempts ==> !GoesOn(replies, j, maxAttempts, cap)
    ensures FirstStop(replies, i, maxAttempts, cap) == j
    decreases j - i
  {
    if i < j {
      StopIsUnique(replies, i + 1, j, maxAttempts, cap);
    }
  }

  // ---- How a call ends ----

  /** The wait after a 429: what a usable Retry-After says, or the fallback after as many earlier ones. */
  ghost predicate IsWait<T>(replies: nat -> Reply<T>, i: nat, wait: real)
    requires IsRateLimit(replies(i))
  {
    wait == match replies(i).retryAfter
      case Delay(seconds) => if seconds >= 0.0 then seconds else Scheduled(RateLimits(replies, i))
      case Unreadable => Scheduled(RateLimits(replies, i))
  }

  /** An attempt is retried exactly when it is answered by a 429 with an acceptable wait, and is not the last, or fails
      in transport for the first or second time. */
  lemma GoesOnExactlyWhen<T>(replies: nat -> Reply<T>, i: nat, maxAttempts: int, cap: real)
    ensures GoesOn(replies, i, maxAttempts, cap) <==>
      || (IsRateLimit(replies(i)) && i != maxAttempts - 1 && WaitAt(replies, i) <= cap)
      || (IsTransientReply(replies(i)) && Transients(replies, i) < MAX_TRANSIENT_TRANSPORT_ATTEMPTS - 1)
    ensures IsRateLimit(replies(i)) ==> IsWait(replies, i, WaitAt(replies, i))
  {
    BudgetsCount(replies, i, cap);
    BackoffIsScheduled(RateLimits(replies, i));
  }

  /** Every earlier attempt is retried, and this one is made. */
  ghost predicate Reaches<T>(replies: nat -> Reply<T>, j: nat, maxAttempts: int, cap: real) {
    j < maxAttempts && forall k :: 0 <= k < j ==> GoesOn(replies, k, maxAttempts, cap)
  }

  /** The reply that ends a call, and what the call comes to with it. */
  ghost predicate EndsWith<T>(replies: nat -> Reply<T>, j: nat, maxAttempts: int, cap: real, outcome: Outcome<T>) {
    Reaches(replies, j, maxAttempts, cap) &&
    match outcome
    case Returned(value) => replies(j) == Body(value)
    case RaisedUndecodable => replies(j).UndecodableBody?
    case RaisedHttp(code) => replies(j).HttpError? && replies(j).code == code != TOO_MANY_REQUESTS
    case RaisedNetwork(e) => replies(j) == Network(e) && !IsTransient(e)
    case RateLimitExceeded(wait, attempts) =>
      && IsRateLimit(replies(j)) && IsWait(replies, j, wait) && attempts == j + 1
      && (attempts == maxAttempts || wait > cap)
    case TransportFailed(attempts) =>
      IsTransientReply(replies(j)) && Transients(replies, j + 1) == attempts == MAX_TRANSIENT_TRANSPORT_ATTEMPTS
    case _ => false
  }

  /** A call comes to an outcome exactly when some attempt that is made ends it so: a decoded body is returned, and
      each failure that is not retried is raised as what it is. */
  lemma OutcomeExactlyWhen<T>(replies: nat -> Reply<T>, maxAttempts: int, cap: real, outcome: Outcome<T>)
    requires maxAttempts >= 1 && cap >= 0.0 && !outcome.AssertionReached?
    ensures CallOutcome(replies, maxAttempts, cap) == outcome <==>
      exists j :: 0 <= j < maxAttempts && EndsWith(replies, j, maxAttempts, cap, outcome)
  {
    FirstStopIsLeast(replies, 0, maxAttempts, cap);
    var stop := FirstStop(replies, 0, maxAttempts, cap);
    if stop < maxAttempts { StopEndsWith(replies, stop, maxAttempts, cap); }
    if j :| 0 <= j < maxAttempts && EndsWith(replies, j, maxAttempts, cap, outcome) {
      GoesOnExactlyWhen(replies, j, maxAttempts, cap);
      StopIsUnique(replies, 0, j, maxAttempts, cap);
      OneEnding(replies, j, maxAttempts, cap, outcome, Stop(replies(j), BudgetsAt(replies, j, cap), j));
    }
  }

  /** How many requests a call sends: none for arguments it refuses, those up to the reply that ends it, or all. */
  lemma RequestsExactlyWhen<T>(replies: nat -> Reply<T>, maxAttempts: int, cap: real)
    ensures CallOutcome(replies, maxAttempts, cap).InvalidArgument? <==> maxAttempts < 1 || cap < 0.0
    ensures var outcome, sent := CallOutcome(replies, maxAttempts, cap), Requests(replies, maxAttempts, cap);
      if outcome.InvalidArgument? then sent == 0
      else if outcome.AssertionReached? then sent == maxAttempts
      else sent > 0 && EndsWith(replies, sent - 1, maxAttempts, cap, outcome)
  {
    if maxAttempts >= 1 && cap >= 0.0 {
      FirstStopIsLeast(replies, 0, maxAttempts, cap);
      var stop := FirstStop(replies, 0, maxAttempts, cap);
      if stop < maxAttempts { StopEndsWith(replies, stop, maxAttempts, cap); }
    }
  }

  lemma StopEndsWith<T>(replies: nat -> Reply<T>, j: nat, maxAttempts: int, cap: real)
    requires Reaches(replies, j, maxAttempts, cap) && !GoesOn(replies, j, maxAttempts, cap)
    ensures EndsWith(replies, j, maxAttempts, cap, Stop(replies(j), BudgetsAt(replies, j, cap), j))
  {
    GoesOnExactlyWhen(replies, j, maxAttempts, cap);
    BudgetsCount(replies, j, cap);
    TransientsBeforeStop(replies, j, maxAttempts, cap);
  }

  lemma OneEnding<T>(replies: nat -> Reply<T>, j: nat, maxAttempts: int, cap: real, a: Outcome<T>, b: Outcome<T>)
    requires EndsWith(replies, j, maxAttempts, cap, a) && EndsWith(replies, j, maxAttempts, cap, b)
    ensures a == b
  {
    hide Reaches;
  }

  /** At most `maxAttempts` requests are sent and at most three of them fail in transport. */
  lemma BudgetsHold<T>(replies: nat -> Reply<T>, maxAttempts: int, cap: real)
    ensures Requests(replies, maxAttempts, cap) <= if maxAttempts < 0 then 0 else maxAttempts
    ensures Transients(replies, Requests(replies, maxAttempts, cap)) <= MAX_TRANSIENT_TRANSPORT_ATTEMPTS
  {
    if maxAttempts >= 1 && cap >= 0.0 {
      var j := FirstStop(replies, 0, maxAttempts, cap);
      FirstStopIsLeast(replies, 0, maxAttempts, cap);
      TransientsBeforeStop(replies, j, maxAttempts, cap);
    }
  }

  lemma {:induction false} TransientsBeforeStop<T>(replies: nat -> Reply<T>, j: nat, maxAttempts: int, cap: real)
    requires forall k :: 0 <= k < j ==> GoesOn(replies, k, maxAttempts, cap)
    ensures Transients(replies, j) < MAX_TRANSIENT_TRANSPORT_ATTEMPTS
  {
    if j > 0 {
      TransientsBeforeStop(replies, j - 1, maxAttempts, cap);
      BudgetsCount(replies, j - 1, cap);
      assert GoesOn(replies, j - 1, maxAttempts, cap);
    }
  }

  lemma {:induction false} TransientsMonotone<T>(replies: nat -> Reply<T>, m: nat, n: nat)
    requires m <= n
    ensures Transients(replies, m) <= Transients(replies, n)
  {
    if m < n {
      TransientsMonotone(replies, m, n - 1);
    }
  }

  lemma {:induction false} BackoffSleepIsBounded<T>(before: real, replies: nat -> Reply<T>, n: nat, maxAttempts: int, cap: real)
    requires cap >= 0.0
    requires forall k :: 0 <= k < n ==> GoesOn(replies, k, maxAttempts, cap)
    ensures BackoffSleep(before, replies, n, cap) <= before + Repeated(n, cap)
  {
    if n > 0 {
      BackoffSleepIsBounded(before, replies, n - 1, maxAttempts, cap);
      assert GoesOn(replies, n - 1, maxAttempts, cap);
    }
  }

  lemma {:induction false} RepeatedMonotone(m: nat, n: nat, x: real)
    requires m <= n && x >= 0.0
    ensures Repeated(m, x) <= Repeated(n, x)
  {
    if m < n {
      RepeatedMonotone(m, n - 1, x);
    }
  }

  lemma {:induction false} RepeatedAdds(n: nat, x: real, y: real)
    ensures Repeated(n, x) + Repeated(n, y) == Repeated(n, x + y)
  {
    if n > 0 {
      RepeatedAdds(n - 1, x, y);
    }
  }

  /** Pacing and backoff together: at most one interval and one cap per allowed attempt. */
  lemma TotalSleepIsBounded<T>(before: real, replies: nat -> Reply<T>, maxAttempts: int, cap: real, interval: real)
    requires maxAttempts >= 1 && cap >= 0.0 && interval >= 0.0
    ensures BackoffSleep(before, replies, FirstStop(replies, 0, maxAttempts, cap), cap) - before + Repeated(Requests(replies, maxAttempts, cap), interval)
            <= Repeated(maxAttempts, interval + cap)
  {
    var j := FirstStop(replies, 0, maxAttempts, cap);
    FirstStopIsLeast(replies, 0, maxAttempts, cap);
    BackoffSleepIsBounded(before, replies, j, maxAttempts, cap);
    RepeatedMonotone(j, maxAttempts, cap);
    RepeatedMonotone(Requests(replies, maxAttempts, cap), maxAttempts, interval);
    RepeatedAdds(maxAttempts, interval, cap);
  }

  /** The assertion after the loop, marked unreachable in the source, is reached exactly when every attempt fails
      retryably, the last one is a transient failure, and fewer than three were. */
  lemma AssertionReachedExactlyWhen<T>(replies: nat -> Reply<T>, maxAttempts: int, cap: real)
    requires maxAttempts >= 1 && cap >= 0.0
    ensures CallOutcome(replies, maxAttempts, cap).AssertionReached? <==>
      (forall i :: 0 <= i < maxAttempts ==>
        IsTransientReply(replies(i)) || (IsRateLimit(replies(i)) && WaitAt(replies, i) <= cap)) &&
      IsTransientReply(replies(maxAttempts - 1)) &&
      Transients(replies, maxAttempts) < MAX_TRANSIENT_TRANSPORT_ATTEMPTS
  {
    FirstStopIsLeast(replies, 0, maxAttempts, cap);
    var j := FirstStop(replies, 0, maxAttempts, cap);
    if j == maxAttempts {
      assert GoesOn(replies, maxAttempts - 1, maxAttempts, cap);
      forall i | 0 <= i < maxAttempts
        ensures IsTransientReply(replies(i)) || (IsRateLimit(replies(i)) && WaitAt(replies, i) <= cap)
      {
        BudgetsCount(replies, i, cap);
        assert GoesOn(replies, i, maxAttempts, cap);
      }
      TransientsBeforeStop(replies, maxAttempts, maxAttempts, cap);
    } else {
      BudgetsCount(replies, j, cap);
      TransientsMonotone(replies, j + 1, maxAttempts);
    }
  }

  /** The smallest way to reach it: a single attempt whose connection is reset. */
  lemma OneResetReachesTheAssertion<T>(replies: nat -> Reply<T>, cap: real)
    requires replies(0) == Network(ConnectionReset) && cap >= 0.0
    ensures CallOutcome(replies, 1, cap) == AssertionReached
  {
    assert Transients(replies, 1) == Transients(replies, 0) + 1;
    AssertionReachedExactlyWhen(replies, 1, cap);
  }

  /** Attempt j is the third transient failure, and the loop gets there. */
  ghost predicate MeetsThirdTransient<T>(replies: nat -> Reply<T>, j: nat, maxAttempts: int, cap: real) {
    IsTransientReply(replies(j)) && Transients(replies, j + 1) == MAX_TRANSIENT_TRANSPORT_ATTEMPTS &&
    forall k :: 0 <= k < j ==> GoesOn(replies, k, maxAttempts, cap)
  }

  /** A transport failure is raised exactly when the third transient failure is met before anything else ends the call. */
  lemma TransportFailsExactlyOnTheThird<T>(replies: nat -> Reply<T>, maxAttempts: int, cap: real)
    requires maxAttempts >= 1 && cap >= 0.0
    ensures CallOutcome(replies, maxAttempts, cap).TransportFailed? <==>
      exists j :: 0 <= j < maxAttempts && MeetsThirdTransient(replies, j, maxAttempts, cap)
    ensures CallOutcome(replies, maxAttempts, cap).TransportFailed? ==>
      CallOutcome(replies, maxAttempts, cap).attempts == MAX_TRANSIENT_TRANSPORT_ATTEMPTS
  {
    FirstStopIsLeast(replies, 0, maxAttempts, cap);
    var j := FirstStop(replies, 0, maxAttempts, cap);
    TransientsBeforeStop(replies, j, maxAttempts, cap);
    BudgetsCount(replies, j, cap);
    assert CallOutcome(replies, maxAttempts, cap).TransportFailed? ==> MeetsThirdTransient(replies, j, maxAttempts, cap);
    if k :| 0 <= k < maxAttempts && MeetsThirdTransient(replies, k, maxAttempts, cap) {
      BudgetsCount(replies, k, cap);
      StopIsUnique(replies, 0, k, maxAttempts, cap);
    }
  }

  /** With a cap of at least thirty seconds, a 429 without a usable Retry-After only ends the call on the last attempt. */
  lemma FallbackWaitsNeverEndTheCall<T>(replies: nat -> Reply<T>, maxAttempts: int, cap: real, wait: real, attempts: nat)
    requires cap >= RATE_LIMIT_MAX_BACKOFF
    requires CallOutcome(replies, maxAttempts, cap) == RateLimitExceeded(wait, attempts)
    ensures 1 <= attempts <= maxAttempts && IsRateLimit(replies(attempts - 1))
    ensures ParseRetryAfter(replies(attempts - 1).retryAfter).None? ==> attempts == maxAttempts
    ensures attempts < maxAttempts ==> wait > cap
  {
    FirstStopIsLeast(replies, 0, maxAttempts, cap);
    BudgetsRange(replies, attempts - 1, cap);
  }
}
