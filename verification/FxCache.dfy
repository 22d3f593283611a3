/** The FX rate provider (providers/fx_frankfurter.py): a bounded request loop, and a cache that always holds the
    last good response for each currency pair, with the shared policy functions of providers/policy.py. */
module FxCache {
  import opened Common
  import Money

  // ---- Policy ----

  datatype Status = Success | InvalidRequest | Unsupported | TimedOut | RateLimited | ProviderError

  function ClassifyHttpStatus(code: int): Status {
    if 200 <= code < 300 then Success
    else if code == 400 || code == 422 then InvalidRequest
    else if code == 404 then Unsupported
    else if code == 408 then TimedOut
    else if code == 429 then RateLimited
    else if code == 504 then TimedOut
    else ProviderError
  }

  /** Only success, 400, 404 and 422 are final; a timeout is 408 or 504, a rate limit 429. */
  lemma StatusesByCode(code: int)
    ensures !IsRetried(ClassifyHttpStatus(code)) <==> 200 <= code < 300 || code in {400, 404, 422}
    ensures ClassifyHttpStatus(code) == Success <==> 200 <= code < 300
    ensures ClassifyHttpStatus(code) == Unsupported <==> code == 404
    ensures ClassifyHttpStatus(code) == RateLimited <==> code == 429
    ensures ClassifyHttpStatus(code) == TimedOut <==> code in {408, 504}
    ensures ClassifyHttpStatus(code) == InvalidRequest <==> code in {400, 422}
  {
  }

  predicate IsRetried(s: Status) { s in {TimedOut, RateLimited, ProviderError} }

  datatype RetryPolicy = RetryPolicy(maxRetries: nat, baseBackoff: real, maxBackoff: real, respectRetryAfter: bool)

  function Doubled(x: real, n: nat): real {
    if n == 0 then x else 2.0 * Doubled(x, n - 1)
  }

  function Backoff(attempt: nat, policy: RetryPolicy, retryAfter: Option<real>): real {
    if policy.respectRetryAfter && retryAfter.Some? then MaxReal(0.0, MinReal(retryAfter.value, policy.maxBackoff))
    else MinReal(Doubled(policy.baseBackoff, attempt), policy.maxBackoff)
  }

  lemma {:induction false} DoubledGrows(x: real, n: nat)
    requires x >= 0.0
    ensures Doubled(x, n) >= 0.0
  {
    if n > 0 {
      DoubledGrows(x, n - 1);
    }
  }

  /** Whatever Retry-After says, a wait is never negative and never longer than the policy's maximum. */
  lemma BackoffIsBounded(attempt: nat, policy: RetryPolicy, retryAfter: Option<real>)
    requires policy.baseBackoff >= 0.0 && policy.maxBackoff >= 0.0
    ensures 0.0 <= Backoff(attempt, policy, retryAfter) <= policy.maxBackoff
  {
    DoubledGrows(policy.baseBackoff, attempt);
  }

  /** A wait is what Retry-After says, cut to the range from zero to the maximum; without it, or when it is not to be
      respected, it starts at the base and doubles with every attempt up to the maximum. */
  lemma BackoffIs(attempt: nat, policy: RetryPolicy, seconds: real)
    requires policy.baseBackoff >= 0.0 && policy.maxBackoff >= 0.0
    ensures policy.respectRetryAfter ==>
      var wait := Backoff(attempt, policy, Some(seconds));
      && (0.0 <= seconds <= policy.maxBackoff ==> wait == seconds)
      && (seconds < 0.0 ==> wait == 0.0) && (seconds > policy.maxBackoff ==> wait == policy.maxBackoff)
    ensures !policy.respectRetryAfter ==> Backoff(attempt, policy, Some(seconds)) == Backoff(attempt, policy, None)
    ensures Backoff(0, policy, None) == MinReal(policy.baseBackoff, policy.maxBackoff)
    ensures Backoff(attempt + 1, policy, None) == MinReal(2.0 * Backoff(attempt, policy, None), policy.maxBackoff)
  {
    DoubledGrows(policy.baseBackoff, attempt);
  }

  // ---- Requests ----

  datatype RawRate = Decimal(text: string) | NotDecimal

  datatype RawDate = DateText(text: string) | NullDate | OtherDate

  /** A body without a date has None. */
  datatype Body = Unreadable | Json(rates: map<string, RawRate>, date: Option<RawDate>)

  datatype Reply = TransportFailure | Response(code: int, retryAfter: Option<real>, body: Body)

  type Pair = (string, string)

  datatype Quote = Quote(base: string, quote: string, rate: string, date: RawDate)

  function Parse(body: Body, pair: Pair): Option<Quote> {
    if body.Json? && pair.1 in body.rates && body.date.Some? && body.rates[pair.1].Decimal?
    then Some(Quote(pair.0, pair.1, body.rates[pair.1].text, body.date.value))
    else None
  }

  function StatusOf(r: Reply): Status {
    if r.TransportFailure? then TimedOut else ClassifyHttpStatus(r.code)
  }

  function RetryAfterOf(r: Reply): Option<real> {
    if r.Response? && StatusOf(r) == RateLimited then r.retryAfter else None
  }

  /** The reply that ends the loop: the first that is not retried, or the last one allowed. */
  function Final(replies: nat -> Reply, n: nat, maxRetries: nat): (m: nat)
    requires n <= maxRetries
    ensures n <= m <= maxRetries
    ensures m < maxRetries ==> !IsRetried(StatusOf(replies(m)))
    ensures forall k :: n <= k < m ==> IsRetried(StatusOf(replies(k)))
    decreases maxRetries - n
  {
    if n == maxRetries || !IsRetried(StatusOf(replies(n))) then n else Final(replies, n + 1, maxRetries)
  }

  predicate IsFinalCode(code: int) { 200 <= code < 300 || code in {400, 404, 422} }

  /** Requests go on past transport failures and every status but success, 400, 404 and 422, and stop at the first of
      these; without one, all allowed requests are made. */
  lemma OnlyFinalCodesEndTheRequests(replies: nat -> Reply, maxRetries: nat)
    ensures var last := Final(replies, 0, maxRetries);
      && (forall k :: 0 <= k < last ==> replies(k).TransportFailure? || !IsFinalCode(replies(k).code))
      && (last < maxRetries ==> !replies(last).TransportFailure? && IsFinalCode(replies(last).code))
  {
    hide ClassifyHttpStatus;
    var last := Final(replies, 0, maxRetries);
    if !replies(last).TransportFailure? { StatusesByCode(replies(last).code); }
    forall k | 0 <= k < last ensures replies(k).TransportFailure? || !IsFinalCode(replies(k).code) {
      if !replies(k).TransportFailure? { StatusesByCode(replies(k).code); }
    }
  }

  function Fetched(replies: nat -> Reply, maxRetries: nat): Result<Body, Status> {
    var last := replies(Final(replies, 0, maxRetries));
    if StatusOf(last) == Success then Ok(last.body) else Err(StatusOf(last))
  }

  function TotalBackoff(replies: nat -> Reply, n: nat, policy: RetryPolicy): real {
    if n == 0 then 0.0
    else TotalBackoff(replies, n - 1, policy) + Backoff(n - 1, policy, RetryAfterOf(replies(n - 1)))
  }

  /** What is slept in all: after each retried reply the wait for its attempt, which Retry-After decides after a 429
      and after no other reply. */
  lemma WaitsBetweenRequests(replies: nat -> Reply, n: nat, policy: RetryPolicy)
    ensures TotalBackoff(replies, 0, policy) == 0.0
    ensures TotalBackoff(replies, n + 1, policy) == TotalBackoff(replies, n, policy) +
      Backoff(n, policy, if !replies(n).TransportFailure? && replies(n).code == 429 then replies(n).retryAfter else None)
  {
    hide Backoff;
    if !replies(n).TransportFailure? { StatusesByCode(replies(n).code); }
  }

  method RequestWithRetries(replies: nat -> Reply, policy: RetryPolicy)
    returns (r: Result<Body, Status>, requests: nat, slept: real)
    ensures r == Fetched(replies, policy.maxRetries)
    ensures requests == Final(replies, 0, policy.maxRetries) + 1
    ensures slept == TotalBackoff(replies, requests - 1, policy)
  {
    hide Backoff;
    var lastStatus := ProviderError;
    requests, slept := 0, 0.0;
    for attempt := 0 to policy.maxRetries + 1
      invariant requests == attempt
      invariant attempt <= policy.maxRetries ==>
        Final(replies, 0, policy.maxRetries) == Final(replies, attempt, policy.maxRetries) &&
        slept == TotalBackoff(replies, attempt, policy)
      invariant attempt > policy.maxRetries ==>
        Final(replies, 0, policy.maxRetries) == policy.maxRetries && slept == TotalBackoff(replies, policy.maxRetries, policy) &&
        lastStatus == StatusOf(replies(policy.maxRetries)) && IsRetried(lastStatus)
    {
      var reply := replies(attempt);
      requests := requests + 1;
      var retryAfter: Option<real> := None;
      if reply.TransportFailure? {
        lastStatus := TimedOut;
      } else {
        if 200 <= reply.code < 300 {
          return Ok(reply.body), requests, slept;
        }
        lastStatus := ClassifyHttpStatus(reply.code);
        if lastStatus == RateLimited {
          retryAfter := reply.retryAfter;
        }
        if !IsRetried(lastStatus) {
          return Err(lastStatus), requests, slept;
        }
      }
      if attempt < policy.maxRetries {
        slept := slept + Backoff(attempt, policy, retryAfter);
      }
    }
    return Err(lastStatus), requests, slept;
  }

  // ---- The cache, as a function of what happened ----

  datatype Kind = ServedFresh | Refetched(quote: Quote) | RefetchFailed(status: Status)

  datatype Event = Event(pair: Pair, at: real, kind: Kind)

  type History = seq<Event>

  /** The last response parsed for a pair, and when it was asked for. */
  function LastGood(h: History, pair: Pair): Option<(Quote, real)> {
    if h == [] then None
    else var e := h[|h| - 1];
      if e.pair == pair && e.kind.Refetched? then Some((e.kind.quote, e.at)) else LastGood(h[..|h| - 1], pair)
  }

  function Age(stored: real, now: real): real { MaxReal(0.0, now - stored) }

  /** A cached quote no older than the time to live. */
  predicate Fresh(h: History, pair: Pair, now: real, ttl: real) {
    LastGood(h, pair).Some? && Age(LastGood(h, pair).value.1, now) <= ttl
  }

  datatype CacheStatus = Hit | Miss | Stale | Bypass

  /** The fields of an answer that depend on the cache; no quote means a degraded answer. */
  datatype Answer = Answer(status: Status, quote: Option<Quote>, cacheStatus: CacheStatus, cacheAge: Option<int>)

  // ---- What the schema asks of an envelope ----

  predicate IsCode(s: string) {
    |Line(s)| == 3 && forall i :: 0 <= i < 3 ==> 'A' <= Line(s)[i] <= 'Z'
  }

  predicate AreDigits(s: string) { s != "" && forall i :: 0 <= i < |s| ==> '0' <= s[i] <= '9' }

  /** Digits, and perhaps a point and more digits: no sign and no exponent. */
  predicate IsPlainDecimal(s: string) {
    AreDigits(s) || exists i :: 0 <= i < |s| && s[i] == '.' && AreDigits(s[..i]) && AreDigits(s[i + 1..])
  }

  predicate QuoteValidates(q: Quote, isDate: string -> bool) {
    IsPlainDecimal(Line(q.rate)) && !q.date.OtherDate? && (q.date.DateText? ==> isDate(q.date.text))
  }

  predicate AreCodes(pair: Pair) { IsCode(pair.0) && IsCode(pair.1) }

  /** The answer a caller gets; None when validating its envelope raises. */
  function Delivered(a: Answer, pair: Pair, isDate: string -> bool): Option<Answer> {
    if AreCodes(pair) && (a.quote.Some? ==> QuoteValidates(a.quote.value, isDate)) then Some(a) else None
  }

  // ---- The provider ----

  datatype Entry = Entry(value: Quote, storedAt: real, ttl: real)

  function CacheStatusFor(entry: Option<Entry>, now: real): (CacheStatus, Option<int>) {
    if entry.None? then (Miss, None)
    else
      var age := Age(entry.value.storedAt, now);
      (if age > entry.value.ttl then Stale else Hit, Some(age.Floor))
  }

  /** What one call does when nothing fresh is cached, given what its requests came to. */
  function RefetchKind(replies: nat -> Reply, maxRetries: nat, pair: Pair): Kind {
    match Fetched(replies, maxRetries)
    case Err(status) => RefetchFailed(status)
    case Ok(body) =>
      var parsed := Parse(body, pair);
      if parsed.Some? then Refetched(parsed.value) else RefetchFailed(ProviderError)
  }

  function AnswerFor(last: Option<(Quote, real)>, now: real, kind: Kind): Answer {
    match kind
    case ServedFresh => Answer(Success, if last.Some? then Some(last.value.0) else None, Hit,
                               if last.Some? then Some(Age(last.value.1, now).Floor) else None)
    case Refetched(quote) => Answer(Success, Some(quote), Miss, None)
    case RefetchFailed(status) =>
      if last.Some? then Answer(Success, Some(last.value.0), Stale, Some(Age(last.value.1, now).Floor))
      else Answer(status, None, Bypass, None)
  }

  class FxProvider {
    const policy: RetryPolicy
    const ttl: real
    const isDate: string -> bool    // the schema's check of a date
    var cache: map<Pair, Entry>
    var requests: nat
    ghost var history: History

    /** The cache holds exactly the last parsed response of every pair, and nothing else. */
    ghost predicate Valid()
      reads this
    {
      (forall pair :: pair in cache <==> LastGood(history, pair).Some?) &&
      (forall pair <- cache :: cache[pair] == Entry(LastGood(history, pair).value.0, LastGood(history, pair).value.1, ttl)) &&
      Faithful(history, ttl)
    }

    constructor (policy: RetryPolicy, ttl: real, isDate: string -> bool)
      ensures Valid() && history == [] && this.policy == policy && this.ttl == ttl && this.isDate == isDate
    {
      this.policy, this.ttl, this.isDate := policy, ttl, isDate;
      cache, requests, history := map[], 0, [];
    }

    method FetchRate(base: string, quote: string, now: real, replies: nat -> Reply) returns (r: Option<Answer>)
      requires Valid()
      modifies this
      ensures Valid()
      ensures var pair := (Money.Upper(base), Money.Upper(quote));
        var usable := Fresh(old(history), pair, now, ttl);
        var kind := if usable then ServedFresh else RefetchKind(replies, policy.maxRetries, pair);
        history == old(history) + [Event(pair, now, kind)] &&
        r == Delivered(AnswerFor(LastGood(old(history), pair), now, kind), pair, isDate) &&
        requests == old(requests) + (if usable then 0 else Final(replies, 0, policy.maxRetries) + 1)
    {
      var pair := (Money.Upper(base), Money.Upper(quote));
      var entry := if pair in cache then Some(cache[pair]) else None;
      var (cacheStatus, cacheAge) := CacheStatusFor(entry, now);
      var a: Answer, kind: Kind;
      if entry.Some? && cacheStatus == Hit {
        a, kind := Answer(Success, Some(entry.value.value), Hit, cacheAge), ServedFresh;
      } else {
        var response, sent, _ := RequestWithRetries(replies, policy);
        requests := requests + sent;
        var parsed := if response.Ok? then Parse(response.value, pair) else None;
        if parsed.Some? {
          cache := cache[pair := Entry(parsed.value, now, ttl)];
          a, kind := Answer(Success, parsed, Miss, None), Refetched(parsed.value);
        } else {
          var failure := if response.Ok? then ProviderError else response.error;
          kind := RefetchFailed(failure);
          a := if entry.Some? then Answer(Success, Some(entry.value.value), Stale, cacheAge)
               else Answer(failure, None, Bypass, None);
        }
      }
      Extend(history, Event(pair, now, kind), ttl);
      history := history + [Event(pair, now, kind)];
      r := Delivered(a, pair, isDate);
    }
  }

  // ---- What every history of calls looks like ----

  /** A response is refetched only when nothing fresh is cached, a cached one served only when it is, and what is
      parsed for a pair is a quote of that pair. */
  ghost predicate Faithful(h: History, ttl: real) {
    h == [] ||
    (Faithful(h[..|h| - 1], ttl) &&
     var e := h[|h| - 1];
     (e.kind.ServedFresh? <==> Fresh(h[..|h| - 1], e.pair, e.at, ttl)) &&
     (e.kind.Refetched? ==> (e.kind.quote.base, e.kind.quote.quote) == e.pair))
  }

  lemma Extend(h: History, e: Event, ttl: real)
    requires Faithful(h, ttl)
    requires e.kind.ServedFresh? <==> Fresh(h, e.pair, e.at, ttl)
    requires e.kind.Refetched? ==> (e.kind.quote.base, e.kind.quote.quote) == e.pair
    ensures Faithful(h + [e], ttl)
    ensures forall pair ::
      LastGood(h + [e], pair) == (if e.pair == pair && e.kind.Refetched? then Some((e.kind.quote, e.at)) else LastGood(h, pair))
  {
    assert (h + [e])[..|h + [e]| - 1] == h;
  }

  /** What is cached for a pair was parsed from a response to a request for that pair, at an earlier call. */
  lemma {:induction false} CachedQuoteWasFetched(h: History, pair: Pair, ttl: real) returns (i: nat)
    requires Faithful(h, ttl) && LastGood(h, pair).Some?
    ensures i < |h| && h[i] == Event(pair, LastGood(h, pair).value.1, Refetched(LastGood(h, pair).value.0))
    ensures (LastGood(h, pair).value.0.base, LastGood(h, pair).value.0.quote) == pair
    ensures forall k :: i < k < |h| && h[k].pair == pair ==> !h[k].kind.Refetched?
  {
    var e := h[|h| - 1];
    if e.pair == pair && e.kind.Refetched? {
      i := |h| - 1;
    } else {
      i := CachedQuoteWasFetched(h[..|h| - 1], pair, ttl);
    }
  }

  /** Two successful fetches of one pair are more than a time to live apart. */
  lemma {:induction false} SuccessfulFetchesAreSpaced(h: History, ttl: real, i: nat, j: nat)
    requires Faithful(h, ttl) && ttl >= 0.0 && i < j < |h|
    requires h[i].pair == h[j].pair && h[i].kind.Refetched? && h[j].kind.Refetched?
    requires forall k :: 0 < k < |h| ==> h[k - 1].at <= h[k].at
    ensures h[j].at - h[i].at > ttl
    decreases |h|
  {
    if j < |h| - 1 {
      SuccessfulFetchesAreSpaced(h[..|h| - 1], ttl, i, j);
    } else {
      var front := h[..j];
      assert front[i] == h[i];
      LastGoodIsLatest(front, h[j].pair, i);
      TimesAscend(h, i, j);
      var k := CachedQuoteWasFetched(front, h[j].pair, ttl);
      TimesAscend(h, i, k);
    }
  }

  lemma {:induction false} LastGoodIsLatest(h: History, pair: Pair, i: nat)
    requires i < |h| && h[i].pair == pair && h[i].kind.Refetched?
    ensures LastGood(h, pair).Some?
  {
    if i < |h| - 1 {
      LastGoodIsLatest(h[..|h| - 1], pair, i);
    }
  }

  lemma {:induction false} TimesAscend(h: History, i: nat, j: nat)
    requires i <= j < |h|
    requires forall k :: 0 < k < |h| ==> h[k - 1].at <= h[k].at
    ensures h[i].at <= h[j].at
  {
    if i < j {
      TimesAscend(h, i, j - 1);
    }
  }

  /** What a refetch comes to, told from the reply that ended the requests. */
  lemma RefetchesExactlyWhen(replies: nat -> Reply, maxRetries: nat, pair: Pair, quote: Quote)
    ensures var kind, last := RefetchKind(replies, maxRetries, pair), replies(Final(replies, 0, maxRetries));
      var failed := last.TransportFailure?;
      var parsed := !failed && 200 <= last.code < 300 && Holds(last.body, pair, quote);
      && (kind == Refetched(quote) <==> parsed)
      && (kind == RefetchFailed(TimedOut) <==> failed || last.code in {408, 504})
      && (kind == RefetchFailed(RateLimited) <==> !failed && last.code == 429)
      && (kind == RefetchFailed(InvalidRequest) <==> !failed && last.code in {400, 422})
      && (kind == RefetchFailed(Unsupported) <==> !failed && last.code == 404)
      && kind != ServedFresh && kind != RefetchFailed(Success)
  {
    var last := replies(Final(replies, 0, maxRetries));
    if !last.TransportFailure? { StatusesByCode(last.code); }
    hide Final;
    hide ClassifyHttpStatus;
  }

  /** The body names this quote: the pair asked for, its rate under the second code, and the body's date. */
  predicate Holds(body: Body, pair: Pair, quote: Quote) {
    && (quote.base, quote.quote) == pair
    && body.Json? && pair.1 in body.rates && body.rates[pair.1] == Decimal(quote.rate) && body.date == Some(quote.date)
  }

  /** A call is answered, rather than ended by an exception, exactly when both codes are three capitals and the quote of
      the pair parsed last, at this call or before, is one the schema takes.  An answer is a success exactly when there
      is such a quote, is stale exactly when a refetch failed on top of one, and carries no other quote. */
  lemma AnswersAreHonest(h: History, e: Event, ttl: real, isDate: string -> bool)
    requires Faithful(h, ttl) && Faithful(h + [e], ttl)
    requires e.kind.RefetchFailed? ==> e.kind.status != Success
    ensures var r, known := Delivered(AnswerFor(LastGood(h, e.pair), e.at, e.kind), e.pair, isDate), LastGood(h + [e], e.pair);
      && (r.Some? <==> IsCode(e.pair.0) && IsCode(e.pair.1) && (known.Some? ==> QuoteValidates(known.value.0, isDate)))
      && (r.Some? ==>
            && (r.value.status == Success <==> known.Some?)
            && (r.value.status != Success ==> e.kind == RefetchFailed(r.value.status))
            && (r.value.cacheStatus == Hit <==> e.kind.ServedFresh?)
            && (r.value.cacheStatus == Miss <==> e.kind.Refetched?)
            && (r.value.cacheStatus == Stale <==> e.kind.RefetchFailed? && known.Some?)
            && r.value.cacheAge == (if r.value.cacheStatus in {Hit, Stale}
                                    then Some(MaxReal(0.0, e.at - known.value.1).Floor) else None)
            && r.value.quote == (if known.Some? then Some(known.value.0) else None)
            && (known.Some? ==> (known.value.0.base, known.value.0.quote) == e.pair))
  {
    hide QuoteValidates;
    hide IsCode;
    assert (h + [e])[..|h + [e]| - 1] == h;
    if LastGood(h, e.pair).Some? {
      var i := CachedQuoteWasFetched(h, e.pair, ttl);
    }
  }

  // ---- Quotes that are cached and do not validate ----

  /** Call j ended in an exception. */
  predicate Raises(h: History, j: nat, isDate: string -> bool)
    requires j < |h|
  {
    Delivered(AnswerFor(LastGood(h[..j], h[j].pair), h[j].at, h[j].kind), h[j].pair, isDate).None?
  }

  /** What a call parsed, cached and could not deliver. */
  predicate CachesBadQuote(e: Event, isDate: string -> bool) {
    e.kind.Refetched? && !QuoteValidates(e.kind.quote, isDate)
  }

  lemma {:induction false} FaithfulPrefix(h: History, ttl: real, j: nat)
    requires Faithful(h, ttl) && j <= |h|
    ensures Faithful(h[..j], ttl)
  {
    if j < |h| {
      FaithfulPrefix(h[..|h| - 1], ttl, j);
      assert h[..|h| - 1][..j] == h[..j];
    } else {
      assert h[..j] == h;
    }
  }

  /** From a call that caches a bad quote on, every call for its pair raises, however late it comes and whatever the
      server answers, until one parses a quote that validates. */
  lemma BadQuoteRaisesUntilReplaced(h: History, ttl: real, isDate: string -> bool, i: nat, j: nat)
    requires Faithful(h, ttl) && i <= j < |h| && h[i].pair == h[j].pair && CachesBadQuote(h[i], isDate)
    requires forall k :: i < k <= j && h[k].pair == h[j].pair && h[k].kind.Refetched? ==> CachesBadQuote(h[k], isDate)
    ensures Raises(h, j, isDate)
  {
    hide QuoteValidates;
    hide AreCodes;
    var pair, seen := h[j].pair, h[..j + 1];
    FaithfulPrefix(h, ttl, j + 1);
    assert seen[i] == h[i];
    LastGoodIsLatest(seen, pair, i);
    var m := CachedQuoteWasFetched(seen, pair, ttl);
    assert m >= i && seen[m] == h[m];
    assert seen[..|seen| - 1] == h[..j];
    assert CachesBadQuote(h[m], isDate);
  }

  /** For a time to live after a bad quote is cached, every call for its pair raises without sending a request. */
  lemma BadQuoteRaisesForATimeToLive(h: History, ttl: real, isDate: string -> bool, i: nat, j: nat)
    requires Faithful(h, ttl) && ttl >= 0.0 && i < j < |h| && h[i].pair == h[j].pair && CachesBadQuote(h[i], isDate)
    requires forall k :: 0 < k < |h| ==> h[k - 1].at <= h[k].at
    requires h[j].at - h[i].at <= ttl
    ensures h[j].kind.ServedFresh? && Raises(h, j, isDate)
  {
    hide QuoteValidates;
    forall k | i < k <= j && h[k].pair == h[j].pair ensures !h[k].kind.Refetched? {
      if h[k].kind.Refetched? {
        SuccessfulFetchesAreSpaced(h, ttl, i, k);
        TimesAscend(h, k, j);
      }
    }
    BadQuoteRaisesUntilReplaced(h, ttl, isDate, i, j);
    FaithfulPrefix(h, ttl, j + 1);
    assert h[..j + 1][..j] == h[..j];
    LastGoodStays(h[..j], i);
  }

  lemma {:induction false} LastGoodStays(h: History, i: nat)
    requires i < |h| && h[i].kind.Refetched?
    requires forall k :: i < k < |h| && h[k].pair == h[i].pair ==> !h[k].kind.Refetched?
    ensures LastGood(h, h[i].pair) == Some((h[i].kind.quote, h[i].at))
  {
    if i < |h| - 1 { LastGoodStays(h[..|h| - 1], i); }
  }

  /** A rate that prints with an exponent is parsed, and so cached, but the schema refuses it; written out it takes it. */
  lemma SmallRatesAreCachedAndRefused(date: string, isDate: string -> bool)
    ensures var parsed := Parse(Json(map["TRY" := Decimal("1E-7")], Some(DateText(date))), ("EUR", "TRY"));
      parsed.Some? && !QuoteValidates(parsed.value, isDate)
    ensures IsPlainDecimal("0.0000001")
  {
    assert "1E-7"[1] == 'E';
    assert "0.0000001"[1] == '.' && AreDigits("0.0000001"[..1]) && AreDigits("0.0000001"[1 + 1..]);
  }

  /** A refetch fails with the status of the reply that ended it, never with success. */
  lemma FailedRefetchHasAFailureStatus(replies: nat -> Reply, maxRetries: nat, pair: Pair)
    ensures RefetchKind(replies, maxRetries, pair).RefetchFailed? ==> RefetchKind(replies, maxRetries, pair).status != Success
    ensures RefetchKind(replies, maxRetries, pair).Refetched? ==>
      (RefetchKind(replies, maxRetries, pair).quote.base, RefetchKind(replies, maxRetries, pair).quote.quote) == pair
  {
  }

  /** Nothing bounds the age of a stale answer: any quote ever fetched is still served after any delay, if it could be
      delivered at all. */
  lemma StalenessIsUnbounded(h: History, pair: Pair, ttl: real, delay: real, status: Status, isDate: string -> bool)
    requires Faithful(h, ttl) && LastGood(h, pair).Some? && delay > ttl >= 0.0
    ensures var (quote, stored) := LastGood(h, pair).value;
      var e := Event(pair, stored + delay, RefetchFailed(status));
      && Faithful(h + [e], ttl)
      && Delivered(AnswerFor(LastGood(h, pair), e.at, e.kind), pair, isDate)
           == if AreCodes(pair) && QuoteValidates(quote, isDate)
              then Some(Answer(Success, Some(quote), Stale, Some(delay.Floor))) else None
  {
    hide QuoteValidates;
    hide AreCodes;
    Extend(h, Event(pair, LastGood(h, pair).value.1 + delay, RefetchFailed(status)), ttl);
  }
}
