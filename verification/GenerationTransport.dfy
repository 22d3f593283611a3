/** Generation over the network: the paced request loop below the repair loop below the answer service
    (rag/llm_providers.py, rag/answer_service.py), and which of the two the reason of an answer blames. */
module GenerationTransport {
  import opened Common
  import opened ClaimValidation
  import opened StructuredJson
  import opened GroundedAnswer
  import Retry

  const MAX_ATTEMPTS := 6
  const MAX_RETRY_SLEEP := 60.0

  /** What the network answers to one call; the text of a body's first choice is None when there is none. */
  type Trace = nat -> Retry.Reply<Option<string>>

  function CallOver(trace: Trace): Retry.Outcome<Option<string>> {
    Retry.CallOutcome(trace, MAX_ATTEMPTS, MAX_RETRY_SLEEP)
  }

  /** What the repair loop sees of a call: it passes on four classes of exceptions, and takes any other one, the
      assertion after the request loop included, for malformed output.  An HTTP error is a URL error. */
  function Seen(outcome: Retry.Outcome<Option<string>>): Reply<ProviderError> {
    match outcome
    case Returned(Some(text)) => Text(text)
    case RaisedHttp(_) => TransportRaised(UrlError)
    case RaisedNetwork(e) =>
      if e.UrlError? || e.UrlErrorText? || e.Timeout? then TransportRaised(UrlError) else OtherRaised
    case RateLimitExceeded(_, _) => TransportRaised(RateLimitExceeded)
    case TransportFailed(_) => TransportRaised(TransportError)
    case _ => OtherRaised
  }

  /** A hosted provider; `traces(n, prompt)` is what the network answers to its n-th call. */
  function Hosted(traces: (nat, string) -> Trace, correction: nat -> string,
                  decode: (string, nat) -> Option<Response>): Provider
  {
    Provider((n: nat, prompt: string) => Seen(CallOver(traces(n, prompt))), correction, decode)
  }

  /** What the network answers to call n of the conversation that starts with this prompt. */
  function TraceAt(traces: (nat, string) -> Trace, prompt: string, correction: nat -> string, n: nat): Trace {
    traces(n, PromptAt(prompt, correction, n))
  }

  // ---- Single calls ----

  /** Three requests failed in transport before anything else ended the call. */
  ghost predicate MeetsThirdFailure(trace: Trace) {
    exists j :: 0 <= j < MAX_ATTEMPTS && Retry.MeetsThirdTransient(trace, j, MAX_ATTEMPTS, MAX_RETRY_SLEEP)
  }

  /** All attempts were spent on 429 answers with acceptable waits and at most two transport failures, one of them last. */
  ghost predicate RunsOut(trace: Trace) {
    && (forall i :: 0 <= i < MAX_ATTEMPTS ==>
          Retry.IsTransientReply(trace(i)) || (Retry.IsRateLimit(trace(i)) && Retry.WaitAt(trace, i) <= MAX_RETRY_SLEEP))
    && Retry.IsTransientReply(trace(MAX_ATTEMPTS - 1))
    && Retry.Transients(trace, MAX_ATTEMPTS) < Retry.MAX_TRANSIENT_TRANSPORT_ATTEMPTS
  }

  /** The last request of the call failed in transport. */
  predicate EndsInTransport(trace: Trace) {
    var sent := Retry.Requests(trace, MAX_ATTEMPTS, MAX_RETRY_SLEEP);
    sent > 0 && Retry.IsTransientReply(trace(sent - 1))
  }

  /** The body a call stopped at, or the exception it raised, is of no use to the repair loop. */
  ghost predicate StopsAtNothing(trace: Trace, decode: (string, nat) -> Option<Response>, e: Evidence) {
    var outcome := CallOver(trace);
    || outcome.RaisedUndecodable? || outcome == Retry.Returned(None) || outcome == Retry.RaisedNetwork(Retry.OtherError)
    || (outcome.Returned? && outcome.value.Some? && forall p :: !ValidAt(outcome.value.value, p, decode, Checks(e)))
  }

  /** The model is asked again after this call. */
  ghost predicate GivesNothing(trace: Trace, decode: (string, nat) -> Option<Response>, e: Evidence) {
    RunsOut(trace) || StopsAtNothing(trace, decode, e)
  }

  /** A call whose last request failed in transport raises the transport error exactly when that was the third failure;
      otherwise it runs out of attempts and into the assertion. */
  lemma EndsInTransportExactlyWhen(trace: Trace)
    ensures EndsInTransport(trace) <==> MeetsThirdFailure(trace) || RunsOut(trace)
    ensures MeetsThirdFailure(trace) <==> CallOver(trace).TransportFailed?
    ensures RunsOut(trace) <==> CallOver(trace).AssertionReached?
  {
    Retry.TransportFailsExactlyOnTheThird(trace, MAX_ATTEMPTS, MAX_RETRY_SLEEP);
    Retry.AssertionReachedExactlyWhen(trace, MAX_ATTEMPTS, MAX_RETRY_SLEEP);
    Retry.FirstStopIsLeast(trace, 0, MAX_ATTEMPTS, MAX_RETRY_SLEEP);
  }

  lemma NetworkErrorsRaised(trace: Trace)
    ensures !CallOver(trace).InvalidArgument?
    ensures CallOver(trace).RaisedNetwork? ==>
      var error := CallOver(trace).error;
      error == Retry.OtherError || error == Retry.UrlErrorText || error.UrlError?
  {
  }

  lemma SeenExactlyWhen(trace: Trace, decode: (string, nat) -> Option<Response>, e: Evidence)
    ensures Discarded(Seen(CallOver(trace)), decode, Checks(e)) <==> GivesNothing(trace, decode, e)
    ensures Seen(CallOver(trace)) == TransportRaised(TransportError) <==> MeetsThirdFailure(trace)
    ensures Seen(CallOver(trace)) == TransportRaised(RateLimitExceeded) <==> CallOver(trace).RateLimitExceeded?
    ensures Seen(CallOver(trace)) == TransportRaised(UrlError) <==>
      CallOver(trace).RaisedHttp? || (CallOver(trace).RaisedNetwork? && CallOver(trace).error != Retry.OtherError)
  {
    EndsInTransportExactlyWhen(trace);
    NetworkErrorsRaised(trace);
    hide MeetsThirdFailure;
    hide RunsOut;
    hide CallOver;
  }

  // ---- The whole generation ----

  /** Call n meets its third transport failure, and no call before it gave anything. */
  ghost predicate BlamedAt(traces: (nat, string) -> Trace, correction: nat -> string,
                           decode: (string, nat) -> Option<Response>, prompt: string, e: Evidence, n: nat)
  {
    && MeetsThirdFailure(TraceAt(traces, prompt, correction, n))
    && forall k :: 0 <= k < n ==> GivesNothing(TraceAt(traces, prompt, correction, k), decode, e)
  }

  /** An answer blames transport exactly when some call met its third transport failure and every call before it ran
      out of attempts or stopped at nothing usable; and the structure of the output exactly when every call did. */
  lemma ReasonsExactlyWhen(traces: (nat, string) -> Trace, correction: nat -> string,
                           decode: (string, nat) -> Option<Response>, prompt: string, e: Evidence)
    ensures FailsWith(Hosted(traces, correction, decode), prompt, e, TransportError) <==>
      exists n :: 0 <= n <= MAX_RETRIES && BlamedAt(traces, correction, decode, prompt, e, n)
    ensures NothingUsable(Hosted(traces, correction, decode), prompt, e) <==>
      forall n :: 0 <= n <= MAX_RETRIES ==> GivesNothing(TraceAt(traces, prompt, correction, n), decode, e)
  {
    hide CallOver;
    hide Discarded;
    hide GivesNothing;
    hide MeetsThirdFailure;
    var p := Hosted(traces, correction, decode);
    var replies := Calls(p, prompt);
    forall n: nat
      ensures Discarded(replies(n), decode, Checks(e)) <==> GivesNothing(TraceAt(traces, prompt, correction, n), decode, e)
      ensures replies(n) == TransportRaised(TransportError) <==> MeetsThirdFailure(TraceAt(traces, prompt, correction, n))
    {
      SeenExactlyWhen(TraceAt(traces, prompt, correction, n), decode, e);
    }
    forall n: nat
      ensures PassedOnAt(replies, n, TransportError, decode, Checks(e)) <==> BlamedAt(traces, correction, decode, prompt, e, n)
    {
    }
  }

  /** In an outage, where the last request of every call fails in transport, transport is blamed exactly when some call
      meets three failures; when none does, the answer says that the model's output was malformed. */
  lemma OutageIsBlamedExactlyWhen(traces: (nat, string) -> Trace, correction: nat -> string,
                                  decode: (string, nat) -> Option<Response>, prompt: string, e: Evidence)
    requires forall n :: 0 <= n <= MAX_RETRIES ==> EndsInTransport(TraceAt(traces, prompt, correction, n))
    ensures FailsWith(Hosted(traces, correction, decode), prompt, e, TransportError) <==>
      exists n :: 0 <= n <= MAX_RETRIES && MeetsThirdFailure(TraceAt(traces, prompt, correction, n))
    ensures NothingUsable(Hosted(traces, correction, decode), prompt, e) <==>
      forall n :: 0 <= n <= MAX_RETRIES ==> !MeetsThirdFailure(TraceAt(traces, prompt, correction, n))
  {
    hide CallOver;
    hide EndsInTransport;
    hide MeetsThirdFailure;
    hide RunsOut;
    hide FailsWith;
    hide NothingUsable;
    ReasonsExactlyWhen(traces, correction, decode, prompt, e);
    forall n | 0 <= n <= MAX_RETRIES
      ensures var trace := TraceAt(traces, prompt, correction, n);
        GivesNothing(trace, decode, e) <==> !MeetsThirdFailure(trace)
    {
      EndsInTransportExactlyWhen(TraceAt(traces, prompt, correction, n));
    }
    hide GivesNothing;
    if n :| 0 <= n <= MAX_RETRIES && MeetsThirdFailure(TraceAt(traces, prompt, correction, n)) {
      var first := FirstFailure(traces, correction, prompt, n);
      assert BlamedAt(traces, correction, decode, prompt, e, first);
    }
  }

  lemma {:induction false} FirstFailure(traces: (nat, string) -> Trace, correction: nat -> string, prompt: string, n: nat)
      returns (first: nat)
    requires MeetsThirdFailure(TraceAt(traces, prompt, correction, n))
    ensures first <= n && MeetsThirdFailure(TraceAt(traces, prompt, correction, first))
    ensures forall k :: 0 <= k < first ==> !MeetsThirdFailure(TraceAt(traces, prompt, correction, k))
  {
    hide MeetsThirdFailure;
    if k :| 0 <= k < n && MeetsThirdFailure(TraceAt(traces, prompt, correction, k)) {
      first := FirstFailure(traces, correction, prompt, k);
    } else {
      first := n;
    }
  }

  /** Five 429 answers without Retry-After, and then resets. */
  function LimitedThenReset(): Trace {
    (i: nat) => if i < 5 then Retry.HttpError(Retry.TOO_MANY_REQUESTS, Retry.Unreadable) else Retry.Network(Retry.ConnectionReset)
  }

  function Always(trace: Trace): (nat, string) -> Trace { (n: nat, prompt: string) => trace }

  /** When every call is answered so, each ends in a reset and no answer blames transport. */
  lemma HiddenOutage(correction: nat -> string, decode: (string, nat) -> Option<Response>, prompt: string, e: Evidence)
    ensures var p := Hosted(Always(LimitedThenReset()), correction, decode);
      NothingUsable(p, prompt, e) && !FailsWith(p, prompt, e, TransportError)
    ensures EndsInTransport(LimitedThenReset())
  {
    LimitedRunsOut();
    EndsInTransportExactlyWhen(LimitedThenReset());
    OutageIsBlamedExactlyWhen(Always(LimitedThenReset()), correction, decode, prompt, e);
  }

  lemma LimitedRunsOut()
    ensures RunsOut(LimitedThenReset())
  {
    var trace := LimitedThenReset();
    NoneEarly(5);
    assert Retry.Transients(trace, 6) == Retry.Transients(trace, 5) + 1;
    forall i | 0 <= i < 5 ensures Retry.WaitAt(trace, i) <= MAX_RETRY_SLEEP {
      Retry.BackoffIsScheduled(Retry.RateLimits(trace, i));
    }
  }

  lemma {:induction false} NoneEarly(n: nat)
    requires n <= 5
    ensures Retry.Transients(LimitedThenReset(), n) == 0
  {
    if n > 0 { NoneEarly(n - 1); }
  }
}
