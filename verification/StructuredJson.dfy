/** Structured generation in rag/llm_providers.py: picking the last valid JSON object out of a model's text, and the
    bounded repair loop around it.  JSON decoding and the caller's validation are parameters. */
module StructuredJson {
  import opened Common

  datatype DecodeError = NoObject | NoValidObject

  /** An object starts at p, decodes, and passes validation. */
  ghost predicate ValidAt<J>(raw: string, p: nat, decode: (string, nat) -> Option<J>, validate: J -> bool) {
    p < |raw| && raw[p] == '{' && decode(raw, p).Some? && validate(decode(raw, p).value)
  }

  /** Of all valid objects in the text, the one that starts last. */
  ghost predicate IsLastValid<J>(raw: string, j: J, decode: (string, nat) -> Option<J>, validate: J -> bool) {
    exists p :: ValidAt(raw, p, decode, validate) && decode(raw, p).value == j &&
                forall q :: ValidAt(raw, q, decode, validate) ==> q <= p
  }

  method DecodeLastValidObject<J>(raw: string, decode: (string, nat) -> Option<J>, validate: J -> bool)
    returns (r: Result<J, DecodeError>)
    ensures r.Ok? <==> exists p :: ValidAt(raw, p, decode, validate)
    ensures r.Ok? ==> validate(r.value) && IsLastValid(raw, r.value, decode, validate)
    ensures r == Err(NoObject) <==> '{' !in raw
  {
    var validObjects: seq<J> := [];
    var failed := false;
    ghost var last := 0;
    for position := 0 to |raw|
      invariant validObjects != [] ==>
        ValidAt(raw, last, decode, validate) && decode(raw, last).value == validObjects[|validObjects| - 1]
      invariant forall q :: 0 <= q < position && ValidAt(raw, q, decode, validate) ==> validObjects != [] && q <= last
      invariant (failed || validObjects != []) <==> '{' in raw[..position]
    {
      if raw[position] == '{' {
        var candidate := decode(raw, position);
        if candidate.Some? && validate(candidate.value) {
          validObjects := validObjects + [candidate.value];
          last := position;
        } else {
          failed := true;
        }
      }
    }
    assert raw[..|raw|] == raw;
    if validObjects != [] {
      return Ok(validObjects[|validObjects| - 1]);
    }
    return Err(if failed then NoValidObject else NoObject);
  }

  /** One call of the provider: text, a network, quota or transport failure, or any other exception. */
  datatype Reply<E> = Text(raw: string) | TransportRaised(error: E) | OtherRaised

  datatype Failure<E> = Transport(error: E) | StructuredGenerationFailure

  /** Reply n of the conversation is text holding a valid object. */
  ghost predicate Usable<J, E>(reply: Reply<E>, decode: (string, nat) -> Option<J>, validate: J -> bool) {
    reply.Text? && exists p :: ValidAt(reply.raw, p, decode, validate)
  }

  /** Neither returned nor passed on, so that the model is asked again. */
  ghost predicate Discarded<J, E>(reply: Reply<E>, decode: (string, nat) -> Option<J>, validate: J -> bool) {
    !reply.TransportRaised? && !Usable(reply, decode, validate)
  }

  /** The original prompt, plus at most the latest correction. */
  function PromptAt(user: string, correction: nat -> string, n: nat): string {
    if n == 0 then user else user + correction(n - 1)
  }

  /** Every reply there would be, were the model asked again and again. */
  function Conversation<E>(user: string, generate: (nat, string) -> Reply<E>, correction: nat -> string): nat -> Reply<E> {
    (n: nat) => generate(n, PromptAt(user, correction, n))
  }

  /** Reply n is this exception, and all before it are discarded. */
  ghost predicate PassedOnAt<J, E>(replies: nat -> Reply<E>, n: nat, error: E,
                                   decode: (string, nat) -> Option<J>, validate: J -> bool) {
    replies(n) == TransportRaised(error) && forall k :: 0 <= k < n ==> Discarded(replies(k), decode, validate)
  }

  ghost predicate PassesOn<J, E>(replies: nat -> Reply<E>, error: E,
                                 decode: (string, nat) -> Option<J>, validate: J -> bool, maxRetries: nat) {
    exists n :: 0 <= n <= maxRetries && PassedOnAt(replies, n, error, decode, validate)
  }

  ghost predicate GivesUp<J, E>(replies: nat -> Reply<E>, decode: (string, nat) -> Option<J>, validate: J -> bool,
                                maxRetries: nat) {
    forall n :: 0 <= n <= maxRetries ==> Discarded(replies(n), decode, validate)
  }

  /** The first reply that is not discarded decides, or the last one allowed. */
  lemma FirstDecides<J, E>(replies: nat -> Reply<E>, n: nat, decode: (string, nat) -> Option<J>, validate: J -> bool,
                           maxRetries: nat)
    requires n <= maxRetries && forall k :: 0 <= k < n ==> Discarded(replies(k), decode, validate)
    requires Discarded(replies(n), decode, validate) ==> n == maxRetries
    ensures forall error :: PassesOn(replies, error, decode, validate, maxRetries) <==> replies(n) == TransportRaised(error)
    ensures GivesUp(replies, decode, validate, maxRetries) <==> Discarded(replies(n), decode, validate)
  {
    hide Usable;
    forall error ensures PassesOn(replies, error, decode, validate, maxRetries) <==> replies(n) == TransportRaised(error) {
      if replies(n) == TransportRaised(error) { assert PassedOnAt(replies, n, error, decode, validate); }
    }
  }

  /** `generate(n, prompt)` is the n-th reply; `correction(n)` is the text added to the prompt after failure n. */
  method BoundedRetryGenerate<J, E>(user: string, generate: (nat, string) -> Reply<E>, correction: nat -> string,
                                    decode: (string, nat) -> Option<J>, validate: J -> bool, maxRetries: nat)
    returns (r: Result<J, Failure<E>>, prompts: seq<string>)
    // Only validated data is ever returned.
    ensures r.Ok? ==> validate(r.value)
    // Every prompt is the original one, plus at most the latest correction.
    ensures 1 <= |prompts| <= maxRetries + 1
    ensures forall n :: 0 <= n < |prompts| ==> prompts[n] == PromptAt(user, correction, n)
    // All replies but the last are discarded; the last decides.
    ensures var replies, last := Conversation(user, generate, correction), |prompts| - 1;
      && (forall n :: 0 <= n < last ==> Discarded(replies(n), decode, validate))
      && (r.Ok? <==> Usable(replies(last), decode, validate))
      && (r.Ok? ==> IsLastValid(replies(last).raw, r.value, decode, validate))
      && (forall error :: r == Err(Transport(error)) <==> replies(last) == TransportRaised(error))
      && (r == Err(StructuredGenerationFailure) <==> Discarded(replies(last), decode, validate))
      && (r == Err(StructuredGenerationFailure) ==> last == maxRetries)
  {
    hide IsLastValid;
    hide ValidAt;
    prompts := [];
    var currentUser := user;
    ghost var replies := Conversation(user, generate, correction);
    for n := 0 to maxRetries + 1
      invariant |prompts| == n && currentUser == PromptAt(user, correction, n)
      invariant forall k :: 0 <= k < n ==> prompts[k] == PromptAt(user, correction, k)
      invariant forall k :: 0 <= k < n ==> Discarded(replies(k), decode, validate)
    {
      prompts := prompts + [currentUser];
      var reply := generate(n, currentUser);
      assert replies(n) == reply;
      if reply.TransportRaised? {
        return Err(Transport(reply.error)), prompts;
      }
      if reply.Text? {
        var decoded := DecodeLastValidObject(reply.raw, decode, validate);
        if decoded.Ok? {
          return Ok(decoded.value), prompts;
        }
      }
      currentUser := user + correction(n);
    }
    return Err(StructuredGenerationFailure), prompts;
  }
}
