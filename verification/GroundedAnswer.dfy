/** Answering a question from retrieved chunks: every branch of the service (rag/answer_service.py). */
module GroundedAnswer {
  import opened Common
  import opened Whitespace
  import opened Context
  import opened ClaimValidation
  import opened Extraction
  import opened StructuredJson
  import Sorting

  const MAX_RETRIES := 2

  const TRANSPORT_PREFIX := "provider_transport_failed"
  const TRANSPORT_REASON := TRANSPORT_PREFIX + "_after_retries"
  const STRUCTURE_REASON := "structured_generation_failed_after_retries"
  const CONTRADICTED_REASON := "model_reported" + "_insufficient_despite_question_relevant_context"
  const CATALOG_REASON := "retrieval_unavailable_or_zero_result"

  /** The exceptions a provider call can end in besides malformed output. */
  datatype ProviderError = TransportError | RateLimitExceeded | UrlError

  /** A question as the service sees it; the two tests on its text are given by their outcome. */
  datatype Question = Question(liveData: bool, signal: string -> (nat, bool))

  /** A provider; `generate(n, prompt)` is its n-th reply. */
  datatype Provider = Provider(
    generate: (nat, string) -> Reply<ProviderError>, correction: nat -> string,
    decode: (string, nat) -> Option<Response>)

  /** The replies to this prompt and its corrections. */
  function Calls(p: Provider, prompt: string): nat -> Reply<ProviderError> {
    Conversation(prompt, p.generate, p.correction)
  }

  /** The check every object in a model's text has to pass. */
  function Checks(e: Evidence): Response -> bool { r => Valid(r, e) }

  /** Within the allowed calls a reply is this exception, and nothing before it can be used or is passed on. */
  ghost predicate FailsWith(p: Provider, prompt: string, e: Evidence, error: ProviderError) {
    PassesOn(Calls(p, prompt), error, p.decode, Checks(e), MAX_RETRIES)
  }

  /** No reply can be used, and none is passed on. */
  ghost predicate NothingUsable(p: Provider, prompt: string, e: Evidence) {
    GivesUp(Calls(p, prompt), p.decode, Checks(e), MAX_RETRIES)
  }

  /** Keys of the retrieved dictionary, in the order in which they were first inserted. */
  function RetrievedIds(items: seq<Item>): seq<string> { Dedup(ChunkIds(items)) }

  /** They are the identifiers of the items, each once. */
  lemma RetrievedIdsAre(items: seq<Item>, id: string)
    ensures id in RetrievedIds(items) <==> exists item :: item in items && item.chunkId == id
    ensures forall i, j :: 0 <= i < j < |RetrievedIds(items)| ==> RetrievedIds(items)[i] != RetrievedIds(items)[j]
  {
    DedupMembers(ChunkIds(items));
    if item :| item in items && item.chunkId == id {
      var i :| 0 <= i < |items| && items[i] == item;
      assert ChunkIds(items)[i] == id;
    }
    if id in ChunkIds(items) {
      var i :| 0 <= i < |items| && ChunkIds(items)[i] == id;
      assert items[i] in items;
    }
  }

  function Refusal(degraded: bool, reason: Option<string>, zeroResult: bool, dropped: nat, total: nat,
                   retrieved: seq<string>): AnswerResult
  {
    AnswerResult(REFUSAL_TEXT, true, map[], degraded, reason, zeroResult, false, dropped, total, retrieved)
  }

  /** `catalog` is the fixed text about a known place. */
  function DegradeToCatalog(catalog: Option<string>, zeroResult: bool): AnswerResult {
    var refusal := Refusal(true, Some(CATALOG_REASON), zeroResult, 0, 0, []);
    if catalog.Some? then refusal.(answerText := catalog.value) else refusal
  }

  /** The fallback's answer to this question, for this reason. */
  ghost predicate IsFallback(a: AnswerResult, q: Question, items: seq<Item>, texts: map<string, string>, reason: string) {
    && a.degraded && (!a.refused <==> RelevantContext(items, texts, q.signal)) && a.usedFallback == !a.refused
    && a.reason == Some(reason + FallbackNote(items, a.refused)) && a.retrieved == ChunkIds(items) && !a.zeroResult
    && (a.refused ==> a.answerText == REFUSAL_TEXT && a.citations == map[])
    && (!a.refused ==>
          && a.answerText == Join(SentencesIn(Selected(items, texts, q.signal)))
          && Groups(a.citations, CitedBy(Selected(items, texts, q.signal))))
  }

  /** An answer made of all the claims of the response, citing all the chunks they cite. */
  ghost predicate IsGrounded(a: AnswerResult, claims: seq<Claim>, e: Evidence) {
    && !a.refused && !a.degraded && !a.usedFallback && a.reason == None
    && a.dropped == 0 && a.total == |claims|
    && a.answerText == Join(ClaimTexts(claims))
    && Groups(a.citations, CitedPairs(claims, e))
  }

  /** What follows generation.  None stands for an exception that the service does not catch. */
  method Respond(q: Question, items: seq<Item>, e: Evidence, generation: Result<Response, Failure<ProviderError>>)
      returns (r: Option<AnswerResult>)
    requires e.sources == Retrieved(items)
    requires generation.Ok? ==> Valid(generation.value, e)
    ensures r.None? <==> generation.Err? && generation.error.Transport? && generation.error.error != TransportError
    ensures r.Some? ==> WellFormed(r.value) && !r.value.zeroResult
    ensures generation == Err(Transport(TransportError)) ==> IsFallback(r.value, q, items, e.texts, TRANSPORT_REASON)
    ensures generation == Err(StructuredGenerationFailure) ==> IsFallback(r.value, q, items, e.texts, STRUCTURE_REASON)
    ensures generation.Ok? && generation.value.claims != [] ==>
      IsGrounded(r.value, generation.value.claims, e) && r.value.retrieved == RetrievedIds(items)
    ensures generation.Ok? && generation.value.claims == [] ==>
      if RelevantContext(items, e.texts, q.signal)
      then IsFallback(r.value, q, items, e.texts, CONTRADICTED_REASON)
      else r.value == AnswerResult(REFUSAL_TEXT, true, map[], false, None, false, false, 0, 0, RetrievedIds(items))
  {
    hide Valid;
    hide RelevantContext;
    hide Selected;
    if generation.Err? {
      if generation.error == Transport(TransportError) {
        var a := ExtractiveFallback(items, e.texts, q.signal, TRANSPORT_REASON);
        return Some(a);
      }
      if generation.error.StructuredGenerationFailure? {
        var a := ExtractiveFallback(items, e.texts, q.signal, STRUCTURE_REASON);
        return Some(a);
      }
      return None;
    }
    ValidHasClaims(generation.value, e);
    var claims := generation.value.claims;
    if generation.value.status.Insufficient? || claims == [] {
      var relevant := HasQuestionRelevantContext(items, e.texts, q.signal);
      if relevant {
        var a := ExtractiveFallback(items, e.texts, q.signal, CONTRADICTED_REASON);
        return Some(a);
      }
      return Some(Refusal(false, None, false, 0, 0, RetrievedIds(items)));
    }
    var texts, citations, dropped := FilterClaims(claims, e);
    var allDropped := Refusal(false, None, false, dropped, |claims|, RetrievedIds(items));
    NothingIsDropped(generation.value, e);
    if texts == [] {
      return Some(allDropped);
    }
    ClaimsCiteSomething(generation.value, e);
    GroupsEmpty(citations, CitedPairs(claims, e));
    var reason := if dropped > 0 then Some("claim(s) dropped: invalid/unsupported citation") else None;
    r := Some(AnswerResult(Join(texts), false, citations, false, reason, false, false, dropped, |claims|,
                           RetrievedIds(items)));
  }

  lemma ValidHasClaims(r: Response, e: Evidence)
    requires Valid(r, e)
    ensures r.Response? && (r.status.Insufficient? <==> r.claims == [])
  {
  }

  lemma ClaimsCiteSomething(r: Response, e: Evidence)
    requires Valid(r, e) && r.claims != []
    ensures CitedPairs(r.claims, e) != {}
  {
    var c := r.claims[0];
    assert ClaimShape(c);
    CitationsAreTheUnion(r.claims, e, SourceOf(c.chunkIds[0], e), c.chunkIds[0]);
  }

  /** Is the reason the one given for the provider's transport error. */
  predicate BlamesTransport(a: AnswerResult) {
    a.reason.Some? && TRANSPORT_PREFIX <= a.reason.value
  }

  lemma ReasonsDiffer(reason: string)
    ensures TRANSPORT_REASON <= reason ==> TRANSPORT_PREFIX <= reason
    ensures STRUCTURE_REASON <= reason || CONTRADICTED_REASON <= reason || CATALOG_REASON <= reason ==>
      !(TRANSPORT_PREFIX <= reason)
  {
    PrefixOfPrefix(TRANSPORT_PREFIX, TRANSPORT_REASON, reason);
    if TRANSPORT_PREFIX <= reason {
      assert reason[0] == TRANSPORT_PREFIX[0] == 'p';
      assert STRUCTURE_REASON[0] == 's' && CONTRADICTED_REASON[0] == 'm' && CATALOG_REASON[0] == 'r';
    }
  }

  /** What a fallback's reason blames. */
  lemma FallbackBlames(a: AnswerResult, q: Question, items: seq<Item>, texts: map<string, string>, reason: string)
    requires IsFallback(a, q, items, texts, reason)
    ensures a.usedFallback == !a.refused
    ensures reason == TRANSPORT_REASON ==> BlamesTransport(a)
    ensures reason in {STRUCTURE_REASON, CONTRADICTED_REASON} ==> !BlamesTransport(a)
  {
    hide RelevantContext;
    hide Selected;
    hide Groups;
    assert reason <= a.reason.value;
    ReasonsDiffer(a.reason.value);
  }

  lemma PrefixOfPrefix(a: string, b: string, c: string)
    requires a <= b
    ensures b <= c ==> a <= c
  {
  }

  /** The whole service; `outcome` is how the generation ended, when there was one. */
  method Answer(q: Question, items: seq<Item>, zeroResult: bool, catalog: Option<string>, provider: Option<Provider>,
                e: Evidence, prompt: string)
      returns (r: Option<AnswerResult>, ghost outcome: Option<Result<Response, Failure<ProviderError>>>)
    requires e.sources == Retrieved(items)
    ensures r.Some? ==> WellFormed(r.value)
    // Live-data questions, empty retrievals and missing providers never reach generation, and are refused.
    ensures outcome.None? <==> q.liveData || zeroResult || provider.None?
    ensures outcome.None? ==> r.Some? && r.value.refused
    ensures q.liveData ==>
      r == Some(AnswerResult(REFUSAL_TEXT, true, map[], false, Some("live_data_required"), false, false, 0, 0, []))
    ensures !q.liveData && outcome.None? ==>
      && r.value.degraded && r.value.reason == Some(CATALOG_REASON) && r.value.zeroResult == zeroResult
      && r.value.answerText == (if catalog.Some? then catalog.value else REFUSAL_TEXT)
      && r.value.citations == map[] && r.value.retrieved == [] && !r.value.usedFallback
    // An uncaught exception is a transport exception of another kind.
    ensures r.None? <==> outcome.Some? && outcome.value.Err? && outcome.value.error.Transport? &&
                         outcome.value.error.error != TransportError
    // How generation ended is told from the provider's replies.
    ensures outcome.Some? ==>
      && (forall error :: outcome == Some(Err(Transport(error))) <==> FailsWith(provider.value, prompt, e, error))
      && (outcome == Some(Err(StructuredGenerationFailure)) <==> NothingUsable(provider.value, prompt, e))
    // Transport is blamed exactly when the provider's own transport error was passed on, and the structure of the
    // output exactly when no reply could be used: an exception of any other class counts as such a reply.
    ensures r.Some? ==> (BlamesTransport(r.value) <==> outcome == Some(Err(Transport(TransportError))))
    ensures r.Some? && outcome == Some(Err(StructuredGenerationFailure)) ==>
      IsFallback(r.value, q, items, e.texts, STRUCTURE_REASON)
    // Whatever the model said was checked, and is answered in full or not at all.
    ensures r.Some? && !r.value.refused && !r.value.usedFallback ==>
      && outcome.Some? && outcome.value.Ok? && Valid(outcome.value.value, e)
      && IsGrounded(r.value, outcome.value.value.claims, e) && r.value.retrieved == RetrievedIds(items)
    ensures r.Some? && r.value.usedFallback ==>
      exists reason :: IsFallback(r.value, q, items, e.texts, reason)
  {
    hide Valid;
    hide IsFallback;
    hide PassesOn;
    hide GivesUp;
    hide Groups;
    hide Selected;
    hide RelevantContext;
    hide Retrieved;
    outcome := None;
    if q.liveData {
      return Some(Refusal(false, Some("live_data_required"), false, 0, 0, [])), None;
    }
    if zeroResult {
      ReasonsDiffer(CATALOG_REASON);
      return Some(DegradeToCatalog(catalog, true)), None;
    }
    if provider.None? {
      ReasonsDiffer(CATALOG_REASON);
      return Some(DegradeToCatalog(catalog, false)), None;
    }
    var generation, prompts := BoundedRetryGenerate(
      prompt, provider.value.generate, provider.value.correction, provider.value.decode, Checks(e), MAX_RETRIES);
    outcome := Some(generation);
    FirstDecides(Calls(provider.value, prompt), |prompts| - 1, provider.value.decode, Checks(e), MAX_RETRIES);
    r := Respond(q, items, e, generation);
    if r.Some? {
      forall reason | IsFallback(r.value, q, items, e.texts, reason)
        ensures r.value.usedFallback == !r.value.refused
        ensures reason == TRANSPORT_REASON ==> BlamesTransport(r.value)
        ensures reason in {STRUCTURE_REASON, CONTRADICTED_REASON} ==> !BlamesTransport(r.value)
      {
        FallbackBlames(r.value, q, items, e.texts, reason);
      }
    }
  }

  /** Everything an answer built from claims says is backed: each claim's quote is, whitespace aside, a piece of a
      chunk it cites, and the chunks cited are those of the claims, all retrieved, each under its own source. */
  lemma GroundedAnswersAreBacked(a: AnswerResult, r: Response, items: seq<Item>, e: Evidence)
    requires e.sources == Retrieved(items) && Valid(r, e) && IsGrounded(a, r.claims, e)
    ensures forall c | c in r.claims :: Anchored(c, e)
    ensures forall source, id :: Cites(a.citations, source, id) <==>
      CitedByOne(r.claims, id) && id in Retrieved(items) && Retrieved(items)[id] == source
  {
    hide CheckClaim;
    forall c | c in r.claims ensures Anchored(c, e) { ValidClaimIsAnchored(c, e); }
    forall source, id ensures Cites(a.citations, source, id) <==>
        CitedByOne(r.claims, id) && id in Retrieved(items) && Retrieved(items)[id] == source
    {
      CitationsAreTheUnion(r.claims, e, source, id);
      if CitedByOne(r.claims, id) {
        var c :| c in r.claims && id in c.chunkIds;
        assert Anchored(c, e);
      }
    }
  }

  /** A fallback's citations name exactly the chunks its sentences are copied from. */
  lemma FallbackAnswersAreBacked(a: AnswerResult, q: Question, items: seq<Item>, texts: map<string, string>, reason: string)
    requires IsFallback(a, q, items, texts, reason) && !a.refused
    ensures 1 <= |Selected(items, texts, q.signal)| <= 2
    ensures forall c | c in Selected(items, texts, q.signal) ::
      && c.item.chunkId in texts && Contains(texts[c.item.chunkId], c.sentence)
      && Cites(a.citations, c.item.sourceId, c.item.chunkId)
    ensures forall source, id :: Cites(a.citations, source, id) ==>
      exists c :: c in Selected(items, texts, q.signal) && c.item == Item(id, source)
  {
    hide RelevantContext;
    CandidatesAgreeWithTheTest(items, texts, q.signal);
    SelectedAreTheBest(items, texts, q.signal);
    SelectedIsNotEmpty(items, texts, q.signal);
    var chosen := Selected(items, texts, q.signal);
    hide Selected;
    forall c | c in chosen
      ensures c.item.chunkId in texts && Contains(texts[c.item.chunkId], c.sentence)
      ensures Cites(a.citations, c.item.sourceId, c.item.chunkId)
    {
      SelectedSentencesArePieces(items, texts, q.signal, c);
      assert (c.item.sourceId, c.item.chunkId) in CitedBy(chosen);
    }
    forall source, id | Cites(a.citations, source, id)
      ensures exists c :: c in chosen && c.item == Item(id, source)
    {
      assert (source, id) in CitedBy(chosen);
    }
  }

  lemma SelectedIsNotEmpty(items: seq<Item>, texts: map<string, string>, signal: string -> (nat, bool))
    requires Candidates(items, texts, signal, |items|) != []
    ensures Selected(items, texts, signal) != []
  {
    hide Candidates;
    Sorting.SortMembers(Candidates(items, texts, signal, |items|), Better);
  }
}
