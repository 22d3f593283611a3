# Voyager retrieval, providers and chat: verified models

A Dafny 4.11 model of the stateful protocols and exact algorithms of the travel assistant: evaluation runs that
survive crashes, fingerprint-guarded ingestion, the paced retry loop, the chunker, the provider policies and caches,
money, grounded answers and the acceptance gate over them, the event stream, chat history, the weather calendar and
rank fusion.  `dafny verify dfyconfig.toml` checks all of it.

| file | what it models |
|---|---|
| Checkpoint.dfy | resumable evaluation runs: load, evaluate, atomically replace, with a crash possible between any two steps |
| Ingestion.dfy | collections, markers, guarded rebuild and upserts, with a crash possible before every write |
| ChunkIds.dfy | chunk keys and fingerprints, and which inputs can share them |
| Retry.dfy | the request loop with its 429 and transient budgets and a pacing clock shared by all calls |
| StructuredJson.dfy | the last valid object of a model's text, and the repair loop around it |
| Chunking.dfy | sections, token windows, chunks as exact slices |
| Money.dfy, BudgetSummary.dfy | conversion in minor units, exactly and with 28 digits; the budget summary |
| CircuitBreaker.dfy, FxCache.dfy | the breaker and the FX cache, each refined by the history of what happened to it |
| EventStream.dfy | the resumable stream between an append-only log and a client over a lossy connection |
| Calendar.dfy, Climate.dfy, Weather.dfy | the Gregorian calendar behind archive dates, climate aggregation, and a weather request from validation to report |
| Whitespace.dfy, Context.dfy, ClaimValidation.dfy, Extraction.dfy, GroundedAnswer.dfy | claims, citations, the extractive fallback, and every branch of answering |
| GenerationTransport.dfy | the request loop below the repair loop below answering, and what an answer blames |
| AcceptanceGate.dfy | evaluated rows, metrics, breakdowns and the verdict |
| ChatHistory.dfy | what a session stores and what the model is shown of it |
| Sorting.dfy, RankFusion.dfy | sorting without ties; reciprocal rank fusion |
| Common.dfy | Option, Result and a few functions |

State that the program changes in place is a class here (`Workspace`, `VectorStore`, `PacedClient`, `CircuitBreaker`,
`FxProvider`, `EventGenerator`, `ChatSession`); each method is proved against a function of the old state, and the
lemmas over whole runs are about those functions.

## Where the code differs from what it says

- The assertion marked unreachable at rag/llm_providers.py:408 is reachable: `Retry.AssertionReachedExactlyWhen`.
- Half open is said to let exactly one probe through (providers/policy.py:198); it lets every call through until an
  outcome is recorded: `CircuitBreakers.HalfOpenAdmitsEveryCall`, `CircuitBreakers.TwoCallsPassHalfOpen`.
- A transport outage is meant to be told from malformed output (rag/llm_providers.py:108-126).  The assertion above is
  caught by the repair loop like any other exception (line 241), so an outage in which no call meets three transport
  failures is reported as malformed output: `GenerationTransport.OutageIsBlamedExactlyWhen`,
  `GenerationTransport.HiddenOutage`.
- Text before the first heading is dropped (rag/chunking.py:71-82): `Chunking.SectionsAreTheBodies`.
- A negative overlap passes the guard and leaves tokens out (rag/chunking.py:121): `Chunking.CoverageExactlyWhen`.
- Nothing bounds the age of a stale FX quote (providers/fx_frankfurter.py:84-98): `FxCache.StalenessIsUnbounded`.
- A parsed quote is cached before its envelope is validated (providers/fx_frankfurter.py:100-101), so one whose rate
  prints with an exponent makes every call for its pair raise until a better one is parsed, for a time to live at least:
  `FxCache.BadQuoteRaisesUntilReplaced`, `FxCache.BadQuoteRaisesForATimeToLive`.
- A bootstrap that dies between creating and marking a collection leaves one that every later bootstrap raises on, and
  one that dies among the chunks leaves a partial collection that is reported as ready:
  `Ingestion.RetryCompletesExactlyWhen`, `Ingestion.StaleEmptyCollectionIsStuck`.
- A client that reconnects after a terminal event is sent what the log holds after it:
  `EventStream.ReconnectingPassesATerminalExactlyWhen`.
- The archive is meant to cover past years only, but a trip over New Year asks it for days after today:
  `Calendar.NewYearTripReadsTheFuture`, `Weather.ArchiveStaysPastExactlyWhen`.
- The weather adapter is meant to let no raw exception reach its caller (providers/weather_openmeteo.py:241-249); bodies
  that are JSON but no object do, and so do an archive body that is no JSON and any envelope, also one that reports a
  failure, that does not validate: `Weather.EscapesExactlyWhen`.  An empty location always ends so
  (`Weather.AlwaysEscapesExactlyWhen`, `Weather.EmptyLocationEscapes`), and so does every success in a time zone with a
  hyphen in its name (`Weather.NoWeatherInHyphenatedZones`).
- A weather success need not report a single requested day: `Weather.EmptyArchivesAreASuccess`.
- The budget summary catches an unavailable conversion and lets out what its fetch raises, and Decimal's error for more
  than 28 digits: `BudgetSummary.BuildEntries`, `BudgetSummary.HugePricesOverflow`.
- The citation coverage of the gate cannot be anything but 1 for answers of this service:
  `AcceptanceGate.CoverageIsAlwaysFull`.
- The 60 rows fetched for the model's context count rejected and failed turns, so thirty of those in a row hide the
  whole conversation: `ChatHistory.ContextIsEmptyExactlyWhen`.

## Model

| member | source | states |
|---|---|---|
| `Checkpoint.DecodeMeansAcceptable` | rag/run_generation_eval.py:254-290 | A checkpoint file loads exactly when every line is blank or a record of this schema, this fingerprint and a known question, and no two records answer the same question |
| `Checkpoint.DecodeCommitsTheRecords` | rag/run_generation_eval.py:254-290 | A file that loads commits exactly its records, each under its own question |
| `Checkpoint.RewritingKeepsRows` | rag/run_generation_eval.py:293-311 | Rewriting the rows of a file that loads, without its blank lines, commits the same rows |
| `Checkpoint.RefusedForGood` | rag/run_generation_eval.py:254-290 | A file refused at some line stays refused whatever follows that line |
| `Checkpoint.LoadCheckpoint` | rag/run_generation_eval.py:254-290 | Returns the committed rows exactly when the file loads, and otherwise names the first line that makes it unacceptable and what is wrong with that line |
| `Checkpoint.Workspace.WriteCheckpointAtomic` | rag/run_generation_eval.py:293-311 | With a failure or a crash possible at every step, the checkpoint is afterwards either the old file or the complete new one; the call proceeds, with the new one in place, exactly when every step goes well, and dies exactly when a step does |
| `Checkpoint.Workspace.EvaluateAndCheckpoint` | rag/run_generation_eval.py:314-334 | An evaluation that raises leaves the checkpoint alone; otherwise the row carries the answer, the file is the old one or the old rows with this row added, and it is the new one exactly when every step goes well |
| `Checkpoint.Workspace.Run` | rag/run_generation_eval.py:597-625 | Whatever happens at any step, a run either refuses the file and leaves it untouched, or evaluates only missing questions, in order and once each, and commits all of their rows except possibly the last; it finishes exactly when the file loads, every file step goes well and every evaluation returns, and otherwise ends with the first thing that failed; when it finishes, each added row is what evaluation returned |
| `Checkpoint.PendingIsWhatIsMissing` | rag/run_generation_eval.py:606-625 | The questions a run still has to evaluate are exactly those without a row, each once |
| `Checkpoint.PendingInOrder` | rag/run_generation_eval.py:606-625 | They come in question order, each where it is first asked |
| `Checkpoint.CommittedRowsOnlyGrow` | rag/run_generation_eval.py:254-334 | Over any number of runs with one fingerprint, each crashing anywhere, no run is refused once the first file loads, and committed rows are only ever added, never lost or changed |
| `Checkpoint.NeverEvaluatedAgain` | rag/run_generation_eval.py:606-625 | A question with a committed row is never evaluated by any later run |
| `Checkpoint.EvaluatesOnlyMissing` | rag/run_generation_eval.py:607-612 | A run evaluates no question that its checkpoint already answers |
| `Checkpoint.EvaluationsAreCommittedOrWasted` | rag/run_generation_eval.py:314-334 | Work is conserved: the evaluations made by any number of runs are the rows added, plus at most one per unfinished run |
| `Checkpoint.ReportEqualsCommittedRows` | rag/run_generation_eval.py:598-625 | A run that finishes reports one row per question, in question order, and any row an earlier run committed is reported as that very row |
| `Checkpoint.ForeignCheckpointIsRejectedUnchanged` | rag/run_generation_eval.py:254-290 | A checkpoint holding a row of another fingerprint is refused, nothing is evaluated and the file is unchanged |
| `Ingestion.VectorStore.EnsureCollection` | rag/qdrant_store.py:55-82 | Leaves an existing collection alone and accepts it exactly when its marker holds the fingerprint; otherwise creates it and then marks it, with a crash possible before each write |
| `Ingestion.VectorStore.UpsertChunks` | rag/qdrant_store.py:85-100 | Writes the chunk points in order; a crash leaves a prefix of them |
| `Ingestion.VectorStore.IngestConfig` | rag/ingest.py:167-255 | The writes of an ingestion, cut off by a crash at any point, and its outcome |
| `Ingestion.VectorStore.Bootstrap` | rag/ingest_cli.py:208-267 | The step-by-step command performs exactly a prefix of the writes its decision plans, all of them unless it crashes |
| `Ingestion.OutcomesExactlyWhen` | rag/ingest_cli.py:175-267 | Which outcome a bootstrap plans, told from the request and the store alone: protected, ready, mismatched, wrongly marked or built, each exactly when |
| `Ingestion.BootstrapKeepsCollectionsUnmixed` | rag/ingest_cli.py:175-267 | One bootstrap, of any name, configuration and crash point: the named collection holds no chunk of another version than its marker, and no other collection changes |
| `Ingestion.NothingIsEverMixed` | rag/ingest_cli.py:175-267 | No sequence of bootstraps and crashes ever mixes chunk versions in a collection |
| `Ingestion.ProtectedCollectionNeverChanges` | rag/ingest_cli.py:74-223 | A protected collection with more than one point never changes, over any sequence of bootstraps |
| `Ingestion.UnnamedCollectionNeverChanges` | rag/ingest_cli.py:208-267 | A collection no bootstrap names never changes |
| `Ingestion.NoLossWithoutRebuild` | rag/ingest_cli.py:208-267 | One bootstrap without the rebuild flag drops or replaces no stored point, wherever it dies |
| `Ingestion.NoLossWhereNothingIsRebuilt` | rag/ingest_cli.py:208-267 | Over every sequence of bootstraps and crashes, no point of a collection that no rebuild names is ever dropped or replaced, whatever is rebuilt elsewhere |
| `Ingestion.FirstBootstrap` | rag/ingest.py:197-255 | What a first bootstrap that dies after k writes leaves: nothing, an empty collection, or the marker with a prefix of the chunks |
| `Ingestion.RetryCompletesExactlyWhen` | rag/ingest_cli.py:175-267 | Repeating a bootstrap that died after any write, be it a first one, a rebuild, or one that fills a marked collection: it completes the collection exactly when the first had written no chunk or all of them and had not just created the collection; after creation every retry raises, and a partial collection is taken for ready, both without any change |
| `Ingestion.StaleEmptyCollectionIsStuck` | rag/ingest_cli.py:175-188 | A collection of at most one point without this fingerprint in its marker is never changed again by bootstrap, with or without the rebuild flag |
| `Ingestion.IngestTwiceIsIngestOnce` | rag/ingest.py:197-255 | Ingesting the same corpus and configuration a second time leaves the store unchanged |
| `Ingestion.FreshIngestHoldsEveryChunk` | rag/ingest.py:197-255 | A fresh ingestion stores the marker and one point per chunk, and nothing else |
| `ChunkIds.DecimalInjective` | rag/ids.py:26-32 | Decimal numerals of chunk indexes are injective |
| `ChunkIds.LastSeparator` | rag/ids.py:26-32 | A string splits in one way only at the last occurrence of a separator |
| `ChunkIds.RawKeyInjective` | rag/ids.py:26-32 | The key source:config:index determines all three parts, even when source ids contain colons |
| `ChunkIds.CollectChunks` | rag/ingest.py:205-248 | The nested loops over documents and chunks give the chunks of the corpus in order |
| `ChunkIds.KeyOrigin` | rag/ingest.py:205-248 | Every key of a corpus comes from one document and one chunk index, at that chunk's position |
| `ChunkIds.KeysDistinctIffSourcesAre` | rag/ingest.py:205-248 | Chunk keys are distinct exactly when no two documents that have chunks share a source id |
| `ChunkIds.ReingestionIsIdempotent` | rag/ingest.py:197-255 | With hashes that do not collide on the keys and avoid the marker id, a fresh ingestion stores exactly one point more than there are chunks, and repeating it changes nothing |
| `ChunkIds.IdentityDeterminesVersions` | rag/ingest.py:118-124 | Two corpora have the same identity dictionary exactly when each source has the same language and checksum in both |
| `ChunkIds.FingerprintIdentifiesCorpusAndConfiguration` | rag/ids.py:35-56 | Two ingestions carry the same fingerprint exactly when they have the same configuration and the same language and checksum for every source, whatever the order of the documents |
| `Retry.TransientByCause` | rag/llm_providers.py:137-155 | An error is transient exactly when a reset, a timeout or a TLS failure lies under all the URL errors around it |
| `Retry.PacedClient.Send` | rag/llm_providers.py:372-384 | Requests sent through one pacing clock start at least the interval apart |
| `Retry.PacedClient.TryOnce` | rag/llm_providers.py:377-406 | One turn of the loop: which replies are retried, with which wait and which budgets left, and what any other reply raises or returns |
| `Retry.PacedClient.PostJson` | rag/llm_providers.py:332-408 | The loop with its two budgets and shared clock has the outcome, the number of requests and exactly the backoff sleep that the trace of replies determines, and paces each request by at most one interval |
| `Retry.RequestRateIsBounded` | rag/llm_providers.py:372-381 | Over all calls sharing a clock, any n + 1 consecutive requests take at least n intervals |
| `Retry.FirstStopIsLeast` | rag/llm_providers.py:377-408 | The loop stops at the first reply that is not retried |
| `Retry.StopIsUnique` | rag/llm_providers.py:377-408 | Only one attempt can be the one that stops the loop |
| `Retry.BudgetsCount` | rag/llm_providers.py:374-406 | The loop variables are determined by how many replies of each kind came before |
| `Retry.OnlyTheseAreRetried` | rag/llm_providers.py:385-406 | Nothing but a 429 and a transient transport failure is ever retried |
| `Retry.GoesOnExactlyWhen` | rag/llm_providers.py:377-406 | An attempt is retried exactly when a 429 with an acceptable wait answers it and it is not the last, or it fails in transport for the first or second time |
| `Retry.OutcomeExactlyWhen` | rag/llm_providers.py:332-408 | A call comes to an outcome exactly when some attempt ends it so after attempts that were all retried: a decoded body is returned; an undecodable one, an HTTP error other than 429 and a network error that is not transient are raised as they are; a 429 is raised with its wait and attempt number on the last attempt or past the cap; and a transport failure is the third |
| `Retry.RequestsExactlyWhen` | rag/llm_providers.py:332-408 | A call sends no request for arguments it refuses, those up to the reply that ends it, or all allowed when it runs into the assertion |
| `Retry.WaitsAfterFailures` | rag/llm_providers.py:374-406 | The wait after each retried attempt: a usable Retry-After, else 2, 4, 8, 16 and then always 30 seconds after successive 429 answers, and 1 and 2 seconds, at most the cap, after transient failures |
| `Retry.BudgetsHold` | rag/llm_providers.py:332-408 | At most the allowed number of requests is sent and at most three of them fail in transport |
| `Retry.TotalSleepIsBounded` | rag/llm_providers.py:332-408 | Pacing and backoff together sleep at most one interval and one cap per allowed attempt |
| `Retry.AssertionReachedExactlyWhen` | rag/llm_providers.py:377-408 | The assertion marked unreachable is reached exactly when every attempt fails retryably, the last is a transient failure, and fewer than three were |
| `Retry.OneResetReachesTheAssertion` | rag/llm_providers.py:408 | One allowed attempt whose connection is reset reaches it |
| `Retry.TransportFailsExactlyOnTheThird` | rag/llm_providers.py:399-406 | A transport failure is raised exactly when the third transient failure is met before anything else ends the call |
| `Retry.FallbackWaitsNeverEndTheCall` | rag/llm_providers.py:385-398 | With a cap of thirty seconds or more, a 429 without a usable Retry-After ends the call only on the last attempt |
| `StructuredJson.DecodeLastValidObject` | rag/llm_providers.py:173-209 | Of all objects in the text that decode and validate, the one that starts last is returned; there is an error exactly when there is none |
| `StructuredJson.BoundedRetryGenerate` | rag/llm_providers.py:212-250 | Only validated data is returned; every prompt is the original with at most the latest correction; replies without a valid object, and exceptions of any class but the four passed on, are discarded within the budget; a passed-on exception ends the loop at once |
| `StructuredJson.FirstDecides` | rag/llm_providers.py:229-250 | The first reply that is not discarded decides which exception is passed on, and generation gives up exactly when every allowed reply is discarded |
| `Chunking.SplitTokens` | rag/chunking.py:85-106 | The loop builds the sliding windows over a section |
| `Chunking.WindowAt` | rag/chunking.py:85-106 | Every window is non-empty; all but the last hold exactly the chunk size, share exactly the overlap with the next and are extended by it; the last ends with the tokens |
| `Chunking.CoverageExactlyWhen` | rag/chunking.py:85-106 | The guard admits negative overlaps; every token is covered exactly when the overlap is not negative or one window is enough |
| `Chunking.WindowCount` | rag/chunking.py:85-106 | There is one window plus one for each started stride beyond the first chunk |
| `Chunking.WindowsRebuildTokens` | rag/chunking.py:85-106 | Concatenating the windows without their overlaps gives the tokens back |
| `Chunking.SplitIntoSections` | rag/chunking.py:65-82 | The loop over heading matches gives the sections of the document |
| `Chunking.SectionsAreTheBodies` | rag/chunking.py:65-82 | A position is in a section exactly when no heading covers it and it does not come before the first heading: that text is dropped |
| `Chunking.SectionCrossesNoHeading` | rag/chunking.py:65-82 | A section is an exact slice of the document, carries the titles of the document and of the heading it follows, and no heading reaches into it |
| `Chunking.ChunkSection` | rag/chunking.py:124-144 | The inner loop appends one numbered chunk for each window that is not blank |
| `Chunking.ChunkDocument` | rag/chunking.py:109-144 | Raises exactly when the overlap is not below the chunk size; otherwise returns one numbered chunk per kept window, in the order of the loops |
| `Chunking.PiecesAreWindows` | rag/chunking.py:109-144 | Every chunk comes from a window of its section that fits the section's tokens |
| `Chunking.ChunksAreExactSlices` | rag/chunking.py:124-144 | Every chunk is the slice of the document between its offsets, lies inside one section and carries its position as index |
| `Chunking.ChunksCrossNoHeading` | rag/chunking.py:109-144 | No chunk reaches into a heading line |
| `Chunking.PiecesInOrder` | rag/chunking.py:109-144 | Chunks come in document order: by section, and inside a section by first token |
| `Chunking.EveryTokenIsChunked` | rag/chunking.py:109-144 | Every token of every section body lies in some chunk |
| `Chunking.ChunkedExactlyWhen` | rag/chunking.py:124-144 | A window of a section is cut out as a chunk exactly when it holds something other than whitespace |
| `Money.UpperHasNoLowerCase` | providers/money.py:49-50 | Currency codes are compared in upper case, which changes lower-case letters only |
| `Money.NearestIsUnique` | providers/money.py:40-65 | Nearest, with ties away from zero, determines the rounded value |
| `Money.ConvertibleExactlyWhen` | providers/money.py:40-65 | A conversion is available exactly for one currency, or for the pair of the quote in either direction; anything else is the exception |
| `Money.SecondRoundingIsIdentity` | providers/money.py:64-65 | The second rounding never changes anything: a value is the first rounding, or the error when that has too many digits |
| `Money.ExactConversion` | providers/money.py:40-65 | A conversion is the exact product rounded to the nearest minor unit, ties away from zero |
| `Money.ExactConversionIsOddAndMonotone` | providers/money.py:40-65 | Conversion is odd and monotone in the amount |
| `Money.ExactRoundTrip` | providers/money.py:40-65 | There and back the error is at most 1/2 + 1/(2 rate) minor units, and there is none when the first rate is at least 1 |
| `Money.RoundTripIsExactExactlyWhen` | providers/money.py:40-65 | Every amount comes back exactly if and only if the first rate is at least 1: below it, some amount always comes back as another one |
| `Money.RoundTripBelowOneCanMiss` | providers/money.py:40-65 | The smallest miss: at one half, one minor unit comes back as two |
| `Money.FitsExactlyWhen` | providers/money.py:64 | A value has at most 28 digits exactly when it is below ten to the 28th minor units |
| `Money.DecimalConversionRounds` | providers/money.py:40-65 | A Decimal conversion is the rounding of a number within three relative roundings of the exact product, and raises exactly when that rounding has more than 28 digits |
| `Money.DecimalConversion` | providers/money.py:40-65 | A Decimal conversion is within half a minor unit of the exact product plus three relative roundings of 28 digits; it raises only when the product reaches ten to the 28th minor units, up to that error |
| `Money.DecimalRoundTripAt` | providers/money.py:40-65 | At every rate, for every amount whose first conversion does not raise: the round trip is off by at most 1/2 + 1/(2 rate) plus the error of 28 digits, is exact when those latter two stay below 1/2, and raises on the way back only within that distance of ten to the 28th |
| `Money.DecimalRoundTrip` | providers/money.py:40-65 | Amounts up to 10^24 minor units come back exactly at every rate from 1.01 up, if and only if the first conversion does not raise |
| `BudgetSummary.CheapestPrice` | orchestration/system_a/budget_summary.py:33-45 | The least price of the first successful observation that lists any; none exactly when there is no such observation |
| `BudgetSummary.CheapestStayTotal` | orchestration/system_a/budget_summary.py:48-64 | The least nightly price times the nights; none exactly when nothing is priced or the nights are unknown or zero |
| `BudgetSummary.BuildEntries` | orchestration/system_a/budget_summary.py:101-137 | At most one quote is fetched, against the budget currency and only if some price needs it; an entry is normalized exactly when no conversion is needed or that quote is for its currency, and then by that quote's conversion; the summary raises exactly when its fetch does, or else one of those conversions overflows |
| `BudgetSummary.OneQuoteIsEnoughExactlyWhen` | orchestration/system_a/budget_summary.py:101-137 | With a usable quote, both prices are normalized exactly when they share a currency or one is in the budget currency; otherwise exactly one stays unconverted |
| `BudgetSummary.HugePricesOverflow` | orchestration/system_a/budget_summary.py:120-133 | A price of ten to the 28th minor units, worth two units of the budget currency each, raises, whatever a correctly rounding Decimal does |
| `CircuitBreakers.CircuitBreaker.ShouldAllowCall` | providers/policy.py:189-198 | A call is refused exactly when enough failures came since the last success, no probe was let through since the last outcome, and less than the open period has passed since the latest failure |
| `CircuitBreakers.CircuitBreaker.RecordSuccess` | providers/policy.py:200-203 | A success is one more event of the history, and the state stays the one that history determines |
| `CircuitBreakers.CircuitBreaker.RecordFailure` | providers/policy.py:205-209 | A failure is one more event of the history, and the state and open time stay those that history determines |
| `CircuitBreakers.FirstProbeWaits` | providers/policy.py:189-198 | The first call let through after a tripping failure comes at least the open period after it |
| `CircuitBreakers.ProbedExactlyWhen` | providers/policy.py:189-209 | A probe since the latest outcome is a call let through with nothing but calls after it |
| `CircuitBreakers.LatestFailureExactlyWhen` | providers/policy.py:205-209 | The latest failure is a failure with no failure after it |
| `CircuitBreakers.HalfOpenAdmitsEveryCall` | providers/policy.py:198 | Half open admits any number of calls until an outcome is recorded |
| `CircuitBreakers.TwoCallsPassHalfOpen` | providers/policy.py:189-198 | Thirty seconds after three failures the breaker answers two calls in a row, and lets both through |
| `CircuitBreakers.NeverRefusedBelowThreshold` | providers/policy.py:189-209 | Fewer than the threshold of failures in a row never refuse anybody |
| `CircuitBreakers.ThresholdFailuresTrip` | providers/policy.py:189-209 | From a success or the start on, after failures with any calls between them and refused calls since the last one, the next call is refused exactly when the failures reach the threshold and the open period since the last of them has not passed |
| `FxCache.OnlyFinalCodesEndTheRequests` | providers/fx_frankfurter.py:162-187 | Requests go on past transport failures and every status but success, 400, 404 and 422, and stop at the first of these; without one, all allowed requests are made |
| `FxCache.BackoffIsBounded` | providers/policy.py:105-115 | Whatever Retry-After says, a wait is never negative and never beyond the policy maximum |
| `FxCache.BackoffIs` | providers/policy.py:105-117 | A wait is Retry-After cut to the range from zero to the maximum, and without it the base doubled with every attempt up to the maximum |
| `FxCache.RequestWithRetries` | providers/fx_frankfurter.py:162-187 | The loop ends at the first reply that is not retried or the last allowed one, with that reply's result and exactly the backoffs in between |
| `FxCache.RefetchesExactlyWhen` | providers/fx_frankfurter.py:103-187 | What a refetch comes to, exactly, from the reply that ended the requests: the quote its body holds, or the status of each kind of failure |
| `FxCache.WaitsBetweenRequests` | providers/fx_frankfurter.py:162-187 | What is slept in all: after each retried reply the wait for its attempt, decided by Retry-After after a 429 only |
| `FxCache.FxProvider.FetchRate` | providers/fx_frankfurter.py:72-101 | Each call adds one event to the history; a fresh entry is served without any request, otherwise the pair is refetched; the cache always holds exactly the last parsed response of every pair; the call raises when the envelope of its answer does not validate, after the cache was written |
| `FxCache.CachedQuoteWasFetched` | providers/fx_frankfurter.py:93-101 | What is cached for a pair was parsed from a response to a request for that pair, and is the latest such response |
| `FxCache.SuccessfulFetchesAreSpaced` | providers/fx_frankfurter.py:78-100 | Two successful fetches of one pair start more than the time to live apart |
| `FxCache.AnswersAreHonest` | providers/fx_frankfurter.py:72-156 | A call is answered and does not raise exactly when both codes are three capitals and the latest parsed quote of the pair, if there is one, validates; an answer succeeds exactly when there is such a quote and carries it, with its age; it is a hit, a miss or stale exactly when the quote was fresh, refetched or kept after a failed refetch, and otherwise has the status of that failure |
| `FxCache.BadQuoteRaisesUntilReplaced` | providers/fx_frankfurter.py:79-101 | Over every history: from a call that caches a quote that does not validate on, every call for its pair raises, however late, until one parses a quote that validates |
| `FxCache.BadQuoteRaisesForATimeToLive` | providers/fx_frankfurter.py:79-101 | For a time to live after such a call, every call for its pair raises without sending a request |
| `FxCache.SmallRatesAreCachedAndRefused` | providers/fx_frankfurter.py:103-124 | A rate printed with an exponent is parsed and cached, and its quote does not validate |
| `FxCache.FailedRefetchHasAFailureStatus` | providers/fx_frankfurter.py:162-187 | A failed refetch carries a failure status, and a parsed quote is of the pair asked for |
| `FxCache.StalenessIsUnbounded` | providers/fx_frankfurter.py:84-98 | Any quote ever fetched is still served, as stale, after any delay, if it validates |
| `EventStream.SequenceOfEvent` | orchestration/system_a/run_store.py:545-556 | The id of a stored event resolves to its own sequence number |
| `EventStream.EventGenerator.constructor` | orchestration/system_a/api.py:366-371 | A connection starts after the event its Last-Event-ID names, or from the beginning when there is none or it is unknown |
| `EventStream.EventGenerator.Poll` | orchestration/system_a/api.py:379-387 | A poll sends everything after the last sent event up to the first terminal one, in order, and ends the stream exactly there |
| `EventStream.ConnectResumes` | orchestration/system_a/api.py:366-371 | A reconnect with the last received id resumes right after that event |
| `EventStream.ReceivedIsAlwaysAPrefix` | orchestration/system_a/api.py:376-392 | For every interleaving of appends, polls, deliveries, lossy disconnects and reconnects, what the client received is a gap-free, repeat-free, in-order prefix of the log |
| `EventStream.NeverPastTheFirstTerminal` | orchestration/system_a/api.py:376-392 | A client that does not reconnect after a terminal event is never sent anything past the first one |
| `EventStream.ReconnectingPassesATerminalExactlyWhen` | orchestration/system_a/api.py:366-392 | A client that reconnects can be taken past a terminal event exactly when the log goes on after one |
| `EventStream.EveryEventCanBeReceived` | orchestration/system_a/api.py:376-392 | From every reachable state, every event of the log can still be received |
| `EventStream.EveryLogCanBeDelivered` | orchestration/system_a/api.py:376-392 | Any events under fresh, non-empty ids can be written and then received to the last one, in order |
| `Calendar.OrdinalCountsDays` | providers/weather_openmeteo.py:127-137 | The ordinal the date arithmetic rests on numbers the days of the whole calendar one by one from 1 January of year 1 |
| `Calendar.NextDayIsADate` | providers/weather_openmeteo.py:127-137 | The next day of a date is a date, but for the last one there is |
| `Calendar.LeapsBeforeNext` | providers/weather_openmeteo.py:127-137 | Leap days gone by follow the Gregorian leap rule year by year |
| `Calendar.EquivalentAlwaysExists` | providers/weather_openmeteo.py:127-137 | For every year of the calendar the equivalent day exists, 29 February clamped to the 28th, so no sampled year is skipped; outside it, which error results |
| `Calendar.EquivalentShift` | providers/weather_openmeteo.py:127-137 | How many days lie between a day and its equivalent in another year |
| `Calendar.ArchiveDayIsEquivalentOrNeighbour` | providers/weather_openmeteo.py:497-505 | The archive day at each offset is the equivalent calendar day or a neighbour when the trip ends within three calendar years of its start, and never more than three days off |
| `Calendar.ArchiveDayCanDrift` | providers/weather_openmeteo.py:497-505 | Concrete trips whose archive day is off by one in either direction, and by two |
| `Calendar.SampledYearsAreTheLast` | providers/weather_openmeteo.py:121-124 | The sampled years are the most recent three that are wholly past, oldest first |
| `Calendar.OneYearTripReadsThePast` | providers/weather_openmeteo.py:498-505 | A trip within one calendar year reads nothing later than 1 January of this year |
| `Calendar.NewYearTripReadsTheFuture` | providers/weather_openmeteo.py:497-505 | A trip over New Year can ask the archive for days that have not happened yet |
| `Climate.CountCodes` | providers/weather_openmeteo.py:101-106 | The dictionary counts every code's occurrences |
| `Climate.MostCommonCode` | providers/weather_openmeteo.py:101-108 | The most frequent code, the lowest of them on a tie |
| `Climate.CollectSamples` | providers/weather_openmeteo.py:522-534 | The records used for a day are those with both temperatures, oldest year first |
| `Climate.SamplesAreMeasured` | providers/weather_openmeteo.py:522-534 | Every sample is the pair of temperatures some sampled year has for that day, at most one from each year |
| `Climate.SamplesByYear` | providers/weather_openmeteo.py:511-534 | The samples of several years are those of each year in order, its two temperatures where it has both |
| `Climate.MeansAreBetween` | providers/weather_openmeteo.py:537-538 | Before rounding, the reported high and low lie between the extremes of that day's samples |
| `Climate.MeansAreArithmetic` | providers/weather_openmeteo.py:488-557 | The reported means are arithmetic means, characterised by one sample and by joining lists |
| `Climate.ClimateDaysAreTheSampledOnes` | providers/weather_openmeteo.py:531-550 | The reported days are, in order, exactly those for which some sampled year has both temperatures |
| `Climate.ClimateDaysAreMeans` | providers/weather_openmeteo.py:534-550 | Every reported day holds the rounded means of its own day's samples |
| `Weather.PartsPartitionTheRange` | providers/weather_openmeteo.py:222-224 | Every requested day is in exactly one of the live and historical parts, no other day is in either, and a live part exists exactly from the reported earliest day on |
| `Weather.ArchiveStaysPastExactlyWhen` | providers/weather_openmeteo.py:497-505 | No archive request asks for a day after today exactly when the historical part is no longer than the time since last year's equivalent of its first day |
| `Weather.PicksTheFirstInCountry` | providers/weather_openmeteo.py:347-383 | The place is the first result in the country asked for, and the first of all only when there is none there |
| `Weather.CollectYears` | providers/weather_openmeteo.py:502-529 | The first archive reply that cannot be read is the answer, never what the other years gave; otherwise all years are kept, in order |
| `Weather.YearsAreReplies` | providers/weather_openmeteo.py:502-529 | Each archive reply that is read gives one year: its records, or none where it has no data |
| `Weather.AggregateClimate` | providers/weather_openmeteo.py:488-557 | The climate days of all sampled years, or the first fault among their replies |
| `Weather.FetchWeather` | providers/weather_openmeteo.py:190-274 | Step by step, stopping at the first exchange that fails, the adapter comes to the outcome that the replies determine, the validation of each envelope it builds included |
| `Weather.SuccessReportsExactly` | providers/weather_openmeteo.py:222-274 | A success reports the days its forecast lists and the historical days for which some sampled year has both temperatures, and no other day; its mode tells which of the two parts were asked for |
| `Weather.SuccessCoversTheRangeExactlyWhen` | providers/weather_openmeteo.py:222-274 | A success leaves no requested day out exactly when the forecast lists every live day and every historical day is listed or was sampled; neither is checked |
| `Weather.EmptyArchivesAreASuccess` | providers/weather_openmeteo.py:511-534 | A trip wholly past the horizon whose archive answers hold no data is a success that reports no day at all, as long as the schema takes its location, time zone and place |
| `Weather.EscapesExactlyWhen` | providers/weather_openmeteo.py:190-274 | For every query: which exception escapes, and exactly when: the first exchange that fails is a geocoding or forecast body that is no object or cannot be read, or an archive body that is no JSON, no object or cannot be read; or the request or an exchange failed and the location, time zone or place of the degraded envelope does not validate; or all was read and the finished envelope does not validate |
| `Weather.ReportedStatusExactlyWhen` | providers/weather_openmeteo.py:190-274 | Which status a valid request is answered with, exactly, from the first exchange that fails |
| `Weather.FailuresAreReportedExactlyWhen` | providers/weather_openmeteo.py:619-645 | Some failure of a request can be reported in an envelope exactly when its location is not empty and the schema takes its time zone, which a caller can tell beforehand |
| `Weather.AlwaysEscapesExactlyWhen` | providers/weather_openmeteo.py:190-274 | Whatever the network answers, a request ends in an exception exactly when its location is empty, or the schema does not take its time zone and the request is refused or names coordinates |
| `Weather.EmptyLocationEscapes` | providers/weather_openmeteo.py:340-343 | A request for the empty location is refused as invalid, and raises while the refusal is reported |
| `Weather.HyphenatedZonesAreRefused` | contracts/WeatherResult.schema.json:32-36 | The pattern for time zones refuses every one with a hyphen, America/Port-au-Prince for one |
| `Weather.WordsExactlyWhen` | contracts/WeatherResult.schema.json:32-36 | What the time zone pattern means: words of letters with slashes between them |
| `Weather.NoWeatherInHyphenatedZones` | providers/weather_openmeteo.py:376-380 | Where the geocoder, or a query with coordinates, names such a time zone, a request that goes well ends in an exception |
| `Whitespace.StripIsAPiece` | rag/answer_service.py:388-390 | Stripping takes whitespace off both ends, all of it and nothing else, and leaves a contiguous piece |
| `Whitespace.NothingLeftMeansAllSpace` | rag/answer_service.py:326-334 | Nothing is left by stripping exactly when there is only whitespace |
| `Whitespace.NormalizingJoinsTheWords` | rag/answer_service.py:284-285 | Normalizing a text is joining its words with single blanks |
| `Whitespace.NormalizingKeepsSolid` | rag/answer_service.py:284-285 | Whitespace normalization changes whitespace only |
| `Whitespace.QuotedCharactersAreCopied` | rag/answer_service.py:288-299 | A quote found in a normalized text is, whitespace aside, a contiguous piece of the original text |
| `Context.GroupsAdd` | rag/answer_service.py:503-505 | Adding a chunk to the citations adds exactly that pair of source and chunk |
| `Context.GroupsEmpty` | rag/answer_service.py:503-515 | Citations grouped by source are empty exactly when nothing is cited |
| `Context.RetrievedExactlyWhen` | rag/answer_service.py:401-435 | An identifier is known exactly when an item has it, and then with the source of the last such item |
| `ClaimValidation.ValidateAgainstContext` | rag/answer_service.py:342-385 | Accepts exactly the well-shaped responses all of whose claims pass, and otherwise reports the shape or the first claim that fails and why |
| `ClaimValidation.FaultsExactlyWhen` | rag/answer_service.py:342-385 | What is wrong with a claim, each exactly when: a chunk that was not retrieved, else a quote that no cited chunk holds, else no overlap with chunks all in the language of the question |
| `ClaimValidation.ValidExactlyWhen` | rag/answer_service.py:321-385 | A response is accepted exactly when it is insufficient without claims, or grounded with claims that are all sound |
| `ClaimValidation.TestsAgree` | rag/answer_service.py:370-501 | The test inside the repair loop and the filter after it agree on every claim that cites anything |
| `ClaimValidation.FilterClaims` | rag/answer_service.py:483-505 | The filter keeps the texts of the passing claims in order, counts the others as dropped, and cites exactly the kept claims' chunks, each under its source |
| `ClaimValidation.KeptByClaim` | rag/answer_service.py:483-515 | The filter looks at each claim alone |
| `ClaimValidation.DedupInOrder` | rag/answer_service.py:371 | Repeated chunk identifiers are dropped and the others stay in the order in which they first occur |
| `ClaimValidation.OverlapIsAskedOfOneLanguageOnly` | rag/answer_service.py:374-385 | A claim citing any chunk of another or unknown language needs a verbatim quote and nothing more; a claim whose chunks are all in the question's language must overlap with them as well |
| `ClaimValidation.ValidClaimsAreNotEmpty` | rag/answer_service.py:321-339 | No accepted claim has an empty or blank text, quote or chunk id, and each cites something |
| `ClaimValidation.NothingIsDropped` | rag/answer_service.py:483-505 | The filter drops nothing from a response the validator accepted |
| `ClaimValidation.ValidClaimIsAnchored` | rag/answer_service.py:366-385 | Every accepted claim cites only retrieved chunks, and its non-empty quote is a whitespace-normalized substring of one of them |
| `ClaimValidation.CitationsAreTheUnion` | rag/answer_service.py:502-527 | A chunk is cited exactly when some claim cites it, under its own source |
| `Extraction.MatchesAreRuns` | rag/answer_service.py:388-390 | The sentence matches are maximal runs of non-terminators, each with its terminator |
| `Extraction.MatchesCoverTheText` | rag/answer_service.py:388-390 | No character other than a terminator is left out of the matches |
| `Extraction.MatchesInOrder` | rag/answer_service.py:388-398 | The matches follow one another |
| `Extraction.SentencesInOrder` | rag/answer_service.py:388-398 | The sentences come in the order of the matches they are taken from |
| `Extraction.NoSentenceIsLost` | rag/answer_service.py:388-390 | Every match that is not blank gives a sentence |
| `Extraction.SentencesArePieces` | rag/answer_service.py:388-390 | A sentence is a contiguous, non-empty piece of its text: a whole match without the whitespace around it, or its first 300 characters |
| `Extraction.CandidatesAre` | rag/answer_service.py:568-573 | The candidates are exactly the relevant sentences of the retrieved chunks, each once, in reading order |
| `Extraction.CollectCandidates` | rag/answer_service.py:568-573 | The nested loops collect the candidates |
| `Extraction.HasQuestionRelevantContext` | rag/answer_service.py:615-625 | True exactly when some sentence of some retrieved chunk is relevant |
| `Extraction.RelevantExactlyWhen` | rag/answer_service.py:615-625 | Context is relevant exactly when the text of a retrieved chunk holds a sentence that shares two significant words with the question or holds one of its names |
| `Extraction.CandidatesAgreeWithTheTest` | rag/answer_service.py:568-625 | There is a candidate exactly when the relevance test holds |
| `Extraction.SelectedAreTheBest` | rag/answer_service.py:582-583 | The one or two selected candidates have more overlap, then an earlier rank, then an earlier place than every other candidate, and are in that order |
| `Extraction.SelectedSentencesArePieces` | rag/answer_service.py:582-605 | Every selected sentence is a contiguous piece of the chunk it cites |
| `Extraction.ExtractiveFallback` | rag/answer_service.py:541-613 | Answers exactly when the relevance test holds, with the selected sentences, citing exactly their chunks; every outcome carries the given reason |
| `GroundedAnswer.Respond` | rag/answer_service.py:436-539 | What follows each way generation can end: which exceptions pass through, which fallback with which reason, and an answer made of all claims with nothing dropped |
| `GroundedAnswer.Answer` | rag/answer_service.py:401-539 | Over all branches: answers carry citations and refusals none, live-data questions never reach generation, transport is blamed exactly when the transport error of the provider itself is passed on after discarded replies only, the structure of the output is blamed exactly when every reply is discarded, and an answer that is not a fallback consists of validated claims in full |
| `GroundedAnswer.GroundedAnswersAreBacked` | rag/answer_service.py:483-539 | Each claim's quote is a whitespace-normalized piece of a chunk it cites, and the cited chunks are exactly the union of the claims' chunks, all retrieved, each under its own source |
| `GroundedAnswer.FallbackAnswersAreBacked` | rag/answer_service.py:582-613 | A fallback has one or two sentences, each a piece of a chunk it cites, and cites no other chunk |
| `GroundedAnswer.RetrievedIdsAre` | rag/answer_service.py:432 | The retrieved identifiers of a result are those of the items, each once |
| `GenerationTransport.EndsInTransportExactlyWhen` | rag/llm_providers.py:377-408 | The last request of a hosted call fails in transport exactly when the call meets its third transport failure and raises the transport error, or runs out of attempts and raises the assertion |
| `GenerationTransport.SeenExactlyWhen` | rag/llm_providers.py:229-247 | The repair loop discards a call exactly when it ran out of attempts, or stopped at a body or an exception that is of no use; it sees the transport error exactly after a third transport failure, the rate limit exactly when the call raised it, and a URL error exactly for an HTTP or URL error |
| `GenerationTransport.ReasonsExactlyWhen` | rag/llm_providers.py:212-408 | With hosted calls, an answer blames transport exactly when some call met its third transport failure and every call before it ran out of attempts or stopped at nothing usable, and the structure of the output exactly when every call did |
| `GenerationTransport.OutageIsBlamedExactlyWhen` | rag/llm_providers.py:212-408 | When the last request of every call fails in transport, transport is blamed exactly when some call meets three such failures; otherwise the answer says that the output was malformed |
| `GenerationTransport.HiddenOutage` | rag/llm_providers.py:229-408 | When every call is answered by five 429 and then resets, each ends in a reset, the answer blames the structure of the output and not transport |
| `AcceptanceGate.EvaluateOne` | rag/generation_eval.py:108-224 | Every field and failure category of a row, each by its own condition on question, answer and judge, and no category twice |
| `AcceptanceGate.JudgeSeesTheCitedChunks` | rag/generation_eval.py:85-105 | The judge of an answer sees exactly the cited chunks, and of a refusal the retrieved ones; the defensive default is never used |
| `AcceptanceGate.CountFailures` | rag/run_generation_eval.py:399-403 | The failure dictionary counts occurrences, and its hallucination entry is the count the gate uses |
| `AcceptanceGate.CategoriesConcatenate` | rag/run_generation_eval.py:399-403 | The total of a category is how often the rows name it, row by row |
| `AcceptanceGate.GateIsAConjunction` | rag/run_generation_eval.py:455-474 | The gate passes exactly when every question went well: required refusals refused, every other question answered, cited and judged fully faithful, and no transport failed |
| `AcceptanceGate.PassesExactlyWhen` | rag/run_generation_eval.py:455-474 | The decision on any counts: nothing failed, every answerable question was judged, every emitted claim is cited and every refusal asked for was given |
| `AcceptanceGate.CountsAreConsistent` | rag/run_generation_eval.py:350-377 | Every question counts once, as answerable or as to be refused; every answerable one was judged or its judging failed; right and wrong refusals are counted among those |
| `AcceptanceGate.OneQuestionCounts` | rag/run_generation_eval.py:337-442 | What one question adds to each of the seventeen counts, told from its answer and its judging |
| `AcceptanceGate.CountsConcatenate` | rag/run_generation_eval.py:337-442 | Every count of two lists of rows together is the sum of the two |
| `AcceptanceGate.CoverageIsAlwaysFull` | rag/run_generation_eval.py:354-364 | Given what the answer service keeps of its results, the citation coverage is 1 whatever the rows |
| `AcceptanceGate.FailureIsFinal` | rag/run_generation_eval.py:455-474 | No further rows turn a failed gate into a passed one |
| `AcceptanceGate.OneMoreRow` | rag/run_generation_eval.py:476-485 | A row adds its counts to the breakdown of its own language or category and to no other |
| `AcceptanceGate.BreakdownAddsUp` | rag/run_generation_eval.py:399-485 | Every count of a breakdown by language or category, and every category of its failure dictionaries, adds up to the global figure |
| `ChatHistory.DropOldest` | orchestration/system_a/chat_service.py:431-441 | Popping the oldest messages leaves the longest suffix with at most 12 messages and 12000 characters |
| `ChatHistory.LoadBoundedHistory` | orchestration/system_a/chat_service.py:431-442 | The history is the longest fitting suffix of the in-context rows among the last 60 |
| `ChatHistory.SixAlwaysSurvive` | orchestration/system_a/chat_service.py:209-442 | Since stored messages are cut to 2000 characters, the last six in-context messages always survive |
| `ChatHistory.EveryHistoryIsWellStored` | orchestration/system_a/run_store.py:386-437 | After any number of turns rows are numbered from 0 without gaps and come in pairs of question and reply with one status, in context exactly when completed |
| `ChatHistory.OnlyCompletedTurnsAreInContext` | orchestration/system_a/chat_service.py:246-297 | The rows in context are, in order, the messages of the completed turns; rejected and provider-failed turns never appear |
| `ChatHistory.ContextIsASuffixOfTheCompletedConversation` | orchestration/system_a/chat_service.py:431-442 | What the model is shown is the end of the completed conversation, whatever happened in between |
| `ChatHistory.ContextIsEmptyExactlyWhen` | orchestration/system_a/chat_service.py:431-442 | The model sees nothing of the conversation exactly when none of the last thirty turns was completed |
| `ChatHistory.ClassifyWithRepairs` | orchestration/system_a/chat_service.py:463-525 | The first attempt that is not repairable decides, or the last one allowed: a decision, a safe clarification after malformed output, or an unavailable provider with its retriability |
| `ChatHistory.OutcomeIsUnique` | orchestration/system_a/chat_service.py:463-525 | The attempts settle the outcome and the number of calls |
| `ChatHistory.AnExchangeIsTwoNewRows` | orchestration/system_a/run_store.py:386-437 | Storing an exchange leaves earlier rows alone and adds question and reply in this order, numbered beyond every row there is, each cut to 2000 characters, with one status and one context flag |
| `ChatHistory.ChatSession.HandleChatTurn` | orchestration/system_a/chat_service.py:226-359 | A turn without access stores nothing; any other stores one exchange that counts exactly when it was answered; the provider was shown the bounded history of the turns before it, and the attempt that settles the turn gives its own decision, the fallback question or the kind of unavailability |
| `RankFusion.LexTotal` | rag/rrf.py:48 | Identifier order is total and irreflexive |
| `RankFusion.LexTransitive` | rag/rrf.py:48 | Identifier order is transitive |
| `RankFusion.RankedExactlyWhenListed` | rag/rrf.py:33-34 | An identifier has a rank exactly when it is listed, and stands there for the last time |
| `RankFusion.ScoresAreReciprocals` | rag/rrf.py:35-42 | A score is the sum of the reciprocals of k plus each rank, and a list without the identifier adds nothing |
| `RankFusion.ReciprocalRankFusion` | rag/rrf.py:25-49 | Whatever the iteration order of the set, the output holds every identifier of either list once with its score, in strict order of score and then identifier |
| `RankFusion.FusionIsUnique` | rag/rrf.py:35-49 | Only one output meets that description |
| `RankFusion.SwappingTheLists` | rag/rrf.py:25-49 | Swapping the lists changes nothing but which rank is which |
| `RankFusion.DominanceIsKept` | rag/rrf.py:37-49 | An identifier ahead of another in one list and no worse in the other comes before it |
| `Sorting.SortMembers` | rag/rrf.py:48 | Sorting keeps the elements |
| `Sorting.SortOrdered` | rag/rrf.py:48 | Sorting by a strict order without ties gives strictly increasing elements |
| `Sorting.OrderedIsUnique` | rag/rrf.py:48 | Only one sequence holds given elements in strictly increasing order |

## Left out

- HTTP transports, the Qdrant engine, SQLite, embeddings, BM25 and the agent protocols: requests become traces of replies, the vector store a map of collections, tables sequences of rows.
- The agent graph, trip patches and run creation: no chat property modelled here depends on them; an exception from creating a run before the turn is stored is not modelled.
- Prompts, model output, language detection, tokenization, case folding and the live-data cues: they enter as functions or as the outcome of a test.  JSON decoding and the headings a regular expression finds enter as data.
- SHA-256 and JSON serialisation are assumed free of collisions where a lemma says so; payload metadata outside the fingerprint is not part of the model.
- Other members of envelopes than those that Weather and FxCache validate, provenance, redaction, configuration, entry points, the SerpApi adapters and the ground-truth tables: they would add only easy members.
- One client upsert is modelled point by point, so that a crash may keep a prefix of it; the server may well be stronger.
- Floating point: scores, means, waits and clocks are real numbers, and rounding to one decimal is an unspecified function.
- A NaN in Retry-After, and clocks that run backwards, are not modelled.
- Chunk sizes of zero or less, and exchange rates that are not positive, are excluded: nothing in the code checks either.
- Money.DecimalConversion: exponents beyond Decimal's range are not modelled.
- BudgetSummary.BuildEntries: which of two foreign currencies the set yields first is left open, as in the code.
- RankFusion.ReciprocalRankFusion: the constant k is a natural number; a negative one can divide by zero in the code.
- Money.UpperHasNoLowerCase: upper case is that of ASCII letters; currency codes hold no others.
- ClaimValidation.FilterClaims: citations are sets of chunks by source; the sorted rendering with titles and addresses is left out.
- Weather.AggregateClimate: precipitation and the printed condition are left out; a temperature that is no number, which raises when the years are averaged, is not modelled; nor are the text formats of dates.
- Weather.EscapesExactlyWhen: which members of a block cannot be read is not modelled, only that reading some of them raises; exceptions from date arithmetic at the ends of the calendar are left out; of a finished envelope, what the schema asks beyond location, time zone and place is a parameter.
- FxCache.FxProvider.FetchRate: what the schema takes for a date is a parameter.
- GenerationTransport.ReasonsExactlyWhen: a provider that is not configured and raises before any request, and the local provider, which has no request loop, are not modelled.
- EventStream.EventGenerator.Poll: heartbeats and the waiting between polls are left out.
- ChatHistory.ChatSession.HandleChatTurn: the language correction is a function of the message, so its own provider call is not modelled; concurrent turns of one session are serialised.
- AcceptanceGate.EvaluateOne: other exceptions of the judge, which end the evaluation, are not modelled.
- Failing disk operations other than the modelled crash and I/O error points of a run are not part of the model.
