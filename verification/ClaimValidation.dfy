/** Validating generated claims inside the repair loop, and filtering them after it (rag/answer_service.py). */
module ClaimValidation {
  import opened Common
  import opened Whitespace
  import opened Context

  datatype Claim = Claim(text: string, quote: string, chunkIds: seq<string>)

  datatype AnswerStatus = Grounded | Insufficient | OtherStatus

  /** A decoded object; Misshapen stands for fields that are missing or of the wrong type. */
  datatype Response = Response(status: AnswerStatus, claims: seq<Claim>) | Misshapen

  /** What a claim is checked against.  `supported` is the lexical overlap test of a claim text with chunk texts. */
  datatype Evidence = Evidence(
    sources: map<string, string>, texts: map<string, string>, languageOf: map<string, string>, language: string,
    supported: (string, seq<string>) -> bool)

  // ---- Shape ----

  predicate Blank(s: string) { Strip(s) == "" }

  predicate ClaimShape(c: Claim) {
    && !Blank(c.text) && !Blank(c.quote) && c.chunkIds != []
    && forall id | id in c.chunkIds :: !Blank(id)
  }

  predicate Shape(r: Response) {
    && r.Response? && !r.status.OtherStatus?
    && (forall c | c in r.claims :: ClaimShape(c))
    && (r.status.Insufficient? <==> r.claims == [])
  }

  // ---- One claim ----

  function SourceOf(id: string, e: Evidence): string {
    if id in e.sources then e.sources[id] else ""
  }

  /** Without repetitions, in order of first occurrence. */
  function Dedup(ids: seq<string>): seq<string> {
    if ids == [] then []
    else
      var before := Dedup(ids[..|ids| - 1]);
      if ids[|ids| - 1] in before then before else before + [ids[|ids| - 1]]
  }

  function KnownIds(ids: seq<string>, sources: map<string, string>): seq<string> {
    if ids == [] then []
    else KnownIds(ids[..|ids| - 1], sources) + if ids[|ids| - 1] in sources then [ids[|ids| - 1]] else []
  }

  function TextsOf(ids: seq<string>, texts: map<string, string>): seq<string> {
    seq(|ids|, i requires 0 <= i < |ids| => TextOf(texts, ids[i]))
  }

  predicate Verbatim(quote: string, chunkTexts: seq<string>) {
    && NormalizeWhitespace(quote) != ""
    && exists t | t in chunkTexts :: Contains(NormalizeWhitespace(t), NormalizeWhitespace(quote))
  }

  /** Every cited chunk has a source whose language is known to be the question's. */
  predicate SharesLanguage(ids: seq<string>, e: Evidence) {
    forall id | id in ids ::
      id in e.sources && e.sources[id] in e.languageOf && e.languageOf[e.sources[id]] == e.language
  }

  datatype Fault = UnknownChunk | NotVerbatim | NotSupported

  /** The test of the repair loop. */
  function CheckClaim(c: Claim, e: Evidence): Option<Fault> {
    var cited := Dedup(c.chunkIds);
    var citedTexts := TextsOf(cited, e.texts);
    if exists id | id in cited :: id !in e.sources then Some(UnknownChunk)
    else if !Verbatim(c.quote, citedTexts) then Some(NotVerbatim)
    else if SharesLanguage(cited, e) && !e.supported(c.text, citedTexts) then Some(NotSupported)
    else None
  }

  /** The test of the filter behind the loop, which looks at the known chunks only. */
  predicate Keeps(c: Claim, e: Evidence) {
    var cited := Dedup(c.chunkIds);
    var known := KnownIds(cited, e.sources);
    var knownTexts := TextsOf(known, e.texts);
    && !((exists id | id in cited :: id !in e.sources) || known == [])
    && Verbatim(c.quote, knownTexts)
    && !(SharesLanguage(known, e) && !e.supported(c.text, knownTexts))
  }

  lemma {:induction false} DedupMembers(ids: seq<string>)
    ensures forall id :: id in Dedup(ids) <==> id in ids
    ensures forall i, j :: 0 <= i < j < |Dedup(ids)| ==> Dedup(ids)[i] != Dedup(ids)[j]
  {
    if ids != [] {
      assert ids == ids[..|ids| - 1] + [ids[|ids| - 1]];
      DedupMembers(ids[..|ids| - 1]);
    }
  }

  /** Identifiers stay in the order in which they first occur. */
  lemma {:induction false} DedupInOrder(ids: seq<string>, i: nat, j: nat) returns (p: nat)
    requires i < j < |Dedup(ids)|
    ensures p < |ids| && ids[p] == Dedup(ids)[i] && Dedup(ids)[j] !in ids[..p + 1]
  {
    var init := ids[..|ids| - 1];
    DedupMembers(init);
    if j < |Dedup(init)| {
      p := DedupInOrder(init, i, j);
      assert init[..p + 1] == ids[..p + 1];
    } else {
      assert Dedup(init)[i] in init;
      p :| 0 <= p < |init| && init[p] == Dedup(init)[i];
      assert forall k :: 0 <= k <= p ==> ids[..p + 1][k] == init[k] && init[k] in init;
    }
  }

  lemma {:induction false} AllKnown(ids: seq<string>, sources: map<string, string>)
    requires forall id | id in ids :: id in sources
    ensures KnownIds(ids, sources) == ids
  {
    if ids != [] {
      assert ids == ids[..|ids| - 1] + [ids[|ids| - 1]];
      AllKnown(ids[..|ids| - 1], sources);
    }
  }

  /** The two tests agree on every claim that cites anything at all. */
  lemma TestsAgree(c: Claim, e: Evidence)
    ensures Keeps(c, e) <==> c.chunkIds != [] && CheckClaim(c, e).None?
  {
    hide Verbatim;
    DedupMembers(c.chunkIds);
    var cited := Dedup(c.chunkIds);
    assert |c.chunkIds| > 0 ==> c.chunkIds[0] in cited;
    assert |cited| > 0 ==> cited[0] in c.chunkIds;
    if forall id | id in cited :: id in e.sources {
      AllKnown(cited, e.sources);
    }
  }

  /** A claim that cites any chunk of another or unknown language needs a verbatim quote and nothing more; a claim all
      of whose chunks are in the question's language must overlap with them as well. */
  lemma OverlapIsAskedOfOneLanguageOnly(c: Claim, e: Evidence)
    requires forall id | id in c.chunkIds :: id in e.sources
    requires Verbatim(c.quote, TextsOf(Dedup(c.chunkIds), e.texts))
    ensures CheckClaim(c, e).None? <==>
      || e.supported(c.text, TextsOf(Dedup(c.chunkIds), e.texts))
      || exists id | id in c.chunkIds :: e.sources[id] !in e.languageOf || e.languageOf[e.sources[id]] != e.language
  {
    hide Verbatim;
    DedupMembers(c.chunkIds);
  }

  /** The quote is not blank, and the text of some cited chunk holds it, whitespace aside. */
  predicate HasQuote(c: Claim, e: Evidence) {
    && NormalizeWhitespace(c.quote) != ""
    && exists id | id in c.chunkIds ::
         id in e.texts && Contains(NormalizeWhitespace(e.texts[id]), NormalizeWhitespace(c.quote))
  }

  predicate AllRetrieved(c: Claim, e: Evidence) { forall id | id in c.chunkIds :: id in e.sources }

  /** Every cited chunk is known to be in the language of the question. */
  predicate InQuestionLanguage(c: Claim, e: Evidence) {
    forall id | id in c.chunkIds :: SourceOf(id, e) in e.languageOf && e.languageOf[SourceOf(id, e)] == e.language
  }

  /** What is wrong with a claim: a chunk that was not retrieved, or else a quote that no cited chunk holds, or else no
      overlap with chunks that are all in the question's language; and nothing in every other case. */
  lemma FaultsExactlyWhen(c: Claim, e: Evidence)
    ensures var fault := CheckClaim(c, e);
      && (fault == Some(UnknownChunk) <==> !AllRetrieved(c, e))
      && (fault == Some(NotVerbatim) <==> AllRetrieved(c, e) && !HasQuote(c, e))
      && (fault == Some(NotSupported) <==>
            AllRetrieved(c, e) && HasQuote(c, e) && InQuestionLanguage(c, e) &&
            !e.supported(c.text, TextsOf(Dedup(c.chunkIds), e.texts)))
      && (fault == None <==>
            AllRetrieved(c, e) && HasQuote(c, e) &&
            (InQuestionLanguage(c, e) ==> e.supported(c.text, TextsOf(Dedup(c.chunkIds), e.texts))))
  {
    DedupMembers(c.chunkIds);
    VerbatimExactlyWhen(c, e);
    hide Verbatim;
    hide HasQuote;
  }

  lemma VerbatimExactlyWhen(c: Claim, e: Evidence)
    ensures Verbatim(c.quote, TextsOf(Dedup(c.chunkIds), e.texts)) <==> HasQuote(c, e)
  {
    DedupMembers(c.chunkIds);
    var cited, quote := Dedup(c.chunkIds), NormalizeWhitespace(c.quote);
    var texts := TextsOf(cited, e.texts);
    assert NormalizeWhitespace("") == "";
    hide NormalizeWhitespace;
    if t :| t in texts && quote != "" && Contains(NormalizeWhitespace(t), quote) {
      var i :| 0 <= i < |cited| && texts[i] == t;
      assert cited[i] in c.chunkIds && cited[i] in e.texts;
    }
    if id :| id in c.chunkIds && id in e.texts && Contains(NormalizeWhitespace(e.texts[id]), quote) {
      var i :| 0 <= i < |cited| && cited[i] == id;
      assert texts[i] in texts;
    }
  }

  // ---- The repair loop's validator ----

  predicate Valid(r: Response, e: Evidence) {
    Shape(r) && forall c | c in r.claims :: CheckClaim(c, e).None?
  }

  /** A claim that says something, quotes what a retrieved chunk holds and, where all of its chunks are in the question's
      language, overlaps with them. */
  predicate IsSound(c: Claim, e: Evidence) {
    && !AllSpace(c.text) && !AllSpace(c.quote) && c.chunkIds != [] && (forall id | id in c.chunkIds :: !AllSpace(id))
    && AllRetrieved(c, e) && HasQuote(c, e)
    && (InQuestionLanguage(c, e) ==> e.supported(c.text, TextsOf(Dedup(c.chunkIds), e.texts)))
  }

  /** A response is accepted exactly when it is insufficient and claims nothing, or grounded, claims something, and
      every claim is sound. */
  lemma ValidExactlyWhen(r: Response, e: Evidence)
    ensures Valid(r, e) <==>
      r == Response(Insufficient, []) ||
      (r.Response? && r.status.Grounded? && r.claims != [] && forall c | c in r.claims :: IsSound(c, e))
  {
    hide CheckClaim;
    hide IsSound;
    hide ClaimShape;
    forall c: Claim ensures ClaimShape(c) && CheckClaim(c, e).None? <==> IsSound(c, e) {
      SoundExactlyWhen(c, e);
    }
  }

  lemma SoundExactlyWhen(c: Claim, e: Evidence)
    ensures ClaimShape(c) && CheckClaim(c, e).None? <==> IsSound(c, e)
  {
    hide HasQuote;
    hide AllRetrieved;
    hide InQuestionLanguage;
    hide CheckClaim;
    hide NormalizeWhitespace;
    FaultsExactlyWhen(c, e);
    NothingLeftMeansAllSpace(c.text);
    NothingLeftMeansAllSpace(c.quote);
    forall id | id in c.chunkIds ensures Blank(id) <==> AllSpace(id) { NothingLeftMeansAllSpace(id); }
  }

  datatype ValidationError = BadShape | BadClaim(index: nat, fault: Fault)

  /** Accepts exactly the valid responses; otherwise reports the first bad claim. */
  method ValidateAgainstContext(r: Response, e: Evidence) returns (error: Option<ValidationError>)
    ensures error.None? <==> Valid(r, e)
    ensures error == Some(BadShape) <==> !Shape(r)
    ensures error.Some? && error.value.BadClaim? ==>
      var k := error.value.index;
      && r.Response? && k < |r.claims| && CheckClaim(r.claims[k], e) == Some(error.value.fault)
      && forall i :: 0 <= i < k ==> CheckClaim(r.claims[i], e).None?
  {
    if !Shape(r) {
      return Some(BadShape);
    }
    if r.status.Insufficient? {
      return None;
    }
    for index := 0 to |r.claims|
      invariant forall i :: 0 <= i < index ==> CheckClaim(r.claims[i], e).None?
    {
      var fault := CheckClaim(r.claims[index], e);
      if fault.Some? {
        assert r.claims[index] in r.claims;
        return Some(BadClaim(index, fault.value));
      }
    }
    error := None;
  }

  // ---- The filter ----

  function Kept(claims: seq<Claim>, e: Evidence): seq<Claim> {
    if claims == [] then []
    else Kept(claims[..|claims| - 1], e) + if Keeps(claims[|claims| - 1], e) then [claims[|claims| - 1]] else []
  }

  function ClaimTexts(claims: seq<Claim>): seq<string> {
    seq(|claims|, i requires 0 <= i < |claims| => claims[i].text)
  }

  /** The chunks some identifiers name, each with its source. */
  function PairsOf(ids: seq<string>, e: Evidence): set<(string, string)> {
    set id | id in ids :: (SourceOf(id, e), id)
  }

  function CitedPairs(claims: seq<Claim>, e: Evidence): set<(string, string)> {
    if claims == [] then {}
    else CitedPairs(claims[..|claims| - 1], e) + PairsOf(claims[|claims| - 1].chunkIds, e)
  }

  method CiteAll(ids: seq<string>, e: Evidence, before: Citations, ghost pairs: set<(string, string)>)
      returns (citations: Citations)
    requires Groups(before, pairs)
    requires forall id | id in ids :: id in e.sources
    ensures Groups(citations, pairs + PairsOf(ids, e))
  {
    citations := before;
    for k := 0 to |ids|
      invariant Groups(citations, pairs + PairsOf(ids[..k], e))
    {
      GroupsAdd(citations, pairs + PairsOf(ids[..k], e), e.sources[ids[k]], ids[k]);
      PairsOfStep(ids, k, e);
      assert pairs + PairsOf(ids[..k], e) + {(SourceOf(ids[k], e), ids[k])} == pairs + PairsOf(ids[..k + 1], e);
      citations := AddCitation(citations, e.sources[ids[k]], ids[k]);
    }
    assert ids[..|ids|] == ids;
  }

  lemma PairsOfStep(ids: seq<string>, k: nat, e: Evidence)
    requires k < |ids|
    ensures PairsOf(ids[..k + 1], e) == PairsOf(ids[..k], e) + {(SourceOf(ids[k], e), ids[k])}
  {
    assert ids[..k + 1] == ids[..k] + [ids[k]];
  }

  lemma PairsOfDedup(ids: seq<string>, e: Evidence)
    ensures PairsOf(Dedup(ids), e) == PairsOf(ids, e)
  {
    DedupMembers(ids);
  }

  lemma KeptStep(claims: seq<Claim>, k: nat, e: Evidence)
    requires k < |claims|
    ensures Kept(claims[..k + 1], e) ==
      if Keeps(claims[k], e) then Kept(claims[..k], e) + [claims[k]] else Kept(claims[..k], e)
  {
    hide Keeps;
    assert claims[..k + 1][..k] == claims[..k];
  }

  /** The filter looks at each claim alone: of two lists it keeps what it keeps of each. */
  lemma {:induction false} KeptByClaim(a: seq<Claim>, b: seq<Claim>, c: Claim, e: Evidence)
    ensures Kept(a + b, e) == Kept(a, e) + Kept(b, e)
    ensures Kept([c], e) == if Keeps(c, e) then [c] else []
    decreases |b|
  {
    hide Keeps;
    assert [c][..0] == [];
    if b == [] {
      assert a + b == a;
    } else {
      assert (a + b)[..|a + b| - 1] == a + b[..|b| - 1];
      KeptByClaim(a, b[..|b| - 1], c, e);
    }
  }

  lemma CitedPairsStep(claims: seq<Claim>, c: Claim, e: Evidence)
    ensures CitedPairs(claims + [c], e) == CitedPairs(claims, e) + PairsOf(c.chunkIds, e)
    ensures ClaimTexts(claims + [c]) == ClaimTexts(claims) + [c.text]
  {
    hide PairsOf;
    assert (claims + [c])[..|claims|] == claims;
  }

  /** The texts of the kept claims in order, and their cited chunks by source. */
  method FilterClaims(claims: seq<Claim>, e: Evidence)
      returns (texts: seq<string>, citations: Citations, dropped: nat)
    ensures texts == ClaimTexts(Kept(claims, e))
    ensures dropped == |claims| - |texts|
    ensures Groups(citations, CitedPairs(Kept(claims, e), e))
  {
    hide Keeps;
    hide PairsOf;
    hide Groups;
    texts, citations, dropped := [], map[], 0;
    assert Groups(citations, {}) by { NoCitations(); }
    for k := 0 to |claims|
      invariant texts == ClaimTexts(Kept(claims[..k], e))
      invariant dropped == k - |texts|
      invariant Groups(citations, CitedPairs(Kept(claims[..k], e), e))
    {
      var claim := claims[k];
      KeptStep(claims, k, e);
      if Keeps(claim, e) {
        CitedPairsStep(Kept(claims[..k], e), claim, e);
        KeptCitesKnown(claim, e);
        PairsOfDedup(claim.chunkIds, e);
        var known := KnownIds(Dedup(claim.chunkIds), e.sources);
        citations := CiteAll(known, e, citations, CitedPairs(Kept(claims[..k], e), e));
        texts := texts + [claim.text];
      } else {
        dropped := dropped + 1;
      }
    }
    assert claims[..|claims|] == claims;
  }

  lemma NoCitations()
    ensures Groups(map[], {})
  {
  }

  lemma KeptCitesKnown(c: Claim, e: Evidence)
    requires Keeps(c, e)
    ensures KnownIds(Dedup(c.chunkIds), e.sources) == Dedup(c.chunkIds)
    ensures forall id | id in Dedup(c.chunkIds) :: id in e.sources
    ensures forall id | id in c.chunkIds :: id in e.sources
  {
    AllKnown(Dedup(c.chunkIds), e.sources);
    DedupMembers(c.chunkIds);
  }

  // ---- What the two together give ----

  lemma {:induction false} AllKept(claims: seq<Claim>, e: Evidence)
    requires forall c | c in claims :: Keeps(c, e)
    ensures Kept(claims, e) == claims
  {
    hide Keeps;
    if claims != [] {
      assert claims == claims[..|claims| - 1] + [claims[|claims| - 1]];
      AllKept(claims[..|claims| - 1], e);
    }
  }

  /** The filter drops nothing the validator let through. */
  lemma NothingIsDropped(r: Response, e: Evidence)
    requires Valid(r, e)
    ensures Kept(r.claims, e) == r.claims
  {
    hide CheckClaim;
    hide Keeps;
    forall c | c in r.claims ensures Keeps(c, e) {
      assert ClaimShape(c);
      TestsAgree(c, e);
    }
    AllKept(r.claims, e);
  }

  /** A claim is anchored when every chunk it cites was retrieved and one of them has its quote, whitespace aside. */
  predicate Anchored(c: Claim, e: Evidence) {
    && (forall id | id in c.chunkIds :: id in e.sources)
    && exists id | id in c.chunkIds ::
         Contains(NormalizeWhitespace(TextOf(e.texts, id)), NormalizeWhitespace(c.quote))
  }

  lemma ValidClaimIsAnchored(c: Claim, e: Evidence)
    requires CheckClaim(c, e).None?
    ensures Anchored(c, e) && NormalizeWhitespace(c.quote) != ""
  {
    DedupMembers(c.chunkIds);
    var cited := Dedup(c.chunkIds);
    var t :| t in TextsOf(cited, e.texts) && Contains(NormalizeWhitespace(t), NormalizeWhitespace(c.quote));
    var i :| 0 <= i < |cited| && TextsOf(cited, e.texts)[i] == t;
    assert cited[i] in c.chunkIds;
  }

  /** No accepted claim is empty: text, quote and chunk ids are there, and none is whitespace only. */
  lemma ValidClaimsAreNotEmpty(r: Response, e: Evidence, c: Claim)
    requires Valid(r, e) && c in r.claims
    ensures !AllSpace(c.text) && !AllSpace(c.quote) && c.chunkIds != []
    ensures forall id | id in c.chunkIds :: !AllSpace(id)
  {
    assert ClaimShape(c);
    NothingLeftMeansAllSpace(c.text);
    NothingLeftMeansAllSpace(c.quote);
    forall id | id in c.chunkIds ensures !AllSpace(id) { NothingLeftMeansAllSpace(id); }
  }

  predicate CitedByOne(claims: seq<Claim>, id: string) {
    exists c | c in claims :: id in c.chunkIds
  }

  /** A chunk is cited exactly when some claim cites it, under its own source. */
  lemma {:induction false} CitationsAreTheUnion(claims: seq<Claim>, e: Evidence, source: string, id: string)
    ensures (source, id) in CitedPairs(claims, e) <==> CitedByOne(claims, id) && source == SourceOf(id, e)
  {
    if claims != [] {
      assert claims == claims[..|claims| - 1] + [claims[|claims| - 1]];
      CitationsAreTheUnion(claims[..|claims| - 1], e, source, id);
    }
  }
}
