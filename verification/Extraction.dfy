/** The last-resort answer copied out of retrieved chunks (rag/answer_service.py).

    `signal` gives, for a sentence, how many significant words it shares with the question and whether it holds one
    of the question's names. */
module Extraction {
  import opened Common
  import opened Whitespace
  import opened Context
  import Sorting

  const MAX_SENTENCE_LENGTH := 300

  // ---- Sentences ----

  predicate IsTerminator(c: char) { c in {'.', '!', '?'} }

  /** End of the run of non-terminators that starts at i. */
  function RunEnd(text: string, i: nat): (r: nat)
    requires i <= |text|
    ensures i <= r <= |text|
    decreases |text| - i
  {
    if i < |text| && !IsTerminator(text[i]) then RunEnd(text, i + 1) else i
  }

  datatype Span = Span(first: nat, end: nat)

  /** The matches of a run of non-terminators with an optional terminator, from i on. */
  function Matches(text: string, i: nat): seq<Span>
    requires i <= |text|
    decreases |text| - i
  {
    if i == |text| then []
    else if IsTerminator(text[i]) then Matches(text, i + 1)
    else
      var e := RunEnd(text, i + 1);
      var end := if e < |text| then e + 1 else e;
      [Span(i, end)] + Matches(text, end)
  }

  function Cut(s: string): string {
    if |s| <= MAX_SENTENCE_LENGTH then s else s[..MAX_SENTENCE_LENGTH]
  }

  function SentencesOf(text: string, spans: seq<Span>): seq<string>
    requires forall m | m in spans :: m.first <= m.end <= |text|
  {
    if spans == [] then []
    else
      var last := spans[|spans| - 1];
      var sentence := Strip(text[last.first..last.end]);
      SentencesOf(text, spans[..|spans| - 1]) + if sentence != "" then [Cut(sentence)] else []
  }

  function Sentences(text: string): seq<string> {
    MatchesAreRuns(text, 0);
    SentencesOf(text, Matches(text, 0))
  }

  lemma {:induction false} RunEndStops(text: string, i: nat)
    requires i <= |text|
    ensures forall p :: i <= p < RunEnd(text, i) ==> !IsTerminator(text[p])
    ensures RunEnd(text, i) < |text| ==> IsTerminator(text[RunEnd(text, i)])
    decreases |text| - i
  {
    if i < |text| && !IsTerminator(text[i]) { RunEndStops(text, i + 1); }
  }

  /** A maximal run: no terminator inside but at its end, and cut off there or by the end of the text. */
  predicate IsRun(text: string, i: nat, m: Span) {
    && i <= m.first < m.end <= |text|
    && (forall p :: m.first <= p < m.end - 1 ==> !IsTerminator(text[p]))
    && !IsTerminator(text[m.first])
    && (m.end == |text| || IsTerminator(text[m.end - 1]))
  }

  lemma {:induction false} MatchesAreRuns(text: string, i: nat)
    requires i <= |text|
    ensures forall m | m in Matches(text, i) :: IsRun(text, i, m)
    decreases |text| - i
  {
    if i < |text| {
      if IsTerminator(text[i]) {
        MatchesAreRuns(text, i + 1);
      } else {
        RunEndStops(text, i + 1);
        var e := RunEnd(text, i + 1);
        MatchesAreRuns(text, if e < |text| then e + 1 else e);
      }
    }
  }

  predicate InOneOf(spans: seq<Span>, p: nat) {
    exists m | m in spans :: m.first <= p < m.end
  }

  /** No character but terminators is left out of the sentences. */
  lemma {:induction false} MatchesCoverTheText(text: string, i: nat, p: nat)
    requires i <= p < |text| && !IsTerminator(text[p])
    ensures InOneOf(Matches(text, i), p)
    decreases |text| - i
  {
    if IsTerminator(text[i]) {
      MatchesCoverTheText(text, i + 1, p);
    } else {
      RunEndStops(text, i + 1);
      var e := RunEnd(text, i + 1);
      var end := if e < |text| then e + 1 else e;
      assert Span(i, end) in Matches(text, i);
      if p >= end {
        MatchesCoverTheText(text, end, p);
        var m :| m in Matches(text, end) && m.first <= p < m.end;
        assert m in Matches(text, i);
      }
    }
  }

  /** The stripped text of a match, or its first 300 characters when it is longer. */
  predicate IsSentenceOf(text: string, m: Span, sentence: string)
    requires m.first <= m.end <= |text|
  {
    && sentence != "" && sentence <= Strip(text[m.first..m.end])
    && |sentence| <= MAX_SENTENCE_LENGTH
    && (|sentence| == MAX_SENTENCE_LENGTH || sentence == Strip(text[m.first..m.end]))
  }

  predicate FromOne(text: string, spans: seq<Span>, sentence: string)
    requires forall m | m in spans :: m.first <= m.end <= |text|
  {
    exists m | m in spans :: IsSentenceOf(text, m, sentence)
  }

  lemma {:induction false} SentencesAreFromSpans(text: string, spans: seq<Span>, k: nat)
    requires forall m | m in spans :: m.first <= m.end <= |text|
    requires k < |SentencesOf(text, spans)|
    ensures FromOne(text, spans, SentencesOf(text, spans)[k])
  {
    if spans != [] {
      hide IsSentenceOf;
      var init, last := spans[..|spans| - 1], spans[|spans| - 1];
      assert last in spans;
      if k < |SentencesOf(text, init)| {
        SentencesAreFromSpans(text, init, k);
      } else {
        CutIsSentence(text, last);
      }
    }
  }

  lemma CutIsSentence(text: string, m: Span)
    requires m.first <= m.end <= |text| && Strip(text[m.first..m.end]) != ""
    ensures IsSentenceOf(text, m, Cut(Strip(text[m.first..m.end])))
  {
  }

  /** Every match that is not blank gives a sentence. */
  lemma {:induction false} NoSentenceIsLost(text: string, spans: seq<Span>, m: Span)
    requires forall n | n in spans :: n.first <= n.end <= |text|
    requires m in spans && Strip(text[m.first..m.end]) != ""
    ensures Cut(Strip(text[m.first..m.end])) in SentencesOf(text, spans)
  {
    var init, last := spans[..|spans| - 1], spans[|spans| - 1];
    assert spans == init + [last];
    if m != last { NoSentenceIsLost(text, init, m); }
  }

  /** The matches follow one another. */
  lemma {:induction false} MatchesInOrder(text: string, i: nat, p: nat, q: nat)
    requires i <= |text| && p < q < |Matches(text, i)|
    ensures Matches(text, i)[p].end <= Matches(text, i)[q].first
    decreases |text| - i
  {
    if IsTerminator(text[i]) {
      MatchesInOrder(text, i + 1, p, q);
    } else {
      var e := RunEnd(text, i + 1);
      var end := if e < |text| then e + 1 else e;
      if p > 0 {
        MatchesInOrder(text, end, p - 1, q - 1);
      } else {
        MatchesAreRuns(text, end);
        assert Matches(text, i)[q] == Matches(text, end)[q - 1] && Matches(text, end)[q - 1] in Matches(text, end);
      }
    }
  }

  /** The sentences come in the order of the matches they are taken from. */
  lemma {:induction false} SentencesInOrder(text: string, spans: seq<Span>, p: nat, q: nat) returns (i: nat, j: nat)
    requires forall m | m in spans :: m.first <= m.end <= |text|
    requires p < q < |SentencesOf(text, spans)|
    ensures i < j < |spans|
    ensures IsSentenceOf(text, spans[i], SentencesOf(text, spans)[p])
    ensures IsSentenceOf(text, spans[j], SentencesOf(text, spans)[q])
  {
    hide IsSentenceOf;
    var init, last := spans[..|spans| - 1], spans[|spans| - 1];
    assert last in spans;
    if q < |SentencesOf(text, init)| {
      i, j := SentencesInOrder(text, init, p, q);
    } else {
      SentencesAreFromSpans(text, init, p);
      var m :| m in init && IsSentenceOf(text, m, SentencesOf(text, init)[p]);
      i :| 0 <= i < |init| && init[i] == m;
      j := |init|;
      CutIsSentence(text, last);
    }
  }

  lemma SentenceIsAPiece(text: string, m: Span, sentence: string)
    requires m.first <= m.end <= |text| && IsSentenceOf(text, m, sentence)
    ensures Contains(text, sentence)
  {
    hide Strip;
    var part, stripped := text[m.first..m.end], Strip(text[m.first..m.end]);
    assert OccursAt(text, part, m.first);
    var before, after := StripIsAPiece(part);
    ContainsVia(part, before, stripped, after);
    assert OccursAt(stripped, sentence, 0);
    ContainsTransitive(text, part, stripped);
    ContainsTransitive(text, stripped, sentence);
  }

  /** A sentence is a contiguous, non-empty piece of its text: a whole match without the whitespace around it, or the
      first 300 characters of one. */
  lemma SentencesArePieces(text: string, k: nat)
    requires k < |Sentences(text)|
    ensures forall m | m in Matches(text, 0) :: m.first <= m.end <= |text|
    ensures FromOne(text, Matches(text, 0), Sentences(text)[k])
    ensures Contains(text, Sentences(text)[k]) && Sentences(text)[k] != ""
  {
    MatchesAreRuns(text, 0);
    SentencesAreFromSpans(text, Matches(text, 0), k);
    var m :| m in Matches(text, 0) && IsSentenceOf(text, m, Sentences(text)[k]);
    SentenceIsAPiece(text, m, Sentences(text)[k]);
  }

  // ---- Candidates ----

  datatype Candidate = Candidate(overlap: nat, rank: nat, index: nat, sentence: string, item: Item)

  predicate Relevant(signal: string -> (nat, bool), sentence: string) {
    signal(sentence).0 >= 2 || signal(sentence).1
  }

  function SentencesAt(items: seq<Item>, texts: map<string, string>, rank: nat): seq<string>
    requires rank < |items|
  {
    Sentences(TextOf(texts, items[rank].chunkId))
  }

  /** The relevant ones among the first n sentences of the item of this rank. */
  function ItemCandidates(items: seq<Item>, texts: map<string, string>, signal: string -> (nat, bool), rank: nat, n: nat)
      : seq<Candidate>
    requires rank < |items| && n <= |SentencesAt(items, texts, rank)|
  {
    if n == 0 then []
    else
      var sentence := SentencesAt(items, texts, rank)[n - 1];
      ItemCandidates(items, texts, signal, rank, n - 1) +
      if Relevant(signal, sentence)
      then [Candidate(signal(sentence).0, rank, n - 1, sentence, items[rank])] else []
  }

  function Candidates(items: seq<Item>, texts: map<string, string>, signal: string -> (nat, bool), n: nat): seq<Candidate>
    requires n <= |items|
  {
    if n == 0 then []
    else
      Candidates(items, texts, signal, n - 1) +
      ItemCandidates(items, texts, signal, n - 1, |SentencesAt(items, texts, n - 1)|)
  }

  /** What makes a candidate: a relevant sentence of a retrieved chunk, at its own place. */
  predicate IsCandidate(items: seq<Item>, texts: map<string, string>, signal: string -> (nat, bool), c: Candidate) {
    && c.rank < |items| && c.item == items[c.rank]
    && c.index < |SentencesAt(items, texts, c.rank)| && c.sentence == SentencesAt(items, texts, c.rank)[c.index]
    && Relevant(signal, c.sentence) && c.overlap == signal(c.sentence).0
  }

  predicate Earlier(a: Candidate, b: Candidate) {
    a.rank < b.rank || (a.rank == b.rank && a.index < b.index)
  }

  lemma {:induction false} ItemCandidatesAre(items: seq<Item>, texts: map<string, string>, signal: string -> (nat, bool),
                                             rank: nat, n: nat)
    requires rank < |items| && n <= |SentencesAt(items, texts, rank)|
    ensures forall c :: c in ItemCandidates(items, texts, signal, rank, n) <==>
      IsCandidate(items, texts, signal, c) && c.rank == rank && c.index < n
    ensures Sorting.Ordered(ItemCandidates(items, texts, signal, rank, n), Earlier)
  {
    hide SentencesAt;
    hide Relevant;
    if n > 0 { ItemCandidatesAre(items, texts, signal, rank, n - 1); }
  }

  /** The candidates are the relevant sentences, each once, in reading order. */
  lemma {:induction false} CandidatesAre(items: seq<Item>, texts: map<string, string>, signal: string -> (nat, bool), n: nat)
    requires n <= |items|
    ensures forall c :: c in Candidates(items, texts, signal, n) <==> IsCandidate(items, texts, signal, c) && c.rank < n
    ensures Sorting.Ordered(Candidates(items, texts, signal, n), Earlier)
  {
    hide SentencesAt;
    hide Relevant;
    hide ItemCandidates;
    if n > 0 {
      CandidatesAre(items, texts, signal, n - 1);
      ItemCandidatesAre(items, texts, signal, n - 1, |SentencesAt(items, texts, n - 1)|);
      OrderedAppend(Candidates(items, texts, signal, n - 1),
                    ItemCandidates(items, texts, signal, n - 1, |SentencesAt(items, texts, n - 1)|));
    }
  }

  lemma OrderedAppend(a: seq<Candidate>, b: seq<Candidate>)
    requires Sorting.Ordered(a, Earlier) && Sorting.Ordered(b, Earlier)
    requires forall x, y | x in a && y in b :: Earlier(x, y)
    ensures Sorting.Ordered(a + b, Earlier)
  {
    forall i, j | 0 <= i < j < |a + b| ensures Earlier((a + b)[i], (a + b)[j]) {
      if i < |a| <= j {
        assert (a + b)[i] in a && (a + b)[j] in b;
      }
    }
  }

  method CollectCandidates(items: seq<Item>, texts: map<string, string>, signal: string -> (nat, bool))
      returns (candidates: seq<Candidate>)
    ensures candidates == Candidates(items, texts, signal, |items|)
  {
    hide Sentences;
    candidates := [];
    for rank := 0 to |items|
      invariant candidates == Candidates(items, texts, signal, rank)
    {
      var sentences := SentencesAt(items, texts, rank);
      for index := 0 to |sentences|
        invariant candidates ==
          Candidates(items, texts, signal, rank) + ItemCandidates(items, texts, signal, rank, index)
      {
        var (overlap, namedAnchor) := signal(sentences[index]);
        if overlap >= 2 || namedAnchor {
          candidates := candidates + [Candidate(overlap, rank, index, sentences[index], items[rank])];
        }
      }
    }
  }

  /** Some sentence of some retrieved chunk is relevant. */
  ghost predicate RelevantContext(items: seq<Item>, texts: map<string, string>, signal: string -> (nat, bool)) {
    exists rank, k :: 0 <= rank < |items| && 0 <= k < |SentencesAt(items, texts, rank)| &&
                      Relevant(signal, SentencesAt(items, texts, rank)[k])
  }

  /** This sentence stands in the retrieved text of this item, and is relevant. */
  ghost predicate HoldsRelevant(items: seq<Item>, texts: map<string, string>, signal: string -> (nat, bool), item: Item,
                                sentence: string)
  {
    && item in items && item.chunkId in texts && sentence in Sentences(texts[item.chunkId])
    && (signal(sentence).0 >= 2 || signal(sentence).1)
  }

  /** Context is relevant exactly when the text of some retrieved chunk holds a sentence that shares two significant words
      with the question or holds one of its names. */
  lemma RelevantExactlyWhen(items: seq<Item>, texts: map<string, string>, signal: string -> (nat, bool))
    ensures RelevantContext(items, texts, signal) <==>
      exists item, sentence :: HoldsRelevant(items, texts, signal, item, sentence)
  {
    assert Sentences("") == [];
    hide Sentences;
    if RelevantContext(items, texts, signal) {
      var rank, k :| 0 <= rank < |items| && 0 <= k < |SentencesAt(items, texts, rank)| &&
                     Relevant(signal, SentencesAt(items, texts, rank)[k]);
      assert HoldsRelevant(items, texts, signal, items[rank], SentencesAt(items, texts, rank)[k]);
    }
    if item, sentence :| HoldsRelevant(items, texts, signal, item, sentence) {
      var rank :| 0 <= rank < |items| && items[rank] == item;
      var k :| 0 <= k < |SentencesAt(items, texts, rank)| && SentencesAt(items, texts, rank)[k] == sentence;
    }
  }

  method HasQuestionRelevantContext(items: seq<Item>, texts: map<string, string>, signal: string -> (nat, bool))
      returns (r: bool)
    ensures r <==> RelevantContext(items, texts, signal)
  {
    hide Sentences;
    for rank := 0 to |items|
      invariant forall q, k :: 0 <= q < rank && 0 <= k < |SentencesAt(items, texts, q)| ==>
        !Relevant(signal, SentencesAt(items, texts, q)[k])
    {
      var sentences := SentencesAt(items, texts, rank);
      for index := 0 to |sentences|
        invariant forall k :: 0 <= k < index ==> !Relevant(signal, sentences[k])
      {
        if Relevant(signal, sentences[index]) {
          return true;
        }
      }
    }
    return false;
  }

  /** The relevance test finds something exactly when there is a candidate. */
  lemma CandidatesAgreeWithTheTest(items: seq<Item>, texts: map<string, string>, signal: string -> (nat, bool))
    ensures Candidates(items, texts, signal, |items|) != [] <==> RelevantContext(items, texts, signal)
  {
    hide Sentences;
    hide Relevant;
    CandidatesAre(items, texts, signal, |items|);
    var all := Candidates(items, texts, signal, |items|);
    if all != [] {
      assert IsCandidate(items, texts, signal, all[0]);
    }
    if RelevantContext(items, texts, signal) {
      var rank, k :| 0 <= rank < |items| && 0 <= k < |SentencesAt(items, texts, rank)| &&
                     Relevant(signal, SentencesAt(items, texts, rank)[k]);
      var sentence := SentencesAt(items, texts, rank)[k];
      assert Candidate(signal(sentence).0, rank, k, sentence, items[rank]) in all;
    }
  }

  // ---- Selection ----

  /** More overlap, then earlier rank, then earlier sentence. */
  predicate Better(a: Candidate, b: Candidate) {
    a.overlap > b.overlap || (a.overlap == b.overlap && Earlier(a, b))
  }

  lemma BetterIsStrict()
    ensures Sorting.StrictOrder(Better)
  {
  }

  function Selected(items: seq<Item>, texts: map<string, string>, signal: string -> (nat, bool)): seq<Candidate> {
    var sorted := Sorting.Sort(Candidates(items, texts, signal, |items|), Better);
    if |sorted| <= 2 then sorted else sorted[..2]
  }

  /** The selected sentences are candidates, best first, and every candidate that is not selected is worse than both;
      two are selected when there are two, and each is a piece of the chunk it is cited from. */
  lemma SelectedAreTheBest(items: seq<Item>, texts: map<string, string>, signal: string -> (nat, bool))
    ensures var chosen := Selected(items, texts, signal);
      && Sorting.Ordered(chosen, Better)
      && (forall c | c in chosen :: IsCandidate(items, texts, signal, c))
      && (forall c, d :: d in chosen && IsCandidate(items, texts, signal, c) && c !in chosen ==>
            d.overlap > c.overlap || (d.overlap == c.overlap &&
              (d.rank < c.rank || (d.rank == c.rank && d.index < c.index))))
      && (forall i, j :: 0 <= i < j < |chosen| ==>
            chosen[i].overlap > chosen[j].overlap || (chosen[i].overlap == chosen[j].overlap &&
              (chosen[i].rank < chosen[j].rank || (chosen[i].rank == chosen[j].rank && chosen[i].index < chosen[j].index))))
      && (forall c :: IsCandidate(items, texts, signal, c) && c !in chosen ==> |chosen| == 2)
      && |chosen| <= 2
  {
    hide Sentences;
    hide IsCandidate;
    hide Candidates;
    var all := Candidates(items, texts, signal, |items|);
    CandidatesAre(items, texts, signal, |items|);
    assert forall c :: IsCandidate(items, texts, signal, c) ==> c in all by { CandidateRanks(items, texts, signal); }
    BetterIsStrict();
    ReadingOrderIsComparable(all);
    Sorting.SortOrdered(all, Better);
    Sorting.SortMembers(all, Better);
    FirstTwo(Sorting.Sort(all, Better));
  }

  lemma CandidateRanks(items: seq<Item>, texts: map<string, string>, signal: string -> (nat, bool))
    ensures forall c :: IsCandidate(items, texts, signal, c) ==> c.rank < |items|
  {
    hide Sentences;
  }

  lemma ReadingOrderIsComparable(s: seq<Candidate>)
    requires Sorting.Ordered(s, Earlier)
    ensures Sorting.Comparable(s, Better)
  {
  }

  lemma FirstTwo(s: seq<Candidate>)
    requires Sorting.Ordered(s, Better)
    ensures var chosen := if |s| <= 2 then s else s[..2];
      && Sorting.Ordered(chosen, Better)
      && (forall c | c in chosen :: c in s)
      && (forall c, d :: d in chosen && c in s && c !in chosen ==> Better(d, c) && |chosen| == 2)
      && (forall c :: c in s && c !in chosen ==> |chosen| == 2)
  {
  }

  lemma SelectedSentencesArePieces(items: seq<Item>, texts: map<string, string>, signal: string -> (nat, bool), c: Candidate)
    requires c in Selected(items, texts, signal)
    ensures c.item in items && c.item.chunkId in texts
    ensures Contains(texts[c.item.chunkId], c.sentence) && c.sentence != ""
  {
    hide Sentences;
    SelectedAreTheBest(items, texts, signal);
    SentencesArePieces(TextOf(texts, c.item.chunkId), c.index);
  }

  // ---- The answer ----

  const REFUSAL_TEXT := "I don't have grounded information on this in my current sources."

  function SentencesIn(cs: seq<Candidate>): seq<string> {
    seq(|cs|, i requires 0 <= i < |cs| => cs[i].sentence)
  }

  function ChunkIds(items: seq<Item>): seq<string> {
    seq(|items|, i requires 0 <= i < |items| => items[i].chunkId)
  }

  function CitedBy(cs: seq<Candidate>): set<(string, string)> {
    set c | c in cs :: (c.item.sourceId, c.item.chunkId)
  }

  /** What the fallback adds to the reason it was called for. */
  function FallbackNote(items: seq<Item>, refused: bool): string {
    if !refused then "_used_relevant_extractive_fallback"
    else if items == [] then "_no_chunks"
    else "_no_relevant_extractive_sentence"
  }

  /** Answers exactly when the relevance test holds, with the best one or two sentences, citing the chunks they are
      copied from and no others; every outcome carries the reason. */
  method ExtractiveFallback(items: seq<Item>, texts: map<string, string>, signal: string -> (nat, bool), reason: string)
      returns (a: AnswerResult)
    ensures WellFormed(a)
    ensures !a.refused <==> RelevantContext(items, texts, signal)
    ensures a.usedFallback == !a.refused && a.degraded && !a.zeroResult && a.dropped == 0
    ensures a.retrieved == ChunkIds(items)
    ensures a.refused ==> a.answerText == REFUSAL_TEXT
    ensures !a.refused ==>
      && a.answerText == Join(SentencesIn(Selected(items, texts, signal)))
      && Groups(a.citations, CitedBy(Selected(items, texts, signal)))
      && a.total == |Selected(items, texts, signal)|
    ensures a.reason == Some(reason +
      if !a.refused then "_used_relevant_extractive_fallback"
      else if items == [] then "_no_chunks" else "_no_relevant_extractive_sentence")
  {
    hide Sentences;
    CandidatesAgreeWithTheTest(items, texts, signal);
    if items == [] {
      return AnswerResult(REFUSAL_TEXT, true, map[], true, Some(reason + "_no_chunks"), false, false, 0, 0, []);
    }
    var candidates := CollectCandidates(items, texts, signal);
    if candidates == [] {
      return AnswerResult(REFUSAL_TEXT, true, map[], true, Some(reason + "_no_relevant_extractive_sentence"), false,
                          false, 0, 0, ChunkIds(items));
    }
    Sorting.SortMembers(candidates, Better);
    candidates := Sorting.Sort(candidates, Better);
    var selected := if |candidates| <= 2 then candidates else candidates[..2];
    var citations := CiteSelected(selected);
    assert (selected[0].item.sourceId, selected[0].item.chunkId) in CitedBy(selected);
    GroupsEmpty(citations, CitedBy(selected));
    a := AnswerResult(Join(SentencesIn(selected)), false, citations, true,
                      Some(reason + "_used_relevant_extractive_fallback"), false, true, 0, |selected|, ChunkIds(items));
  }

  method CiteSelected(selected: seq<Candidate>) returns (citations: Citations)
    ensures Groups(citations, CitedBy(selected))
  {
    citations := map[];
    for k := 0 to |selected|
      invariant Groups(citations, CitedBy(selected[..k]))
    {
      var item := selected[k].item;
      assert selected[..k + 1] == selected[..k] + [selected[k]];
      assert CitedBy(selected[..k + 1]) == CitedBy(selected[..k]) + {(item.sourceId, item.chunkId)};
      citations := AddCitation(citations, item.sourceId, item.chunkId);
    }
    assert selected[..|selected|] == selected;
  }
}
