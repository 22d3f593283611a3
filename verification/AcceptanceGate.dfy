/** From evaluated answers to one verdict: rows (rag/generation_eval.py), and metrics, breakdowns and the acceptance
    gate (rag/run_generation_eval.py). */
module AcceptanceGate {
  import opened Common
  import opened Context
  import GroundedAnswer

  // ---- One row ----

  datatype Question = Question(id: string, language: string, category: string, refusalRequired: bool)

  /** A judge's validated scores are 0, 1 or 2. */
  datatype JudgeScore = JudgeScore(faithfulness: nat, correctness: nat, relevance: nat)

  datatype Judge = NoJudge | Scored(score: JudgeScore) | CallFailed | TransportFailed

  datatype FailureCategory =
    | RefusalFailure | UncitedClaim | GeneratorTransportFailed | JudgeUnavailable | Hallucination
    | JudgeCallFailed | JudgeTransportFailed

  datatype Row = Row(
    id: string, language: string, category: string, refusalRequired: bool, correctlyRefused: Option<bool>,
    citationCount: nat, emitted: int, usedFallback: bool, judgeScore: Option<JudgeScore>, judgeError: bool,
    failures: seq<FailureCategory>)

  /** The fields copied or counted from the answer. */
  predicate RecordsAnswer(row: Row, q: Question, a: AnswerResult) {
    && row.id == q.id && row.language == q.language && row.category == q.category
    && row.refusalRequired == q.refusalRequired
    && row.correctlyRefused == (if q.refusalRequired then Some(a.refused) else None)
    && row.citationCount == |a.citations| && row.emitted == a.total - a.dropped && row.usedFallback == a.usedFallback
  }

  /** Which failures a row names, one condition each. */
  predicate NamesFailures(failures: seq<FailureCategory>, q: Question, a: AnswerResult, judge: Judge) {
    && (RefusalFailure in failures <==> a.refused != q.refusalRequired)
    && (UncitedClaim in failures <==> !q.refusalRequired && !a.refused && a.total > a.dropped && a.citations == map[])
    && (GeneratorTransportFailed in failures <==> GroundedAnswer.BlamesTransport(a))
    && (JudgeUnavailable in failures <==> !q.refusalRequired && judge.NoJudge?)
    && (Hallucination in failures <==> !q.refusalRequired && judge.Scored? && judge.score.faithfulness < 2)
    && (JudgeCallFailed in failures <==> !q.refusalRequired && (judge.CallFailed? || judge.TransportFailed?))
    && (JudgeTransportFailed in failures <==> !q.refusalRequired && judge.TransportFailed?)
  }

  /** No failure is named twice. */
  predicate NoRepeats(failures: seq<FailureCategory>) {
    forall i, j :: 0 <= i < j < |failures| ==> failures[i] != failures[j]
  }

  predicate IsRowOf(row: Row, q: Question, a: AnswerResult, judge: Judge) {
    && RecordsAnswer(row, q, a)
    && NamesFailures(row.failures, q, a, judge) && NoRepeats(row.failures)
    && row.judgeScore == (if !q.refusalRequired && judge.Scored? then Some(judge.score) else None)
    && (row.judgeError <==> !q.refusalRequired && !judge.Scored?)
  }

  /** The failures read off the answer alone. */
  method AnswerFailures(q: Question, a: AnswerResult) returns (failures: seq<FailureCategory>)
    ensures NoRepeats(failures)
    ensures forall c :: c in failures <==>
      || (c == RefusalFailure && a.refused != q.refusalRequired)
      || (c == UncitedClaim && !q.refusalRequired && !a.refused && a.total > a.dropped && a.citations == map[])
      || (c == GeneratorTransportFailed && GroundedAnswer.BlamesTransport(a))
  {
    failures := [];
    if q.refusalRequired {
      if !a.refused { failures := [RefusalFailure]; }
    } else if a.refused {
      failures := [RefusalFailure];
    }
    if !q.refusalRequired && !a.refused && a.total - a.dropped > 0 && a.citations == map[] {
      failures := failures + [UncitedClaim];
    }
    if a.reason.Some? && GroundedAnswer.TRANSPORT_PREFIX <= a.reason.value {
      failures := failures + [GeneratorTransportFailed];
    }
  }

  /** The judge's part: a score, or an error, and the failures either brings. */
  method JudgeAnswer(judge: Judge)
      returns (score: Option<JudgeScore>, error: bool, failures: seq<FailureCategory>)
    ensures score == (if judge.Scored? then Some(judge.score) else None)
    ensures error == !judge.Scored?
    ensures NoRepeats(failures)
    ensures forall c :: c in failures <==>
      || (c == JudgeUnavailable && judge.NoJudge?)
      || (c == Hallucination && judge.Scored? && judge.score.faithfulness < 2)
      || (c == JudgeCallFailed && (judge.CallFailed? || judge.TransportFailed?))
      || (c == JudgeTransportFailed && judge.TransportFailed?)
  {
    score, error, failures := None, true, [];
    match judge {
      case NoJudge => failures := [JudgeUnavailable];
      case Scored(given) =>
        score, error := Some(given), false;
        if given.faithfulness < 2 { failures := [Hallucination]; }
      case CallFailed => failures := [JudgeCallFailed];
      case TransportFailed => failures := [JudgeCallFailed, JudgeTransportFailed];
    }
  }

  lemma NoRepeatsAppend(a: seq<FailureCategory>, b: seq<FailureCategory>)
    requires NoRepeats(a) && NoRepeats(b) && forall c :: c in a ==> c !in b
    ensures NoRepeats(a + b)
  {
    forall i, j | 0 <= i < j < |a + b| ensures (a + b)[i] != (a + b)[j] {
      if i < |a| <= j { assert a[i] in a && b[j - |a|] in b; }
    }
  }

  method EvaluateOne(q: Question, a: AnswerResult, judge: Judge) returns (row: Row)
    ensures IsRowOf(row, q, a, judge)
  {
    var failures := AnswerFailures(q, a);
    var score: Option<JudgeScore>, error := None, false;
    if !q.refusalRequired {
      var judgeFailures;
      score, error, judgeFailures := JudgeAnswer(judge);
      NoRepeatsAppend(failures, judgeFailures);
      failures := failures + judgeFailures;
    }
    row := Row(q.id, q.language, q.category, q.refusalRequired, if q.refusalRequired then Some(a.refused) else None,
               |a.citations|, a.total - a.dropped, a.usedFallback, score, error, failures);
  }

  function CitedIds(c: Citations): set<string> {
    set source, id | source in c && id in c[source] :: id
  }

  /** Chunks shown to the judge. */
  function JudgeContext(a: AnswerResult): set<string> {
    var retrieved := set id | id in a.retrieved;
    if a.refused || CitedIds(a.citations) == {} then retrieved else CitedIds(a.citations)
  }

  lemma CitedIdsAreCited(c: Citations, id: string)
    ensures id in CitedIds(c) <==> exists source :: Cites(c, source, id)
  {
    if id in CitedIds(c) {
      var source :| source in c && id in c[source];
      assert Cites(c, source, id);
    }
    if source :| Cites(c, source, id) {
      assert source in c && id in c[source];
    }
  }

  /** Of an answer the judge sees the cited chunks and no other; the defensive default is never used. */
  lemma JudgeSeesTheCitedChunks(a: AnswerResult, pairs: set<(string, string)>, id: string)
    requires WellFormed(a) && Groups(a.citations, pairs)
    ensures id in JudgeContext(a) <==>
      if a.refused then id in a.retrieved else exists source :: Cites(a.citations, source, id)
  {
    if !a.refused {
      CitedIdsAreCited(a.citations, id);
      var source :| source in a.citations;
      var other :| other in a.citations[source];
      assert Cites(a.citations, source, other);
      CitedIdsAreCited(a.citations, other);
    }
  }

  // ---- Counts ----

  datatype Counts = Counts(
    questions: int, answerable: int, refusals: int, correctRefusals: int, falseRefusals: int,
    emittedClaims: int, citedClaims: int, citations: int, fallbacks: int, judgeFailed: int, judged: int,
    faithfulness: int, correctness: int, relevance: int,
    hallucinations: int, generatorTransport: int, judgeTransport: int)

  function If(b: bool, n: int): int { if b then n else 0 }

  /** What one row adds to each count. */
  function RowCounts(r: Row): Counts {
    var answerable := !r.refusalRequired;
    var claims := answerable && r.emitted > 0;
    var judged := answerable && r.judgeScore.Some?;
    Counts(
      1, One(answerable), One(r.refusalRequired), One(r.refusalRequired && r.correctlyRefused == Some(true)),
      One(answerable && r.correctlyRefused == None && RefusalFailure in r.failures),
      If(claims, r.emitted), If(claims && r.citationCount > 0, r.emitted), If(claims, r.citationCount),
      One(r.usedFallback), One(answerable && r.judgeError), One(judged),
      if judged then r.judgeScore.value.faithfulness else 0,
      if judged then r.judgeScore.value.correctness else 0,
      if judged then r.judgeScore.value.relevance else 0,
      Occurrences(r.failures, Hallucination),
      One(GeneratorTransportFailed in r.failures), One(JudgeTransportFailed in r.failures))
  }

  const ZERO := Counts(0, 0, 0, 0, 0, 0, 0, 0, 0, 0, 0, 0, 0, 0, 0, 0, 0)

  function Plus(a: Counts, b: Counts): Counts {
    Counts(
      a.questions + b.questions, a.answerable + b.answerable, a.refusals + b.refusals,
      a.correctRefusals + b.correctRefusals, a.falseRefusals + b.falseRefusals,
      a.emittedClaims + b.emittedClaims, a.citedClaims + b.citedClaims, a.citations + b.citations,
      a.fallbacks + b.fallbacks, a.judgeFailed + b.judgeFailed, a.judged + b.judged,
      a.faithfulness + b.faithfulness, a.correctness + b.correctness, a.relevance + b.relevance,
      a.hallucinations + b.hallucinations, a.generatorTransport + b.generatorTransport,
      a.judgeTransport + b.judgeTransport)
  }

  function CountsOf(rows: seq<Row>): Counts {
    if rows == [] then ZERO else Plus(CountsOf(rows[..|rows| - 1]), RowCounts(rows[|rows| - 1]))
  }

  function CategoryTotal(rows: seq<Row>, c: FailureCategory): nat {
    if rows == [] then 0 else CategoryTotal(rows[..|rows| - 1], c) + Occurrences(rows[|rows| - 1].failures, c)
  }

  function Get(m: map<FailureCategory, nat>, c: FailureCategory): nat {
    if c in m then m[c] else 0
  }

  /** The dictionary of failure categories, counted by occurrence. */
  method CountFailures(rows: seq<Row>) returns (totals: map<FailureCategory, nat>)
    ensures forall c :: Get(totals, c) == CategoryTotal(rows, c)
    ensures Get(totals, Hallucination) == CountsOf(rows).hallucinations
  {
    totals := map[];
    for k := 0 to |rows|
      invariant forall c :: Get(totals, c) == CategoryTotal(rows[..k], c)
    {
      assert rows[..k + 1][..k] == rows[..k];
      var failures := rows[k].failures;
      for j := 0 to |failures|
        invariant forall c :: Get(totals, c) == CategoryTotal(rows[..k], c) + Occurrences(failures[..j], c)
      {
        assert failures[..j + 1][..j] == failures[..j];
        totals := totals[failures[j] := Get(totals, failures[j]) + 1];
      }
      assert failures[..|failures|] == failures;
    }
    assert rows[..|rows|] == rows;
    HallucinationTotal(rows);
  }

  lemma {:induction false} HallucinationTotal(rows: seq<Row>)
    ensures CountsOf(rows).hallucinations == CategoryTotal(rows, Hallucination)
  {
    if rows != [] { HallucinationTotal(rows[..|rows| - 1]); }
  }

  // ---- The gate ----

  function Ratio(a: int, b: int): real {
    if b == 0 then 1.0 else a as real / b as real
  }

  /** One decision, from the counts of all rows. */
  predicate GatePassed(c: Counts) {
    && c.judgeFailed == 0
    && c.judged == c.answerable
    && Ratio(c.citedClaims, c.emittedClaims) == 1.0
    && Ratio(c.correctRefusals, c.refusals) == 1.0
    && c.falseRefusals == 0
    && c.hallucinations == 0
    && c.generatorTransport == 0
    && c.judgeTransport == 0
  }

  /** What acceptance asks of one question: a required refusal is given; any other question is answered, with
      citations, and judged fully faithful; and no transport failed. */
  predicate Good(q: Question, a: AnswerResult, judge: Judge) {
    && !GroundedAnswer.BlamesTransport(a)
    && (if q.refusalRequired then a.refused
        else !a.refused && a.citations != map[] && judge.Scored? && judge.score.faithfulness >= 2)
  }

  /** One evaluated question. */
  datatype Case = Case(q: Question, a: AnswerResult, judge: Judge, row: Row)

  predicate Evaluated(c: Case) { WellFormed(c.a) && IsRowOf(c.row, c.q, c.a, c.judge) }

  predicate AllEvaluated(cases: seq<Case>) { forall c | c in cases :: Evaluated(c) }

  function Rows(cases: seq<Case>): seq<Row> {
    seq(|cases|, i requires 0 <= i < |cases| => cases[i].row)
  }

  lemma OccursIffCounted(failures: seq<FailureCategory>, c: FailureCategory)
    ensures c in failures <==> Occurrences(failures, c) > 0
  {
    if failures != [] {
      assert failures == failures[..|failures| - 1] + [failures[|failures| - 1]];
      OccursIffCounted(failures[..|failures| - 1], c);
    }
  }

  /** The ways in which a sum of contributions can be perfect. */
  predicate Perfect(c: Counts) {
    && c.judgeFailed == 0 && c.judged == c.answerable && c.correctRefusals == c.refusals && c.falseRefusals == 0
    && c.hallucinations == 0 && c.generatorTransport == 0 && c.judgeTransport == 0
  }

  /** No contribution of a row can make up for that of another. */
  predicate Bounded(c: Counts) {
    && c.judgeFailed >= 0 && c.judged <= c.answerable && c.correctRefusals <= c.refusals && c.falseRefusals >= 0
    && c.hallucinations >= 0 && c.generatorTransport >= 0 && c.judgeTransport >= 0
    && c.citedClaims == c.emittedClaims
  }

  lemma RowIsPerfectExactlyWhenGood(c: Case)
    requires Evaluated(c)
    ensures Bounded(RowCounts(c.row))
    ensures Perfect(RowCounts(c.row)) <==> Good(c.q, c.a, c.judge)
  {
    OccursIffCounted(c.row.failures, Hallucination);
  }

  lemma PlusIsPerfectExactlyWhenBothAre(a: Counts, b: Counts)
    requires Bounded(a) && Bounded(b)
    ensures Bounded(Plus(a, b))
    ensures Perfect(Plus(a, b)) <==> Perfect(a) && Perfect(b)
  {
  }

  predicate AllGood(cases: seq<Case>) {
    forall c | c in cases :: Good(c.q, c.a, c.judge)
  }

  lemma {:induction false} CountsArePerfectExactlyWhenAllGood(cases: seq<Case>)
    requires AllEvaluated(cases)
    ensures Bounded(CountsOf(Rows(cases)))
    ensures Perfect(CountsOf(Rows(cases))) <==> AllGood(cases)
  {
    if cases != [] {
      hide RowCounts;
      hide Plus;
      hide Perfect;
      hide Bounded;
      hide Good;
      hide Evaluated;
      var init, last := cases[..|cases| - 1], cases[|cases| - 1];
      assert cases == init + [last];
      assert Rows(cases)[..|cases| - 1] == Rows(init);
      CountsArePerfectExactlyWhenAllGood(init);
      RowIsPerfectExactlyWhenGood(last);
      PlusIsPerfectExactlyWhenBothAre(CountsOf(Rows(init)), RowCounts(last.row));
    } else {
      assert Bounded(ZERO) && Perfect(ZERO);
    }
  }

  lemma RatioIsOneExactlyWhen(a: int, b: int)
    requires b == 0 ==> a == 0
    ensures Ratio(a, b) == 1.0 <==> a == b
    ensures b != 0 ==> Ratio(a, b) * b as real == a as real
  {
    if b != 0 {
      assert a as real == Ratio(a, b) * b as real;
      assert b as real / b as real == 1.0;
    }
  }

  /** The decision on any counts: nothing failed, every answerable question was judged, every emitted claim is cited and
      every refusal asked for was given. */
  lemma PassesExactlyWhen(c: Counts)
    ensures GatePassed(c) <==>
      && c.judgeFailed == 0 && c.judged == c.answerable && c.falseRefusals == 0 && c.hallucinations == 0
      && c.generatorTransport == 0 && c.judgeTransport == 0
      && (c.emittedClaims != 0 ==> c.citedClaims == c.emittedClaims)
      && (c.refusals != 0 ==> c.correctRefusals == c.refusals)
  {
    if c.emittedClaims != 0 { RatioIsOneExactlyWhen(c.citedClaims, c.emittedClaims); }
    if c.refusals != 0 { RatioIsOneExactlyWhen(c.correctRefusals, c.refusals); }
  }

  lemma {:induction false} NoRefusalsNoneCorrect(rows: seq<Row>)
    ensures 0 <= CountsOf(rows).correctRefusals <= CountsOf(rows).refusals
  {
    if rows != [] { NoRefusalsNoneCorrect(rows[..|rows| - 1]); }
  }

  /** The gate passes exactly when every single question went well: no surplus of good rows hides a bad one. */
  lemma GateIsAConjunction(cases: seq<Case>)
    requires AllEvaluated(cases)
    ensures GatePassed(CountsOf(Rows(cases))) <==> AllGood(cases)
  {
    hide GatePassed;
    CountsArePerfectExactlyWhenAllGood(cases);
    NoRefusalsNoneCorrect(Rows(cases));
    PassedExactlyWhenPerfect(CountsOf(Rows(cases)));
  }

  lemma PassedExactlyWhenPerfect(c: Counts)
    requires Bounded(c) && 0 <= c.correctRefusals <= c.refusals
    ensures GatePassed(c) <==> Perfect(c)
  {
    hide Ratio;
    RatioIsOneExactlyWhen(c.citedClaims, c.emittedClaims);
    RatioIsOneExactlyWhen(c.correctRefusals, c.refusals);
  }

  /** Given what the answer service keeps of its results, the citation coverage is 1 whatever the rows. */
  lemma CoverageIsAlwaysFull(cases: seq<Case>)
    requires AllEvaluated(cases)
    ensures Ratio(CountsOf(Rows(cases)).citedClaims, CountsOf(Rows(cases)).emittedClaims) == 1.0
  {
    CountsArePerfectExactlyWhenAllGood(cases);
    BoundedIsCovered(CountsOf(Rows(cases)));
  }

  lemma BoundedIsCovered(c: Counts)
    requires Bounded(c)
    ensures Ratio(c.citedClaims, c.emittedClaims) == 1.0
  {
    RatioIsOneExactlyWhen(c.citedClaims, c.emittedClaims);
  }

  /** Adding a row never turns a failed gate into a passed one. */
  lemma FailureIsFinal(cases: seq<Case>, more: seq<Case>)
    requires AllEvaluated(cases + more) && !GatePassed(CountsOf(Rows(cases)))
    ensures !GatePassed(CountsOf(Rows(cases + more)))
  {
    hide GatePassed;
    forall c | c in cases ensures Evaluated(c) { assert c in cases + more; }
    GateIsAConjunction(cases);
    GateIsAConjunction(cases + more);
    var bad :| bad in cases && !Good(bad.q, bad.a, bad.judge);
    assert bad in cases + more;
  }

  predicate Consistent(c: Counts) {
    && c.answerable + c.refusals == c.questions
    && c.judged + c.judgeFailed == c.answerable
    && 0 <= c.correctRefusals <= c.refusals && 0 <= c.falseRefusals <= c.answerable
    && 0 <= c.fallbacks <= c.questions && 0 <= c.judgeTransport <= c.judgeFailed
    && 0 <= c.hallucinations && 0 <= c.faithfulness && 0 <= c.emittedClaims
  }

  lemma RowIsConsistent(c: Case)
    requires Evaluated(c)
    ensures Consistent(RowCounts(c.row)) && RowCounts(c.row).questions == 1
  {
  }

  lemma PlusIsConsistent(a: Counts, b: Counts)
    requires Consistent(a) && Consistent(b)
    ensures Consistent(Plus(a, b)) && Plus(a, b).questions == a.questions + b.questions
  {
  }

  /** Every question counts once, as answerable or as to be refused; every answerable one was judged or its judging
      failed; and only what was answerable or to be refused can be counted wrong or right. */
  lemma {:induction false} CountsAreConsistent(cases: seq<Case>)
    requires AllEvaluated(cases)
    ensures Consistent(CountsOf(Rows(cases))) && CountsOf(Rows(cases)).questions == |cases|
  {
    hide RowCounts;
    hide Plus;
    hide Consistent;
    hide Evaluated;
    ZeroIsConsistent();
    if cases != [] {
      var init, last := cases[..|cases| - 1], cases[|cases| - 1];
      assert cases == init + [last];
      assert Rows(cases)[..|cases| - 1] == Rows(init);
      CountsAreConsistent(init);
      RowIsConsistent(last);
      PlusIsConsistent(CountsOf(Rows(init)), RowCounts(last.row));
    }
  }

  lemma ZeroIsConsistent()
    ensures Consistent(ZERO)
  {
  }

  // ---- What is counted ----

  lemma {:induction false} OccursOnce(failures: seq<FailureCategory>, c: FailureCategory)
    requires NoRepeats(failures)
    ensures Occurrences(failures, c) == One(c in failures)
  {
    if failures != [] {
      var init, last := failures[..|failures| - 1], failures[|failures| - 1];
      assert failures == init + [last];
      OccursOnce(init, c);
    }
  }

  /** What one question counts as, told from its answer and its judging. */
  lemma OneQuestionCounts(c: Case)
    requires Evaluated(c)
    ensures var counts, answerable := CountsOf([c.row]), !c.q.refusalRequired;
      var scored := answerable && c.judge.Scored?;
      && counts.questions == 1 && counts.answerable == One(answerable) && counts.refusals == One(!answerable)
      && counts.correctRefusals == One(!answerable && c.a.refused) && counts.falseRefusals == One(answerable && c.a.refused)
      && counts.fallbacks == One(c.a.usedFallback)
      && (!answerable || c.a.total == c.a.dropped ==> counts.emittedClaims == counts.citedClaims == counts.citations == 0)
      && (answerable && c.a.total > c.a.dropped ==>
            && counts.emittedClaims == c.a.total - c.a.dropped && counts.citations == |c.a.citations|
            && counts.citedClaims == if c.a.citations == map[] then 0 else counts.emittedClaims)
      && counts.judged == One(scored) && counts.judgeFailed == One(answerable && !c.judge.Scored?)
      && (scored ==>
            && counts.faithfulness == c.judge.score.faithfulness && counts.correctness == c.judge.score.correctness
            && counts.relevance == c.judge.score.relevance)
      && (!scored ==> counts.faithfulness == counts.correctness == counts.relevance == 0)
      && counts.hallucinations == One(scored && c.judge.score.faithfulness < 2)
      && counts.generatorTransport == One(GroundedAnswer.BlamesTransport(c.a))
      && counts.judgeTransport == One(answerable && c.judge.TransportFailed?)
  {
    OccursOnce(c.row.failures, Hallucination);
    OneRowCounts(c.row);
    hide Occurrences;
    hide CountsOf;
    hide NoRepeats;
    hide WellFormed;
  }

  lemma OneRowCounts(row: Row)
    ensures CountsOf([row]) == RowCounts(row)
  {
    hide RowCounts;
    assert [row][..0] == [];
  }

  /** Every count of the rows of two lists together is the sum of the two. */
  lemma {:induction false} CountsConcatenate(a: seq<Row>, b: seq<Row>)
    ensures var whole, x, y := CountsOf(a + b), CountsOf(a), CountsOf(b);
      && whole.questions == x.questions + y.questions && whole.answerable == x.answerable + y.answerable
      && whole.refusals == x.refusals + y.refusals && whole.correctRefusals == x.correctRefusals + y.correctRefusals
      && whole.falseRefusals == x.falseRefusals + y.falseRefusals
      && whole.emittedClaims == x.emittedClaims + y.emittedClaims && whole.citedClaims == x.citedClaims + y.citedClaims
      && whole.citations == x.citations + y.citations && whole.fallbacks == x.fallbacks + y.fallbacks
      && whole.judgeFailed == x.judgeFailed + y.judgeFailed && whole.judged == x.judged + y.judged
      && whole.faithfulness == x.faithfulness + y.faithfulness && whole.correctness == x.correctness + y.correctness
      && whole.relevance == x.relevance + y.relevance && whole.hallucinations == x.hallucinations + y.hallucinations
      && whole.generatorTransport == x.generatorTransport + y.generatorTransport
      && whole.judgeTransport == x.judgeTransport + y.judgeTransport
    decreases |b|
  {
    hide RowCounts;
    if b == [] {
      assert a + b == a;
    } else {
      assert (a + b)[..|a + b| - 1] == a + b[..|b| - 1];
      CountsConcatenate(a, b[..|b| - 1]);
    }
  }

  /** A category's total is how often the rows name it, row by row. */
  lemma {:induction false} CategoriesConcatenate(a: seq<Row>, b: seq<Row>, row: Row, c: FailureCategory)
    ensures CategoryTotal(a + b, c) == CategoryTotal(a, c) + CategoryTotal(b, c)
    ensures CategoryTotal([row], c) == multiset(row.failures)[c]
    decreases |b|
  {
    assert [row][..0] == [];
    OccurrencesCount(row.failures, c);
    hide Occurrences;
    if b == [] {
      assert a + b == a;
    } else {
      assert (a + b)[..|a + b| - 1] == a + b[..|b| - 1];
      CategoriesConcatenate(a, b[..|b| - 1], row, c);
    }
  }

  // ---- Breakdowns ----

  /** The rows of one language, or of one category. */
  function Part(rows: seq<Row>, keyOf: Row -> string, key: string): seq<Row> {
    if rows == [] then []
    else
      var last := rows[|rows| - 1];
      var before := Part(rows[..|rows| - 1], keyOf, key);
      if keyOf(last) == key then before + [last] else before
  }

  /** Sum of the counts of the parts. */
  function PartTotal(rows: seq<Row>, keyOf: Row -> string, keys: seq<string>): Counts {
    if keys == [] then ZERO
    else Plus(PartTotal(rows, keyOf, keys[..|keys| - 1]), CountsOf(Part(rows, keyOf, keys[|keys| - 1])))
  }

  predicate Distinct(keys: seq<string>) {
    keys == [] || (keys[|keys| - 1] !in keys[..|keys| - 1] && Distinct(keys[..|keys| - 1]))
  }

  lemma PlusMoves(a: Counts, b: Counts, c: Counts)
    ensures Plus(Plus(a, b), c) == Plus(Plus(a, c), b) == Plus(a, Plus(b, c))
    ensures Plus(a, ZERO) == a
  {
  }

  /** A row adds its counts to the part of its key, and to no other. */
  lemma {:induction false} OneMoreRow(rows: seq<Row>, row: Row, keyOf: Row -> string, keys: seq<string>)
    requires Distinct(keys)
    ensures PartTotal(rows + [row], keyOf, keys) ==
      if keyOf(row) in keys then Plus(PartTotal(rows, keyOf, keys), RowCounts(row)) else PartTotal(rows, keyOf, keys)
  {
    hide RowCounts;
    hide Plus;
    if keys != [] {
      var init, key := keys[..|keys| - 1], keys[|keys| - 1];
      assert keys == init + [key];
      OneMoreRow(rows, row, keyOf, init);
      PartStep(rows, row, keyOf, key);
      PlusMoves(PartTotal(rows, keyOf, init), RowCounts(row), CountsOf(Part(rows, keyOf, key)));
      PlusMoves(PartTotal(rows, keyOf, init), CountsOf(Part(rows, keyOf, key)), RowCounts(row));
    }
  }

  lemma PartStep(rows: seq<Row>, row: Row, keyOf: Row -> string, key: string)
    ensures CountsOf(Part(rows + [row], keyOf, key)) ==
      if keyOf(row) == key then Plus(CountsOf(Part(rows, keyOf, key)), RowCounts(row))
      else CountsOf(Part(rows, keyOf, key))
  {
    hide RowCounts;
    hide Plus;
    assert (rows + [row])[..|rows|] == rows;
    var part := Part(rows, keyOf, key);
    assert (part + [row])[..|part|] == part;
  }

  lemma {:induction false} NoRowsNoCounts(keyOf: Row -> string, keys: seq<string>)
    ensures PartTotal([], keyOf, keys) == ZERO
  {
    if keys != [] {
      NoRowsNoCounts(keyOf, keys[..|keys| - 1]);
      PlusMoves(ZERO, ZERO, ZERO);
    }
  }

  /** Sum over the parts of how often they name a failure. */
  function PartFailures(rows: seq<Row>, keyOf: Row -> string, keys: seq<string>, c: FailureCategory): nat {
    if keys == [] then 0
    else PartFailures(rows, keyOf, keys[..|keys| - 1], c) + CategoryTotal(Part(rows, keyOf, keys[|keys| - 1]), c)
  }

  lemma PartFailureStep(rows: seq<Row>, row: Row, keyOf: Row -> string, key: string, c: FailureCategory)
    ensures CategoryTotal(Part(rows + [row], keyOf, key), c) ==
      CategoryTotal(Part(rows, keyOf, key), c) + if keyOf(row) == key then Occurrences(row.failures, c) else 0
  {
    hide Occurrences;
    assert (rows + [row])[..|rows|] == rows;
    var part := Part(rows, keyOf, key);
    assert (part + [row])[..|part|] == part;
  }

  lemma {:induction false} OneMoreRowOfFailures(rows: seq<Row>, row: Row, keyOf: Row -> string, keys: seq<string>,
                                                c: FailureCategory)
    requires Distinct(keys)
    ensures PartFailures(rows + [row], keyOf, keys, c) ==
      PartFailures(rows, keyOf, keys, c) + if keyOf(row) in keys then Occurrences(row.failures, c) else 0
  {
    hide Occurrences;
    hide CategoryTotal;
    if keys != [] {
      var init, key := keys[..|keys| - 1], keys[|keys| - 1];
      assert keys == init + [key];
      OneMoreRowOfFailures(rows, row, keyOf, init, c);
      PartFailureStep(rows, row, keyOf, key, c);
    }
  }

  lemma {:induction false} NoRowsNoFailures(keyOf: Row -> string, keys: seq<string>, c: FailureCategory)
    ensures PartFailures([], keyOf, keys, c) == 0
  {
    if keys != [] { NoRowsNoFailures(keyOf, keys[..|keys| - 1], c); }
  }

  lemma {:induction false} FailuresAddUp(rows: seq<Row>, keyOf: Row -> string, keys: seq<string>, c: FailureCategory)
    requires Distinct(keys)
    requires forall r | r in rows :: keyOf(r) in keys
    ensures PartFailures(rows, keyOf, keys, c) == CategoryTotal(rows, c)
  {
    hide Occurrences;
    if rows == [] {
      NoRowsNoFailures(keyOf, keys, c);
    } else {
      var init, last := rows[..|rows| - 1], rows[|rows| - 1];
      assert rows == init + [last];
      FailuresAddUp(init, keyOf, keys, c);
      OneMoreRowOfFailures(init, last, keyOf, keys, c);
    }
  }

  /** Everything a breakdown counts, and every category of its failure dictionaries, adds up to the global figure: no
      row is lost and none counts twice. */
  lemma BreakdownAddsUp(rows: seq<Row>, keyOf: Row -> string, keys: seq<string>)
    requires Distinct(keys)
    requires forall r | r in rows :: keyOf(r) in keys
    ensures PartTotal(rows, keyOf, keys) == CountsOf(rows)
    ensures forall c :: PartFailures(rows, keyOf, keys, c) == CategoryTotal(rows, c)
  {
    CountsAddUp(rows, keyOf, keys);
    forall c ensures PartFailures(rows, keyOf, keys, c) == CategoryTotal(rows, c) {
      FailuresAddUp(rows, keyOf, keys, c);
    }
  }

  lemma {:induction false} CountsAddUp(rows: seq<Row>, keyOf: Row -> string, keys: seq<string>)
    requires Distinct(keys)
    requires forall r | r in rows :: keyOf(r) in keys
    ensures PartTotal(rows, keyOf, keys) == CountsOf(rows)
  {
    hide RowCounts;
    hide Plus;
    if rows == [] {
      NoRowsNoCounts(keyOf, keys);
    } else {
      var init, last := rows[..|rows| - 1], rows[|rows| - 1];
      assert rows == init + [last];
      CountsAddUp(init, keyOf, keys);
      OneMoreRow(init, last, keyOf, keys);
    }
  }
}
