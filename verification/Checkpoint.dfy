/** The crash-resumable evaluation loop of rag/run_generation_eval.py.

    One process loads the checkpoint, walks the questions, evaluates the ones that have no committed row yet,
    and replaces the whole checkpoint file after each of them.  Every file operation may raise or be the last
    thing the process does; `Fate` says which, so a function `nat -> Fate` describes every way a run can go. */
module Checkpoint {
  import opened Common

  const SCHEMA_VERSION := "2.0.0"

  /** A decoded checkpoint record; a field the record lacks is None. */
  datatype Row<T> = Row(schemaVersion: Option<string>, fingerprint: Option<string>, questionId: Option<string>, payload: T)

  /** One line of the file: white space, text that is not JSON, JSON that is not an object, or a record. */
  datatype Line<T> = Blank | Torn | NonObject | Record(row: Row<T>)

  datatype LoadError =
    | InvalidJson(line: nat)
    | NotAnObject(line: nat)
    | OldSchema(line: nat)
    | OtherFingerprint(line: nat)
    | UnknownQuestion(line: nat)
    | DuplicateQuestion(line: nat)

  datatype Fate = Proceeds | Raises | Crashes

  type File<T> = Option<seq<Line<T>>>
  type Committed<T> = map<string, Row<T>>

  datatype Outcome<T> =
    | Finished(rows: seq<Row<T>>)
    | Interrupted(how: Fate)
    | EvaluationRaised
    | Rejected(error: LoadError)

  // ---- What a checkpoint file holds ----

  /** Written by this schema, under this fingerprint, for a known question. */
  predicate Belongs<T>(row: Row<T>, fingerprint: string, known: set<string>) {
    row.schemaVersion == Some(SCHEMA_VERSION) && row.fingerprint == Some(fingerprint) &&
    row.questionId.Some? && row.questionId.value in known
  }

  /** The rows committed by a file, by question, or None when the file is refused. */
  function Decode<T>(lines: seq<Line<T>>, fingerprint: string, known: set<string>): Option<Committed<T>> {
    if lines == [] then Some(map[]) else
    var front, last := Decode(lines[..|lines| - 1], fingerprint, known), lines[|lines| - 1];
    if front.None? || last.Blank? then front
    else if last.Record? && Belongs(last.row, fingerprint, known) && last.row.questionId.value !in front.value
    then Some(front.value[last.row.questionId.value := last.row])
    else None
  }

  function Reload<T>(file: File<T>, fingerprint: string, known: set<string>): Option<Committed<T>> {
    if file.None? then Some(map[]) else Decode(file.value, fingerprint, known)
  }

  function Records<T>(lines: seq<Line<T>>): seq<Row<T>> {
    if lines == [] then [] else
    Records(lines[..|lines| - 1]) + (match lines[|lines| - 1] case Record(row) => [row] case _ => [])
  }

  function Lines<T>(rows: seq<Row<T>>): seq<Line<T>> {
    seq(|rows|, i requires 0 <= i < |rows| => Record(rows[i]))
  }

  function Asked(questions: seq<string>): set<string> {
    set q <- questions
  }

  /** Said without reading the file in order: every line is blank or a record of this evaluation, and no two
      records answer the same question. */
  ghost predicate Acceptable<T>(lines: seq<Line<T>>, fingerprint: string, known: set<string>) {
    (forall i :: 0 <= i < |lines| ==> lines[i].Blank? || (lines[i].Record? && Belongs(lines[i].row, fingerprint, known))) &&
    (forall i, j :: 0 <= i < j < |lines| && lines[i].Record? && lines[j].Record? ==>
      lines[i].row.questionId != lines[j].row.questionId)
  }

  lemma AcceptableAppend<T>(front: seq<Line<T>>, last: Line<T>, fingerprint: string, known: set<string>)
    ensures Acceptable(front + [last], fingerprint, known) <==>
      Acceptable(front, fingerprint, known) &&
      (last.Blank? || (last.Record? && Belongs(last.row, fingerprint, known) &&
                       forall i :: 0 <= i < |front| && front[i].Record? ==> front[i].row.questionId != last.row.questionId))
  {
    var lines := front + [last];
    assert lines[|front|] == last && forall i :: 0 <= i < |front| ==> lines[i] == front[i];
  }

  /** What a file that loads commits: exactly its records, each under its own question. */
  lemma {:induction false} DecodeCommitsTheRecords<T>(lines: seq<Line<T>>, fingerprint: string, known: set<string>)
    requires Decode(lines, fingerprint, known).Some?
    ensures var committed := Decode(lines, fingerprint, known).value;
            forall i :: 0 <= i < |lines| && lines[i].Record? ==>
              (var id := lines[i].row.questionId; id.Some? && id.value in committed && committed[id.value] == lines[i].row)
    ensures var committed := Decode(lines, fingerprint, known).value;
            forall q <- committed :: (q in known && committed[q].questionId == Some(q) && Record(committed[q]) in lines)
  {
    if lines != [] {
      var front, last := lines[..|lines| - 1], lines[|lines| - 1];
      DecodeCommitsTheRecords(front, fingerprint, known);
      assert lines == front + [last];
    }
  }

  /** A file loads exactly when it is acceptable. */
  lemma {:induction false} DecodeMeansAcceptable<T>(lines: seq<Line<T>>, fingerprint: string, known: set<string>)
    ensures Decode(lines, fingerprint, known).Some? <==> Acceptable(lines, fingerprint, known)
  {
    if lines != [] {
      var front, last := lines[..|lines| - 1], lines[|lines| - 1];
      DecodeMeansAcceptable(front, fingerprint, known);
      AcceptableAppend(front, last, fingerprint, known);
      assert lines == front + [last];
      if Decode(front, fingerprint, known).Some? {
        DecodeCommitsTheRecords(front, fingerprint, known);
      }
    }
  }

  /** Rewriting the rows of a file, without its blank lines, commits the same rows. */
  lemma {:induction false} RewritingKeepsRows<T>(lines: seq<Line<T>>, fingerprint: string, known: set<string>)
    requires Decode(lines, fingerprint, known).Some?
    ensures Decode(Lines(Records(lines)), fingerprint, known) == Decode(lines, fingerprint, known)
  {
    if lines != [] {
      var front, last := lines[..|lines| - 1], lines[|lines| - 1];
      RewritingKeepsRows(front, fingerprint, known);
      if last.Record? {
        LinesAppend(Records(front), last.row);
      } else {
        assert Records(lines) == Records(front);
      }
    }
  }

  lemma LinesAppend<T>(rows: seq<Row<T>>, row: Row<T>)
    ensures Lines(rows + [row]) == Lines(rows) + [Record(row)]
    ensures Lines(rows + [row])[..|rows|] == Lines(rows)
  {
  }

  /** A refused file stays refused whatever follows its first bad line. */
  lemma {:induction false} RefusedForGood<T>(lines: seq<Line<T>>, n: nat, fingerprint: string, known: set<string>)
    requires n <= |lines| && Decode(lines[..n], fingerprint, known).None?
    ensures Decode(lines, fingerprint, known).None?
  {
    if n == |lines| {
      assert lines[..n] == lines;
    } else {
      assert lines[..|lines| - 1][..n] == lines[..n];
      RefusedForGood(lines[..|lines| - 1], n, fingerprint, known);
    }
  }

  /** What is wrong with the first line that makes a file unacceptable. */
  ghost predicate IsFirstFault<T>(error: LoadError, lines: seq<Line<T>>, fingerprint: string, known: set<string>) {
    && 1 <= error.line <= |lines| && Acceptable(lines[..error.line - 1], fingerprint, known)
    && var line := lines[error.line - 1];
      match error
      case InvalidJson(_) => line.Torn?
      case NotAnObject(_) => line.NonObject?
      case OldSchema(_) => line.Record? && line.row.schemaVersion != Some(SCHEMA_VERSION)
      case OtherFingerprint(_) =>
        line.Record? && line.row.schemaVersion == Some(SCHEMA_VERSION) && line.row.fingerprint != Some(fingerprint)
      case UnknownQuestion(_) =>
        line.Record? && line.row.schemaVersion == Some(SCHEMA_VERSION) && line.row.fingerprint == Some(fingerprint) &&
        !Belongs(line.row, fingerprint, known)
      case DuplicateQuestion(_) =>
        line.Record? && Belongs(line.row, fingerprint, known) &&
        exists i :: 0 <= i < error.line - 1 && lines[i].Record? && lines[i].row.questionId == line.row.questionId
  }

  method LoadCheckpoint<T>(file: File<T>, fingerprint: string, known: set<string>)
    returns (r: Result<Committed<T>, LoadError>)
    ensures r.Ok? <==> Reload(file, fingerprint, known).Some?
    ensures r.Ok? ==> Some(r.value) == Reload(file, fingerprint, known)
    // The error names the first line that makes the file unacceptable.
    ensures r.Err? ==> file.Some? && 1 <= r.error.line <= |file.value| &&
                       Decode(file.value[..r.error.line - 1], fingerprint, known).Some? &&
                       Decode(file.value[..r.error.line], fingerprint, known).None?
    ensures r.Err? ==> IsFirstFault(r.error, file.value, fingerprint, known)
  {
    if file.None? {
      return Ok(map[]);
    }
    var lines := file.value;
    var completed: Committed<T> := map[];
    for i := 0 to |lines|
      invariant Decode(lines[..i], fingerprint, known) == Some(completed)
    {
      ghost var upTo := lines[..i + 1];
      assert upTo[..|upTo| - 1] == lines[..i] && upTo[|upTo| - 1] == lines[i];
      var error: Option<LoadError> := None;
      match lines[i] {
      case Blank =>
      case Torn => error := Some(InvalidJson(i + 1));
      case NonObject => error := Some(NotAnObject(i + 1));
      case Record(row) =>
        if row.schemaVersion != Some(SCHEMA_VERSION) {
          error := Some(OldSchema(i + 1));
        } else if row.fingerprint != Some(fingerprint) {
          error := Some(OtherFingerprint(i + 1));
        } else if row.questionId.None? || row.questionId.value !in known {
          error := Some(UnknownQuestion(i + 1));
        } else if row.questionId.value in completed {
          error := Some(DuplicateQuestion(i + 1));
        } else {
          completed := completed[row.questionId.value := row];
        }
      }
      if error.Some? {
        RefusedForGood(lines, i + 1, fingerprint, known);
        DecodeMeansAcceptable(lines[..i], fingerprint, known);
        DecodeCommitsTheRecords(lines[..i], fingerprint, known);
        if error.value.DuplicateQuestion? {
          var row := completed[lines[i].row.questionId.value];
          assert Record(row) in lines[..i];
        }
        return Err(error.value);
      }
    }
    assert lines[..|lines|] == lines;
    return Ok(completed);
  }

  // ---- The questions a run still has to evaluate ----

  function Pending(questions: seq<string>, done: set<string>): seq<string> {
    if questions == [] then []
    else if questions[0] in done then Pending(questions[1..], done)
    else [questions[0]] + Pending(questions[1..], done + {questions[0]})
  }

  /** Exactly the questions without a row, each once. */
  lemma {:induction false} PendingIsWhatIsMissing(questions: seq<string>, done: set<string>)
    ensures Asked(Pending(questions, done)) == Asked(questions) - done
    ensures |Pending(questions, done)| == |Asked(questions) - done|
  {
    if questions != [] {
      var q, rest := questions[0], questions[1..];
      assert questions == [q] + rest;
      if q in done {
        PendingIsWhatIsMissing(rest, done);
        assert Asked(questions) - done == Asked(rest) - done;
      } else {
        PendingIsWhatIsMissing(rest, done + {q});
        assert Asked(questions) - done == {q} + (Asked(rest) - (done + {q}));
      }
    }
  }

  lemma PendingIsNew(questions: seq<string>, done: set<string>, k: nat)
    requires k < |Pending(questions, done)|
    ensures Pending(questions, done)[k] !in done
  {
    PendingIsWhatIsMissing(questions, done);
    assert Pending(questions, done)[k] in Asked(Pending(questions, done));
  }

  /** They come in question order, each where it is first asked. */
  lemma {:induction false} PendingInOrder(questions: seq<string>, done: set<string>, i: nat, j: nat) returns (p: nat)
    requires i < j < |Pending(questions, done)|
    ensures p < |questions| && questions[p] == Pending(questions, done)[i]
    ensures Pending(questions, done)[j] !in questions[..p + 1]
  {
    var q, rest := questions[0], questions[1..];
    PendingIsNew(questions, done, j);
    if q !in done && i == 0 {
      PendingIsNew(rest, done + {q}, j - 1);
      return 0;
    }
    var later;
    if q in done {
      later := PendingInOrder(rest, done, i, j);
    } else {
      PendingIsNew(rest, done + {q}, j - 1);
      later := PendingInOrder(rest, done + {q}, i - 1, j - 1);
    }
    assert questions[..later + 2] == [q] + rest[..later + 1];
    p := later + 1;
  }

  // ---- One run, seen from outside ----

  ghost predicate Extends<T>(larger: Committed<T>, smaller: Committed<T>) {
    forall q <- smaller :: q in larger && larger[q] == smaller[q]
  }

  /** One committed row per question, in question order. */
  ghost predicate IsReport<T>(rows: seq<Row<T>>, questions: seq<string>, committed: Committed<T>) {
    |rows| == |questions| &&
    forall i :: 0 <= i < |rows| ==> questions[i] in committed && rows[i] == committed[questions[i]]
  }

  /** From `start`, a run evaluated `evaluated`, in order, and committed the first `kept` of those questions. */
  ghost predicate Evaluated<T>(questions: seq<string>, start: Committed<T>, evaluated: seq<string>, kept: nat, end: Committed<T>) {
    kept <= |evaluated| && evaluated <= Pending(questions, start.Keys) &&
    Extends(end, start) && |end| == |start| + kept &&
    forall i :: 0 <= i < kept ==> evaluated[i] in end && evaluated[i] !in start
  }

  /** What one run may do to the checkpoint: refuse it untouched, or commit the rows it evaluated, all of them
      except possibly the last. */
  ghost predicate RunEffect<T>(questions: seq<string>, fingerprint: string, before: File<T>,
                               evaluated: seq<string>, outcome: Outcome<T>, after: File<T>)
  {
    var start := Reload(before, fingerprint, Asked(questions));
    var end := Reload(after, fingerprint, Asked(questions));
    if outcome.Rejected? then start.None? && after == before && evaluated == []
    else
      start.Some? && end.Some? &&
      if outcome.Finished? then
        Evaluated(questions, start.value, evaluated, |evaluated|, end.value) &&
        evaluated == Pending(questions, start.value.Keys) && IsReport(outcome.rows, questions, end.value)
      else
        Evaluated(questions, start.value, evaluated, |evaluated|, end.value) ||
        (evaluated != [] && Evaluated(questions, start.value, evaluated, |evaluated| - 1, end.value))
  }

  /** Every row added since `start` carries what evaluation returned for its question. */
  ghost predicate Answered<T>(completed: Committed<T>, evaluated: seq<string>, evaluate: (nat, string) -> Option<T>) {
    forall k :: 0 <= k < |evaluated| ==>
      evaluated[k] in completed && Some(completed[evaluated[k]].payload) == evaluate(k, evaluated[k])
  }

  // ---- One step of a run ----

  /** Where a run stands before question `i`. */
  ghost predicate Progress<T>(questions: seq<string>, i: nat, start: Committed<T>, evaluated: seq<string>, completed: Committed<T>)
    requires i <= |questions|
  {
    Evaluated(questions, start, evaluated, |evaluated|, completed) &&
    Pending(questions, start.Keys) == evaluated + Pending(questions[i..], completed.Keys)
  }

  lemma SkipCommitted<T>(questions: seq<string>, i: nat, start: Committed<T>, evaluated: seq<string>, completed: Committed<T>)
    requires i < |questions| && Progress(questions, i, start, evaluated, completed) && questions[i] in completed
    ensures Progress(questions, i + 1, start, evaluated, completed)
  {
    assert questions[i..][1..] == questions[i + 1..];
  }

  lemma AboutToEvaluate<T>(questions: seq<string>, i: nat, start: Committed<T>, evaluated: seq<string>, completed: Committed<T>)
    requires i < |questions| && Progress(questions, i, start, evaluated, completed) && questions[i] !in completed
    ensures Evaluated(questions, start, evaluated + [questions[i]], |evaluated|, completed)
  {
    assert questions[i..][1..] == questions[i + 1..];
  }

  lemma CommitRow<T>(questions: seq<string>, i: nat, start: Committed<T>, evaluated: seq<string>, completed: Committed<T>, row: Row<T>)
    requires i < |questions| && Progress(questions, i, start, evaluated, completed) && questions[i] !in completed
    ensures Progress(questions, i + 1, start, evaluated + [questions[i]], completed[questions[i] := row])
  {
    var q, rest, more := questions[i], questions[i..], completed[questions[i] := row];
    AboutToEvaluate(questions, i, start, evaluated, completed);
    assert rest[1..] == questions[i + 1..] && more.Keys == completed.Keys + {q};
    assert Pending(rest, completed.Keys) == [q] + Pending(rest[1..], more.Keys);
    Regroup(evaluated, q, Pending(rest[1..], more.Keys));
  }

  /** Stopping on question `i`: its evaluation counts, its row may or may not have been committed. */
  lemma StopIsEffect<T>(questions: seq<string>, i: nat, fingerprint: string, before: File<T>, after: File<T>,
                        start: Committed<T>, evaluated: seq<string>, completed: Committed<T>, row: Option<Row<T>>, outcome: Outcome<T>)
    requires i < |questions| && Progress(questions, i, start, evaluated, completed) && questions[i] !in completed
    requires Reload(before, fingerprint, Asked(questions)) == Some(start)
    requires Reload(after, fingerprint, Asked(questions)) == Some(completed) ||
             (row.Some? && Reload(after, fingerprint, Asked(questions)) == Some(completed[questions[i] := row.value]))
    requires outcome.Interrupted? || outcome.EvaluationRaised?
    ensures RunEffect(questions, fingerprint, before, evaluated + [questions[i]], outcome, after)
  {
    AboutToEvaluate(questions, i, start, evaluated, completed);
    if row.Some? {
      CommitRow(questions, i, start, evaluated, completed, row.value);
    }
  }

  lemma FinishIsEffect<T>(questions: seq<string>, fingerprint: string, before: File<T>, after: File<T>,
                          start: Committed<T>, evaluated: seq<string>, completed: Committed<T>, rows: seq<Row<T>>)
    requires Progress(questions, |questions|, start, evaluated, completed)
    requires Reload(before, fingerprint, Asked(questions)) == Some(start)
    requires Reload(after, fingerprint, Asked(questions)) == Some(completed)
    requires IsReport(rows, questions, completed)
    ensures RunEffect(questions, fingerprint, before, evaluated, Finished(rows), after)
  {
  }

  lemma Regroup<A>(s: seq<A>, a: A, t: seq<A>)
    ensures s + ([a] + t) == (s + [a]) + t
  {
  }

  lemma ReportGrows<T>(rows: seq<Row<T>>, questions: seq<string>, i: nat, completed: Committed<T>, more: Committed<T>)
    requires i < |questions| && IsReport(rows, questions[..i], completed)
    requires Extends(more, completed) && questions[i] in more
    ensures IsReport(rows + [more[questions[i]]], questions[..i + 1], more)
  {
    assert forall k :: 0 <= k < i ==> questions[..i + 1][k] == questions[..i][k];
  }

  lemma AnsweredGrows<T>(completed: Committed<T>, evaluated: seq<string>, evaluate: (nat, string) -> Option<T>, q: string, row: Row<T>)
    requires Answered(completed, evaluated, evaluate) && q !in completed && Some(row.payload) == evaluate(|evaluated|, q)
    ensures Answered(completed[q := row], evaluated + [q], evaluate)
  {
  }

  /** A run that has loaded its checkpoint and done nothing yet. */
  lemma RunStarts<T>(questions: seq<string>, fingerprint: string, file: File<T>, start: Committed<T>, values: seq<Row<T>>,
                     evaluate: (nat, string) -> Option<T>)
    requires Reload(file, fingerprint, Asked(questions)) == Some(start)
    requires values == if file.None? then [] else Records(file.value)
    ensures Decode(Lines(values), fingerprint, Asked(questions)) == Some(start)
    ensures Progress(questions, 0, start, [], start) && IsReport([], questions[..0], start)
    ensures Answered(start, [], evaluate)
  {
    if file.Some? { RewritingKeepsRows(file.value, fingerprint, Asked(questions)); }
  }

  /** The file with one more row commits that row too. */
  lemma OneMoreRowDecodes<T>(values: seq<Row<T>>, row: Row<T>, q: string, fingerprint: string, known: set<string>,
                             completed: Committed<T>)
    requires Decode(Lines(values), fingerprint, known) == Some(completed) && q in known && q !in completed
    requires row == Row(Some(SCHEMA_VERSION), Some(fingerprint), Some(q), row.payload)
    ensures Decode(Lines(values + [row]), fingerprint, known) == Some(completed[q := row])
  {
    LinesAppend(values, row);
  }

  lemma RejectionIsEffect<T>(questions: seq<string>, fingerprint: string, file: File<T>, error: LoadError)
    requires Reload(file, fingerprint, Asked(questions)).None?
    ensures RunEffect(questions, fingerprint, file, [], Rejected(error), file)
  {
  }

  /** Each of these file steps goes well. */
  ghost predicate AllProceed(fate: nat -> Fate, since: nat, until: nat) {
    forall n :: since <= n < until ==> fate(n) == Proceeds
  }

  /** The process dies at none of these steps. */
  ghost predicate Survives(fate: nat -> Fate, since: nat, until: nat) {
    forall n :: since <= n < until ==> fate(n) != Crashes
  }

  lemma NothingYet(fate: nat -> Fate, since: nat)
    ensures AllProceed(fate, since, since) && Survives(fate, since, since)
  {
  }

  /** Every evaluation made returned. */
  ghost predicate AllReturn<T>(evaluate: (nat, string) -> Option<T>, evaluated: seq<string>) {
    forall k :: 0 <= k < |evaluated| ==> evaluate(k, evaluated[k]).Some?
  }

  lemma OneMoreEvaluation<T>(evaluate: (nat, string) -> Option<T>, evaluated: seq<string>, q: string)
    ensures AllReturn(evaluate, []) && (evaluated + [q])[..|evaluated|] == evaluated
    ensures AllReturn(evaluate, evaluated + [q]) <==> AllReturn(evaluate, evaluated) && evaluate(|evaluated|, q).Some?
  {
    var more := evaluated + [q];
    assert more[|evaluated|] == q;
    assert forall k :: 0 <= k < |evaluated| ==> more[k] == evaluated[k];
  }

  // ---- The process ----

  class Workspace<T> {
    var checkpoint: File<T>
    var temp: File<T>
    var clock: nat

    constructor (checkpoint: File<T>, temp: File<T>)
      ensures this.checkpoint == checkpoint && this.temp == temp
    {
      this.checkpoint, this.temp, clock := checkpoint, temp, 0;
    }

    method Tick(fate: nat -> Fate, ghost since: nat) returns (f: Fate)
      requires since <= clock
      modifies this`clock
      ensures f == fate(old(clock)) && clock == old(clock) + 1
      ensures AllProceed(fate, since, clock) <==> AllProceed(fate, since, old(clock)) && f == Proceeds
      ensures Survives(fate, since, clock) <==> Survives(fate, since, old(clock)) && f != Crashes
    {
      f := fate(clock);
      clock := clock + 1;
    }

    /** The checkpoint is the old file or the complete new one, whatever happens on the way; it is the new one when every
        step goes well, which are five and one a row. */
    method WriteCheckpointAtomic(rows: seq<Row<T>>, fate: nat -> Fate) returns (f: Fate)
      modifies this
      ensures f == Proceeds ==> checkpoint == Some(Lines(rows)) && temp == None && clock == old(clock) + |rows| + 5
      ensures checkpoint == old(checkpoint) || checkpoint == Some(Lines(rows))
      ensures clock > old(clock) && (f == Proceeds <==> AllProceed(fate, old(clock), clock))
      ensures f == Crashes <==> !Survives(fate, old(clock), clock)
      // A failed write leaves no temporary file behind, unless its last step, removing it, fails too.
      ensures f == Raises && fate(clock - 1) == Proceeds ==> temp == None
    {
      hide AllProceed;
      hide Survives;
      NothingYet(fate, old(clock));
      f := Tick(fate, old(clock));                          // create the parent directory
      if f == Proceeds {
        f := Tick(fate, old(clock));                        // open the temporary file, truncating it
        if f == Proceeds {
          temp := Some([]);
          var i := 0;
          assert Lines(rows[..0]) == [];
          while i < |rows| && f == Proceeds
            invariant 0 <= i <= |rows| && checkpoint == old(checkpoint) && temp.Some?
            invariant f == Proceeds ==> temp == Some(Lines(rows[..i])) && clock == old(clock) + 2 + i
            invariant clock > old(clock) && (f == Proceeds <==> AllProceed(fate, old(clock), clock))
            invariant f == Crashes <==> !Survives(fate, old(clock), clock)
            decreases |rows| - i, if f == Proceeds then 1 else 0
          {
            f := Tick(fate, old(clock));
            if f == Proceeds {
              temp := Some(temp.value + [Record(rows[i])]);
              i := i + 1;
              assert temp.value == Lines(rows[..i]);
            } else {
              temp := Some(temp.value + [Torn]);
            }
          }
          if f == Proceeds {
            assert rows[..i] == rows;
            f := Tick(fate, old(clock));                    // flush and fsync
          }
          if f == Proceeds {
            f := Tick(fate, old(clock));                    // atomic replace
            if f == Proceeds {
              checkpoint, temp := temp, None;
            }
          }
        }
        if f != Crashes {                       // remove what is left of the temporary file
          var cleanup := Tick(fate, old(clock));
          if cleanup != Proceeds {
            f := cleanup;
          } else {
            temp := None;
          }
        }
      }
    }

    /** `evaluate(n, q)` is the n-th evaluation of this run, None when it raises; `values` are the completed
        rows in the order they were completed. */
    method EvaluateAndCheckpoint(question: string, n: nat, fingerprint: string, values: seq<Row<T>>,
                                 evaluate: (nat, string) -> Option<T>, fate: nat -> Fate)
      returns (row: Option<Row<T>>, f: Fate)
      modifies this
      ensures row.None? <==> evaluate(n, question).None?
      ensures row.None? ==> checkpoint == old(checkpoint) && clock == old(clock)
      ensures clock >= old(clock) && (f == Proceeds <==> AllProceed(fate, old(clock), clock))
      ensures f == Crashes <==> !Survives(fate, old(clock), clock)
      ensures row.Some? ==>
        row.value == Row(Some(SCHEMA_VERSION), Some(fingerprint), Some(question), evaluate(n, question).value) &&
        (checkpoint == old(checkpoint) || checkpoint == Some(Lines(values + [row.value]))) &&
        (f == Proceeds ==> checkpoint == Some(Lines(values + [row.value])))
    {
      f := Proceeds;
      var answer := evaluate(n, question);
      if answer.None? {
        return None, f;
      }
      row := Some(Row(Some(SCHEMA_VERSION), Some(fingerprint), Some(question), answer.value));
      f := WriteCheckpointAtomic(values + [row.value], fate);
    }

    method Run(questions: seq<string>, fingerprint: string, evaluate: (nat, string) -> Option<T>, fate: nat -> Fate)
      returns (outcome: Outcome<T>, evaluated: seq<string>)
      modifies this
      ensures RunEffect(questions, fingerprint, old(checkpoint), evaluated, outcome, checkpoint)
      ensures outcome.Finished? ==> Answered(Reload(checkpoint, fingerprint, Asked(questions)).value, evaluated, evaluate)
      // How it ends: refused with its file, finished when nothing failed, or with the first thing that failed.
      ensures clock >= old(clock)
      ensures outcome.Rejected? <==> Reload(old(checkpoint), fingerprint, Asked(questions)).None?
      ensures outcome.Rejected? ==>
        old(checkpoint).Some? && IsFirstFault(outcome.error, old(checkpoint).value, fingerprint, Asked(questions))
      ensures outcome.Finished? <==>
        && Reload(old(checkpoint), fingerprint, Asked(questions)).Some?
        && AllProceed(fate, old(clock), clock) && AllReturn(evaluate, evaluated)
      ensures outcome.EvaluationRaised? <==> !AllReturn(evaluate, evaluated)
      ensures outcome.EvaluationRaised? ==> AllProceed(fate, old(clock), clock) && AllReturn(evaluate, evaluated[..|evaluated| - 1])
      ensures outcome.Interrupted? <==> !AllProceed(fate, old(clock), clock)
      ensures outcome.Interrupted? ==>
        outcome.how == if Survives(fate, old(clock), clock) then Raises else Crashes
    {
      hide Decode;
      hide Progress;
      hide IsReport;
      hide Answered;
      hide RunEffect;
      hide Pending;
      hide AllReturn;
      assert AllReturn(evaluate, []) by { OneMoreEvaluation(evaluate, [], ""); }
      var known := Asked(questions);
      var loaded := LoadCheckpoint(checkpoint, fingerprint, known);
      evaluated := [];
      if loaded.Err? {
        RejectionIsEffect(questions, fingerprint, checkpoint, loaded.error);
        return Rejected(loaded.error), evaluated;
      }
      var completed, rows := loaded.value, [];
      var values := if checkpoint.None? then [] else Records(checkpoint.value);
      ghost var start := completed;
      RunStarts(questions, fingerprint, checkpoint, start, values, evaluate);
      for i := 0 to |questions|
        invariant Reload(checkpoint, fingerprint, known) == Some(completed)
        invariant Decode(Lines(values), fingerprint, known) == Some(completed)
        invariant Progress(questions, i, start, evaluated, completed)
        invariant IsReport(rows, questions[..i], completed)
        invariant Answered(completed, evaluated, evaluate)
        invariant clock >= old(clock) && AllProceed(fate, old(clock), clock) && AllReturn(evaluate, evaluated)
      {
        var q := questions[i];
        if q in completed {
          SkipCommitted(questions, i, start, evaluated, completed);
          ReportGrows(rows, questions, i, completed, completed);
          rows := rows + [completed[q]];
        } else {
          OneMoreEvaluation(evaluate, evaluated, q);
          var row, f := EvaluateAndCheckpoint(q, |evaluated|, fingerprint, values, evaluate, fate);
          if row.None? {
            StopIsEffect(questions, i, fingerprint, old(checkpoint), checkpoint, start, evaluated, completed,
                         None, EvaluationRaised);
            return EvaluationRaised, evaluated + [q];
          }
          OneMoreRowDecodes(values, row.value, q, fingerprint, known, completed);
          if f != Proceeds {
            StopIsEffect(questions, i, fingerprint, old(checkpoint), checkpoint, start, evaluated, completed,
                         row, Interrupted(f));
            return Interrupted(f), evaluated + [q];
          }
          CommitRow(questions, i, start, evaluated, completed, row.value);
          ReportGrows(rows, questions, i, completed, completed[q := row.value]);
          AnsweredGrows(completed, evaluated, evaluate, q, row.value);
          evaluated, completed := evaluated + [q], completed[q := row.value];
          values, rows := values + [row.value], rows + [row.value];
        }
      }
      assert questions[..|questions|] == questions;
      FinishIsEffect(questions, fingerprint, old(checkpoint), checkpoint, start, evaluated, completed, rows);
      outcome := Finished(rows);
    }
  }

  // ---- Any number of runs ----

  datatype Attempt<T> = Attempt(before: File<T>, evaluated: seq<string>, outcome: Outcome<T>, after: File<T>)

  /** Runs of one evaluation (same questions, same fingerprint), each starting from the file the previous one left. */
  ghost predicate History<T>(questions: seq<string>, fingerprint: string, runs: seq<Attempt<T>>) {
    (forall i :: 0 <= i < |runs| ==>
      RunEffect(questions, fingerprint, runs[i].before, runs[i].evaluated, runs[i].outcome, runs[i].after)) &&
    (forall i :: 0 < i < |runs| ==> runs[i].before == runs[i - 1].after)
  }

  /** If the first file is acceptable (no file at all is), no run is refused and rows are only ever added. */
  lemma {:induction false} CommittedRowsOnlyGrow<T>(questions: seq<string>, fingerprint: string,
                                                    runs: seq<Attempt<T>>, i: nat, j: nat)
    requires History(questions, fingerprint, runs) && i <= j < |runs|
    requires Reload(runs[i].before, fingerprint, Asked(questions)).Some?
    ensures !runs[j].outcome.Rejected?
    ensures Reload(runs[j].before, fingerprint, Asked(questions)).Some? && Reload(runs[j].after, fingerprint, Asked(questions)).Some?
    ensures var first := Reload(runs[i].before, fingerprint, Asked(questions)).value;
            Extends(Reload(runs[j].before, fingerprint, Asked(questions)).value, first) &&
            Extends(Reload(runs[j].after, fingerprint, Asked(questions)).value, first)
    decreases j
  {
    if i < j {
      CommittedRowsOnlyGrow(questions, fingerprint, runs, i, j - 1);
    }
  }

  /** A question with a committed row is never evaluated again, by any later run. */
  lemma {:induction false} NeverEvaluatedAgain<T>(questions: seq<string>, fingerprint: string,
                                                  runs: seq<Attempt<T>>, i: nat, j: nat, q: string)
    requires History(questions, fingerprint, runs) && i < j < |runs|
    requires Reload(runs[i].after, fingerprint, Asked(questions)).Some?
    requires q in Reload(runs[i].after, fingerprint, Asked(questions)).value
    ensures q !in runs[j].evaluated
  {
    assert runs[i + 1].before == runs[i].after;
    CommittedRowsOnlyGrow(questions, fingerprint, runs, i + 1, j);
    EvaluatesOnlyMissing(questions, fingerprint, runs[j].before, runs[j].evaluated, runs[j].outcome, runs[j].after, q);
  }

  lemma EvaluatesOnlyMissing<T>(questions: seq<string>, fingerprint: string, before: File<T>,
                                evaluated: seq<string>, outcome: Outcome<T>, after: File<T>, q: string)
    requires RunEffect(questions, fingerprint, before, evaluated, outcome, after)
    requires Reload(before, fingerprint, Asked(questions)).Some?
    requires q in Reload(before, fingerprint, Asked(questions)).value
    ensures q !in evaluated
  {
    var todo := Pending(questions, Reload(before, fingerprint, Asked(questions)).value.Keys);
    PendingIsWhatIsMissing(questions, Reload(before, fingerprint, Asked(questions)).value.Keys);
    assert q !in Asked(todo);
  }

  function Evaluations<T>(runs: seq<Attempt<T>>): nat {
    if runs == [] then 0 else Evaluations(runs[..|runs| - 1]) + |runs[|runs| - 1].evaluated|
  }

  function Unfinished<T>(runs: seq<Attempt<T>>): nat {
    if runs == [] then 0
    else Unfinished(runs[..|runs| - 1]) + (if runs[|runs| - 1].outcome.Finished? then 0 else 1)
  }

  /** Work is conserved: over any number of runs every evaluation is either a committed row or the one
      evaluation an unfinished run may waste. */
  lemma {:induction false} EvaluationsAreCommittedOrWasted<T>(questions: seq<string>, fingerprint: string, runs: seq<Attempt<T>>)
    requires History(questions, fingerprint, runs) && runs != []
    requires Reload(runs[0].before, fingerprint, Asked(questions)).Some?
    ensures Reload(runs[|runs| - 1].after, fingerprint, Asked(questions)).Some?
    ensures var added := |Reload(runs[|runs| - 1].after, fingerprint, Asked(questions)).value|
                         - |Reload(runs[0].before, fingerprint, Asked(questions)).value|;
            added <= Evaluations(runs) <= added + Unfinished(runs)
  {
    var last := |runs| - 1;
    CommittedRowsOnlyGrow(questions, fingerprint, runs, 0, last);
    if last > 0 {
      EvaluationsAreCommittedOrWasted(questions, fingerprint, runs[..last]);
      assert runs[last].before == runs[last - 1].after;
    } else {
      assert runs[..last] == [];
    }
  }

  /** A run that finishes reports one row per question, in question order; a row any earlier run committed for
      that question is that very row. */
  lemma {:induction false} ReportEqualsCommittedRows<T>(questions: seq<string>, fingerprint: string,
                                                        runs: seq<Attempt<T>>, i: nat, j: nat, n: nat)
    requires History(questions, fingerprint, runs) && i <= j < |runs| && runs[j].outcome.Finished?
    requires Reload(runs[i].before, fingerprint, Asked(questions)).Some?
    requires n < |questions|
    ensures |runs[j].outcome.rows| == |questions|
    ensures runs[j].outcome.rows[n].questionId == Some(questions[n])
    ensures var first := Reload(runs[i].before, fingerprint, Asked(questions)).value;
            questions[n] in first ==> runs[j].outcome.rows[n] == first[questions[n]]
  {
    CommittedRowsOnlyGrow(questions, fingerprint, runs, i, j);
    var last := runs[j].after;
    if last.Some? {
      DecodeCommitsTheRecords(last.value, fingerprint, Asked(questions));
    }
  }

  /** A checkpoint holding a row of another evaluation is refused and left as it was. */
  lemma ForeignCheckpointIsRejectedUnchanged<T>(questions: seq<string>, fingerprint: string, before: File<T>,
                                                evaluated: seq<string>, outcome: Outcome<T>, after: File<T>, n: nat)
    requires RunEffect(questions, fingerprint, before, evaluated, outcome, after)
    requires before.Some? && n < |before.value| && before.value[n].Record?
    requires before.value[n].row.fingerprint != Some(fingerprint)
    ensures outcome.Rejected? && after == before && evaluated == []
  {
    DecodeMeansAcceptable(before.value, fingerprint, Asked(questions));
  }
}
