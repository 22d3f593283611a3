/** What a chat session stores and what the model is shown of it (orchestration/system_a/chat_service.py and
    run_store.py). */
module ChatHistory {
  import opened Common

  const MAX_HISTORY_ROWS_FETCHED := 60
  const MAX_HISTORY_MESSAGES := 12
  const MAX_HISTORY_TOTAL_CHARS := 12000
  const MAX_STORED_MESSAGE_CHARS := 2000

  // ---- Stored rows ----

  datatype Role = User | Assistant

  datatype Status = Completed | Rejected | ProviderFailed

  datatype Turn = Turn(sequence: nat, role: Role, content: string, status: Status, inContext: bool)

  /** The longest prefix that may be stored. */
  function Truncate(text: string): (stored: string)
    ensures stored <= text
    ensures |stored| == if |text| <= MAX_STORED_MESSAGE_CHARS then |text| else MAX_STORED_MESSAGE_CHARS
  {
    if |text| <= MAX_STORED_MESSAGE_CHARS then text else text[..MAX_STORED_MESSAGE_CHARS]
  }

  /** Number of the next row: one more than the greatest so far. */
  function NextSequence(rows: seq<Turn>): nat {
    if rows == [] then 0
    else
      var before := NextSequence(rows[..|rows| - 1]);
      var last := rows[|rows| - 1].sequence + 1;
      if last > before then last else before
  }

  /** The rows after one exchange: both messages, or, had the transaction failed, neither. */
  function Appended(rows: seq<Turn>, user: string, reply: string, status: Status, inContext: bool): seq<Turn> {
    var n := NextSequence(rows);
    rows + [Turn(n, User, Truncate(user), status, inContext), Turn(n + 1, Assistant, Truncate(reply), status, inContext)]
  }

  lemma {:induction false} NextIsFresh(rows: seq<Turn>)
    ensures forall r | r in rows :: r.sequence < NextSequence(rows)
  {
    if rows != [] {
      assert rows == rows[..|rows| - 1] + [rows[|rows| - 1]];
      NextIsFresh(rows[..|rows| - 1]);
    }
  }

  /** Storing an exchange leaves the earlier rows alone and adds the question and the reply, in this order, numbered
      beyond every row there is, each cut to what may be stored, with one status and one context flag. */
  lemma AnExchangeIsTwoNewRows(rows: seq<Turn>, user: string, reply: string, status: Status, inContext: bool)
    ensures var after := Appended(rows, user, reply, status, inContext);
      && |after| == |rows| + 2 && after[..|rows|] == rows
      && var question, answer := after[|rows|], after[|rows| + 1];
      && question.role == User && question.content <= user && answer.role == Assistant && answer.content <= reply
      && |question.content| == Min(|user|, MAX_STORED_MESSAGE_CHARS)
      && |answer.content| == Min(|reply|, MAX_STORED_MESSAGE_CHARS)
      && question.status == answer.status == status && question.inContext == answer.inContext == inContext
      && (forall r | r in rows :: r.sequence < question.sequence < answer.sequence)
  {
    NextIsFresh(rows);
  }

  // ---- Model context ----

  function Last<T>(s: seq<T>, n: nat): seq<T> {
    if |s| <= n then s else s[|s| - n..]
  }

  function InContext(rows: seq<Turn>): seq<Turn> {
    if rows == [] then []
    else
      var before := InContext(rows[..|rows| - 1]);
      if rows[|rows| - 1].inContext then before + [rows[|rows| - 1]] else before
  }

  function Chars(rows: seq<Turn>): nat {
    if rows == [] then 0 else |rows[0].content| + Chars(rows[1..])
  }

  predicate Fits(rows: seq<Turn>) {
    |rows| <= MAX_HISTORY_MESSAGES && Chars(rows) <= MAX_HISTORY_TOTAL_CHARS
  }

  predicate FitsFrom(rows: seq<Turn>, k: nat)
    requires k <= |rows|
  {
    Fits(rows[k..])
  }

  /** The longest suffix that fits. */
  ghost predicate IsLongestFitting(rows: seq<Turn>, suffix: seq<Turn>) {
    && |suffix| <= |rows| && suffix == rows[|rows| - |suffix|..] && Fits(suffix)
    && forall k :: 0 <= k < |rows| - |suffix| ==> !FitsFrom(rows, k)
  }

  function Fetched(rows: seq<Turn>): seq<Turn> { Last(rows, MAX_HISTORY_ROWS_FETCHED) }

  lemma {:induction false} CharsOfSuffix(rows: seq<Turn>, k: nat)
    requires k <= |rows|
    ensures Chars(rows[k..]) <= Chars(rows)
  {
    if k > 0 {
      CharsOfSuffix(rows[1..], k - 1);
      assert rows[1..][k - 1..] == rows[k..];
    }
  }

  /** Starting later is the only way to fit: what does not fit from k on does not fit from any earlier row. */
  lemma NothingLongerFits(rows: seq<Turn>, k: nat, j: nat)
    requires j <= k <= |rows| && !FitsFrom(rows, k)
    ensures !FitsFrom(rows, j)
  {
    assert rows[j..][k - j..] == rows[k..];
    CharsOfSuffix(rows[j..], k - j);
  }

  method LoadBoundedHistory(rows: seq<Turn>) returns (included: seq<Turn>)
    ensures IsLongestFitting(InContext(Fetched(rows)), included)
  {
    var all := InContext(Fetched(rows));
    included := DropOldest(all);
  }

  method DropOldest(all: seq<Turn>) returns (included: seq<Turn>)
    ensures IsLongestFitting(all, included)
  {
    included := Last(all, MAX_HISTORY_MESSAGES);
    var totalChars := Chars(included);
    ghost var start := |all| - |included|;
    while totalChars > MAX_HISTORY_TOTAL_CHARS && included != []
      invariant 0 <= start <= |all| && included == all[start..] && |included| <= MAX_HISTORY_MESSAGES
      invariant totalChars == Chars(included)
      invariant start > 0 ==> !FitsFrom(all, start - 1)
    {
      assert included[1..] == all[start + 1..];
      totalChars := totalChars - |included[0].content|;
      included := included[1..];
      start := start + 1;
    }
    forall k | 0 <= k < start ensures !FitsFrom(all, k) {
      NothingLongerFits(all, start - 1, k);
    }
  }

  lemma {:induction false} CharsOfShortRows(rows: seq<Turn>)
    requires forall r | r in rows :: |r.content| <= MAX_STORED_MESSAGE_CHARS
    ensures Chars(rows) <= MAX_STORED_MESSAGE_CHARS * |rows|
  {
    if rows != [] { CharsOfShortRows(rows[1..]); }
  }

  /** Since stored messages are cut, the last six in-context messages of the window always survive. */
  lemma SixAlwaysSurvive(rows: seq<Turn>, included: seq<Turn>)
    requires forall r | r in rows :: |r.content| <= MAX_STORED_MESSAGE_CHARS
    requires IsLongestFitting(rows, included)
    ensures |included| >= 6 || included == rows
  {
    var n := if |rows| <= 6 then |rows| else 6;
    var last := rows[|rows| - n..];
    CharsOfShortRows(last);
    assert FitsFrom(rows, |rows| - n);
  }

  // ---- Turns over time ----

  /** One exchange that was stored, whatever became of it. */
  datatype Exchange = Exchange(user: string, reply: string, status: Status)

  predicate Counts(x: Exchange) { x.status == Completed }

  function After(xs: seq<Exchange>): seq<Turn> {
    if xs == [] then []
    else
      var x := xs[|xs| - 1];
      Appended(After(xs[..|xs| - 1]), x.user, x.reply, x.status, Counts(x))
  }

  /** Role and stored text of the messages of completed exchanges. */
  function CompletedMessages(xs: seq<Exchange>): seq<(Role, string)> {
    if xs == [] then []
    else
      var x := xs[|xs| - 1];
      CompletedMessages(xs[..|xs| - 1]) +
      if Counts(x) then [(User, Truncate(x.user)), (Assistant, Truncate(x.reply))] else []
  }

  function Message(t: Turn): (Role, string) { (t.role, t.content) }

  function Messages(rows: seq<Turn>): seq<(Role, string)> {
    seq(|rows|, i requires 0 <= i < |rows| => Message(rows[i]))
  }

  /** Rows are numbered from 0 without gaps, and come in pairs of question and reply with one status. */
  predicate WellStored(rows: seq<Turn>) {
    && |rows| % 2 == 0
    && (forall i :: 0 <= i < |rows| ==> rows[i].sequence == i && |rows[i].content| <= MAX_STORED_MESSAGE_CHARS)
    && (forall i :: 0 <= i < |rows| ==> rows[i].role == (if i % 2 == 0 then User else Assistant))
    && (forall i :: 0 <= i < |rows| ==> (rows[i].inContext <==> rows[i].status == Completed))
    && (forall i :: 0 <= i < |rows| && i % 2 == 0 ==> rows[i].status == rows[i + 1].status)
  }

  lemma {:induction false} NextIsLength(rows: seq<Turn>)
    requires forall i :: 0 <= i < |rows| ==> rows[i].sequence == i
    ensures NextSequence(rows) == |rows|
  {
    if rows != [] { NextIsLength(rows[..|rows| - 1]); }
  }

  lemma AppendingKeepsWellStored(rows: seq<Turn>, user: string, reply: string, status: Status)
    requires WellStored(rows)
    ensures WellStored(Appended(rows, user, reply, status, status == Completed))
  {
    NextIsLength(rows);
  }

  lemma {:induction false} EveryHistoryIsWellStored(xs: seq<Exchange>)
    ensures WellStored(After(xs))
    ensures |After(xs)| == 2 * |xs|
  {
    if xs != [] {
      hide WellStored;
      EveryHistoryIsWellStored(xs[..|xs| - 1]);
      var x := xs[|xs| - 1];
      AppendingKeepsWellStored(After(xs[..|xs| - 1]), x.user, x.reply, x.status);
    } else {
      assert WellStored([]);
    }
  }

  lemma InContextAppend(rows: seq<Turn>, a: Turn, b: Turn)
    ensures a.inContext && b.inContext ==> InContext(rows + [a, b]) == InContext(rows) + [a, b]
    ensures !a.inContext && !b.inContext ==> InContext(rows + [a, b]) == InContext(rows)
  {
    assert (rows + [a, b])[..|rows| + 1] == rows + [a];
    assert (rows + [a])[..|rows|] == rows;
  }

  lemma MessagesAppend(rows: seq<Turn>, a: Turn, b: Turn)
    ensures Messages(rows + [a, b]) == Messages(rows) + [Message(a), Message(b)]
  {
  }

  /** The rows kept in context are, in order, the messages of the completed exchanges: rejected and failed ones never
      appear. */
  lemma {:induction false} OnlyCompletedTurnsAreInContext(xs: seq<Exchange>)
    ensures Messages(InContext(After(xs))) == CompletedMessages(xs)
  {
    if xs != [] {
      var before, x := After(xs[..|xs| - 1]), xs[|xs| - 1];
      OnlyCompletedTurnsAreInContext(xs[..|xs| - 1]);
      var n := NextSequence(before);
      var a := Turn(n, User, Truncate(x.user), x.status, Counts(x));
      var b := Turn(n + 1, Assistant, Truncate(x.reply), x.status, Counts(x));
      InContextAppend(before, a, b);
      MessagesAppend(InContext(before), a, b);
    }
  }

  ghost predicate IsSuffix<T>(part: seq<T>, whole: seq<T>) {
    |part| <= |whole| && part == whole[|whole| - |part|..]
  }

  lemma {:induction false} InContextOfSuffix(rows: seq<Turn>, k: nat)
    requires k <= |rows|
    ensures IsSuffix(InContext(rows[k..]), InContext(rows))
  {
    if k < |rows| {
      InContextOfSuffix(rows[..|rows| - 1], k);
      assert rows[k..][..|rows[k..]| - 1] == rows[..|rows| - 1][k..];
    }
  }

  /** What the model is shown is the end of the completed conversation, whatever happened in between. */
  lemma ContextIsASuffixOfTheCompletedConversation(xs: seq<Exchange>, included: seq<Turn>)
    requires IsLongestFitting(InContext(Fetched(After(xs))), included)
    ensures IsSuffix(Messages(included), CompletedMessages(xs))
    ensures |included| <= MAX_HISTORY_MESSAGES && Chars(included) <= MAX_HISTORY_TOTAL_CHARS
  {
    hide Fits;
    OnlyCompletedTurnsAreInContext(xs);
    LongestFits(InContext(Fetched(After(xs))), included);
    var rows := After(xs);
    hide After;
    hide CompletedMessages;
    if |rows| > MAX_HISTORY_ROWS_FETCHED { InContextOfSuffix(rows, |rows| - MAX_HISTORY_ROWS_FETCHED); }
    SuffixMessages(included, InContext(Fetched(rows)), InContext(rows));
  }

  lemma LongestFits(rows: seq<Turn>, included: seq<Turn>)
    requires IsLongestFitting(rows, included)
    ensures IsSuffix(included, rows)
    ensures |included| <= MAX_HISTORY_MESSAGES && Chars(included) <= MAX_HISTORY_TOTAL_CHARS
  {
  }

  lemma SuffixMessages(a: seq<Turn>, b: seq<Turn>, c: seq<Turn>)
    requires IsSuffix(a, b) && IsSuffix(b, c)
    ensures IsSuffix(Messages(a), Messages(c))
  {
    assert c[|c| - |a|..] == c[|c| - |b|..][|b| - |a|..];
  }

  predicate NoneCompleted(xs: seq<Exchange>) { forall x | x in xs :: !Counts(x) }

  lemma AfterOneMore(xs: seq<Exchange>) returns (a: Turn, b: Turn)
    requires xs != []
    ensures After(xs) == After(xs[..|xs| - 1]) + [a, b]
    ensures a.inContext == b.inContext == Counts(xs[|xs| - 1])
  {
    var before, x := After(xs[..|xs| - 1]), xs[|xs| - 1];
    var n := NextSequence(before);
    a := Turn(n, User, Truncate(x.user), x.status, Counts(x));
    b := Turn(n + 1, Assistant, Truncate(x.reply), x.status, Counts(x));
  }

  lemma {:induction false} TwoRowsEach(xs: seq<Exchange>)
    ensures |After(xs)| == 2 * |xs|
  {
    if xs != [] { TwoRowsEach(xs[..|xs| - 1]); }
  }

  lemma NoneCompletedAppend(xs: seq<Exchange>, x: Exchange)
    ensures NoneCompleted(xs + [x]) <==> NoneCompleted(xs) && !Counts(x)
  {
    if NoneCompleted(xs + [x]) {
      forall y | y in xs ensures !Counts(y) { assert y in xs + [x]; }
      assert x in xs + [x];
    }
  }

  lemma SuffixAppend<T>(s: seq<T>, t: seq<T>, k: nat)
    requires k <= |s|
    ensures (s + t)[k..] == s[k..] + t
  {
  }

  /** The rows of the last n exchanges. */
  function LastRows(xs: seq<Exchange>, n: nat): seq<Turn>
    requires n <= |xs| && |After(xs)| == 2 * |xs|
  {
    After(xs)[2 * (|xs| - n)..]
  }

  lemma {:induction false} WindowIsEmptyExactlyWhen(xs: seq<Exchange>, n: nat)
    requires n <= |xs| && |After(xs)| == 2 * |xs|
    ensures InContext(LastRows(xs, n)) == [] <==> NoneCompleted(xs[|xs| - n..])
  {
    hide InContext;
    hide NoneCompleted;
    hide After;
    if n == 0 {
      assert LastRows(xs, n) == [] && xs[|xs|..] == [];
      EmptyWindow();
    } else {
      var init, last := xs[..|xs| - 1], xs[|xs| - 1];
      TwoRowsEach(init);
      var a, b := AfterOneMore(xs);
      SuffixAppend(After(init), [a, b], 2 * (|xs| - n));
      assert LastRows(xs, n) == LastRows(init, n - 1) + [a, b];
      InContextAppend(LastRows(init, n - 1), a, b);
      WindowIsEmptyExactlyWhen(init, n - 1);
      assert xs == init + [last];
      SuffixAppend(init, [last], |xs| - n);
      NoneCompletedAppend(init[|xs| - n..], last);
    }
  }

  lemma EmptyWindow()
    ensures InContext([]) == [] && NoneCompleted([])
  {
  }

  lemma WindowIs(xs: seq<Exchange>)
    requires |After(xs)| == 2 * |xs|
    ensures Fetched(After(xs)) == LastRows(xs, Min(|xs|, 30))
    ensures Last(xs, 30) == xs[|xs| - Min(|xs|, 30)..]
  {
    hide After;
  }

  /** The window counts rejected and failed exchanges too: the model sees nothing of the conversation exactly when
      none of the last thirty exchanges was completed, however many were before. */
  lemma ContextIsEmptyExactlyWhen(xs: seq<Exchange>, included: seq<Turn>)
    requires IsLongestFitting(InContext(Fetched(After(xs))), included)
    ensures included == [] <==> NoneCompleted(Last(xs, 30))
  {
    hide After;
    hide InContext;
    hide NoneCompleted;
    hide Fetched;
    TwoRowsEach(xs);
    WindowIs(xs);
    WindowIsEmptyExactlyWhen(xs, Min(|xs|, 30));
    WindowRowsAreShort(xs);
    SixAlwaysSurvive(InContext(Fetched(After(xs))), included);
  }

  lemma {:induction false} InContextRowsAreRows(rows: seq<Turn>)
    ensures forall r | r in InContext(rows) :: r in rows
  {
    if rows != [] {
      InContextRowsAreRows(rows[..|rows| - 1]);
      assert rows == rows[..|rows| - 1] + [rows[|rows| - 1]];
    }
  }

  lemma WindowRowsAreShort(xs: seq<Exchange>)
    ensures forall r | r in InContext(Fetched(After(xs))) :: |r.content| <= MAX_STORED_MESSAGE_CHARS
  {
    EveryHistoryIsWellStored(xs);
    InContextRowsAreRows(Fetched(After(xs)));
  }

  // ---- Classifying with repairs ----

  /** One answer of the decision provider. */
  datatype Attempt = Decision(message: string) | BadFormat | Transport(transient: bool)

  datatype Outcome = Decided(message: string) | SafeClarify | Unavailable(retriable: bool)

  /** Failures after which the loop asks again. */
  predicate Retried(a: Attempt) { a.BadFormat? || (a.Transport? && a.transient) }

  /** The attempts before k were all repairable, and k is the one that decided. */
  ghost predicate DecidedAt(attempt: nat -> Attempt, repairs: nat, outcome: Outcome, k: nat) {
    && k <= repairs
    && (forall i :: 0 <= i < k ==> Retried(attempt(i)))
    && match attempt(k) {
         case Decision(message) => outcome == Decided(message)
         case BadFormat => k == repairs && outcome == SafeClarify
         case Transport(transient) => (transient ==> k == repairs) && outcome == Unavailable(transient)
       }
  }

  method ClassifyWithRepairs(attempt: nat -> Attempt, repairs: nat) returns (outcome: Outcome, calls: nat)
    ensures calls > 0 && DecidedAt(attempt, repairs, outcome, calls - 1)
  {
    for k := 0 to repairs + 1
      invariant forall i :: 0 <= i < k ==> Retried(attempt(i))
      invariant k > repairs ==> attempt(repairs).BadFormat?
    {
      match attempt(k) {
        case BadFormat =>
        case Transport(transient) =>
          if !(transient && k < repairs) {
            return Unavailable(transient), k + 1;
          }
        case Decision(message) =>
          return Decided(message), k + 1;
      }
    }
    return SafeClarify, repairs + 1;
  }

  /** The attempts settle the outcome and the number of calls. */
  lemma OutcomeIsUnique(attempt: nat -> Attempt, repairs: nat, a: Outcome, k: nat, b: Outcome, j: nat)
    requires DecidedAt(attempt, repairs, a, k) && DecidedAt(attempt, repairs, b, j)
    ensures a == b && k == j
  {
    assert k < j ==> Retried(attempt(k));
    assert j < k ==> Retried(attempt(j));
  }

  // ---- One turn ----

  datatype TurnResult =
    | AccessRejected
    | InputRejected
    | ProviderUnavailable(retriable: bool)
    | Answered(message: string)

  /** The fixed replies for a message that is refused or cannot be handled, and the fallback question. */
  datatype Replies = Replies(rejected: string, unavailable: string, clarify: string)

  /** Attempt k settles the turn, after malformed output and transient failures only: its decision is the answer; the
      fallback question is, when the last attempt allowed is malformed too; and a failure that is permanent, or comes
      last, makes the provider unavailable. */
  ghost predicate AnsweredAt(attempt: nat -> Attempt, repairs: nat, polish: string -> string, replies: Replies,
                             r: TurnResult, k: nat)
  {
    && (forall i :: 0 <= i < k ==> attempt(i) == BadFormat || attempt(i) == Transport(true))
    && match attempt(k) {
         case Decision(message) => r == Answered(polish(message))
         case BadFormat => k == repairs && r == Answered(polish(replies.clarify))
         case Transport(transient) => (transient ==> k == repairs) && r == ProviderUnavailable(transient)
       }
  }

  class ChatSession {
    /** Transcript of the session, as the store keeps it. */
    var rows: seq<Turn>

    constructor ()
      ensures rows == After([])
    {
      rows := [];
    }

    method PersistTurn(user: string, reply: string, status: Status, inContext: bool)
      modifies this
      ensures rows == Appended(old(rows), user, reply, status, inContext)
    {
      rows := Appended(rows, user, reply, status, inContext);
    }

    method Record(x: Exchange, ghost xs: seq<Exchange>)
      requires rows == After(xs)
      modifies this
      ensures rows == After(xs + [x])
    {
      assert (xs + [x])[..|xs|] == xs;
      PersistTurn(x.user, x.reply, x.status, x.status == Completed);
    }

    /** `attempt(h)(n)` is the provider's n-th answer when shown history h; `polish` puts a decision's message into the
        language of the answer; xs are the exchanges stored so far. */
    method HandleChatTurn(user: string, accessOk: bool, guardOk: bool, stateAnswer: Option<string>,
                          attempt: seq<Turn> -> (nat -> Attempt), repairs: nat, polish: string -> string,
                          replies: Replies, ghost xs: seq<Exchange>)
        returns (r: TurnResult, shown: Option<seq<Turn>>)
      requires rows == After(xs)
      modifies this
      ensures r.AccessRejected? <==> !accessOk
      ensures r.InputRejected? <==> accessOk && !guardOk
      // A turn without access stores nothing; any other stores one exchange, with the user's text and the reply
      // given, which counts exactly when it was answered.
      ensures rows == match r
        case AccessRejected => After(xs)
        case InputRejected => After(xs + [Exchange(user, replies.rejected, Rejected)])
        case ProviderUnavailable(_) => After(xs + [Exchange(user, replies.unavailable, ProviderFailed)])
        case Answered(message) => After(xs + [Exchange(user, message, Completed)])
      // A question about the trip itself is answered without the provider.
      ensures accessOk && guardOk && stateAnswer.Some? ==> r == Answered(stateAnswer.value) && shown == None
      // Otherwise the provider was shown the bounded history of the turns before this one, and decided.
      ensures accessOk && guardOk && stateAnswer.None? ==>
        && shown.Some? && IsLongestFitting(InContext(Fetched(After(xs))), shown.value)
        && exists k :: 0 <= k <= repairs && AnsweredAt(attempt(shown.value), repairs, polish, replies, r, k)
    {
      hide After;
      hide IsLongestFitting;
      shown := None;
      if !accessOk {
        return AccessRejected, None;
      }
      if !guardOk {
        Record(Exchange(user, replies.rejected, Rejected), xs);
        return InputRejected, None;
      }
      var history := LoadBoundedHistory(rows);
      if stateAnswer.Some? {
        Record(Exchange(user, stateAnswer.value, Completed), xs);
        return Answered(stateAnswer.value), None;
      }
      shown := Some(history);
      var outcome, calls := ClassifyWithRepairs(attempt(history), repairs);
      assert 0 <= calls - 1 <= repairs;
      match outcome {
        case Unavailable(retriable) =>
          r := ProviderUnavailable(retriable);
          Record(Exchange(user, replies.unavailable, ProviderFailed), xs);
        case Decided(message) =>
          r := Answered(polish(message));
          Record(Exchange(user, r.message, Completed), xs);
        case SafeClarify =>
          r := Answered(polish(replies.clarify));
          Record(Exchange(user, r.message, Completed), xs);
      }
      assert AnsweredAt(attempt(history), repairs, polish, replies, r, calls - 1);
    }
  }
}
