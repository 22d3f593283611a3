/** The circuit breaker of providers/policy.py, refined by what happened to it: every decision is a function of the
    history of calls, successes and failures. */
module CircuitBreakers {
  import opened Common

  datatype State = Closed | Open | HalfOpen

  /** What callers did: asked for a call (and were answered), or recorded an outcome. */
  datatype Event = Asked(at: real, allowed: bool) | Succeeded | Failed(at: real)

  /** The most recent event comes last. */
  type History = seq<Event>

  function FailuresSinceSuccess(h: History): nat {
    if h == [] then 0
    else match h[|h| - 1]
      case Succeeded => 0
      case Failed(_) => FailuresSinceSuccess(h[..|h| - 1]) + 1
      case Asked(_, _) => FailuresSinceSuccess(h[..|h| - 1])
  }

  function LatestFailure(h: History): Option<real> {
    if h == [] then None
    else match h[|h| - 1]
      case Failed(at) => Some(at)
      case _ => LatestFailure(h[..|h| - 1])
  }

  /** Whether a call has been allowed since the latest recorded outcome. */
  predicate ProbedSinceOutcome(h: History) {
    h != [] && match h[|h| - 1]
      case Asked(_, allowed) => allowed || ProbedSinceOutcome(h[..|h| - 1])
      case _ => false
  }

  /** Enough failures in a row; a threshold below one counts as one. */
  predicate Tripped(h: History, threshold: int) {
    FailuresSinceSuccess(h) >= 1 && FailuresSinceSuccess(h) >= threshold
  }

  /** The rule the breaker implements: refuse while tripped, unless a probe was already let through since the latest
      failure or the open period has passed. */
  predicate Denies(h: History, threshold: int, openSeconds: real, now: real) {
    Tripped(h, threshold) && !ProbedSinceOutcome(h) &&
    LatestFailure(h).Some? && now - LatestFailure(h).value < openSeconds
  }

  class CircuitBreaker {
    const threshold: int
    const openSeconds: real
    var state: State
    var consecutiveFailures: nat
    var openedAt: Option<real>
    ghost var history: History

    ghost predicate Valid()
      reads this
    {
      consecutiveFailures == FailuresSinceSuccess(history) &&
      (state == Closed <==> !Tripped(history, threshold)) &&
      (state == HalfOpen <==> Tripped(history, threshold) && ProbedSinceOutcome(history)) &&
      (openedAt == if state == Closed then None else LatestFailure(history)) &&
      Answered(history, threshold, openSeconds)
    }

    constructor (threshold: int, openSeconds: real)
      ensures Valid() && history == [] && this.threshold == threshold && this.openSeconds == openSeconds
    {
      this.threshold, this.openSeconds := threshold, openSeconds;
      state, consecutiveFailures, openedAt, history := Closed, 0, None, [];
    }

    method ShouldAllowCall(now: real) returns (allowed: bool)
      requires Valid()
      modifies this
      ensures Valid() && history == old(history) + [Asked(now, allowed)]
      ensures allowed <==> !Denies(old(history), threshold, openSeconds, now)
    {
      if Tripped(history, threshold) {
        TrippedMeansFailed(history);
      }
      match state {
        case Closed => allowed := true;
        case Open =>
          if now - openedAt.value >= openSeconds {
            state := HalfOpen;
            allowed := true;
          } else {
            allowed := false;
          }
        case HalfOpen => allowed := true;
      }
      history := history + [Asked(now, allowed)];
      assert history[..|history| - 1] == old(history);
    }

    method RecordSuccess()
      requires Valid()
      modifies this
      ensures Valid() && history == old(history) + [Succeeded]
    {
      state, consecutiveFailures, openedAt := Closed, 0, None;
      history := history + [Succeeded];
    }

    method RecordFailure(now: real)
      requires Valid()
      modifies this
      ensures Valid() && history == old(history) + [Failed(now)]
    {
      consecutiveFailures := consecutiveFailures + 1;
      if state == HalfOpen || consecutiveFailures >= threshold {
        state, openedAt := Open, Some(now);
      }
      history := history + [Failed(now)];
      assert history[..|history| - 1] == old(history);
    }
  }

  lemma {:induction false} TrippedMeansFailed(h: History)
    requires FailuresSinceSuccess(h) >= 1
    ensures LatestFailure(h).Some?
  {
    if !h[|h| - 1].Failed? {
      TrippedMeansFailed(h[..|h| - 1]);
    }
  }

  // ---- What callers of a breaker see ----

  /** Every call in the history got the breaker's answer. */
  ghost predicate Answered(h: History, threshold: int, openSeconds: real) {
    h == [] || (Answered(h[..|h| - 1], threshold, openSeconds) &&
      match h[|h| - 1]
      case Asked(at, allowed) => allowed == !Denies(h[..|h| - 1], threshold, openSeconds, at)
      case _ => true)
  }

  /** Event i let a call through, and only calls came after it. */
  ghost predicate ProbedAt(h: History, i: nat) {
    i < |h| && h[i].Asked? && h[i].allowed && forall j :: i < j < |h| ==> h[j].Asked?
  }

  /** A probe since the latest outcome is a call let through with nothing but calls after it. */
  lemma {:induction false} ProbedExactlyWhen(h: History)
    ensures ProbedSinceOutcome(h) <==> exists i: nat :: ProbedAt(h, i)
  {
    if h != [] {
      var front, last := h[..|h| - 1], |h| - 1;
      ProbedExactlyWhen(front);
      if i: nat :| ProbedAt(front, i) {
        assert h[last].Asked? ==> ProbedAt(h, i);
      }
      if i: nat :| ProbedAt(h, i) {
        assert i < last ==> ProbedAt(front, i);
      }
      assert h[last].Asked? && h[last].allowed ==> ProbedAt(h, last);
    }
  }

  /** Event i is a failure at this time, and no failure came after it. */
  ghost predicate LastFailedAt(h: History, i: nat, at: real) {
    i < |h| && h[i] == Failed(at) && forall j :: i < j < |h| ==> !h[j].Failed?
  }

  lemma {:induction false} LatestFailureExactlyWhen(h: History, at: real)
    ensures LatestFailure(h) == Some(at) <==> exists i: nat :: LastFailedAt(h, i, at)
  {
    if h != [] {
      var front, last := h[..|h| - 1], |h| - 1;
      LatestFailureExactlyWhen(front, at);
      if i: nat :| LastFailedAt(front, i, at) {
        assert !h[last].Failed? ==> LastFailedAt(h, i, at);
      }
      if i: nat :| LastFailedAt(h, i, at) {
        assert i < last ==> LastFailedAt(front, i, at);
      }
      assert h[last] == Failed(at) ==> LastFailedAt(h, last, at);
    }
  }

  /** The first call let through after a tripping failure comes at least the open period after it, whatever calls
      were refused in between. */
  lemma FirstProbeWaits(h: History, threshold: int, openSeconds: real, at: real)
    requires Answered(h + [Asked(at, true)], threshold, openSeconds)
    requires Tripped(h, threshold) && !ProbedSinceOutcome(h)
    ensures LatestFailure(h).Some? && at - LatestFailure(h).value >= openSeconds
  {
    assert (h + [Asked(at, true)])[..|h|] == h;
    TrippedMeansFailed(h);
  }

  /** Half open admits any number of calls: once one is let through, so is every later one until an outcome is recorded. */
  lemma {:induction false} HalfOpenAdmitsEveryCall(h: History, calls: History, threshold: int, openSeconds: real)
    requires ProbedSinceOutcome(h) && Answered(h + calls, threshold, openSeconds)
    requires forall i :: 0 <= i < |calls| ==> calls[i].Asked?
    ensures ProbedSinceOutcome(h + calls)
    ensures forall i :: 0 <= i < |calls| ==> calls[i].allowed
    decreases |calls|
  {
    if calls == [] {
      assert h + calls == h;
    } else {
      var front, last := calls[..|calls| - 1], calls[|calls| - 1];
      assert (h + calls)[..|h + calls| - 1] == h + front;
      HalfOpenAdmitsEveryCall(h, front, threshold, openSeconds);
    }
  }

  /** Two probes: after the three failures that trip the breaker and thirty seconds, both calls are let through. */
  lemma TwoCallsPassHalfOpen(allowed: bool, again: bool)
    ensures Tripped([Failed(0.0), Failed(0.0), Failed(0.0)], 3)
    ensures Answered([Failed(0.0), Failed(0.0), Failed(0.0), Asked(30.0, allowed), Asked(30.0, again)], 3, 30.0)
            <==> allowed && again
  {
    var one, two, tripped := [Failed(0.0)], [Failed(0.0), Failed(0.0)], [Failed(0.0), Failed(0.0), Failed(0.0)];
    assert one[..0] == [] && two[..1] == one && tripped[..2] == two;
    assert FailuresSinceSuccess(tripped) == FailuresSinceSuccess(one) + 2 == 3;
    assert Answered(one, 3, 30.0) && Answered(tripped, 3, 30.0);
    var probed := tripped + [Asked(30.0, allowed)];
    assert probed[..3] == tripped;
    assert Answered(probed, 3, 30.0) <==> allowed;
    var asked := probed + [Asked(30.0, again)];
    assert asked == [Failed(0.0), Failed(0.0), Failed(0.0), Asked(30.0, allowed), Asked(30.0, again)];
    assert asked[..4] == probed;
  }

  /** Fewer than `threshold` failures in a row, with calls in between, never refuse anybody. */
  lemma {:induction false} NeverRefusedBelowThreshold(h: History, later: History, threshold: int, openSeconds: real)
    requires h != [] && h[|h| - 1].Succeeded? && Answered(h + later, threshold, openSeconds)
    requires forall i :: 0 <= i < |later| ==> !later[i].Succeeded?
    requires Failures(later) < threshold
    ensures FailuresSinceSuccess(h + later) == Failures(later)
    ensures forall i :: 0 <= i < |later| && later[i].Asked? ==> later[i].allowed
    decreases |later|
  {
    if later == [] {
      assert h + later == h;
    } else {
      var front := later[..|later| - 1];
      assert (h + later)[..|h + later| - 1] == h + front;
      NeverRefusedBelowThreshold(h, front, threshold, openSeconds);
    }
  }

  function Failures(h: History): nat {
    if h == [] then 0 else Failures(h[..|h| - 1]) + (if h[|h| - 1].Failed? then 1 else 0)
  }

  predicate Refusals(calls: History) {
    forall i :: 0 <= i < |calls| ==> calls[i].Asked? && !calls[i].allowed
  }

  predicate NoSuccess(h: History) {
    forall i :: 0 <= i < |h| ==> !h[i].Succeeded?
  }

  lemma {:induction false} FailuresAreCounted(h: History, later: History)
    requires (h == [] || h[|h| - 1].Succeeded?) && NoSuccess(later)
    ensures FailuresSinceSuccess(h + later) == Failures(later)
    decreases |later|
  {
    if later == [] {
      assert h + later == h;
    } else {
      assert (h + later)[..|h + later| - 1] == h + later[..|later| - 1];
      FailuresAreCounted(h, later[..|later| - 1]);
    }
  }

  /** Refused calls change nothing that decides about the next one. */
  lemma {:induction false} RefusalsChangeNothing(h: History, calls: History)
    requires Refusals(calls)
    ensures Failures(h + calls) == Failures(h) && LatestFailure(h + calls) == LatestFailure(h)
    ensures ProbedSinceOutcome(h + calls) == ProbedSinceOutcome(h)
    decreases |calls|
  {
    if calls == [] {
      assert h + calls == h;
    } else {
      assert (h + calls)[..|h + calls| - 1] == h + calls[..|calls| - 1];
      RefusalsChangeNothing(h, calls[..|calls| - 1]);
    }
  }

  lemma JustFailed(h: History, at: real)
    ensures Failures(h + [Failed(at)]) == Failures(h) + 1
    ensures LatestFailure(h + [Failed(at)]) == Some(at) && !ProbedSinceOutcome(h + [Failed(at)])
  {
    assert (h + [Failed(at)])[..|h|] == h;
  }

  /** From a success, or from the start, on: after failures with any calls between them, and any calls refused since the
      last failure, the next call is refused exactly when the failures have reached the threshold and the open period
      since the last of them has not passed. */
  lemma ThresholdFailuresTrip(h: History, later: History, failedAt: real, calls: History, now: real, allowed: bool,
                              threshold: int, openSeconds: real)
    requires (h == [] || h[|h| - 1].Succeeded?) && NoSuccess(later) && Refusals(calls)
    requires Answered(h + (later + [Failed(failedAt)] + calls) + [Asked(now, allowed)], threshold, openSeconds)
    ensures !allowed <==> Failures(later) + 1 >= threshold && now - failedAt < openSeconds
  {
    var failed := later + [Failed(failedAt)];
    var past := h + (failed + calls);
    assert past == (h + failed) + calls;
    assert h + failed == (h + later) + [Failed(failedAt)];
    assert (past + [Asked(now, allowed)])[..|past|] == past;
    FailuresAreCounted(h, failed + calls);
    RefusalsChangeNothing(failed, calls);
    JustFailed(later, failedAt);
    RefusalsChangeNothing(h + failed, calls);
    JustFailed(h + later, failedAt);
  }
}
