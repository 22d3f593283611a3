/** The resumable run event stream (orchestration/system_a/api.py, stream_events) over the append-only event table of
    orchestration/system_a/run_store.py.  Reconnection by id is section 9.2 of the WHATWG HTML Living Standard
    (Last-Event-ID). */
module EventStream {
  import opened Common

  /** An event's sequence number is its position in the log. */
  datatype Event = Event(id: string, terminal: bool)

  type Log = seq<Event>

  // ---- The store ----

  /** `list_events`: everything after a sequence number, in order. */
  function ListEvents(log: Log, after: int): seq<Event>
    requires after >= -1
  {
    if after + 1 <= |log| then log[after + 1..] else []
  }

  function SequenceOf(log: Log, id: string): Option<nat> {
    if log == [] then None
    else if log[|log| - 1].id == id then Some(|log| - 1)
    else SequenceOf(log[..|log| - 1], id)
  }

  /** Every event was appended under a fresh, non-empty id. */
  predicate UniqueIds(log: Log) {
    log == [] ||
    (log[|log| - 1].id != "" && SequenceOf(log[..|log| - 1], log[|log| - 1].id).None? && UniqueIds(log[..|log| - 1]))
  }

  lemma {:induction false} SequenceOfEvent(log: Log, i: nat)
    requires UniqueIds(log) && i < |log|
    ensures SequenceOf(log, log[i].id) == Some(i) && log[i].id != ""
  {
    if i < |log| - 1 {
      SequenceOfEvent(log[..|log| - 1], i);
    }
  }

  // ---- The generator ----

  /** Events up to and including the first terminal one. */
  function UpToTerminal(events: seq<Event>): seq<Event> {
    if events == [] then []
    else if events[0].terminal then [events[0]]
    else [events[0]] + UpToTerminal(events[1..])
  }

  lemma NothingSentYet(events: seq<Event>)
    ensures [] + UpToTerminal(events[0..]) == UpToTerminal(events)
    ensures UpToTerminal([]) == []
  {
    assert events[0..] == events;
  }

  lemma UpToTerminalAt(events: seq<Event>, i: nat)
    requires i < |events|
    ensures UpToTerminal(events[i..]) ==
      if events[i].terminal then [events[i]] else [events[i]] + UpToTerminal(events[i + 1..])
  {
    assert events[i..][1..] == events[i + 1..];
  }

  lemma Regroup(a: seq<Event>, b: seq<Event>, c: seq<Event>)
    ensures a + (b + c) == a + b + c
  {
  }

  lemma UpToTerminalStep(sent: seq<Event>, events: seq<Event>, i: nat)
    requires i < |events| && sent + UpToTerminal(events[i..]) == UpToTerminal(events)
    ensures events[i].terminal ==> sent + [events[i]] == UpToTerminal(events)
    ensures !events[i].terminal ==> sent + [events[i]] + UpToTerminal(events[i + 1..]) == UpToTerminal(events)
  {
    hide UpToTerminal;
    UpToTerminalAt(events, i);
    Regroup(sent, [events[i]], UpToTerminal(events[i + 1..]));
  }

  predicate EndsInTerminal(events: seq<Event>) {
    events != [] && events[|events| - 1].terminal
  }

  class EventGenerator {
    var after: int
    var returned: bool

    constructor (log: Log, lastEventId: string)
      ensures after == ResumeAt(log, lastEventId) && !returned
    {
      after, returned := -1, false;
      if lastEventId != "" {
        var resolved := SequenceOf(log, lastEventId);
        if resolved.Some? {
          after := resolved.value;
        }
      }
    }

    /** One turn of the loop; `disconnected` is what the transport reports before polling. */
    method Poll(log: Log, disconnected: bool) returns (sent: seq<Event>)
      requires after >= -1 && !returned
      modifies this
      ensures disconnected ==> sent == [] && returned && after == old(after)
      ensures !disconnected ==>
        sent == UpToTerminal(ListEvents(log, old(after))) && after == old(after) + |sent| && (returned <==> EndsInTerminal(sent))
    {
      sent := [];
      if disconnected {
        returned := true;
        return;
      }
      hide UpToTerminal;
      hide ListEvents;
      var events := ListEvents(log, after);
      NothingSentYet(events);
      for i := 0 to |events|
        invariant after == old(after) + i && !returned && |sent| == i
        invariant sent + UpToTerminal(events[i..]) == UpToTerminal(events)
        invariant !EndsInTerminal(sent)
      {
        var event := events[i];
        UpToTerminalStep(sent, events, i);
        after := after + 1;                     // the event's own sequence number
        sent := sent + [event];
        if event.terminal {
          returned := true;
          return;
        }
      }
    }
  }

  function ResumeAt(log: Log, lastEventId: string): (after: int)
    ensures after >= -1
  {
    if lastEventId != "" && SequenceOf(log, lastEventId).Some? then SequenceOf(log, lastEventId).value else -1
  }

  // ---- The protocol: a log, a server connection, a lossy channel, a client ----

  datatype Connection = Connection(after: int, returned: bool)

  datatype World = World(log: Log, connection: Option<Connection>, inFlight: seq<Event>, received: seq<Event>)

  /** What can happen next.  A step that is not possible leaves the world as it is. */
  datatype Step = Append(event: Event) | Connect | Poll | Deliver | Disconnect

  function LastReceivedId(received: seq<Event>): string {
    if received == [] then "" else received[|received| - 1].id
  }

  function Next(w: World, step: Step): World {
    match step
    case Append(e) =>
      if e.id != "" && SequenceOf(w.log, e.id).None? then w.(log := w.log + [e]) else w
    case Connect =>
      w.(connection := Some(Connection(ResumeAt(w.log, LastReceivedId(w.received)), false)), inFlight := [])
    case Poll =>
      if w.connection.None? || w.connection.value.returned || w.connection.value.after < -1 then w
      else
        var sent := UpToTerminal(ListEvents(w.log, w.connection.value.after));
        w.(connection := Some(Connection(w.connection.value.after + |sent|, EndsInTerminal(sent))), inFlight := w.inFlight + sent)
    case Deliver =>
      if w.inFlight == [] then w else w.(received := w.received + [w.inFlight[0]], inFlight := w.inFlight[1..])
    case Disconnect =>
      w.(connection := None, inFlight := [])
  }

  function Run(w: World, steps: seq<Step>): World {
    if steps == [] then w else Next(Run(w, steps[..|steps| - 1]), steps[|steps| - 1])
  }

  const START := World([], None, [], [])

  /** What was received and what is on its way are the first events of the log, in order, and the connection goes on
      right after them. */
  ghost predicate InStep(w: World) {
    UniqueIds(w.log) && w.received + w.inFlight <= w.log &&
    (w.connection.Some? ==> w.connection.value.after + 1 == |w.received| + |w.inFlight|) &&
    (w.connection.None? ==> w.inFlight == [])
  }

  lemma {:induction false} UpToTerminalIsPrefix(events: seq<Event>)
    ensures UpToTerminal(events) <= events
    ensures events != [] ==> UpToTerminal(events) != []
    ensures forall i :: 0 <= i < |UpToTerminal(events)| - 1 ==> !events[i].terminal
  {
    if events != [] && !events[0].terminal {
      UpToTerminalIsPrefix(events[1..]);
    }
  }

  lemma ConnectResumes(w: World)
    requires InStep(w)
    ensures ResumeAt(w.log, LastReceivedId(w.received)) == |w.received| - 1
    ensures w.received <= w.log
  {
    if w.received != [] {
      var last := |w.received| - 1;
      assert w.received[last] == (w.received + w.inFlight)[last] == w.log[last];
      SequenceOfEvent(w.log, last);
    }
    assert w.received <= w.received + w.inFlight;
  }

  lemma PollContinues(received: seq<Event>, inFlight: seq<Event>, log: Log)
    requires received + inFlight <= log
    ensures var sent := UpToTerminal(log[|received| + |inFlight|..]); received + (inFlight + sent) <= log
  {
    var rest := log[|received| + |inFlight|..];
    UpToTerminalIsPrefix(rest);
    assert log == received + inFlight + rest;
    assert received + (inFlight + UpToTerminal(rest)) == received + inFlight + UpToTerminal(rest);
  }

  lemma AppendKeepsInStep(w: World, e: Event)
    requires InStep(w)
    ensures InStep(Next(w, Append(e)))
  {
    assert (w.log + [e])[..|w.log|] == w.log;
    assert w.log <= w.log + [e];
  }

  /** Whatever was on its way is lost, and the server starts anew, or is gone. */
  lemma ReconnectKeepsInStep(w: World)
    requires InStep(w)
    ensures InStep(Next(w, Connect)) && InStep(Next(w, Disconnect))
  {
    hide UniqueIds;
    hide ResumeAt;
    ConnectResumes(w);
    assert w.received + [] == w.received;
  }

  lemma PollKeepsInStep(w: World)
    requires InStep(w)
    ensures InStep(Next(w, Poll))
  {
    hide UniqueIds;
    hide UpToTerminal;
    PollContinues(w.received, w.inFlight, w.log);
  }

  lemma DeliverKeepsInStep(w: World)
    requires InStep(w)
    ensures InStep(Next(w, Deliver))
  {
    hide UniqueIds;
    if w.inFlight != [] {
      assert w.received + [w.inFlight[0]] + w.inFlight[1..] == w.received + w.inFlight;
    }
  }

  lemma StepKeepsInStep(w: World, step: Step)
    requires InStep(w)
    ensures InStep(Next(w, step))
  {
    hide InStep;
    hide Next;
    match step {
      case Append(e) => AppendKeepsInStep(w, e);
      case Connect => ReconnectKeepsInStep(w);
      case Poll => PollKeepsInStep(w);
      case Deliver => DeliverKeepsInStep(w);
      case Disconnect => ReconnectKeepsInStep(w);
    }
  }

  /** For every interleaving of appends, polls, deliveries, lossy disconnects and reconnects, what the client has
      received is a gap-free, repeat-free, in-order prefix of the log. */
  lemma {:induction false} ReceivedIsAlwaysAPrefix(steps: seq<Step>)
    ensures InStep(Run(START, steps))
    ensures Run(START, steps).received <= Run(START, steps).log
  {
    if steps != [] {
      ReceivedIsAlwaysAPrefix(steps[..|steps| - 1]);
      StepKeepsInStep(Run(START, steps[..|steps| - 1]), steps[|steps| - 1]);
    }
  }

  // ---- The first terminal event ----

  predicate PastTerminal(events: seq<Event>) {
    exists i :: 0 <= i < |events| - 1 && events[i].terminal
  }

  /** The client opens no connection after it has received a terminal event. */
  ghost predicate StopsAtTerminal(steps: seq<Step>) {
    forall n :: 0 <= n < |steps| && steps[n].Connect? ==> !EndsInTerminal(Run(START, steps[..n]).received)
  }

  lemma {:induction false} RunAppends(w: World, steps: seq<Step>, more: seq<Step>)
    ensures Run(w, steps + more) == Run(Run(w, steps), more)
    decreases |more|
  {
    if more == [] {
      assert steps + more == steps;
    } else {
      assert (steps + more)[..|steps + more| - 1] == steps + more[..|more| - 1];
      RunAppends(w, steps, more[..|more| - 1]);
    }
  }

  /** Nothing past the first terminal event has been sent, and after it the connection is closed. */
  predicate NothingPastTerminal(w: World) {
    && !PastTerminal(w.received + w.inFlight)
    && (w.connection.Some? && EndsInTerminal(w.received + w.inFlight) ==> w.connection.value.returned)
  }

  lemma PrefixIsNotPast(a: seq<Event>, b: seq<Event>)
    requires !PastTerminal(a + b)
    ensures !PastTerminal(a + [])
    ensures a + [] == a
  {
    assert forall i :: 0 <= i < |a| ==> a[i] == (a + b)[i];
    assert a + [] == a;
  }

  lemma StepStaysBeforeTerminal(w: World, step: Step)
    requires InStep(w) && NothingPastTerminal(w)
    requires step.Connect? ==> !EndsInTerminal(w.received)
    ensures NothingPastTerminal(Next(w, step))
  {
    match step {
      case Append(e) =>
      case Connect => PrefixIsNotPast(w.received, w.inFlight);
      case Disconnect => PrefixIsNotPast(w.received, w.inFlight);
      case Poll =>
        if w.connection.Some? && !w.connection.value.returned {
          PollStopsAtTerminal(w);
        }
      case Deliver =>
        if w.inFlight != [] {
          assert w.received + [w.inFlight[0]] + w.inFlight[1..] == w.received + w.inFlight;
        }
    }
  }

  /** A client that does not reconnect after a terminal event is never sent anything past the first one. */
  lemma {:induction false} NeverPastTheFirstTerminal(steps: seq<Step>)
    requires StopsAtTerminal(steps)
    ensures NothingPastTerminal(Run(START, steps))
  {
    if steps != [] {
      hide Next;
      var front, step := steps[..|steps| - 1], steps[|steps| - 1];
      assert forall n :: 0 <= n < |front| ==> front[..n] == steps[..n];
      NeverPastTheFirstTerminal(front);
      ReceivedIsAlwaysAPrefix(front);
      StepStaysBeforeTerminal(Run(START, front), step);
    }
  }

  lemma PollStopsAtTerminal(w: World)
    requires InStep(w) && w.connection.Some? && !w.connection.value.returned
    requires !PastTerminal(w.received + w.inFlight) && !EndsInTerminal(w.received + w.inFlight)
    ensures NothingPastTerminal(Next(w, Poll))
  {
    var before := w.received + w.inFlight;
    var sent := UpToTerminal(w.log[|before|..]);
    UpToTerminalIsPrefix(w.log[|before|..]);
    assert w.received + (w.inFlight + sent) == before + sent;
    NoTerminalBefore(before, sent);
  }

  lemma NoTerminalBefore(before: seq<Event>, sent: seq<Event>)
    requires !PastTerminal(before) && !EndsInTerminal(before) && forall i :: 0 <= i < |sent| - 1 ==> !sent[i].terminal
    ensures !PastTerminal(before + sent)
    ensures EndsInTerminal(before + sent) <==> EndsInTerminal(sent)
  {
    assert forall i :: 0 <= i < |before| ==> !before[i].terminal;
  }

  predicate NoAppends(steps: seq<Step>) {
    forall i :: 0 <= i < |steps| ==> !steps[i].Append?
  }

  /** Everything in the log can still be received: reconnecting, polling and delivering always make progress. */
  lemma {:induction false} EveryEventCanBeReceived(w: World, n: nat) returns (steps: seq<Step>)
    requires InStep(w) && n <= |w.log|
    ensures NoAppends(steps)
    ensures |Run(w, steps).received| >= n && Run(w, steps).log == w.log && InStep(Run(w, steps))
    decreases n - |w.received|
  {
    if |w.received| >= n {
      return [];
    }
    var once := [Connect, Poll, Deliver];
    OneMoreEvent(w);
    var rest := EveryEventCanBeReceived(Run(w, once), n);
    RunAppends(w, once, rest);
    steps := once + rest;
  }

  function Appends(log: Log): seq<Step> {
    seq(|log|, i requires 0 <= i < |log| => Append(log[i]))
  }

  lemma AppendWrites(w: World, e: Event)
    requires e.id != "" && SequenceOf(w.log, e.id).None?
    ensures Next(w, Append(e)).log == w.log + [e]
  {
  }

  lemma {:induction false} AppendsWrite(log: Log)
    requires UniqueIds(log)
    ensures Run(START, Appends(log)).log == log && InStep(Run(START, Appends(log)))
  {
    hide Next;
    hide InStep;
    assert InStep(START) by { StartIsInStep(); }
    RunKeepsInStep(START, Appends(log));
    if log != [] {
      var init, last := log[..|log| - 1], log[|log| - 1];
      AppendsWrite(init);
      assert Appends(log)[..|log| - 1] == Appends(init);
      AppendWrites(Run(START, Appends(init)), last);
    }
  }

  lemma StartIsInStep()
    ensures InStep(START)
  {
  }

  /** Any events under fresh, non-empty ids can be written, and then received to the last one in their order. */
  lemma EveryLogCanBeDelivered(log: Log) returns (steps: seq<Step>)
    requires UniqueIds(log)
    ensures Run(START, steps).log == log && Run(START, steps).received == log
  {
    AppendsWrite(log);
    var written := Run(START, Appends(log));
    var more := EveryEventCanBeReceived(written, |log|);
    RunAppends(START, Appends(log), more);
    steps := Appends(log) + more;
    var end := Run(written, more);
    assert end.received <= end.received + end.inFlight <= log;
  }

  lemma OneMoreEvent(w: World)
    requires InStep(w) && |w.received| < |w.log|
    ensures var v := Run(w, [Connect, Poll, Deliver]); InStep(v) && |v.received| == |w.received| + 1 && v.log == w.log
  {
    var a := Next(w, Connect);
    var b := Next(a, Poll);
    var c := Next(b, Deliver);
    StepKeepsInStep(w, Connect);
    StepKeepsInStep(a, Poll);
    StepKeepsInStep(b, Deliver);
    ConnectResumes(w);
    UpToTerminalIsPrefix(w.log[|w.received|..]);
    assert |c.received| == |w.received| + 1;
    ThreeSteps(w, Connect, Poll, Deliver);
  }

  lemma ThreeSteps(w: World, a: Step, b: Step, c: Step)
    ensures Run(w, [a, b, c]) == Next(Next(Next(w, a), b), c)
  {
    assert [a, b, c][..2] == [a, b] && [a, b][..1] == [a] && [a][..0] == [];
    assert Run(w, [a]) == Next(w, a);
    assert Run(w, [a, b]) == Next(Run(w, [a]), b);
  }

  lemma {:induction false} RunKeepsInStep(w: World, steps: seq<Step>)
    requires InStep(w)
    ensures InStep(Run(w, steps))
    ensures NoAppends(steps) ==> Run(w, steps).log == w.log
  {
    if steps != [] {
      hide InStep;
      hide Next;
      RunKeepsInStep(w, steps[..|steps| - 1]);
      StepKeepsInStep(Run(w, steps[..|steps| - 1]), steps[|steps| - 1]);
      OnlyAppendsChangeTheLog(Run(w, steps[..|steps| - 1]), steps[|steps| - 1]);
    }
  }

  lemma OnlyAppendsChangeTheLog(w: World, step: Step)
    ensures !step.Append? ==> Next(w, step).log == w.log
  {
    hide UpToTerminal;
    hide ResumeAt;
  }

  /** A client that does reconnect can be taken past the first terminal event exactly when the log goes on after one. */
  lemma ReconnectingPassesATerminalExactlyWhen(w: World)
    requires InStep(w)
    ensures (exists steps: seq<Step> :: NoAppends(steps) && PastTerminal(Run(w, steps).received)) <==> PastTerminal(w.log)
  {
    if steps: seq<Step> :| NoAppends(steps) && PastTerminal(Run(w, steps).received) {
      RunKeepsInStep(w, steps);
      var v := Run(w, steps);
      assert forall i :: 0 <= i < |v.received| ==> v.received[i] == (v.received + v.inFlight)[i] == w.log[i];
    }
    if PastTerminal(w.log) {
      var steps := EveryEventCanBeReceived(w, |w.log|);
      var v := Run(w, steps);
      assert v.received == w.log by {
        assert |v.received + v.inFlight| <= |v.log|;
        assert forall i :: 0 <= i < |v.received| ==> v.received[i] == (v.received + v.inFlight)[i];
      }
    }
  }
}
