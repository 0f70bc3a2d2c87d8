/**
 The sending handler as a state machine
 (src/api/qpid-proton/reactor/handler/SenderHandler.cpp). The environment decides the order of
 events, the credit and how late scheduled work runs.
 */
module Sending {
  import opened Arithmetic
  import opened CppStrings
  import opened Timers

  datatype Body = StringBody(text: string) | OtherBody

  datatype Config = Config(count: int, durationTime: int, durationMode: string, timeout: int, connReconnect: string,
                           body: Body)

  datatype Status = Running | Exited(code: int) | Uncaught

  /**
   The handler, the link, the work queue (due times of the pending `checkIfCanSend` and `timerEvent`
   items) and the history of the run.
   */
  datatype RunState = RunState(
    started: bool, ready: bool, sent: int, confirmedSent: int, remaining: int, interval: nat,
    status: Status, now: nat, checks: seq<nat>, timers: seq<nat>, credit: int,
    startTime: nat, granted: nat, checkRuns: nat, idleTicks: nat, closes: nat, wire: seq<Body>)

  function Init(c: Config): RunState {
    RunState(false, false, 0, 0, c.timeout, 0, Running, 0, [], [], 0, 0, 0, 0, 0, 0, [])
  }

  // ---------- what the handler's callbacks do ----------

  // Milliseconds in duration::SECOND.
  const SECOND := 1000

  /** The pace in milliseconds: `duration` seconds spread over `count` messages. */
  function Interval(c: Config): nat {
    if c.durationTime > 0 && c.count > 0 then (c.durationTime * SECOND) / c.count else 0
  }

  predicate BeforeSend(c: Config) {
    c.durationTime > 0 && c.durationMode == "before-send"
  }

  function FirstDelay(c: Config): nat {
    if BeforeSend(c) then Interval(c) else 0
  }

  /** `on_container_start`, the scheduling part. */
  function Started(c: Config, s: RunState): RunState {
    s.(started := true, interval := Interval(c), startTime := s.now,
       timers := s.timers + [s.now], checks := s.checks + [s.now + FirstDelay(c)])
  }

  function TimerFired(c: Config, s: RunState): RunState {
    if Expired(c.timeout, s.remaining) then s.(status := Exited(0))
    else
      var s' := s.(remaining := Decremented(c.timeout, s.remaining));
      if DecrementThrows(c.timeout, s.remaining) then s'.(status := Uncaught)
      else s'.(timers := s.timers + [s.now + SECOND], idleTicks := s.idleTicks + 1)
  }

  /** The body that is sent as message number `n`: the first `%d` becomes the number. */
  function Numbered(b: Body, n: int): Body {
    if b.StringBody? then
      match IndexOf(b.text, "%d", 0)
      case Some(i) => StringBody(b.text[..i] + Decimal(n) + b.text[i + 2..])
      case None => b
    else b
  }

  /** `send`. */
  function Sent(c: Config, s: RunState): RunState {
    s.(wire := s.wire + [Numbered(c.body, s.sent)], credit := s.credit - 1, sent := s.sent + 1,
       remaining := c.timeout, ready := false)
  }

  /** `checkIfCanSend`. */
  function Checked(c: Config, s: RunState): RunState {
    var s0 := s.(checkRuns := s.checkRuns + 1);
    if s.sent < c.count then
      var s1 := s0.(checks := s.checks + [s.now + s.interval]);
      if s.credit > 0 then Sent(c, s1) else s1.(ready := true)
    else s0
  }

  /** `on_tracker_accept`. */
  function Accepted(c: Config, s: RunState): RunState {
    var s' := s.(confirmedSent := s.confirmedSent + 1);
    if s'.confirmedSent == c.count then s'.(closes := s.closes + 1) else s'
  }

  // ---------- runs ----------

  datatype Event =
    | Start | Grant(n: nat) | LinkReset(left: nat) | Advance(ms: nat)
    | OnSendable | OnAccept | OnReject | OnTransportClose
    | RunCheck(i: nat) | RunTimer(i: nat)

  /** What the environment promises: no earlier than due, credit behind on_sendable, one accept a message. */
  predicate Enabled(s: RunState, e: Event) {
    s.status == Running &&
    match e
    case Start => !s.started
    case Grant(_) => true
    case LinkReset(_) => true
    case Advance(_) => true
    case OnSendable => s.started && s.credit > 0
    case OnAccept => s.confirmedSent < s.sent
    case OnReject => s.confirmedSent < s.sent
    case OnTransportClose => s.started
    case RunCheck(i) => i < |s.checks| && s.checks[i] <= s.now
    case RunTimer(i) => i < |s.timers| && s.timers[i] <= s.now
  }

  function Without<T>(q: seq<T>, i: nat): seq<T>
    requires i < |q|
  {
    q[..i] + q[i + 1..]
  }

  function Step(c: Config, s: RunState, e: Event): RunState {
    if !Enabled(s, e) then s
    else
      match e
      case Start => Started(c, s)
      case Grant(n) => s.(credit := s.credit + n, granted := s.granted + n)
      case LinkReset(left) => if left < s.credit then s.(credit := left) else s
      case Advance(ms) => s.(now := s.now + ms)
      case OnSendable => if s.ready then Sent(c, s) else s
      case OnAccept => Accepted(c, s)
      case OnReject => s.(status := Exited(1))
      case OnTransportClose => if c.connReconnect == "false" then s.(status := Exited(1)) else s
      case RunCheck(i) => Checked(c, s.(checks := Without(s.checks, i)))
      case RunTimer(i) => TimerFired(c, s.(timers := Without(s.timers, i)))
  }

  function RunFrom(c: Config, s: RunState, events: seq<Event>): RunState
    decreases |events|
  {
    if events == [] then s else RunFrom(c, Step(c, s, events[0]), events[1..])
  }

  /** The state after any sequence of events; events that are not enabled do not happen. */
  function Run(c: Config, events: seq<Event>): RunState {
    RunFrom(c, Init(c), events)
  }

  // ---------- invariants ----------

  function Max(a: int, b: int): int {
    if a < b then b else a
  }

  /** Never over-send, and no wake-up is lost. */
  ghost predicate Safe(c: Config, s: RunState) {
    && 0 <= s.sent <= Max(0, c.count)
    && (s.ready ==> s.sent < c.count)
    && |s.checks| <= 1
    && (if s.started then s.sent < c.count ==> |s.checks| == 1 else s.checks == [] && s.sent == 0)
    && (s.started ==> s.interval == Interval(c))
    && (s.status == Running ==> |s.timers| == if s.started then 1 else 0)
  }

  /** Messages sent plus credit left never exceed the credit granted. */
  ghost predicate WithinCredit(s: RunState) {
    s.credit >= 0 && s.sent + s.credit <= s.granted
  }

  /** Every message is accepted at most once, and the connection is closed by the last acceptance. */
  ghost predicate Closing(c: Config, s: RunState) {
    && 0 <= s.confirmedSent <= s.sent
    && s.closes == (if c.count > 0 && s.confirmedSent == c.count then 1 else 0)
  }

  /** The messages on the wire are numbered in order. */
  ghost predicate NumberedInOrder(c: Config, s: RunState) {
    s.wire == seq(Max(0, s.sent), i => Numbered(c.body, i))
  }

  /** When the first check is due. */
  function PaceStart(c: Config, s: RunState): nat {
    s.startTime + FirstDelay(c)
  }

  /** The k-th check runs no earlier than k - 1 intervals after the first one is due. */
  ghost predicate Paced(c: Config, s: RunState) {
    && s.startTime <= s.now
    && s.sent + (if s.ready then 1 else 0) <= s.checkRuns
    && (!s.started ==> s.checkRuns == 0)
    && (s.checkRuns > 0 ==> PaceStart(c, s) + (s.checkRuns - 1) * Interval(c) <= s.now)
    && (forall i | 0 <= i < |s.checks| :: PaceStart(c, s) + s.checkRuns * Interval(c) <= s.checks[i])
  }

  /** The countdown of a non-negative timeout, over the whole run. */
  ghost predicate CountingDown(c: Config, s: RunState) {
    && 0 <= s.remaining <= c.timeout
    && (s.status == Exited(0) ==> s.remaining == 0)
    && s.idleTicks + s.remaining <= c.timeout * (1 + s.sent)
    && s.status != Uncaught
  }

  ghost predicate Inv(c: Config, s: RunState) {
    && Safe(c, s) && WithinCredit(s) && Closing(c, s) && NumberedInOrder(c, s) && Paced(c, s)
    && (c.timeout >= 0 ==> CountingDown(c, s))
    && (c.timeout < 0 ==> s.remaining == c.timeout || s.status == Uncaught)
    && (c.timeout == FOREVER ==> s.status != Uncaught && s.status != Exited(0))
  }

  lemma StepKeepsSafe(c: Config, s: RunState, e: Event)
    requires Safe(c, s)
    ensures Safe(c, Step(c, s, e))
  {
  }

  lemma StepKeepsCredit(c: Config, s: RunState, e: Event)
    requires Safe(c, s) && WithinCredit(s)
    ensures WithinCredit(Step(c, s, e))
  {
  }

  lemma StepKeepsClosing(c: Config, s: RunState, e: Event)
    requires Safe(c, s) && Closing(c, s)
    ensures Closing(c, Step(c, s, e))
  {
  }

  lemma StepKeepsNumbers(c: Config, s: RunState, e: Event)
    requires Safe(c, s) && NumberedInOrder(c, s)
    ensures NumberedInOrder(c, Step(c, s, e))
  {
    hide Numbered;
    StepKeepsSafe(c, s, e);
  }

  lemma StepKeepsPace(c: Config, s: RunState, e: Event)
    requires Safe(c, s) && Paced(c, s)
    ensures Paced(c, Step(c, s, e))
  {
    hide Interval, Numbered, Expired, Decremented, DecrementThrows;
    OneMore(s.checkRuns, Interval(c));
    OneMore(s.checkRuns - 1, Interval(c));
  }

  lemma StepKeepsCountdown(c: Config, s: RunState, e: Event)
    requires Safe(c, s) && c.timeout >= 0 && CountingDown(c, s)
    ensures CountingDown(c, Step(c, s, e))
  {
    hide Expired, Decremented, DecrementThrows;
    GuardedTickIsSafe(c.timeout, s.remaining);
    OneMore(1 + s.sent, c.timeout);
  }

  lemma StepKeepsInv(c: Config, s: RunState, e: Event)
    requires Inv(c, s)
    ensures Inv(c, Step(c, s, e))
  {
    StepKeepsSafe(c, s, e);
    StepKeepsCredit(c, s, e);
    StepKeepsClosing(c, s, e);
    StepKeepsNumbers(c, s, e);
    StepKeepsPace(c, s, e);
    if c.timeout >= 0 {
      StepKeepsCountdown(c, s, e);
    }
    hide Safe, WithinCredit, Closing, NumberedInOrder, Paced, CountingDown;
  }

  lemma {:induction false} RunKeepsInv(c: Config, s: RunState, events: seq<Event>)
    requires Inv(c, s)
    ensures Inv(c, RunFrom(c, s, events))
    decreases |events|
  {
    hide Inv;
    if events != [] {
      StepKeepsInv(c, s, events[0]);
      RunKeepsInv(c, Step(c, s, events[0]), events[1..]);
    }
  }

  lemma InvHolds(c: Config, events: seq<Event>)
    ensures Inv(c, Run(c, events))
  {
    assert Inv(c, Init(c));
    RunKeepsInv(c, Init(c), events);
  }

  // ---------- theorems over all runs ----------

  /** No run over-sends; while messages are missing exactly one check is pending, and always one timer event. */
  lemma SenderSafety(c: Config, events: seq<Event>)
    ensures var s := Run(c, events);
            && 0 <= s.sent <= Max(0, c.count)
            && (s.ready ==> s.sent < c.count)
            && |s.checks| <= 1
            && (s.started && s.sent < c.count ==> |s.checks| == 1)
            && (s.started && s.status == Running ==> |s.timers| == 1)
  {
    InvHolds(c, events);
  }

  /** No message is sent without credit for it. */
  lemma SenderCredit(c: Config, events: seq<Event>)
    ensures var s := Run(c, events); s.credit >= 0 && s.sent + s.credit <= s.granted
  {
    InvHolds(c, events);
  }

  /** The connection is closed at most once; when it is, exactly `count` messages were sent and all accepted. */
  lemma SenderCloses(c: Config, events: seq<Event>)
    ensures var s := Run(c, events);
            && s.closes <= 1
            && (s.closes == 1 <==> c.count > 0 && s.confirmedSent == c.count)
            && (s.closes == 1 ==> s.sent == c.count && s.confirmedSent == s.sent)
  {
    InvHolds(c, events);
  }

  /** The pace in numbers: runs of the check so far, against the time since the start. */
  lemma PaceBound(runs: nat, n: nat, t: int, delayed: bool)
    requires n > 0 && t >= 0
    requires runs > 0 ==> (if delayed then n else 0) + (runs - 1) * n <= t
    ensures runs <= t / n + (if delayed then 0 else 1)
  {
    if runs > 0 {
      OneMore(runs - 1, n);
      AtMost(if delayed then runs else runs - 1, n, t);
    }
  }

  /**
   With a pace, `duration` seconds over `count` messages, at most floor(t / pace) + 1 messages are sent by time t,
   and one less in before-send mode.
   */
  lemma SenderPacing(c: Config, events: seq<Event>)
    requires c.durationTime > 0 && c.count > 0 && (1000 * c.durationTime) / c.count > 0
    ensures var s, pace := Run(c, events), (1000 * c.durationTime) / c.count;
            var t := s.now - s.startTime;
            && s.sent + (if s.ready then 1 else 0) <= s.checkRuns
            && s.checkRuns <= t / pace + (if c.durationMode == "before-send" then 0 else 1)
  {
    InvHolds(c, events);
    var s := Run(c, events);
    PaceBound(s.checkRuns, Interval(c), s.now - s.startTime, BeforeSend(c));
  }

  // ---------- no slower than the pace ----------

  /** Whenever a check runs there is credit. */
  ghost predicate CreditAtChecks(c: Config, s: RunState, events: seq<Event>)
    decreases |events|
  {
    events == [] ||
    ((Enabled(s, events[0]) && events[0].RunCheck? ==> s.credit > 0) && CreditAtChecks(c, Step(c, s, events[0]), events[1..]))
  }

  /** Time does not pass a check that is due. */
  ghost predicate Punctual(c: Config, s: RunState, events: seq<Event>)
    decreases |events|
  {
    events == [] ||
    ((events[0].Advance? && s.checks != [] ==> s.now + events[0].ms <= s.checks[0]) &&
     Punctual(c, Step(c, s, events[0]), events[1..]))
  }

  /** Every check so far has sent a message, until all were sent. */
  ghost predicate InStep(c: Config, s: RunState) {
    !s.ready && s.sent == if s.checkRuns < c.count then s.checkRuns else Max(0, c.count)
  }

  lemma {:induction false} RunKeepsStep(c: Config, s: RunState, events: seq<Event>)
    requires Safe(c, s) && InStep(c, s) && CreditAtChecks(c, s, events)
    ensures InStep(c, RunFrom(c, s, events))
    decreases |events|
  {
    if events != [] {
      StepKeepsSafe(c, s, events[0]);
      StepKeepsStep(c, s, events[0]);
      hide Safe, InStep, Enabled;
      RunKeepsStep(c, Step(c, s, events[0]), events[1..]);
    }
  }

  lemma StepKeepsStep(c: Config, s: RunState, e: Event)
    requires Safe(c, s) && InStep(c, s) && (Enabled(s, e) && e.RunCheck? ==> s.credit > 0)
    ensures InStep(c, Step(c, s, e))
  {
  }

  /** With credit whenever a check runs, every check sends a message until all are sent, and none waits. */
  lemma SenderInStep(c: Config, events: seq<Event>)
    requires CreditAtChecks(c, Init(c), events)
    ensures var s := Run(c, events);
            !s.ready && s.sent == if s.checkRuns < c.count then s.checkRuns else Max(0, c.count)
  {
    RunKeepsStep(c, Init(c), events);
  }

  /** The next check is due exactly one interval after the last one was, and that is not past. */
  ghost predicate OnTime(c: Config, s: RunState) {
    s.started && s.sent < c.count ==>
      |s.checks| == 1 && s.now <= s.checks[0] == PaceStart(c, s) + s.checkRuns * Interval(c)
  }

  lemma StepKeepsTime(c: Config, s: RunState, e: Event)
    requires Safe(c, s) && Paced(c, s) && OnTime(c, s)
    requires e.Advance? && s.checks != [] ==> s.now + e.ms <= s.checks[0]
    ensures OnTime(c, Step(c, s, e))
  {
    hide Interval;
    OneMore(s.checkRuns, Interval(c));
  }

  lemma {:induction false} RunKeepsTime(c: Config, s: RunState, events: seq<Event>)
    requires Safe(c, s) && Paced(c, s) && OnTime(c, s) && Punctual(c, s, events)
    ensures OnTime(c, RunFrom(c, s, events))
    decreases |events|
  {
    if events != [] {
      hide Safe, Paced, OnTime;
      StepKeepsSafe(c, s, events[0]);
      StepKeepsPace(c, s, events[0]);
      StepKeepsTime(c, s, events[0]);
      RunKeepsTime(c, Step(c, s, events[0]), events[1..]);
    }
  }

  /**
   If moreover every check runs when it is due, the sender keeps up with the clock: `sent` paces have not yet
   passed since the first check was due, unless all messages are sent. The first check is due at once, except that
   before-send mode waits for one pace.
   */
  lemma SenderKeepsUp(c: Config, events: seq<Event>)
    requires CreditAtChecks(c, Init(c), events) && Punctual(c, Init(c), events)
    ensures var s := Run(c, events);
            var pace := if c.durationTime > 0 && c.count > 0 then (1000 * c.durationTime) / c.count else 0;
            var wait := if c.durationTime > 0 && c.durationMode == "before-send" then pace else 0;
            s.started ==> s.sent >= c.count || s.now - s.startTime <= wait + s.sent * pace
  {
    SenderInStep(c, events);
    RunKeepsTime(c, Init(c), events);
    InvHolds(c, events);
  }

  // ---------- which events send ----------

  /** Whether the last check found no credit and no message has gone out since, starting with `waiting`. */
  predicate Waiting(c: Config, s: RunState, events: seq<Event>, waiting: bool)
    decreases |events|
  {
    if events == [] then waiting
    else
      var e, next := events[0], Step(c, s, events[0]);
      Waiting(c, next, events[1..],
              if next.wire != s.wire then false
              else if Enabled(s, e) && e.RunCheck? then s.sent < c.count && s.credit == 0
              else waiting)
  }

  lemma {:induction false} RunKeepsWaiting(c: Config, s: RunState, events: seq<Event>)
    requires Safe(c, s) && WithinCredit(s)
    ensures RunFrom(c, s, events).ready == Waiting(c, s, events, s.ready)
    decreases |events|
  {
    if events != [] {
      hide WithinCredit, Enabled, Safe;
      var e, next := events[0], Step(c, s, events[0]);
      StepKeepsSafe(c, s, e);
      StepKeepsCredit(c, s, e);
      StepKeepsWaiting(c, s, e);
      RunKeepsWaiting(c, next, events[1..]);
    }
  }

  lemma StepKeepsWaiting(c: Config, s: RunState, e: Event)
    requires Safe(c, s) && WithinCredit(s)
    ensures var next := Step(c, s, e);
            next.ready == if next.wire != s.wire then false
                          else if Enabled(s, e) && e.RunCheck? then s.sent < c.count && s.credit == 0
                          else s.ready
  {
    hide Numbered, Interval;
  }

  lemma StepSendsIff(c: Config, s: RunState, e: Event)
    requires Enabled(s, e)
    ensures |Step(c, s, e).wire| == |s.wire| +
              (if (e.RunCheck? && s.sent < c.count && s.credit > 0) || (e.OnSendable? && s.ready) then 1 else 0)
  {
    hide Numbered, Interval, Expired, Decremented, DecrementThrows;
  }

  /**
   After any run an event sends a message exactly if it is a check with credit while messages are missing, or an
   on_sendable after a check that found no credit, with nothing sent since. It sends one message.
   */
  lemma SenderSendsIff(c: Config, events: seq<Event>, e: Event)
    requires Enabled(Run(c, events), e)
    ensures var s := Run(c, events);
            |Step(c, s, e).wire| == |s.wire| +
              (if (e.RunCheck? && s.sent < c.count && s.credit > 0) || (e.OnSendable? && Waiting(c, Init(c), events, false))
               then 1 else 0)
  {
    hide Step, Enabled, Waiting, RunFrom;
    RunKeepsWaiting(c, Init(c), events);
    StepSendsIff(c, Run(c, events), e);
  }

  // ---------- the timeout ----------

  /** A non-negative timeout never throws, and bounds all idle ticks of a run. */
  lemma SenderTimeout(c: Config, events: seq<Event>)
    requires c.timeout >= 0
    ensures var s := Run(c, events);
            && s.status != Uncaught
            && s.idleTicks <= c.timeout * (1 + Max(0, c.count))
  {
    InvHolds(c, events);
    var s := Run(c, events);
    Product(1 + s.sent, 1 + Max(0, c.count), c.timeout);
  }

  /** How many timer events have happened since a message last went out, starting with `k`. */
  function TicksSinceSend(c: Config, s: RunState, events: seq<Event>, k: nat): nat
    decreases |events|
  {
    if events == [] then k
    else
      var e, next := events[0], Step(c, s, events[0]);
      TicksSinceSend(c, next, events[1..],
                     if next.wire != s.wire then 0
                     else if Enabled(s, e) && e.RunTimer? then k + 1
                     else k)
  }

  /** The countdown of a handler that has sent nothing for `k` timer events. */
  ghost predicate Quiet(c: Config, s: RunState, k: nat) {
    && k <= c.timeout + 1
    && (s.status == Exited(0) <==> k == c.timeout + 1)
    && (s.status != Exited(0) ==> s.remaining == c.timeout - k)
  }

  lemma StepKeepsQuiet(c: Config, s: RunState, e: Event, k: nat)
    requires c.timeout >= 0 && Quiet(c, s, k)
    ensures Quiet(c, Step(c, s, e),
                  if Step(c, s, e).wire != s.wire then 0 else if Enabled(s, e) && e.RunTimer? then k + 1 else k)
  {
    hide Interval, Numbered;
  }

  lemma {:induction false} RunKeepsQuiet(c: Config, s: RunState, events: seq<Event>, k: nat)
    requires c.timeout >= 0 && Quiet(c, s, k)
    ensures Quiet(c, RunFrom(c, s, events), TicksSinceSend(c, s, events, k))
    decreases |events|
  {
    if events != [] {
      hide Quiet, Enabled;
      var e, next := events[0], Step(c, s, events[0]);
      StepKeepsQuiet(c, s, e, k);
      RunKeepsQuiet(c, next, events[1..],
                    if next.wire != s.wire then 0 else if Enabled(s, e) && e.RunTimer? then k + 1 else k);
    }
  }

  /**
   The countdown in terms of the events: it is short of the timeout by the timer events since the last message went
   out, and the process exits exactly with timer event number timeout + 1 behind that message.
   */
  lemma SenderCountdown(c: Config, events: seq<Event>)
    requires c.timeout >= 0
    ensures var s, n := Run(c, events), TicksSinceSend(c, Init(c), events, 0);
            && n <= c.timeout + 1
            && (s.status == Exited(0) <==> n == c.timeout + 1)
            && (s.status != Exited(0) ==> s.remaining == c.timeout - n)
  {
    RunKeepsQuiet(c, Init(c), events, 0);
  }

  /** How any event may end the process: a rejected message, a closed transport, the timer, or not at all. */
  lemma SenderEndsBy(c: Config, events: seq<Event>, e: Event)
    requires Enabled(Run(c, events), e)
    ensures var s, n := Run(c, events), TicksSinceSend(c, Init(c), events, 0);
            Step(c, s, e).status ==
            match e
            case OnReject => Exited(1)
            case OnTransportClose => if c.connReconnect == "false" then Exited(1) else Running
            case RunTimer(_) =>
              if c.timeout >= 0 && n == c.timeout then Exited(0) else if c.timeout < FOREVER then Uncaught else Running
            case _ => Running
  {
    hide Numbered, Interval;
    InvHolds(c, events);
    if c.timeout >= 0 {
      SenderCountdown(c, events);
    }
  }

  // ---------- the clock ----------

  /** Time does not pass a timer event that is due. */
  ghost predicate TimerPunctual(c: Config, s: RunState, events: seq<Event>)
    decreases |events|
  {
    events == [] ||
    ((events[0].Advance? && s.timers != [] ==> s.now + events[0].ms <= s.timers[0]) &&
     TimerPunctual(c, Step(c, s, events[0]), events[1..]))
  }

  /** `n` timer events have taken at least n - 1 seconds from the start, and the next is not due before n. */
  ghost predicate Ticking(s: RunState, n: nat, punctual: bool) {
    && (!s.started ==> n == 0 && s.timers == [])
    && (n > 0 ==> s.startTime + 1000 * (n - 1) <= s.now)
    && (forall i | 0 <= i < |s.timers| :: s.startTime + 1000 * n <= s.timers[i])
    && |s.timers| <= 1 && (s.started && s.status == Running ==> |s.timers| == 1)
    && (punctual && s.started && s.status == Running ==>
          s.timers == [s.startTime + 1000 * n] && s.now <= s.startTime + 1000 * n)
  }

  lemma StepKeepsTicking(c: Config, s: RunState, e: Event, n: nat, punctual: bool)
    requires Ticking(s, n, punctual)
    requires punctual && e.Advance? && s.timers != [] ==> s.now + e.ms <= s.timers[0]
    ensures Ticking(Step(c, s, e), n + if Enabled(s, e) && e.RunTimer? then 1 else 0, punctual)
  {
    hide Numbered, Interval, Expired, Decremented, DecrementThrows;
  }

  lemma {:induction false} RunKeepsTicking(c: Config, s: RunState, events: seq<Event>, n: nat, punctual: bool)
    requires Ticking(s, n, punctual) && (punctual ==> TimerPunctual(c, s, events))
    ensures Ticking(RunFrom(c, s, events), n + TimerEvents(c, s, events), punctual)
    decreases |events|
  {
    if events != [] {
      hide Ticking, Enabled;
      var e := events[0];
      StepKeepsTicking(c, s, e, n, punctual);
      RunKeepsTicking(c, Step(c, s, e), events[1..], n + if Enabled(s, e) && e.RunTimer? then 1 else 0, punctual);
    }
  }

  /**
   Timer events are a second apart: n of them have taken at least n - 1 seconds since the start. If moreover each
   runs when it is due, the next one is due after exactly n seconds.
   */
  lemma SenderClock(c: Config, events: seq<Event>)
    ensures var s, n := Run(c, events), TimerEvents(c, Init(c), events);
            && (n > 0 ==> s.startTime + 1000 * (n - 1) <= s.now)
            && (s.started && s.status == Running ==> |s.timers| == 1 && s.startTime + 1000 * n <= s.timers[0])
            && (s.started && s.status == Running && TimerPunctual(c, Init(c), events) ==>
                  s.timers == [s.startTime + 1000 * n])
  {
    RunKeepsTicking(c, Init(c), events, 0, TimerPunctual(c, Init(c), events));
  }

  /** How many timer events happen in a run. */
  function TimerEvents(c: Config, s: RunState, events: seq<Event>): nat
    decreases |events|
  {
    if events == [] then 0
    else (if Enabled(s, events[0]) && events[0].RunTimer? then 1 else 0) + TimerEvents(c, Step(c, s, events[0]), events[1..])
  }

  lemma TimerEventCounted(c: Config, s: RunState, e: Event)
    requires c.timeout >= 0 && Inv(c, s)
    ensures var s' := Step(c, s, e);
            && Inv(c, s')
            && (if Enabled(s, e) && e.RunTimer? then 1 else 0) == s'.idleTicks - s.idleTicks + ExitByTimer(s') - ExitByTimer(s)
  {
    StepKeepsInv(c, s, e);
    hide Safe, WithinCredit, Closing, NumberedInOrder, Paced;
  }

  /** Every timer event that happens is an idle tick or the exit. */
  lemma {:induction false} TimerEventsCounted(c: Config, s: RunState, events: seq<Event>)
    requires c.timeout >= 0 && Inv(c, s)
    ensures var s' := RunFrom(c, s, events);
            TimerEvents(c, s, events) == s'.idleTicks - s.idleTicks + ExitByTimer(s') - ExitByTimer(s)
    decreases |events|
  {
    if events != [] {
      hide Inv, Enabled;
      TimerEventCounted(c, s, events[0]);
      TimerEventsCounted(c, Step(c, s, events[0]), events[1..]);
    }
  }

  function ExitByTimer(s: RunState): nat {
    if s.status == Exited(0) then 1 else 0
  }

  /** The sender exits no later than timer event number timeout * (1 + count) + 1, whatever else happens. */
  lemma SenderExitsInTime(c: Config, events: seq<Event>)
    requires c.timeout >= 0 && TimerEvents(c, Init(c), events) > c.timeout * (1 + Max(0, c.count))
    ensures Run(c, events).status == Exited(0)
    ensures TimerEvents(c, Init(c), events) == c.timeout * (1 + Max(0, c.count)) + 1
  {
    assert Inv(c, Init(c));
    TimerEventsCounted(c, Init(c), events);
    SenderTimeout(c, events);
  }

  /** Without a timeout no timer event ever ends the process. */
  lemma SenderForever(c: Config, events: seq<Event>)
    requires c.timeout == FOREVER
    ensures Run(c, events).status != Uncaught && Run(c, events).status != Exited(0)
  {
    InvHolds(c, events);
  }

  /** A timeout ends in an uncaught exception in some run exactly when it is below FOREVER. */
  lemma SenderThrowsIff(c: Config)
    ensures (exists events :: Run(c, events).status == Uncaught) <==> c.timeout < FOREVER
  {
    forall events
      ensures Run(c, events).status == Uncaught ==> c.timeout < FOREVER
    {
      InvHolds(c, events);
    }
    if c.timeout < FOREVER {
      var events := [Start, RunTimer(0)];
      var s1 := Step(c, Init(c), Start);
      assert s1.timers == [0] && s1.now == 0;
      var s2 := Step(c, s1, RunTimer(0));
      assert events[1..] == [RunTimer(0)] && events[1..][1..] == [];
      assert Run(c, events) == RunFrom(c, s1, events[1..]) == RunFrom(c, s2, []);
      assert s2.status == Uncaught;
    }
  }

  /** Message number i on the wire is the template with its first `%d` replaced by i, for every i below `sent`. */
  lemma SentBodies(c: Config, events: seq<Event>)
    ensures var s := Run(c, events);
            |s.wire| == s.sent && forall i | 0 <= i < s.sent :: s.wire[i] == Numbered(c.body, i)
  {
    InvHolds(c, events);
  }

  /** The first placeholder of the template becomes the number of the message, from 0 on, and the rest stays. */
  lemma NumberedBodies(c: Config, events: seq<Event>, front: string, back: string)
    requires c.body == StringBody(front + "%d" + back) && NoMatch(front + "%d" + back, "%d", 0, |front|)
    ensures var s := Run(c, events);
            |s.wire| == s.sent && forall i | 0 <= i < s.sent :: s.wire[i] == StringBody(front + Decimal(i) + back)
  {
    hide Decimal;
    var text := front + "%d" + back;
    SentBodies(c, events);
    assert text[|front|..|front| + 2] == "%d";
    FoundAt(text, "%d", 0, |front|);
    assert text[..|front|] == front && text[|front| + 2..] == back;
  }

  /** A text without a placeholder, or a body that is no text, goes out unchanged every time. */
  lemma PlainBodies(c: Config, events: seq<Event>)
    requires c.body.OtherBody? || forall j: nat :: !MatchAt(c.body.text, "%d", j)
    ensures var s := Run(c, events);
            |s.wire| == s.sent && forall i | 0 <= i < s.sent :: s.wire[i] == c.body
  {
    SentBodies(c, events);
    if c.body.StringBody? {
      FindsFirst(c.body.text, "%d", 0);
    }
  }

  /** The first two messages of the template `m%d` are `m0` and `m1`. */
  lemma FirstBodies(c: Config, events: seq<Event>)
    requires c.body == StringBody("m%d") && Run(c, events).sent >= 2
    ensures var w := Run(c, events).wire; |w| >= 2 && w[0] == StringBody("m0") && w[1] == StringBody("m1")
  {
    hide Run, Decimal;
    assert "m%d" == "m" + "%d" + "" && "m%d"[0..2] == "m%";
    NumberedBodies(c, events, "m", "");
    DecimalIs(0, 0);
    DecimalIs(0, 1);
    assert "m" + Decimal(0) + "" == "m0" && "m" + Decimal(1) + "" == "m1";
  }

  predicate HasPlaceholder(b: Body) {
    b.StringBody? && IndexOf(b.text, "%d", 0).Some?
  }

  lemma NumbersDiffer(b: Body, i: int, j: int)
    ensures Numbered(b, i) == Numbered(b, j) <==> i == j || !HasPlaceholder(b)
  {
    if HasPlaceholder(b) && Numbered(b, i) == Numbered(b, j) {
      var k := IndexOf(b.text, "%d", 0).value;
      var x, y := Numbered(b, i).text, Numbered(b, j).text;
      var tail := |b.text| - k - 2;
      assert x[k..|x| - tail] == Decimal(i);
      assert y[k..|y| - tail] == Decimal(j);
      DecimalInjective(i, j);
    }
  }

  /** The bodies of a run are pairwise different exactly when there is a placeholder to number, or fewer than two. */
  lemma SentBodiesDiffer(c: Config, events: seq<Event>)
    ensures var w := Run(c, events).wire;
            (forall i, j | 0 <= i < j < |w| :: w[i] != w[j]) <==> HasPlaceholder(c.body) || |w| < 2
  {
    SentBodies(c, events);
    var w := Run(c, events).wire;
    forall i, j | 0 <= i < j < |w|
      ensures w[i] == w[j] <==> !HasPlaceholder(c.body)
    {
      NumbersDiffer(c.body, i, j);
    }
    assert |w| >= 2 && !HasPlaceholder(c.body) ==> w[0] == w[1];
  }

  // ---------- progress ----------

  lemma {:induction false} RunSplit(c: Config, s: RunState, a: seq<Event>, b: seq<Event>)
    ensures RunFrom(c, s, a + b) == RunFrom(c, RunFrom(c, s, a), b)
    decreases |a|
  {
    if a == [] {
      assert a + b == b;
    } else {
      assert (a + b)[1..] == a[1..] + b && (a + b)[0] == a[0];
      RunSplit(c, Step(c, s, a[0]), a[1..], b);
    }
  }

  /** A message that is still missing is sent as soon as there is credit: by on_sendable or by the pending check. */
  lemma NextSend(c: Config, s: RunState) returns (events: seq<Event>)
    requires Inv(c, s) && s.status == Running && s.started && s.sent < c.count
    ensures var s' := RunFrom(c, s, events);
            s'.status == Running && s'.started && s'.sent == s.sent + 1 && s'.confirmedSent == s.confirmedSent
  {
    var s1 := Step(c, s, Grant(1));
    if s.ready {
      events := [Grant(1), OnSendable];
      assert events[1..] == [OnSendable] && events[1..][1..] == [];
      var s2 := Step(c, s1, OnSendable);
      assert RunFrom(c, s, events) == RunFrom(c, s1, [OnSendable]) == RunFrom(c, s2, []);
    } else {
      var wait := Advance(s.checks[0]);
      events := [Grant(1), wait, RunCheck(0)];
      assert events[1..] == [wait, RunCheck(0)] && events[1..][1..] == [RunCheck(0)] && events[1..][1..][1..] == [];
      var s2 := Step(c, s1, wait);
      var s3 := Step(c, s2, RunCheck(0));
      assert RunFrom(c, s, events) == RunFrom(c, s1, events[1..]) == RunFrom(c, s2, [RunCheck(0)]) == RunFrom(c, s3, []);
    }
  }

  /** From every reachable state that has not ended, the handler can still send everything and close. */
  lemma {:induction false} CanFinish(c: Config, s: RunState) returns (events: seq<Event>)
    requires Inv(c, s) && s.status == Running && s.started && c.count > 0
    ensures var s' := RunFrom(c, s, events);
            s'.status == Running && s'.closes == 1 && s'.sent == s'.confirmedSent == c.count
    decreases 2 * c.count - s.sent - s.confirmedSent
  {
    if s.confirmedSent == c.count {
      events := [];
    } else {
      var first: seq<Event>;
      if s.sent < c.count {
        first := NextSend(c, s);
      } else {
        first := [OnAccept];
        assert first[1..] == [];
        assert RunFrom(c, s, first) == RunFrom(c, Step(c, s, OnAccept), []);
      }
      RunKeepsInv(c, s, first);
      var rest := CanFinish(c, RunFrom(c, s, first));
      RunSplit(c, s, first, rest);
      events := first + rest;
    }
  }

  /** Every run in which the handler is started and alive can be continued to a complete one. */
  lemma NeverStuck(c: Config, events: seq<Event>)
    requires c.count > 0 && Run(c, events).started && Run(c, events).status == Running
    ensures exists more :: var s := Run(c, events + more); s.closes == 1 && s.sent == s.confirmedSent == c.count
  {
    InvHolds(c, events);
    var more := CanFinish(c, Run(c, events));
    RunSplit(c, Init(c), events, more);
    assert Run(c, events + more).closes == 1;
  }
}
