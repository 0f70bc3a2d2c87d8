/**
 The receiving handler as a state machine
 (src/api/qpid-proton/reactor/handler/ReceiverHandler.cpp).
 */
module Receiving {
  import opened Arithmetic
  import opened CppStrings
  import opened Timers

  datatype Outcome = Accepted | Rejected | Released

  /** The outcome that `do_message_action` gives a delivery; an unknown action gives none. */
  function OutcomeOf(action: string): Maybe<Outcome> {
    if action == "ack" then Some(Accepted)
    else if action == "reject" then Some(Rejected)
    else if action == "release" then Some(Released)
    else None
  }

  datatype Settlement = Settlement(message: nat, outcome: Outcome)

  datatype Config = Config(
    action: string, actionSize: int, processReplyTo: bool, count: int, durable: bool,
    creditWindow: int, drainAfterWindow: bool, timeout: int, connReconnect: string)

  // `Faulted` is the division by a zero action size, `Uncaught` the timer's exception.
  datatype Status = Running | Exited(code: int) | Uncaught | Faulted

  datatype Ending = Closed | Detached

  /** A reply: the address of the sender it left by, its `to` address, and the position of its message. */
  datatype Reply = Reply(sender: string, to: string, message: nat)

  /** The handler, its sender cache, the work queue, and what it did to the outside so far. */
  datatype RunState = RunState(
    received: nat, remaining: int, status: Status, senders: set<string>, pendingDrains: nat, timers: seq<nat>, now: nat,
    settled: seq<Settlement>, openedFor: seq<string>, replies: seq<Reply>, endings: seq<Ending>, endedAt: seq<nat>,
    connectionCloses: nat, drains: nat, idleTicks: nat)

  function Init(c: Config): RunState {
    RunState(0, c.timeout, Running, {}, 0, [0], 0, [], [], [], [], [], 0, 0, 0)
  }

  // ---------- on_message ----------

  /** C++ `%`: the remainder is zero exactly for the multiples, whatever the signs. */
  predicate Divides(size: int, n: nat)
    requires size != 0
  {
    n % (if size < 0 then -size else size) == 0
  }

  /** `do_message_action`, when the message is a multiple of the action size. */
  function Settle(c: Config, s: RunState): RunState
    requires c.actionSize != 0
  {
    if Divides(c.actionSize, s.received) && OutcomeOf(c.action).Some?
    then s.(settled := s.settled + [Settlement(s.received, OutcomeOf(c.action).value)]) else s
  }

  /** `do_process_reply_to`: open a sender for a new address, then reply through the cached one. */
  function ReplyTo(c: Config, s: RunState, address: string): RunState {
    if c.processReplyTo && address != "" then
      s.(senders := s.senders + {address},
         openedFor := if address in s.senders then s.openedFor else s.openedFor + [address],
         replies := s.replies + [Reply(address, address, s.received)])
    else s
  }

  function QueueDrain(c: Config, s: RunState): RunState {
    if c.drainAfterWindow && s.received == c.creditWindow then s.(pendingDrains := s.pendingDrains + 1) else s
  }

  function EndOrReset(c: Config, s: RunState): RunState {
    if !c.processReplyTo && s.received == c.count then
      s.(endings := s.endings + [if c.durable then Detached else Closed], endedAt := s.endedAt + [s.received],
         connectionCloses := s.connectionCloses + 1)
    else s.(remaining := c.timeout)
  }

  function MessageArrived(c: Config, s: RunState, replyTo: string): RunState {
    var s1 := s.(received := s.received + 1);
    if c.actionSize == 0 then s1.(status := Faulted)
    else EndOrReset(c, QueueDrain(c, ReplyTo(c, Settle(c, s1), replyTo)))
  }

  // Milliseconds in duration::SECOND.
  const SECOND := 1000

  function TimerFired(c: Config, s: RunState): RunState {
    if Expired(c.timeout, s.remaining) then s.(status := Exited(0))
    else
      var s' := s.(remaining := Decremented(c.timeout, s.remaining));
      if DecrementThrows(c.timeout, s.remaining) then s'.(status := Uncaught)
      else s'.(timers := s.timers + [s.now + SECOND], idleTicks := s.idleTicks + 1)
  }

  // ---------- runs ----------

  datatype Event = OnMessage(replyTo: string) | Advance(ms: nat) | RunTimer(i: nat) | RunDrain | OnTransportClose

  predicate Enabled(s: RunState, e: Event) {
    s.status == Running &&
    match e
    case OnMessage(_) => true
    case Advance(_) => true
    case RunTimer(i) => i < |s.timers| && s.timers[i] <= s.now
    case RunDrain => s.pendingDrains > 0
    case OnTransportClose => true
  }

  function Step(c: Config, s: RunState, e: Event): RunState {
    if !Enabled(s, e) then s
    else
      match e
      case OnMessage(replyTo) => MessageArrived(c, s, replyTo)
      case Advance(ms) => s.(now := s.now + ms)
      case RunTimer(i) => TimerFired(c, s.(timers := s.timers[..i] + s.timers[i + 1..]))
      case RunDrain => s.(pendingDrains := s.pendingDrains - 1, drains := s.drains + 1)
      case OnTransportClose =>
        if c.connReconnect == "false" then s.(status := Exited(1))
        else if s.received == c.count then s.(status := Exited(0))
        else s
  }

  /** The reply-to addresses of the messages that reached the handler, in order. */
  function Arrivals(c: Config, s: RunState, events: seq<Event>): seq<string>
    decreases |events|
  {
    if events == [] then []
    else (if Enabled(s, events[0]) && events[0].OnMessage? then [events[0].replyTo] else [])
         + Arrivals(c, Step(c, s, events[0]), events[1..])
  }

  function RunFrom(c: Config, s: RunState, events: seq<Event>): RunState
    decreases |events|
  {
    if events == [] then s else RunFrom(c, Step(c, s, events[0]), events[1..])
  }

  function Run(c: Config, events: seq<Event>): RunState {
    RunFrom(c, Init(c), events)
  }

  // ---------- what a run leaves behind, said without the run ----------

  /** The multiples of `size` among 1 .. n, all settled alike. */
  function Multiples(size: int, n: nat, how: Outcome): seq<Settlement>
    requires size != 0
  {
    if n == 0 then [] else Multiples(size, n - 1, how) + (if Divides(size, n) then [Settlement(n, how)] else [])
  }

  /** The non-empty addresses in order, each with the number of its message. */
  function RepliesTo(addresses: seq<string>): seq<Reply> {
    if addresses == [] then []
    else
      var n := |addresses|;
      RepliesTo(addresses[..n - 1]) + (if addresses[n - 1] != "" then [Reply(addresses[n - 1], addresses[n - 1], n)] else [])
  }

  /** The distinct non-empty addresses, in the order of their first appearance. */
  function FirstSeen(addresses: seq<string>): seq<string> {
    if addresses == [] then []
    else
      var seen, a := FirstSeen(addresses[..|addresses| - 1]), addresses[|addresses| - 1];
      if a == "" || a in seen then seen else seen + [a]
  }

  function Reached(target: int, n: nat): bool {
    0 < target <= n
  }

  ghost predicate SettledRight(c: Config, s: RunState)
    requires c.actionSize != 0
  {
    s.settled == if OutcomeOf(c.action).None? then [] else Multiples(c.actionSize, s.received, OutcomeOf(c.action).value)
  }

  ghost predicate RepliedRight(c: Config, s: RunState, arrived: seq<string>) {
    && s.openedFor == (if c.processReplyTo then FirstSeen(arrived) else [])
    && s.senders == (set a | a in s.openedFor)
    && s.replies == (if c.processReplyTo then RepliesTo(arrived) else [])
  }

  ghost predicate EndedRight(c: Config, s: RunState) {
    && s.pendingDrains + s.drains == (if c.drainAfterWindow && Reached(c.creditWindow, s.received) then 1 else 0)
    && s.endings == (if !c.processReplyTo && Reached(c.count, s.received)
                     then [if c.durable then Detached else Closed] else [])
    && s.endedAt == (if !c.processReplyTo && Reached(c.count, s.received) then [c.count] else [])
    && s.connectionCloses == |s.endings|
  }

  /** The whole outside effect of a run, as a function of the messages that arrived. */
  ghost predicate Accounts(c: Config, s: RunState, arrived: seq<string>) {
    && s.received == |arrived|
    && (s.status == Faulted <==> c.actionSize == 0 && s.received > 0)
    && (c.actionSize != 0 ==> SettledRight(c, s) && RepliedRight(c, s, arrived) && EndedRight(c, s))
  }

  ghost predicate CountingDown(c: Config, s: RunState) {
    && (c.timeout >= 0 ==>
          && 0 <= s.remaining <= c.timeout
          && s.idleTicks + s.remaining <= c.timeout * (1 + s.received)
          && s.status != Uncaught)
    && (c.timeout < 0 ==> s.remaining == c.timeout || s.status == Uncaught)
    && (c.timeout == FOREVER ==> s.status != Uncaught)
    && |s.timers| <= 1 && (s.status == Running ==> |s.timers| == 1)
  }

  /** The three parts, while message number `s.received` is being handled. */
  ghost predicate Right(c: Config, s: RunState, settledTo: nat, arrived: seq<string>, endedTo: nat)
    requires c.actionSize != 0
  {
    && SettledRight(c, s.(received := settledTo))
    && RepliedRight(c, s, arrived)
    && EndedRight(c, s.(received := endedTo))
  }

  lemma SettleKeepsRight(c: Config, s: RunState, arrived: seq<string>)
    requires c.actionSize != 0 && Right(c, s, s.received, arrived, s.received)
    ensures var s' := Settle(c, s.(received := s.received + 1));
            s'.received == s.received + 1 && s'.status == s.status && Right(c, s', s.received + 1, arrived, s.received)
  {
    hide Divides, OutcomeOf, Multiples, RepliesTo, FirstSeen, Reached;
    if OutcomeOf(c.action).Some? {
      NextMultiple(c.actionSize, s.received, OutcomeOf(c.action).value);
    }
  }

  lemma NextMultiple(size: int, n: nat, how: Outcome)
    requires size != 0
    ensures Multiples(size, n + 1, how) ==
            if Divides(size, n + 1) then Multiples(size, n, how) + [Settlement(n + 1, how)] else Multiples(size, n, how)
  {
    hide Divides;
  }

  lemma ReplyKeepsReplied(c: Config, s: RunState, arrived: seq<string>, replyTo: string)
    requires s.received == |arrived| + 1 && RepliedRight(c, s, arrived)
    ensures RepliedRight(c, ReplyTo(c, s, replyTo), arrived + [replyTo])
  {
    var all := arrived + [replyTo];
    assert all[..|all| - 1] == arrived && all[|all| - 1] == replyTo;
    if c.processReplyTo && replyTo != "" {
      assert (set a | a in s.openedFor + [replyTo]) == s.senders + {replyTo};
      assert replyTo in s.senders <==> replyTo in s.openedFor;
    }
  }

  lemma ReplyKeepsRight(c: Config, s: RunState, arrived: seq<string>, replyTo: string)
    requires c.actionSize != 0 && s.received == |arrived| + 1 && Right(c, s, s.received, arrived, |arrived|)
    ensures var s' := ReplyTo(c, s, replyTo);
            s'.received == s.received && s'.status == s.status && Right(c, s', s.received, arrived + [replyTo], |arrived|)
  {
    hide Multiples, RepliesTo, FirstSeen, RepliedRight;
    ReplyKeepsReplied(c, s, arrived, replyTo);
  }

  lemma EndKeepsRight(c: Config, s: RunState, arrived: seq<string>)
    requires c.actionSize != 0 && s.received == |arrived| > 0 && Right(c, s, s.received, arrived, |arrived| - 1)
    ensures var s' := EndOrReset(c, QueueDrain(c, s));
            s'.received == s.received && s'.status == s.status && Right(c, s', s.received, arrived, s.received)
  {
    hide Multiples, FirstSeen, RepliesTo;
  }

  /** One more message changes the account as described. */
  lemma MessageAccounts(c: Config, s: RunState, arrived: seq<string>, replyTo: string)
    requires Accounts(c, s, arrived) && s.status == Running
    ensures Accounts(c, MessageArrived(c, s, replyTo), arrived + [replyTo])
  {
    if c.actionSize != 0 {
      assert s.(received := s.received) == s;
      SettleKeepsRight(c, s, arrived);
      var s1 := Settle(c, s.(received := s.received + 1));
      ReplyKeepsRight(c, s1, arrived, replyTo);
      var s2 := ReplyTo(c, s1, replyTo);
      EndKeepsRight(c, s2, arrived + [replyTo]);
      var s4 := EndOrReset(c, QueueDrain(c, s2));
      assert s4.(received := s4.received) == s4;
      hide SettledRight, RepliedRight, EndedRight, Settle, ReplyTo, EndOrReset, QueueDrain;
    }
  }

  /** An event that is no message does not change the account. */
  lemma OtherStepAccounts(c: Config, s: RunState, arrived: seq<string>, e: Event)
    requires Accounts(c, s, arrived) && (Enabled(s, e) ==> !e.OnMessage?)
    ensures Accounts(c, Step(c, s, e), arrived)
  {
    hide Multiples, FirstSeen, RepliesTo, OutcomeOf, Reached, MessageArrived;
  }

  lemma StepAccounts(c: Config, s: RunState, arrived: seq<string>, e: Event)
    requires Accounts(c, s, arrived)
    ensures Accounts(c, Step(c, s, e), arrived + if Enabled(s, e) && e.OnMessage? then [e.replyTo] else [])
  {
    hide Accounts, MessageArrived;
    if Enabled(s, e) && e.OnMessage? {
      MessageAccounts(c, s, arrived, e.replyTo);
    } else {
      assert arrived + [] == arrived;
      OtherStepAccounts(c, s, arrived, e);
    }
  }

  /** A message counts, and starts the countdown over unless it ends the link or faults. */
  lemma MessageResets(c: Config, s: RunState, replyTo: string)
    ensures var s' := MessageArrived(c, s, replyTo);
            && s'.received == s.received + 1 && s'.timers == s.timers && s'.idleTicks == s.idleTicks && s'.now == s.now
            && s'.status == (if c.actionSize == 0 then Faulted else s.status)
            && s'.remaining == (if c.actionSize != 0 && s'.endings == s.endings then c.timeout else s.remaining)
  {
    hide Divides, OutcomeOf;
  }

  lemma StepCountsDown(c: Config, s: RunState, e: Event)
    requires CountingDown(c, s)
    ensures CountingDown(c, Step(c, s, e))
  {
    hide MessageArrived;
    OneMore(1 + s.received, c.timeout);
    if e.OnMessage? {
      MessageResets(c, s, e.replyTo);
    }
  }

  lemma {:induction false} RunAccounts(c: Config, s: RunState, arrived: seq<string>, events: seq<Event>)
    requires Accounts(c, s, arrived) && CountingDown(c, s)
    ensures Accounts(c, RunFrom(c, s, events), arrived + Arrivals(c, s, events))
    ensures CountingDown(c, RunFrom(c, s, events))
    decreases |events|
  {
    hide Accounts, CountingDown;
    if events == [] {
      assert arrived + [] == arrived;
    } else {
      var e := events[0];
      var now := if Enabled(s, e) && e.OnMessage? then [e.replyTo] else [];
      StepAccounts(c, s, arrived, e);
      StepCountsDown(c, s, e);
      RunAccounts(c, Step(c, s, e), arrived + now, events[1..]);
      Assoc(arrived, now, Arrivals(c, Step(c, s, e), events[1..]));
    }
  }

  // ---------- theorems over all runs ----------

  /**
   After any run everything the handler did is a function of the messages that arrived: which were
   settled, which senders were opened, which replies left, whether it drained, and how it ended.
   */
  lemma ReceiverAccounts(c: Config, events: seq<Event>)
    ensures Accounts(c, Run(c, events), Arrivals(c, Init(c), events))
  {
    assert Accounts(c, Init(c), []) && CountingDown(c, Init(c));
    RunAccounts(c, Init(c), [], events);
    assert [] + Arrivals(c, Init(c), events) == Arrivals(c, Init(c), events);
  }

  lemma {:induction false} MultiplesAre(size: int, n: nat, how: Outcome)
    requires size != 0
    ensures var m := Multiples(size, n, how);
            && |m| == n / (if size < 0 then -size else size)
            && (forall x :: x in m <==> 1 <= x.message <= n && Divides(size, x.message) && x.outcome == how)
            && (forall i, j | 0 <= i < j < |m| :: m[i].message < m[j].message)
  {
    if n > 0 {
      MultiplesAre(size, n - 1, how);
      NextQuotient(n, if size < 0 then -size else size);
      var before := Multiples(size, n - 1, how);
      assert forall k | 0 <= k < |before| :: before[k] in before;
    }
  }

  /** Exactly the messages whose number `size` divides were settled, each with this outcome. */
  ghost predicate SettledAs(s: RunState, size: int, how: Outcome)
    requires size != 0
  {
    && (forall x :: x in s.settled <==> 1 <= x.message <= s.received && x.message % size == 0 && x.outcome == how)
    && |s.settled| == s.received / (if size < 0 then -size else size)
  }

  lemma DividesIs(size: int, n: nat)
    requires size != 0
    ensures Divides(size, n) <==> n % size == 0
  {
  }

  /** The explicit action is applied to exactly the multiples of the action size: floor(n / |size|) messages. */
  lemma ReceiverSettles(c: Config, events: seq<Event>)
    requires c.actionSize != 0
    ensures var s := Run(c, events);
            && (c.action == "ack" ==> SettledAs(s, c.actionSize, Accepted))
            && (c.action == "reject" ==> SettledAs(s, c.actionSize, Rejected))
            && (c.action == "release" ==> SettledAs(s, c.actionSize, Released))
            && (c.action != "ack" && c.action != "reject" && c.action != "release" ==> s.settled == [])
  {
    hide Divides;
    ReceiverAccounts(c, events);
    if OutcomeOf(c.action).Some? {
      MultiplesAre(c.actionSize, Run(c, events).received, OutcomeOf(c.action).value);
      forall n: nat
        ensures Divides(c.actionSize, n) <==> n % c.actionSize == 0
      {
        DividesIs(c.actionSize, n);
      }
    }
  }

  lemma {:induction false} FirstSeenIs(addresses: seq<string>)
    ensures var seen := FirstSeen(addresses);
            && (forall a :: a in seen <==> a in addresses && a != "")
            && (forall i, j | 0 <= i < j < |seen| :: seen[i] != seen[j])
  {
    if addresses != [] {
      var n := |addresses| - 1;
      var before, a := FirstSeen(addresses[..n]), addresses[n];
      FirstSeenIs(addresses[..n]);
      assert forall x :: x in addresses <==> x in addresses[..n] || x == a by {
        assert addresses == addresses[..n] + [a];
      }
      if a != "" && a !in before {
        assert FirstSeen(addresses) == before + [a];
        forall i, j | 0 <= i < j < |before + [a]|
          ensures (before + [a])[i] != (before + [a])[j]
        {
          assert before[i] in before;
        }
      }
    }
  }

  lemma {:induction false} RepliesAre(addresses: seq<string>)
    ensures var replies := RepliesTo(addresses);
            && (forall r :: r in replies <==>
                  1 <= r.message <= |addresses| && r.sender == r.to == addresses[r.message - 1] && r.sender != "")
            && (forall i, j | 0 <= i < j < |replies| :: replies[i].message < replies[j].message)
  {
    if addresses != [] {
      var n := |addresses| - 1;
      RepliesAre(addresses[..n]);
      var before := RepliesTo(addresses[..n]);
      assert forall k | 0 <= k < |before| :: before[k] in before;
    }
  }

  /**
   The sender cache holds exactly the distinct non-empty reply-to addresses, each opened once; every
   message with such an address gets one reply through that address's sender, in order.
   */
  lemma ReceiverReplies(c: Config, events: seq<Event>)
    requires c.actionSize != 0 && c.processReplyTo
    ensures var s, arrived := Run(c, events), Arrivals(c, Init(c), events);
            && (forall a :: a in s.senders <==> a in arrived && a != "")
            && (forall a :: a in s.openedFor <==> a in s.senders)
            && (forall i, j | 0 <= i < j < |s.openedFor| :: s.openedFor[i] != s.openedFor[j])
            && (forall r :: r in s.replies <==>
                  1 <= r.message <= |arrived| && r.sender == r.to == arrived[r.message - 1] && r.sender != "")
            && (forall i, j | 0 <= i < j < |s.replies| :: s.replies[i].message < s.replies[j].message)
            && (forall r | r in s.replies :: r.sender in s.senders)
  {
    ReceiverAccounts(c, events);
    var arrived := Arrivals(c, Init(c), events);
    FirstSeenIs(arrived);
    RepliesAre(arrived);
    var s := Run(c, events);
    hide Run, Arrivals, FirstSeen, RepliesTo;
    assert s.openedFor == FirstSeen(arrived) && s.replies == RepliesTo(arrived);
  }

  /**
   Drain is queued at most once; the link is closed or detached at most once, only at message `count`, never with
   replies, and then the connection is closed, too.
   */
  lemma ReceiverEndsOnce(c: Config, events: seq<Event>)
    requires c.actionSize != 0
    ensures var s := Run(c, events);
            && s.pendingDrains + s.drains <= 1
            && |s.endings| <= 1 && s.connectionCloses == |s.endings|
            && (s.endings != [] <==> !c.processReplyTo && 1 <= c.count <= s.received)
            && (s.endings != [] ==> s.endedAt == [c.count] && s.endings == [if c.durable then Detached else Closed])
  {
    ReceiverAccounts(c, events);
  }

  /** The handler on its own: a zero action size faults with the very first message, any other never faults. */
  lemma ReceiverFaultsIff(c: Config, events: seq<Event>)
    ensures Run(c, events).status == Faulted <==> c.actionSize == 0 && Arrivals(c, Init(c), events) != []
  {
    ReceiverAccounts(c, events);
  }

  /** The countdown never throws for timeout >= 0 or FOREVER, and every message buys at most `timeout` more ticks. */
  lemma ReceiverTimeout(c: Config, events: seq<Event>)
    ensures var s := Run(c, events);
            && (c.timeout >= FOREVER ==> s.status != Uncaught)
            && (c.timeout >= 0 ==> s.idleTicks <= c.timeout * (1 + s.received))
            && (s.status == Running ==> |s.timers| == 1)
  {
    assert Accounts(c, Init(c), []) && CountingDown(c, Init(c));
    RunAccounts(c, Init(c), [], events);
  }

  // ---------- timer events ----------

  lemma TimesHold(c: Config, events: seq<Event>)
    ensures CountingDown(c, Run(c, events))
  {
    assert Accounts(c, Init(c), []) && CountingDown(c, Init(c));
    RunAccounts(c, Init(c), [], events);
  }

  /** What one event makes of the number of quiet timer events. */
  function NextQuiet(c: Config, s: RunState, e: Event, k: nat): nat {
    if !Enabled(s, e) then k
    else if e.RunTimer? then k + 1
    else if e.OnMessage? && Step(c, s, e).endings == s.endings then 0
    else k
  }

  /** How many timer events have happened since the last message that did not end the link, starting with `k`. */
  function QuietTicks(c: Config, s: RunState, events: seq<Event>, k: nat): nat
    decreases |events|
  {
    if events == [] then k else QuietTicks(c, Step(c, s, events[0]), events[1..], NextQuiet(c, s, events[0], k))
  }

  /** The countdown of a handler that has been quiet for `k` timer events. */
  ghost predicate Quiet(c: Config, s: RunState, k: nat) {
    && (s.status == Running ==> k <= c.timeout && s.remaining == c.timeout - k)
    && k <= c.timeout + 1 && (k == c.timeout + 1 ==> s.status == Exited(0))
  }

  lemma StepKeepsQuiet(c: Config, s: RunState, e: Event, k: nat)
    requires c.timeout >= 0 && Quiet(c, s, k)
    ensures Quiet(c, Step(c, s, e), NextQuiet(c, s, e, k))
  {
    hide MessageArrived;
    if e.OnMessage? {
      MessageResets(c, s, e.replyTo);
    }
  }

  lemma {:induction false} RunKeepsQuiet(c: Config, s: RunState, events: seq<Event>, k: nat)
    requires c.timeout >= 0 && Quiet(c, s, k)
    ensures Quiet(c, RunFrom(c, s, events), QuietTicks(c, s, events, k))
    decreases |events|
  {
    if events != [] {
      hide Quiet, NextQuiet;
      StepKeepsQuiet(c, s, events[0], k);
      RunKeepsQuiet(c, Step(c, s, events[0]), events[1..], NextQuiet(c, s, events[0], k));
    }
  }

  /**
   The countdown in terms of the events: it is short of the timeout by the timer events since the last message, and
   the process ends with timer event number timeout + 1 behind that message.
   */
  lemma ReceiverCountdown(c: Config, events: seq<Event>)
    requires c.timeout >= 0
    ensures var s, n := Run(c, events), QuietTicks(c, Init(c), events, 0);
            && n <= c.timeout + 1 && (n == c.timeout + 1 ==> s.status == Exited(0))
            && (s.status == Running ==> n <= c.timeout && s.remaining == c.timeout - n)
  {
    RunKeepsQuiet(c, Init(c), events, 0);
  }

  /** How any event may end the process: by a fault, a closed transport, the timer behind a quiet timeout, or not at all. */
  lemma ReceiverEndsBy(c: Config, events: seq<Event>, e: Event)
    requires Enabled(Run(c, events), e)
    ensures var s, n := Run(c, events), QuietTicks(c, Init(c), events, 0);
            Step(c, s, e).status ==
            match e
            case OnMessage(_) => if c.actionSize == 0 then Faulted else Running
            case OnTransportClose =>
              if c.connReconnect == "false" then Exited(1) else if s.received == c.count then Exited(0) else Running
            case RunTimer(_) =>
              if c.timeout >= 0 && n == c.timeout then Exited(0) else if c.timeout < FOREVER then Uncaught else Running
            case _ => Running
  {
    hide MessageArrived;
    TimesHold(c, events);
    if c.timeout >= 0 {
      ReceiverCountdown(c, events);
    }
    if e.OnMessage? {
      MessageResets(c, Run(c, events), e.replyTo);
    }
  }

  // ---------- the clock ----------

  /** Time does not pass a timer event that is due. */
  ghost predicate Punctual(c: Config, s: RunState, events: seq<Event>)
    decreases |events|
  {
    events == [] ||
    ((events[0].Advance? && s.timers != [] ==> s.now + events[0].ms <= s.timers[0]) &&
     Punctual(c, Step(c, s, events[0]), events[1..]))
  }

  /** `n` timer events have taken at least n - 1 seconds, and the next is not due before n. */
  ghost predicate Ticking(s: RunState, n: nat, punctual: bool) {
    && (n > 0 ==> 1000 * (n - 1) <= s.now)
    && (forall i | 0 <= i < |s.timers| :: 1000 * n <= s.timers[i])
    && |s.timers| <= 1 && (s.status == Running ==> |s.timers| == 1)
    && (punctual && s.status == Running ==> s.timers == [1000 * n] && s.now <= 1000 * n)
  }

  lemma StepKeepsTicking(c: Config, s: RunState, e: Event, n: nat, punctual: bool)
    requires Ticking(s, n, punctual)
    requires punctual && e.Advance? && s.timers != [] ==> s.now + e.ms <= s.timers[0]
    ensures Ticking(Step(c, s, e), n + if Enabled(s, e) && e.RunTimer? then 1 else 0, punctual)
  {
    hide MessageArrived, Expired, Decremented, DecrementThrows;
    if e.OnMessage? {
      MessageResets(c, s, e.replyTo);
    }
  }

  lemma {:induction false} RunKeepsTicking(c: Config, s: RunState, events: seq<Event>, n: nat, punctual: bool)
    requires Ticking(s, n, punctual) && (punctual ==> Punctual(c, s, events))
    ensures Ticking(RunFrom(c, s, events), n + TimerEvents(c, s, events), punctual)
    decreases |events|
  {
    if events != [] {
      hide Ticking, Enabled;
      var e := events[0];
      StepKeepsTicking(c, s, e, n, punctual);
      RunKeepsTicking(c, Step(c, s, e), events[1..], n + if Enabled(s, e) && e.RunTimer? then 1 else 0, punctual);
    }
  }

  /**
   Timer events are a second apart: n of them have taken at least n - 1 seconds since the start. If moreover each
   runs when it is due, the next one is due after exactly n seconds.
   */
  lemma ReceiverClock(c: Config, events: seq<Event>)
    ensures var s, n := Run(c, events), TimerEvents(c, Init(c), events);
            && (n > 0 ==> 1000 * (n - 1) <= s.now)
            && (s.status == Running ==> |s.timers| == 1 && 1000 * n <= s.timers[0])
            && (s.status == Running && Punctual(c, Init(c), events) ==> s.timers == [1000 * n])
  {
    RunKeepsTicking(c, Init(c), events, 0, Punctual(c, Init(c), events));
  }

  /** How many timer events happen in a run. */
  function TimerEvents(c: Config, s: RunState, events: seq<Event>): nat
    decreases |events|
  {
    if events == [] then 0
    else (if Enabled(s, events[0]) && events[0].RunTimer? then 1 else 0) + TimerEvents(c, Step(c, s, events[0]), events[1..])
  }

  /** Once the process has ended, nothing happens. */
  lemma {:induction false} NothingAfterEnd(c: Config, s: RunState, events: seq<Event>)
    requires s.status != Running
    ensures RunFrom(c, s, events) == s && TimerEvents(c, s, events) == 0
    decreases |events|
  {
    if events != [] {
      NothingAfterEnd(c, s, events[1..]);
    }
  }

  /** Every timer event that happens is an idle tick, except that the last one may be the exit. */
  lemma {:induction false} TimerEventsCounted(c: Config, s: RunState, events: seq<Event>)
    requires c.timeout >= FOREVER && CountingDown(c, s)
    ensures var s' := RunFrom(c, s, events);
            var ticks := s'.idleTicks - s.idleTicks;
            TimerEvents(c, s, events) == ticks ||
            (TimerEvents(c, s, events) == ticks + 1 && s'.status == Exited(0) && c.timeout >= 0)
    decreases |events|
  {
    if events != [] {
      var e := events[0];
      var next := Step(c, s, e);
      StepCountsDown(c, s, e);
      if next.status == Running {
        hide CountingDown;
        TickOrNot(c, s, e);
        TimerEventsCounted(c, next, events[1..]);
      } else {
        NothingAfterEnd(c, next, events[1..]);
      }
    }
  }

  lemma TickOrNot(c: Config, s: RunState, e: Event)
    requires Step(c, s, e).status == Running
    ensures Step(c, s, e).idleTicks == s.idleTicks + if Enabled(s, e) && e.RunTimer? then 1 else 0
  {
  }

  /** The receiver exits no later than timer event number timeout * (1 + messages) + 1. */
  lemma ReceiverExitsInTime(c: Config, events: seq<Event>)
    requires c.timeout >= 0
    ensures var s, n := Run(c, events), TimerEvents(c, Init(c), events);
            && n <= c.timeout * (1 + s.received) + 1
            && (n == c.timeout * (1 + s.received) + 1 ==> s.status == Exited(0))
  {
    assert CountingDown(c, Init(c));
    TimerEventsCounted(c, Init(c), events);
    ReceiverTimeout(c, events);
  }

  /** Without a timeout every timer event is a tick: none ends the process. */
  lemma ReceiverForever(c: Config, events: seq<Event>)
    requires c.timeout == FOREVER
    ensures Run(c, events).status != Uncaught && TimerEvents(c, Init(c), events) == Run(c, events).idleTicks
  {
    assert CountingDown(c, Init(c));
    TimerEventsCounted(c, Init(c), events);
    TimesHold(c, events);
  }

  /** A run that ends in the timer's uncaught exception exists exactly for a timeout below FOREVER. */
  lemma ReceiverThrowsIff(c: Config)
    ensures (exists events :: Run(c, events).status == Uncaught) <==> c.timeout < FOREVER
  {
    forall events
      ensures Run(c, events).status == Uncaught ==> c.timeout < FOREVER
    {
      TimesHold(c, events);
    }
    if c.timeout < FOREVER {
      var tick := [RunTimer(0)];
      assert tick[1..] == [];
      assert Run(c, tick) == RunFrom(c, Step(c, Init(c), RunTimer(0)), []);
      assert Run(c, tick).status == Uncaught;
    }
  }
}
