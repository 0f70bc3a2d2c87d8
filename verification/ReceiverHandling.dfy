/**
 The receiving handler as an object whose callbacks update its fields, each proved to do what the state
 machine in module Receiving says.
 */
module ReceiverHandling {
  import opened Timers
  import opened Receiving

  /** What the handler sees of proton: deliveries, its connection, the work queues, the clock and the process. */
  class Reactor {
    var now: nat
    var timers: seq<nat>
    var pendingDrains: nat
    var drains: nat
    var settled: seq<Settlement>
    var senderAddresses: seq<string>
    var replies: seq<Reply>
    var endings: seq<Ending>
    var endedAt: seq<nat>
    var connectionCloses: nat
    var status: Status

    constructor ()
      ensures now == 0 && timers == [0] && pendingDrains == 0 && drains == 0 && settled == []
      ensures senderAddresses == [] && replies == [] && endings == [] && endedAt == [] && status == Running
      ensures connectionCloses == 0
    {
      now, timers, pendingDrains, drains, settled := 0, [0], 0, 0, [];
      senderAddresses, replies, endings, endedAt, status, connectionCloses := [], [], [], [], Running, 0;
    }

    /** `d.accept()`, `d.reject()` or `d.release()` on delivery number `n`. */
    method Settle(n: nat, outcome: Outcome)
      modifies this`settled
      ensures settled == old(settled) + [Settlement(n, outcome)]
    {
      settled := settled + [Settlement(n, outcome)];
    }

    /** `open_sender(address)`; the result is the sender's handle. */
    method OpenSender(address: string) returns (handle: nat)
      modifies this`senderAddresses
      ensures handle == |old(senderAddresses)| && senderAddresses == old(senderAddresses) + [address]
    {
      handle := |senderAddresses|;
      senderAddresses := senderAddresses + [address];
    }

    /** `sender.send(reply)`: the reply to message `n` leaves through the sender's link. */
    method SendReply(handle: nat, to: string, n: nat)
      requires handle < |senderAddresses|
      modifies this`replies
      ensures replies == old(replies) + [Reply(senderAddresses[handle], to, n)]
    {
      replies := replies + [Reply(senderAddresses[handle], to, n)];
    }

    method EndLink(e: Ending, n: nat)
      modifies this`endings, this`endedAt
      ensures endings == old(endings) + [e] && endedAt == old(endedAt) + [n]
    {
      endings, endedAt := endings + [e], endedAt + [n];
    }

    /** `d.connection().close()`. */
    method CloseConnection()
      modifies this`connectionCloses
      ensures connectionCloses == old(connectionCloses) + 1
    {
      connectionCloses := connectionCloses + 1;
    }
  }

  class ReceiverHandler {
    const cfg: Config
    const timer: Timer
    const reactor: Reactor
    var msgReceivedCnt: nat
    var senders: map<string, nat>
    ghost var idleTicks: nat

    /** Every cached handle is the sender that was opened for its address. */
    ghost predicate Valid()
      reads this, reactor
    {
      && timer.timeout == cfg.timeout
      && (forall a | a in senders :: senders[a] < |reactor.senderAddresses| && reactor.senderAddresses[senders[a]] == a)
    }

    ghost function State(): RunState
      reads this, timer, reactor
    {
      RunState(msgReceivedCnt, timer.remaining, reactor.status, senders.Keys, reactor.pendingDrains, reactor.timers,
               reactor.now, reactor.settled, reactor.senderAddresses, reactor.replies, reactor.endings, reactor.endedAt,
               reactor.connectionCloses, reactor.drains, idleTicks)
    }

    constructor (cfg: Config)
      ensures Valid() && this.cfg == cfg && State() == Init(cfg)
      ensures fresh(timer) && fresh(reactor)
    {
      this.cfg := cfg;
      timer := new Timer(cfg.timeout);
      reactor := new Reactor();
      msgReceivedCnt, senders := 0, map[];
      idleTicks := 0;
    }

    method TimerEvent()
      requires Valid()
      modifies this, timer, reactor
      ensures Valid() && State() == TimerFired(cfg, old(State()))
    {
      if timer.IsExpired() {
        reactor.status := Exited(0);
      } else {
        var thrown := timer.Decrement();
        if thrown {
          reactor.status := Uncaught;
        } else {
          reactor.timers := reactor.timers + [reactor.now + SECOND];
          idleTicks := idleTicks + 1;
        }
      }
    }

    method DoMessageAction()
      requires Valid()
      modifies reactor`settled
      ensures var s := old(State());
              State() == if OutcomeOf(cfg.action).None? then s
                         else s.(settled := s.settled + [Settlement(s.received, OutcomeOf(cfg.action).value)])
    {
      if cfg.action == "ack" {
        reactor.Settle(msgReceivedCnt, Accepted);
      } else if cfg.action == "reject" {
        reactor.Settle(msgReceivedCnt, Rejected);
      } else if cfg.action == "release" {
        reactor.Settle(msgReceivedCnt, Released);
      }
    }

    method DoProcessReplyTo(replyTo: string)
      requires Valid() && cfg.processReplyTo && replyTo != ""
      modifies this`senders, reactor
      ensures Valid() && State() == ReplyTo(cfg, old(State()), replyTo)
    {
      if replyTo !in senders {
        var handle := reactor.OpenSender(replyTo);
        senders := senders[replyTo := handle];
      }
      reactor.SendReply(senders[replyTo], replyTo, msgReceivedCnt);
    }

    /** `on_message` for a message with this reply-to address. */
    method OnMessage(replyTo: string)
      requires Valid() && reactor.status == Running
      modifies this, timer, reactor
      ensures Valid() && State() == MessageArrived(cfg, old(State()), replyTo)
    {
      hide Divides, OutcomeOf;
      ghost var s0 := State();
      msgReceivedCnt := msgReceivedCnt + 1;
      if cfg.actionSize == 0 {
        reactor.status := Faulted;
        return;
      }
      if Divides(cfg.actionSize, msgReceivedCnt) {
        DoMessageAction();
      }
      ghost var s1 := State();
      assert s1 == Settle(cfg, s0.(received := s0.received + 1));
      if cfg.processReplyTo {
        if replyTo != "" {
          DoProcessReplyTo(replyTo);
        }
      }
      ghost var s2 := State();
      assert s2 == ReplyTo(cfg, s1, replyTo);
      FinishMessage();
    }

    /** The end of `on_message`: drain at the credit window, close at the count, else keep the timer going. */
    method FinishMessage()
      requires Valid()
      modifies this, timer, reactor
      ensures Valid() && State() == EndOrReset(cfg, QueueDrain(cfg, old(State())))
    {
      if cfg.drainAfterWindow && msgReceivedCnt == cfg.creditWindow {
        reactor.pendingDrains := reactor.pendingDrains + 1;
      }
      if !cfg.processReplyTo && msgReceivedCnt == cfg.count {
        if cfg.durable {
          reactor.EndLink(Detached, msgReceivedCnt);
        } else {
          reactor.EndLink(Closed, msgReceivedCnt);
        }
        reactor.CloseConnection();
      } else {
        timer.Reset();
      }
    }

    method Drain()
      requires Valid()
      modifies reactor`drains
      ensures reactor.drains == old(reactor.drains) + 1
    {
      reactor.drains := reactor.drains + 1;
    }

    method OnTransportClose()
      requires Valid()
      modifies reactor`status
      ensures reactor.status == if cfg.connReconnect == "false" then Exited(1)
                                else if msgReceivedCnt == cfg.count then Exited(0)
                                else old(reactor.status)
    {
      if cfg.connReconnect == "false" {
        reactor.status := Exited(1);
      } else if msgReceivedCnt == cfg.count {
        reactor.status := Exited(0);
      }
    }

    /** One event of the container's loop: the environment's part, then the handler's callback. */
    method Dispatch(e: Event)
      requires Valid() && Enabled(State(), e)
      modifies this, timer, reactor
      ensures Valid() && State() == Step(cfg, old(State()), e)
    {
      match e {
        case OnMessage(replyTo) => OnMessage(replyTo);
        case Advance(ms) => reactor.now := reactor.now + ms;
        case RunTimer(i) =>
          reactor.timers := reactor.timers[..i] + reactor.timers[i + 1..];
          TimerEvent();
        case RunDrain =>
          reactor.pendingDrains := reactor.pendingDrains - 1;
          Drain();
        case OnTransportClose => OnTransportClose();
      }
    }
  }
}
