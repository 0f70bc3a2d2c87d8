/**
 The sending handler as an object whose callbacks update its fields, each proved to do what the state
 machine in module Sending says.
 */
module SenderHandling {
  import opened CppStrings
  import opened Timers
  import opened Sending

  /** What the handler sees of proton: its link, its work queue, the clock and the process. */
  class Reactor {
    var now: nat
    var credit: int
    var granted: nat
    var checks: seq<nat>
    var timers: seq<nat>
    var wire: seq<Body>
    var closes: nat
    var status: Status

    constructor ()
      ensures now == 0 && credit == 0 && granted == 0 && checks == [] && timers == [] && wire == []
      ensures closes == 0 && status == Running
    {
      now, credit, granted, checks, timers, wire, closes, status := 0, 0, 0, [], [], [], 0, Running;
    }

    /** `work_q->schedule(delay, checkIfCanSend)`. */
    method ScheduleCheck(delay: nat)
      modifies this`checks
      ensures checks == old(checks) + [now + delay]
    {
      checks := checks + [now + delay];
    }

    /** `work_q->schedule(delay, timerEvent)`. */
    method ScheduleTimer(delay: nat)
      modifies this`timers
      ensures timers == old(timers) + [now + delay]
    {
      timers := timers + [now + delay];
    }

    /** `sndr.send(m)`: the message goes out and uses one credit. */
    method SendMessage(b: Body)
      modifies this`wire, this`credit
      ensures wire == old(wire) + [b] && credit == old(credit) - 1
    {
      wire := wire + [b];
      credit := credit - 1;
    }

    method CloseConnection()
      modifies this`closes
      ensures closes == old(closes) + 1
    {
      closes := closes + 1;
    }

    method End(s: Status)
      modifies this`status
      ensures status == s
    {
      status := s;
    }
  }

  class SenderHandler {
    const cfg: Config
    const timer: Timer
    const reactor: Reactor
    var ready: bool
    var sent: int
    var confirmedSent: int
    var interval: nat
    // The history of the run.
    ghost var started: bool
    ghost var startTime: nat
    ghost var checkRuns: nat
    ghost var idleTicks: nat

    ghost predicate Valid()
    {
      timer.timeout == cfg.timeout
    }

    ghost function State(): RunState
      reads this, timer, reactor
    {
      RunState(started, ready, sent, confirmedSent, timer.remaining, interval,
                  reactor.status, reactor.now, reactor.checks, reactor.timers, reactor.credit,
                  startTime, reactor.granted, checkRuns, idleTicks, reactor.closes, reactor.wire)
    }

    constructor (cfg: Config)
      ensures Valid() && this.cfg == cfg && State() == Init(cfg)
      ensures fresh(timer) && fresh(reactor)
    {
      this.cfg := cfg;
      timer := new Timer(cfg.timeout);
      reactor := new Reactor();
      ready, sent, confirmedSent, interval := false, 0, 0, 0;
      started, startTime, checkRuns, idleTicks := false, 0, 0, 0;
    }

    method OnContainerStart()
      requires Valid() && !started && interval == 0
      modifies this, reactor
      ensures State() == Started(cfg, old(State()))
    {
      if cfg.durationTime > 0 && cfg.count > 0 {
        interval := (cfg.durationTime * SECOND) / cfg.count;
      }
      started, startTime := true, reactor.now;
      reactor.ScheduleTimer(0);
      if cfg.durationTime > 0 && cfg.durationMode == "after-send" {
        reactor.ScheduleCheck(0);
      } else if cfg.durationTime > 0 && cfg.durationMode == "before-send" {
        reactor.ScheduleCheck(interval);
      } else {
        reactor.ScheduleCheck(0);
      }
    }

    method TimerEvent()
      requires Valid()
      modifies this, timer, reactor
      ensures State() == TimerFired(cfg, old(State()))
    {
      if timer.IsExpired() {
        reactor.End(Exited(0));
      } else {
        var thrown := timer.Decrement();
        if thrown {
          reactor.End(Uncaught);
        } else {
          reactor.ScheduleTimer(SECOND);
          idleTicks := idleTicks + 1;
        }
      }
    }

    method OnSendable()
      requires Valid()
      modifies this, timer, reactor
      ensures State() == if old(ready) then Sent(cfg, old(State())) else old(State())
    {
      if ready {
        Send();
      }
    }

    method OnTrackerAccept()
      requires Valid()
      modifies this, reactor
      ensures State() == Accepted(cfg, old(State()))
    {
      confirmedSent := confirmedSent + 1;
      if confirmedSent == cfg.count {
        reactor.CloseConnection();
      }
    }

    method OnTrackerReject()
      modifies reactor
      ensures State() == old(State()).(status := Exited(1))
    {
      reactor.End(Exited(1));
    }

    method CheckIfCanSend()
      requires Valid()
      modifies this, timer, reactor
      ensures State() == Checked(cfg, old(State()))
    {
      checkRuns := checkRuns + 1;
      if sent < cfg.count {
        reactor.ScheduleCheck(interval);
        if reactor.credit > 0 {
          Send();
        } else {
          ready := true;
        }
      }
    }

    method Send()
      requires Valid()
      modifies this, timer, reactor
      ensures State() == Sent(cfg, old(State()))
    {
      var messageToSend := cfg.body;
      if messageToSend.StringBody? {
        var text := messageToSend.text;
        var percentPosition := IndexOf(text, "%d", 0);
        if percentPosition.Some? {
          var at := percentPosition.value;
          messageToSend := StringBody(text[..at] + Decimal(sent) + text[at + 2..]);
        }
      }
      reactor.SendMessage(messageToSend);
      sent := sent + 1;
      timer.Reset();
      ready := false;
    }

    /** One event of the container's loop: the environment's part, then the handler's callback. */
    method Dispatch(e: Event)
      requires Valid() && (!started ==> interval == 0) && Enabled(State(), e)
      modifies this, timer, reactor
      ensures State() == Step(cfg, old(State()), e)
      ensures !started ==> interval == 0
    {
      match e {
        case Start => OnContainerStart();
        case Grant(n) => reactor.credit, reactor.granted := reactor.credit + n, reactor.granted + n;
        case LinkReset(left) =>
          if left < reactor.credit {
            reactor.credit := left;
          }
        case Advance(ms) => reactor.now := reactor.now + ms;
        case OnSendable => OnSendable();
        case OnAccept => OnTrackerAccept();
        case OnReject => OnTrackerReject();
        case OnTransportClose =>
          if cfg.connReconnect == "false" {
            reactor.End(Exited(1));
          }
        case RunCheck(i) =>
          reactor.checks := Without(reactor.checks, i);
          CheckIfCanSend();
        case RunTimer(i) =>
          reactor.timers := Without(reactor.timers, i);
          TimerEvent();
      }
    }
  }
}
