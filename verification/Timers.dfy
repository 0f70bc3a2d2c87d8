/**
 src/common/Timer.cpp: the countdown that the handlers decrement once a second.
 */
module Timers {
  const FOREVER := -1

  /** `isExpired` of a timer with this timeout and this remaining time. */
  predicate Expired(timeout: int, remaining: int) {
    timeout != FOREVER && remaining == 0
  }

  function Decremented(timeout: int, remaining: int): int {
    if timeout == FOREVER then remaining else remaining - 1
  }

  /** Whether the decrement throws TimerExpiredException. */
  predicate DecrementThrows(timeout: int, remaining: int) {
    timeout != FOREVER && remaining - 1 < 0
  }

  class Timer {
    const timeout: int
    var remaining: int

    constructor (t: int)
      ensures timeout == t && remaining == t
    {
      timeout, remaining := t, t;
    }

    method Reset()
      modifies this
      ensures remaining == timeout
    {
      remaining := timeout;
    }

    predicate IsExpired()
      reads this
    {
      if timeout == FOREVER then false else remaining == 0
    }

    /** `operator--`; the remaining time is already reduced when it throws. */
    method Decrement() returns (thrown: bool)
      modifies this
      ensures remaining == Decremented(timeout, old(remaining))
      ensures thrown == DecrementThrows(timeout, old(remaining))
    {
      if timeout == FOREVER {
        return false;
      }
      remaining := remaining - 1;
      thrown := remaining < 0;
    }
  }

  /** One guarded tick, as both handlers do it: never throws for a timeout that is not below FOREVER. */
  lemma GuardedTickIsSafe(timeout: int, remaining: int)
    requires timeout >= 0 ==> 0 <= remaining <= timeout
    requires timeout < 0 ==> remaining == timeout
    ensures !Expired(timeout, remaining) && DecrementThrows(timeout, remaining) <==> timeout < FOREVER
    ensures timeout >= 0 ==> (Expired(timeout, remaining) <==> remaining == 0)
    ensures timeout >= 0 && !Expired(timeout, remaining) ==> 0 <= Decremented(timeout, remaining) == remaining - 1
  {
  }
}
