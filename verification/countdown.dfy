/**
  The "Refresh in Ns" counter in the window title. The refresh timer fires
  every 15000 ms and the countdown timer every 1000 ms; timer firings are
  discrete events here, not wall-clock time.
 */
module Countdown {

  /** `self.timer.setInterval(15000)`. */
  const RefreshIntervalMs: nat := 15000

  /** `self.timer.interval() // 1000`: whole seconds in a refresh interval. */
  function SecondsIn(intervalMs: nat): nat {
    intervalMs / 1000
  }

  /** The value every refresh resets the counter to. */
  const Full: nat := SecondsIn(RefreshIntervalMs)

  /**
    One countdown firing: the counter drops by one and is floored at zero,
    so it is never negative afterwards, whatever it was before.
   */
  function Tick(counter: int): (r: nat)
    ensures counter >= 1 ==> r == counter - 1
    ensures counter <= 1 ==> r == 0
  {
    var c := counter - 1;
    if c < 0 then 0 else c
  }

  /** The counter after `k` countdown firings with no refresh in between. */
  function Ticks(counter: int, k: nat): int
    decreases k
  {
    if k == 0 then counter else Ticks(Tick(counter), k - 1)
  }

  /** Each refresh resets to 15 seconds: the 15000 ms interval floored to whole seconds. */
  lemma {:induction false} FullIsFifteen()
    ensures Full == 15
  {
  }

  /** Firings keep a counter within [0, Full] inside that range. */
  lemma {:induction false} TickInRange(counter: int)
    requires 0 <= counter <= Full
    ensures 0 <= Tick(counter) <= Full
  {
  }

  /** `k` firings from a non-negative counter leave `max(counter - k, 0)`. */
  lemma {:induction false} TicksFloor(counter: nat, k: nat)
    ensures Ticks(counter, k) == if counter >= k then counter - k else 0
  {
    if k > 0 {
      TicksFloor(Tick(counter), k - 1);
    }
  }

  /** `k` firings after a reset leave the counter at `max(15 - k, 0)`. */
  lemma {:induction false} TicksAfterReset(k: nat)
    ensures Ticks(Full, k) == if k <= 15 then 15 - k else 0
  {
    TicksFloor(Full, k);
  }
}
