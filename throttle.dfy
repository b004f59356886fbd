/**
 * The request rate limit of the scraper (scraper.py, `Scraper._throttle_request`).
 *
 * Time is an integer count of clock units. `time.time()` reads the clock and
 * `time.sleep(d)` advances it by `d`; nothing else moves it while the
 * throttle runs.
 */
module Throttle {

  /** The clock read by `time.time()` and advanced by `time.sleep`. */
  class Clock {
    var now: int

    constructor (start: int)
      ensures now == start
    {
      now := start;
    }

    /** `time.sleep(d)`. */
    method Sleep(d: int)
      requires d > 0
      modifies this
      ensures now == old(now) + d
    {
      now := now + d;
    }
  }

  function Max(a: int, b: int): int
  {
    if a < b then b else a
  }

  /** The rate-limiting part of `Scraper`: its clock, `_throttle_delay` and `_last_request`. */
  class Scraper {
    const clock: Clock
    const throttleDelay: int
    var lastRequest: int

    /** The last request never lies in the future. */
    ghost predicate Valid()
      reads this, clock
    {
      lastRequest <= clock.now
    }

    /** `_last_request = 0`, `_throttle_delay = throttle_delay`; the clock reads a non-negative time. */
    constructor (clock: Clock, throttleDelay: int)
      requires clock.now >= 0
      ensures Valid()
      ensures this.clock == clock && this.throttleDelay == throttleDelay && lastRequest == 0
      ensures clock.now == old(clock.now)
    {
      this.clock := clock;
      this.throttleDelay := throttleDelay;
      lastRequest := 0;
    }

    /**
     * `_throttle_request`: wait until `_throttle_delay` has passed since the
     * last request, then record the current time as the last request. It
     * sleeps only if the delay has not passed yet, and then exactly until it
     * has; with a delay of zero or less it never sleeps.
     */
    method ThrottleRequest()
      requires Valid()
      modifies this, clock
      ensures Valid()
      ensures clock.now == Max(old(clock.now), old(lastRequest) + throttleDelay)
      ensures clock.now - old(lastRequest) >= throttleDelay
      ensures throttleDelay <= 0 ==> clock.now == old(clock.now)
      ensures lastRequest == clock.now
    {
      var diff := throttleDelay - (clock.now - lastRequest);
      while diff > 0
        invariant lastRequest == old(lastRequest) <= old(clock.now) <= clock.now
        invariant diff == throttleDelay - (clock.now - lastRequest)
        invariant clock.now == old(clock.now) || clock.now == lastRequest + throttleDelay
        decreases diff
      {
        clock.Sleep(diff);
        diff := throttleDelay - (clock.now - lastRequest);
      }
      lastRequest := clock.now;
    }
  }

  /**
   * With a delay of 4 units, a first request at time 1000 goes out at once
   * and a second one attempted a unit later waits until time 1004.
   */
  method ThrottleScenario()
  {
    var clock := new Clock(1000);
    var scraper := new Scraper(clock, 4);
    scraper.ThrottleRequest();
    assert clock.now == 1000;
    clock.Sleep(1);
    scraper.ThrottleRequest();
    assert clock.now == 1004;
  }
}
