/** Instants in nanoseconds. */
module Timestamps {
  const NANOS: nat := 1_000_000_000

  /** A TIMESTAMPTZ column keeps whole microseconds. */
  function StoredTime(at: nat): nat {
    at / 1000 * 1000
  }

  /** `Instant::duration_since`, which is zero for an instant that lies ahead. */
  function Since(now: nat, t: nat): nat {
    if now < t then 0 else now - t
  }
}
