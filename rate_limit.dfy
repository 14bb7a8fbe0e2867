/** The rate limiter at the top of `Read`: uint32 millisecond timestamps
    compared by modular subtraction, so the comparison survives the wrap of
    `millis()` every 2^32 ms. */
module RateLimit {
  import opened Ints

  /** MIN_INTERVAL of the header, used by `begin`. */
  const MIN_INTERVAL: int := 2000

  /** The literal 2000 that `Read` compares the elapsed time with. */
  const READ_SPACING: int := 2000

  /** `_lastreadtime = -MIN_INTERVAL`: the int -2000 converted to uint32. */
  const INITIAL_LAST_READ: uint32 := (0 - MIN_INTERVAL) % U32_RANGE

  /** `currenttime - _lastreadtime` on uint32: the one uint32 value d with
      `last + d == now` modulo 2^32. */
  function Elapsed(now: uint32, last: uint32): (d: uint32)
    ensures (last + d) % U32_RANGE == now
  {
    (now - last) % U32_RANGE
  }

  /** The condition under which a non-forced `Read` returns at once. */
  predicate TooSoon(now: uint32, last: uint32)
    ensures TooSoon(now, last) <==>
              if last <= now then now - last < READ_SPACING
              else now + U32_RANGE - last < READ_SPACING
  {
    Elapsed(now, last) < READ_SPACING
  }

  /** The elapsed time is exact across the wrap: d milliseconds after `last`,
      whatever the wrap in between, Elapsed is d. */
  lemma ElapsedAcrossWrap(last: uint32, d: uint32)
    ensures Elapsed((last + d) % U32_RANGE, last) == d
  {
    var now := (last + d) % U32_RANGE;
    if last + d < U32_RANGE {
      assert now - last == d;
    } else {
      assert now - last == d - U32_RANGE;
    }
  }

  /** So a non-forced read fewer than 2000 ms after the previous attempt is
      cut short, and one 2000 ms or more after it (within one wrap) is not. */
  lemma TooSoonIff(last: uint32, d: uint32)
    ensures TooSoon((last + d) % U32_RANGE, last) <==> d < READ_SPACING
  {
    ElapsedAcrossWrap(last, d);
  }

  /** After `begin`, a non-forced read proceeds exactly when `millis()` is
      below 2^32 - 2000: the initial value counts as 2000 ms before time 0,
      so in the last 2000 ms before the wrap the first read is cut short. */
  lemma FirstReadProceedsIff(now: uint32)
    ensures !TooSoon(now, INITIAL_LAST_READ) <==> now < U32_RANGE - MIN_INTERVAL
  {
    assert INITIAL_LAST_READ == U32_RANGE - MIN_INTERVAL;
    if now < U32_RANGE - MIN_INTERVAL {
      assert Elapsed(now, INITIAL_LAST_READ) == now + MIN_INTERVAL;
    } else {
      assert Elapsed(now, INITIAL_LAST_READ) == now - INITIAL_LAST_READ;
    }
  }
}
