/** What `expectPulse` sees and returns, as functions of the line's samples.
    The line is a stream of samples: `line(k)` is the level the k-th poll of
    the data line reads during one `Read`, counting from the first poll after
    the start signal. */
module Pulse {
  import opened Ints

  const LOW: bool := false
  const HIGH: bool := true

  /** How many consecutive samples from position `pos` read `level`, counting
      at most `limit` of them. */
  function Run(line: nat -> bool, pos: nat, level: bool, limit: nat): (n: nat)
    ensures n <= limit
    decreases limit
  {
    if limit == 0 || line(pos) != level then 0
    else 1 + Run(line, pos + 1, level, limit - 1)
  }

  /** The first n samples read `level` and, unless the limit was reached,
      the sample after them does not. */
  lemma {:induction false} RunIsLeadingRun(line: nat -> bool, pos: nat, level: bool, limit: nat)
    ensures var n := Run(line, pos, level, limit);
            (forall k :: pos <= k < pos + n ==> line(k) == level)
            && (n < limit ==> line(pos + n) != level)
    decreases limit
  {
    if limit > 0 && line(pos) == level {
      RunIsLeadingRun(line, pos + 1, level, limit - 1);
    }
  }

  /** The run length is the only count with those properties. */
  lemma {:induction false} RunUnique(line: nat -> bool, pos: nat, level: bool, limit: nat, n: nat)
    requires n <= limit
    requires forall k :: pos <= k < pos + n ==> line(k) == level
    requires n < limit ==> line(pos + n) != level
    ensures Run(line, pos, level, limit) == n
    decreases limit
  {
    if n > 0 {
      RunUnique(line, pos + 1, level, limit - 1, n - 1);
    }
  }

  /** One `expectPulse(level)` started at sample `pos`: the count it returns
      and the position of the first sample after its last poll. */
  datatype Measurement = Measurement(count: uint32, next: nat)

  function Expect(line: nat -> bool, pos: nat, level: bool, maxCycles: uint32, timeout: uint32): (m: Measurement)
    ensures pos + 1 <= m.next <= pos + maxCycles + 1
    ensures m.count == timeout || m.count <= maxCycles
  {
    var n := Run(line, pos, level, maxCycles + 1);
    if n <= maxCycles then Measurement(n, pos + n + 1)
    else Measurement(timeout, pos + maxCycles + 1)
  }

  /** A pulse that ends within the budget: `expectPulse` returns its length
      n in polls, having polled n + 1 times. */
  lemma ExpectCountsPulse(line: nat -> bool, pos: nat, level: bool, maxCycles: uint32, timeout: uint32, n: nat)
    requires n <= maxCycles
    requires forall k :: pos <= k < pos + n ==> line(k) == level
    requires line(pos + n) != level
    ensures Expect(line, pos, level, maxCycles, timeout) == Measurement(n, pos + n + 1)
  {
    RunUnique(line, pos, level, maxCycles + 1, n);
  }

  /** A pulse still going after maxCycles + 1 polls: `expectPulse` returns
      TIMEOUT after exactly those polls. */
  lemma ExpectTimesOut(line: nat -> bool, pos: nat, level: bool, maxCycles: uint32, timeout: uint32)
    requires forall k :: pos <= k < pos + maxCycles + 1 ==> line(k) == level
    ensures Expect(line, pos, level, maxCycles, timeout) == Measurement(timeout, pos + maxCycles + 1)
  {
    RunUnique(line, pos, level, maxCycles + 1, maxCycles + 1);
  }

  /** The callers' test `expectPulse(level) == 0` holds exactly when the first
      poll already reads the other level, or when the pulse outlasts the
      budget and the sentinel TIMEOUT is itself 0. */
  lemma ZeroCountIff(line: nat -> bool, pos: nat, level: bool, maxCycles: uint32, timeout: uint32)
    ensures Expect(line, pos, level, maxCycles, timeout).count == 0
            <==> line(pos) != level || (timeout == 0 && Run(line, pos, level, maxCycles + 1) > maxCycles)
  {
  }

  /** Measurement k of the 80-count capture waits for a low level when k is
      even and a high level when k is odd. */
  function LevelOf(k: nat): bool
  {
    k % 2 == 1
  }

  datatype Captured = Captured(counts: seq<uint32>, next: nat)

  /** The first n measurements of the capture loop (lines 78-81), started at
      sample `pos`, each starting where the previous one stopped polling. */
  function Capture(line: nat -> bool, pos: nat, n: nat, maxCycles: uint32, timeout: uint32): (c: Captured)
    ensures |c.counts| == n
  {
    if n == 0 then Captured([], pos)
    else
      var prev := Capture(line, pos, n - 1, maxCycles, timeout);
      var m := Expect(line, prev.next, LevelOf(n - 1), maxCycles, timeout);
      Captured(prev.counts + [m.count], m.next)
  }

  /** One more measurement of the loop appends its count. */
  lemma CaptureStep(line: nat -> bool, pos: nat, n: nat, maxCycles: uint32, timeout: uint32)
    requires n > 0
    ensures var prev := Capture(line, pos, n - 1, maxCycles, timeout);
            var m := Expect(line, prev.next, LevelOf(n - 1), maxCycles, timeout);
            Capture(line, pos, n, maxCycles, timeout) == Captured(prev.counts + [m.count], m.next)
  {
  }

  /** Two measurements of the loop: a low one, then a high one. */
  lemma CapturePair(line: nat -> bool, pos: nat, n: nat, maxCycles: uint32, timeout: uint32)
    requires n % 2 == 0
    ensures var prev := Capture(line, pos, n, maxCycles, timeout);
            var low := Expect(line, prev.next, LOW, maxCycles, timeout);
            var high := Expect(line, low.next, HIGH, maxCycles, timeout);
            Capture(line, pos, n + 2, maxCycles, timeout)
              == Captured(prev.counts + [low.count, high.count], high.next)
  {
    assert LevelOf(n) == LOW && LevelOf(n + 1) == HIGH;
    var prev := Capture(line, pos, n, maxCycles, timeout);
    var low := Expect(line, prev.next, LOW, maxCycles, timeout);
    assert Capture(line, pos, n + 1, maxCycles, timeout) == Captured(prev.counts + [low.count], low.next);
    assert prev.counts + [low.count] + [Expect(line, low.next, HIGH, maxCycles, timeout).count]
        == prev.counts + [low.count, Expect(line, low.next, HIGH, maxCycles, timeout).count];
  }

  /** Every captured count is TIMEOUT or a pulse length within the budget. */
  predicate CountOk(count: uint32, maxCycles: uint32, timeout: uint32)
  {
    count == timeout || count <= maxCycles
  }

  lemma {:induction false} CaptureCounts(line: nat -> bool, pos: nat, n: nat, maxCycles: uint32, timeout: uint32)
    ensures forall k :: 0 <= k < n ==> CountOk(Capture(line, pos, n, maxCycles, timeout).counts[k], maxCycles, timeout)
  {
    if n > 0 {
      var prev := Capture(line, pos, n - 1, maxCycles, timeout);
      var m := Expect(line, prev.next, LevelOf(n - 1), maxCycles, timeout);
      CaptureCounts(line, pos, n - 1, maxCycles, timeout);
      var counts := Capture(line, pos, n, maxCycles, timeout).counts;
      assert counts == prev.counts + [m.count];
      forall k | 0 <= k < n
        ensures CountOk(counts[k], maxCycles, timeout)
      {
        if k < n - 1 {
          assert counts[k] == prev.counts[k];
          assert prev.counts[k] == timeout || prev.counts[k] <= maxCycles;
        } else {
          assert counts[k] == m.count;
          assert m.count == timeout || m.count <= maxCycles;
        }
      }
    }
  }

  /** No capture hangs: n measurements poll the line at least n and at most
      n * (maxCycles + 1) times, whatever the line does. */
  lemma {:induction false} CapturePolls(line: nat -> bool, pos: nat, n: nat, maxCycles: uint32, timeout: uint32)
    ensures var c := Capture(line, pos, n, maxCycles, timeout);
            pos + n <= c.next <= pos + n * (maxCycles + 1)
  {
    if n > 0 {
      var budget := maxCycles + 1;
      var prev := Capture(line, pos, n - 1, maxCycles, timeout);
      var m := Expect(line, prev.next, LevelOf(n - 1), maxCycles, timeout);
      CapturePolls(line, pos, n - 1, maxCycles, timeout);
      assert Capture(line, pos, n, maxCycles, timeout).next == m.next;
      assert prev.next <= pos + (n - 1) * budget;
      assert m.next <= prev.next + budget;
      MulStep(n, budget);
    }
  }

  lemma MulStep(n: nat, b: nat)
    requires n > 0
    ensures (n - 1) * b + b == n * b
  {
  }
}
