/** The line as a sensor drives it: a train of pulses of alternating level,
    starting low, each lasting a given number of polls. Measuring such a line
    gives the pulse lengths back, which ties `expectPulse` and the capture
    loop to what the sensor sends. */
module Waveform {
  import opened Ints
  import opened Pulse

  /** Pulse j held for c polls: c samples at its level, then one sample at
      the other level, the poll at which `expectPulse` sees the change. */
  function Segment(j: nat, c: nat): (s: seq<bool>)
    ensures |s| == c + 1
    ensures forall t :: 0 <= t < c ==> s[t] == LevelOf(j)
    ensures s[c] != LevelOf(j)
  {
    seq(c, _ => LevelOf(j)) + [!LevelOf(j)]
  }

  /** The samples of a whole pulse train, pulse after pulse. */
  function Samples(counts: seq<uint32>): seq<bool>
  {
    if counts == [] then []
    else Samples(counts[..|counts| - 1]) + Segment(|counts| - 1, counts[|counts| - 1])
  }

  /** The sample at which pulse j starts. */
  function Offset(counts: seq<uint32>, j: nat): nat
    requires j <= |counts|
  {
    |Samples(counts[..j])|
  }

  /** Sample k of the line carrying the pulse train; it stays low afterwards. */
  function SampleAt(counts: seq<uint32>, k: nat): bool
  {
    var s := Samples(counts);
    if k < |s| then s[k] else LOW
  }

  function SensorLine(counts: seq<uint32>): nat -> bool
  {
    (k: nat) => SampleAt(counts, k)
  }

  /** The samples of the first m pulses begin the samples of the train. */
  lemma {:induction false} SamplesPrefix(counts: seq<uint32>, m: nat)
    requires m <= |counts|
    ensures |Samples(counts[..m])| <= |Samples(counts)|
    ensures forall k :: 0 <= k < |Samples(counts[..m])| ==> Samples(counts)[k] == Samples(counts[..m])[k]
    decreases |counts| - m
  {
    if m < |counts| {
      var init := counts[..|counts| - 1];
      assert init[..m] == counts[..m];
      SamplesPrefix(init, m);
    } else {
      assert counts[..m] == counts;
    }
  }

  /** Pulse j occupies samples Offset(j) .. Offset(j + 1) - 1 of the line. */
  lemma SegmentOnLine(counts: seq<uint32>, j: nat)
    requires j < |counts|
    ensures Offset(counts, j + 1) == Offset(counts, j) + counts[j] + 1
    ensures forall k :: Offset(counts, j) <= k < Offset(counts, j) + counts[j] ==> SampleAt(counts, k) == LevelOf(j)
    ensures SampleAt(counts, Offset(counts, j) + counts[j]) != LevelOf(j)
  {
    var upto := counts[..j + 1];
    assert upto[..j] == counts[..j];
    assert Samples(upto) == Samples(counts[..j]) + Segment(j, counts[j]);
    SamplesPrefix(counts, j + 1);
  }

  /** `expectPulse` started where pulse j starts returns its length and stops
      polling where pulse j + 1 starts, when the length is within the budget. */
  lemma MeasureSegment(counts: seq<uint32>, j: nat, maxCycles: uint32, timeout: uint32)
    requires j < |counts| && counts[j] <= maxCycles
    ensures Expect(SensorLine(counts), Offset(counts, j), LevelOf(j), maxCycles, timeout)
            == Measurement(counts[j], Offset(counts, j + 1))
  {
    SegmentOnLine(counts, j);
    ExpectCountsPulse(SensorLine(counts), Offset(counts, j), LevelOf(j), maxCycles, timeout, counts[j]);
  }

  lemma SliceExtend(s: seq<uint32>, a: nat, b: nat)
    requires a <= b < |s|
    ensures s[a..b + 1] == s[a..b] + [s[b]]
  {
  }

  lemma AfterStart(a: uint32, b: uint32, rest: seq<uint32>)
    ensures ([a, b] + rest)[2..2 + |rest|] == rest
  {
  }

  /** Pulses k and k + 2 have the same level. */
  lemma LevelOfPlusTwo(k: nat)
    ensures LevelOf(k + 2) == LevelOf(k)
  {
  }

  /** The capture loop, started where pulse 2 starts (after the two start
      pulses), records the lengths of the next n pulses as they were sent. */
  lemma {:induction false} CaptureTrain(counts: seq<uint32>, n: nat, maxCycles: uint32, timeout: uint32)
    requires 2 + n <= |counts|
    requires forall j :: 2 <= j < 2 + n ==> counts[j] <= maxCycles
    ensures Capture(SensorLine(counts), Offset(counts, 2), n, maxCycles, timeout)
            == Captured(counts[2..2 + n], Offset(counts, 2 + n))
  {
    if n == 0 {
      assert counts[2..2] == [];
    } else {
      var line := SensorLine(counts);
      var prev := Capture(line, Offset(counts, 2), n - 1, maxCycles, timeout);
      CaptureTrain(counts, n - 1, maxCycles, timeout);
      assert prev == Captured(counts[2..n + 1], Offset(counts, n + 1));
      LevelOfPlusTwo(n - 1);
      MeasureSegment(counts, n + 1, maxCycles, timeout);
      var m := Expect(line, prev.next, LevelOf(n - 1), maxCycles, timeout);
      assert m == Measurement(counts[n + 1], Offset(counts, n + 2));
      CaptureStep(line, Offset(counts, 2), n, maxCycles, timeout);
      SliceExtend(counts, 2, n + 1);
    }
  }
}
