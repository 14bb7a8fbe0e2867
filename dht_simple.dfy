/** The DHTSimple sensor object: `begin`, `Read` and `expectPulse`, with the
    pin and timing I/O replaced by parameters (the current `millis()` value
    and the stream of line samples). */
module DhtSimple {
  import opened Ints
  import opened Frame
  import opened Decode
  import opened Pulse
  import opened RateLimit
  import opened Waveform

  /** What a `Read` that passes the rate limiter produces: its return value,
      the two output readings and the contents of `data`. */
  datatype ReadOutcome = ReadOutcome(ok: bool, temperature: Reading, humidity: Reading, data: seq<uint8>)

  function StartFailure(): ReadOutcome
  {
    ReadOutcome(false, Unavailable, Unavailable, ZERO_FRAME)
  }

  /** Everything `Read` does past the rate limiter, as a function of the
      line's samples, the cycle budget and the TIMEOUT sentinel. */
  function Attempt(line: nat -> bool, maxCycles: uint32, timeout: uint32): (r: ReadOutcome)
    ensures |r.data| == FRAME_BYTES
    ensures r.ok ==> ChecksumOk(r.data) && r.humidity == Tenths(HumidityTenths(r.data))
  {
    if StartLow(line, maxCycles, timeout).count == 0 then StartFailure()
    else if StartHigh(line, maxCycles, timeout).count == 0 then StartFailure()
    else
      match DecodeCycles(CapturedCycles(line, maxCycles, timeout))
      case PulseTimeout(_, partial) => ReadOutcome(false, Unavailable, Unavailable, partial)
      case Complete(frame) =>
        var c := ConvertAsWritten(frame);
        ReadOutcome(c.ok, c.temperature, c.humidity, frame)
  }

  /** The pieces of one attempt, named as `Read` names them. */
  function StartLow(line: nat -> bool, maxCycles: uint32, timeout: uint32): Measurement
  {
    Expect(line, 0, LOW, maxCycles, timeout)
  }

  function StartHigh(line: nat -> bool, maxCycles: uint32, timeout: uint32): Measurement
  {
    Expect(line, StartLow(line, maxCycles, timeout).next, HIGH, maxCycles, timeout)
  }

  function CapturedCycles(line: nat -> bool, maxCycles: uint32, timeout: uint32): (cycles: seq<uint32>)
    ensures |cycles| == PULSE_COUNT
  {
    Capture(line, StartHigh(line, maxCycles, timeout).next, PULSE_COUNT, maxCycles, timeout).counts
  }

  /** A failed read never reports a reading; `AttemptOkIff` says which
      failures there are. */
  lemma AttemptFailureUnavailable(line: nat -> bool, maxCycles: uint32, timeout: uint32)
    ensures var r := Attempt(line, maxCycles, timeout);
            !r.ok ==> r.temperature == Unavailable && r.humidity == Unavailable
  {
  }

  /** If either start pulse count is 0, the read fails with `data` all zero. */
  lemma AttemptStartFailure(line: nat -> bool, maxCycles: uint32, timeout: uint32)
    requires StartLow(line, maxCycles, timeout).count == 0 || StartHigh(line, maxCycles, timeout).count == 0
    ensures Attempt(line, maxCycles, timeout) == ReadOutcome(false, Unavailable, Unavailable, ZERO_FRAME)
  {
  }

  /** If a bit pair holds a 0 count, the read fails at the first such bit i:
      the bytes after byte i/8 are still zero and byte i/8 holds only the
      bits before i. All 80 counts were captured first. */
  lemma AttemptBitFailure(line: nat -> bool, maxCycles: uint32, timeout: uint32, i: nat)
    requires StartLow(line, maxCycles, timeout).count != 0 && StartHigh(line, maxCycles, timeout).count != 0
    requires i < FRAME_BITS && PairHasZero(CapturedCycles(line, maxCycles, timeout), i)
    requires forall k :: 0 <= k < i ==> !PairHasZero(CapturedCycles(line, maxCycles, timeout), k)
    ensures var r := Attempt(line, maxCycles, timeout);
            !r.ok && r.temperature == Unavailable && r.humidity == Unavailable
            && |r.data| == FRAME_BYTES
            && (forall j :: i / 8 < j < FRAME_BYTES ==> r.data[j] == 0)
            && r.data[i / 8] == PackBits(Bits(CapturedCycles(line, maxCycles, timeout))[8 * (i / 8)..i])
  {
    var cycles := CapturedCycles(line, maxCycles, timeout);
    FirstZeroPairIs(cycles, 0, i);
    TimedOutBytes(cycles);
  }

  /** When all 82 counts are nonzero, `data` holds the decoded frame, byte j
      the weighted sum of bits 8j..8j+7; the read succeeds exactly when the
      checksum matches, and then humidity is kept as sent and temperature
      too unless above 80.0 degrees. */
  lemma AttemptDecoded(line: nat -> bool, maxCycles: uint32, timeout: uint32)
    requires StartLow(line, maxCycles, timeout).count != 0 && StartHigh(line, maxCycles, timeout).count != 0
    requires forall k :: 0 <= k < FRAME_BITS ==> !PairHasZero(CapturedCycles(line, maxCycles, timeout), k)
    ensures var r := Attempt(line, maxCycles, timeout);
            var bits := Bits(CapturedCycles(line, maxCycles, timeout));
            |r.data| == FRAME_BYTES
            && (forall j :: 0 <= j < FRAME_BYTES ==> r.data[j] == WeightedSum(bits[8 * j..8 * j + 8]))
            && (r.ok <==> ChecksumOk(r.data))
            && (r.ok ==> r.humidity == Tenths(HumidityTenths(r.data)))
            && (r.ok ==> (r.temperature == Unavailable <==> TemperatureTenths(r.data) > 800))
            && (r.ok && r.temperature != Unavailable ==> r.temperature == Tenths(TemperatureTenths(r.data)))
  {
    var cycles := CapturedCycles(line, maxCycles, timeout);
    FirstZeroPairIs(cycles, 0, FRAME_BITS);
    DecodedBytes(cycles);
    var r := Attempt(line, maxCycles, timeout);
    if r.ok {
      ConvertAsWrittenEffect(r.data);
    }
  }

  /** `Read` past the rate limiter returns true exactly when both start
      counts are nonzero, no bit pair holds a 0 count and the checksum of
      the decoded frame matches. */
  lemma AttemptOkIff(line: nat -> bool, maxCycles: uint32, timeout: uint32)
    ensures var cycles := CapturedCycles(line, maxCycles, timeout);
            Attempt(line, maxCycles, timeout).ok
            <==> StartLow(line, maxCycles, timeout).count != 0
                 && StartHigh(line, maxCycles, timeout).count != 0
                 && (forall k :: 0 <= k < FRAME_BITS ==> !PairHasZero(cycles, k))
                 && ChecksumOk(PartialFrame(Bits(cycles)))
  {
    var cycles := CapturedCycles(line, maxCycles, timeout);
    var i := FirstZeroPair(cycles, 0);
    if i == FRAME_BITS {
      FirstZeroPairIs(cycles, 0, FRAME_BITS);
    }
  }

  /** The pulse train a sensor sends for a frame: the two start pulses, then
      for each of the 40 bits a low reference pulse of `low` polls followed
      by a high pulse of `one` polls for a one or `zero` polls for a zero. */
  function FrameTrain(frame: seq<uint8>, startLow: uint32, startHigh: uint32,
                      low: uint32, zero: uint32, one: uint32): (counts: seq<uint32>)
    requires |frame| == FRAME_BYTES
    ensures |counts| == 2 + PULSE_COUNT
  {
    [startLow, startHigh] + EncodeCycles(FrameBits(frame), low, zero, one)
  }

  /** End to end: when every pulse fits the cycle budget, no pulse is empty
      and a one's high pulse is longer than the low reference while a zero's
      is not, a read of the sensor's pulse train leaves exactly the sent frame
      in `data` and returns the conversion of that frame. */
  lemma SensorFrameRead(frame: seq<uint8>, startLow: uint32, startHigh: uint32,
                        low: uint32, zero: uint32, one: uint32, maxCycles: uint32, timeout: uint32)
    requires |frame| == FRAME_BYTES
    requires 0 < startLow <= maxCycles && 0 < startHigh <= maxCycles
    requires 0 < zero <= low < one <= maxCycles
    ensures var c := ConvertAsWritten(frame);
            Attempt(SensorLine(FrameTrain(frame, startLow, startHigh, low, zero, one)), maxCycles, timeout)
              == ReadOutcome(c.ok, c.temperature, c.humidity, frame)
  {
    var bits := FrameBits(frame);
    var cycles := EncodeCycles(bits, low, zero, one);
    var counts := FrameTrain(frame, startLow, startHigh, low, zero, one);
    var line := SensorLine(counts);
    assert counts[0] == startLow && counts[1] == startHigh;
    assert counts[..0] == [];
    assert LevelOf(0) == LOW && LevelOf(1) == HIGH;
    MeasureSegment(counts, 0, maxCycles, timeout);
    assert StartLow(line, maxCycles, timeout) == Measurement(startLow, Offset(counts, 1));
    MeasureSegment(counts, 1, maxCycles, timeout);
    assert StartHigh(line, maxCycles, timeout) == Measurement(startHigh, Offset(counts, 2));
    EncodeCyclesBounded(bits, low, zero, one, maxCycles);
    assert forall j :: 2 <= j < 2 + PULSE_COUNT ==> counts[j] == cycles[j - 2];
    CaptureTrain(counts, PULSE_COUNT, maxCycles, timeout);
    AfterStart(startLow, startHigh, cycles);
    assert CapturedCycles(line, maxCycles, timeout) == cycles;
    DecodeEncodedFrame(frame, low, zero, one);
  }

  /** A line that never changes level (no sensor, or a shorted line) fails
      the read at a start pulse and leaves `data` zero, whatever TIMEOUT is:
      held high, the first poll already ends the low start pulse; held low,
      the low start pulse times out and the high one is then seen as empty. */
  lemma StuckLineFails(level: bool, maxCycles: uint32, timeout: uint32)
    ensures Attempt((k: nat) => level, maxCycles, timeout) == StartFailure()
  {
    var line := (k: nat) => level;
    if level == LOW {
      ExpectTimesOut(line, 0, LOW, maxCycles, timeout);
      assert StartHigh(line, maxCycles, timeout).count == 0;
    }
  }

  /** The sensor object. TIMEOUT, the sentinel `expectPulse` returns when a
      pulse outlasts the budget, is defined in neither source file; it is a
      constant of the object here, so every property holds whatever it is. */
  class DHTSimple {
    const data: array<uint8>
    var pin: uint8
    var lastReadTime: uint32
    var maxCycles: uint32
    const timeout: uint32

    ghost predicate Valid()
      reads this
    {
      data.Length == FRAME_BYTES
    }

    /** The C++ constructor initialises nothing; the model starts from zeros. */
    constructor (timeout: uint32)
      ensures Valid() && fresh(data)
      ensures this.timeout == timeout
      ensures data[..] == ZERO_FRAME && pin == 0 && lastReadTime == 0 && maxCycles == 0
    {
      this.timeout := timeout;
      data := new uint8[FRAME_BYTES](_ => 0);
      pin, lastReadTime, maxCycles := 0, 0, 0;
      new;
      assert data[..] == ZERO_FRAME;
    }

    /** `begin(pin)`: `maxCycles` is the platform's cycle count for 1 ms,
        given here; the last read time becomes 2^32 - 2000. */
    method Begin(pin: uint8, maxCycles: uint32)
      modifies this`pin, this`maxCycles, this`lastReadTime
      ensures this.pin == pin && this.maxCycles == maxCycles
      ensures lastReadTime == INITIAL_LAST_READ
      ensures lastReadTime == U32_RANGE - MIN_INTERVAL
    {
      this.pin := pin;
      this.maxCycles := maxCycles;
      lastReadTime := INITIAL_LAST_READ;
    }

    /** `expectPulse(level)` started at sample `pos`: polls while the line
        reads `level`, at most maxCycles + 1 times. Returns the count and the
        position after its last poll. */
    method ExpectPulse(line: nat -> bool, pos: nat, level: bool) returns (count: uint32, next: nat)
      ensures Measurement(count, next) == Expect(line, pos, level, maxCycles, timeout)
    {
      count := 0;
      next := pos;
      while line(next) == level
        invariant next == pos + count && count <= maxCycles
        invariant Run(line, pos, level, maxCycles + 1)
                  == count + Run(line, next, level, maxCycles + 1 - count)
        decreases maxCycles - count
      {
        if count >= maxCycles {
          return timeout, next + 1;
        }
        count := count + 1;
        next := next + 1;
      }
      next := next + 1;
    }

    /** Lines 78-81: the 80 measurements, alternately low and high. */
    method CaptureCycles(line: nat -> bool, pos: nat) returns (cycles: array<uint32>, next: nat)
      ensures fresh(cycles) && cycles.Length == PULSE_COUNT
      ensures Captured(cycles[..], next) == Capture(line, pos, PULSE_COUNT, maxCycles, timeout)
    {
      cycles := new uint32[PULSE_COUNT];
      next := pos;
      var i := 0;
      ghost var pairs := 0;
      while i < PULSE_COUNT
        invariant 0 <= i <= PULSE_COUNT && i == 2 * pairs
        invariant Captured(cycles[..i], next) == Capture(line, pos, i, maxCycles, timeout)
      {
        CapturePair(line, pos, i, maxCycles, timeout);
        ghost var done := cycles[..i];
        var low, high;
        low, next := ExpectPulse(line, next, LOW);
        high, next := ExpectPulse(line, next, HIGH);
        cycles[i], cycles[i + 1] := low, high;
        assert cycles[..i + 2] == done + [low, high];
        i, pairs := i + 2, pairs + 1;
      }
      assert cycles[..] == cycles[..PULSE_COUNT];
    }

    /** Lines 93-98: bit i is shifted into byte i/8 of `data`. */
    method ShiftBitIn(i: nat, bit: bool)
      requires Valid() && i < FRAME_BITS
      modifies data
      ensures data[..] == old(data[..])[i / 8 := if bit then OrOne(ShiftLeft(old(data[i / 8]))) else ShiftLeft(old(data[i / 8]))]
    {
      data[i / 8] := ShiftLeft(data[i / 8]);
      if bit {
        data[i / 8] := OrOne(data[i / 8]);
      }
    }

    /** Lines 86-102: shifts the bits into `data`, which starts all zero, and
        stops at the first pair holding a 0 count. */
    method DecodeBits(cycles: array<uint32>) returns (complete: bool)
      requires Valid() && cycles.Length == PULSE_COUNT && data[..] == ZERO_FRAME
      modifies data
      ensures complete <==> DecodeCycles(old(cycles[..])).Complete?
      ensures complete ==> data[..] == DecodeCycles(old(cycles[..])).frame
      ensures !complete ==> data[..] == DecodeCycles(old(cycles[..])).partial
    {
      ghost var counts := cycles[..];
      ghost var bits := Bits(counts);
      EmptyPartialFrame();
      assert bits[..0] == [];
      var i := 0;
      while i < FRAME_BITS
        invariant 0 <= i <= FRAME_BITS
        invariant cycles[..] == counts
        invariant NoZeroPairBefore(counts, i)
        invariant data[..] == PartialFrame(bits[..i])
      {
        var lowCycles := cycles[2 * i];
        var highCycles := cycles[2 * i + 1];
        if lowCycles == 0 || highCycles == 0 {
          DecodeStopsAt(counts, i);
          return false;
        }
        NoZeroPairExtend(counts, i);
        PartialFrameStep(bits, i, data[..], highCycles > lowCycles);
        ShiftBitIn(i, highCycles > lowCycles);
        i := i + 1;
      }
      DecodeStopsAt(counts, FRAME_BITS);
      complete := true;
    }

    /** `Read(Temperature, Humidity, force)` at time `now`. The caller's two
        floats come in as `temperatureIn` and `humidityIn` and go out as
        `temperature` and `humidity`. */
    method Read(now: uint32, force: bool, line: nat -> bool, temperatureIn: Reading, humidityIn: Reading)
      returns (ok: bool, temperature: Reading, humidity: Reading)
      requires Valid()
      modifies this`lastReadTime, data
      ensures Valid()
      ensures !force && TooSoon(now, old(lastReadTime)) ==>
                ok && temperature == temperatureIn && humidity == humidityIn
                && lastReadTime == old(lastReadTime) && data[..] == old(data[..])
      ensures force || !TooSoon(now, old(lastReadTime)) ==>
                lastReadTime == now
                && ReadOutcome(ok, temperature, humidity, data[..]) == Attempt(line, maxCycles, timeout)
    {
      if !force && TooSoon(now, lastReadTime) {
        return true, temperatureIn, humidityIn;
      }
      lastReadTime := now;
      temperature, humidity := Unavailable, Unavailable;
      data[0], data[1], data[2], data[3], data[4] := 0, 0, 0, 0, 0;
      assert data[..] == ZERO_FRAME;

      // The start signal (lines 37-57) drives the line and only waits.
      var low, next := ExpectPulse(line, 0, LOW);
      if low == 0 {
        return false, temperature, humidity;
      }
      var high;
      high, next := ExpectPulse(line, next, HIGH);
      if high == 0 {
        return false, temperature, humidity;
      }
      var cycles;
      cycles, next := CaptureCycles(line, next);

      var complete := DecodeBits(cycles);
      if !complete {
        return false, temperature, humidity;
      }
      var c := ConvertAsWritten(data[..]);
      ok, temperature, humidity := c.ok, c.temperature, c.humidity;
    }
  }
}
