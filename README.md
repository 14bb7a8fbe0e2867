# DHTSimple read path, modelled in Dafny

This project models the read path of DHTSimple, a small Arduino library for the
DHT22/AM2302 humidity and temperature sensor. The model covers four parts of
`DHTSimple.cpp`:

- **`expectPulse`**: the bounded pulse counter. It polls the data line while
  the line stays at a given level. It gives up on the `_maxcycles + 1`-th
  poll that still reads the level and returns the sentinel TIMEOUT.
- **The rate limiter** at the top of `Read`, with its initial timestamp set in
  `begin`. It subtracts uint32 millisecond timestamps modulo 2^32.
- **The capture and bit decoder**: 80 cycle counts, 40 pairs of a low reference
  pulse and a high data pulse. Each pair gives one bit, which is shifted
  most-significant-bit first into the 5-byte member `data`.
- **The checksum and conversion**: the additive 8-bit checksum, then the
  conversion of the frame to humidity and signed temperature, with the range
  checks exactly as the code has them.

Pin and timing I/O become parameters. `Read` takes `now`, the current
`millis()` value. It also takes `line: nat -> bool`, where `line(k)` is the
level seen by the k-th poll of the data line during one read, counting from
the first poll after the start signal. Each poll consumes one sample.
Readings are integers in tenths of a unit. `Unavailable` stands for the NaN
the code stores.

Modules:

- `Ints`: uint8 and uint32, `<<= 1` and `|= 1` on a byte.
- `Frame`: bit packing, the five-byte frame, the checksum, the conversion as
  written, and the intended conversion.
- `Decode`: from 80 counts to the frame.
- `Pulse`: what `expectPulse` and the capture loop return, as functions of the
  line.
- `RateLimit`: the modular elapsed-time test.
- `Waveform`: the line as a sensor drives it, a train of pulses of
  alternating level with given lengths.
- `DhtSimple`: the class `DHTSimple` with `Begin`, `ExpectPulse` and `Read`,
  and `Attempt`, the function that states what `Read` does past the rate
  limiter.

`CaptureCycles`, `DecodeBits` and `ShiftBitIn` are parts of `Read`'s body,
written inline in the C++: the capture loop (DHTSimple.cpp:78-81), the decode
loop (86-102) and the byte update inside it (93-98). Here each is a method of
its own, and `Read` calls them in the same order.

`Read` is proved against `Attempt`. `ExpectPulse` is proved against `Expect`,
and the capture and decode loops against `Capture` and `DecodeCycles`. The
lemmas state the properties of those functions.

Behaviour of the code worth knowing before reading the model:

- Called too soon and not forced, `Read` returns `true` and leaves the
  caller's values untouched (DHTSimple.cpp:26).
- The header promises error checking "for valid in range non-NAN data"
  (DHTSimple.h:16). The range checks as written do not deliver it (see
  Findings), and `Read` follows the code as written.
- Bytes `02 8C` give 0x028C = 652 tenths, 65.2 % humidity (DHTSimple.cpp:125-128,
  `Frame.ExampleFrame`).
- After `begin`, the first non-forced read proceeds only when `millis()` is
  below 2^32 - 2000 (DHTSimple.cpp:19, 26; `RateLimit.FirstReadProceedsIff`).

## Model

| member | source | states |
|---|---|---|
| `Ints.ShiftLeft` | DHTSimple.cpp:93 | `<<= 1` on a uint8 doubles a byte below 0x80 and leaves bit 0 clear |
| `Ints.OrOne` | DHTSimple.cpp:97 | `|= 1` sets bit 0 and leaves the other seven bits unchanged |
| `Frame.PackBits` | DHTSimple.cpp:86-102 | shifting k bits into a zero byte gives a value below 2^k, so 8 shifts per byte lose no bit |
| `Frame.PackBitsIsWeightedSum` | DHTSimple.cpp:86-102 | shifting bits in MSB first equals the weighted sum where bit k of n weighs 2^(n-1-k) |
| `Frame.PackUnpack` | DHTSimple.cpp:93-98 | packing the n low bits of any value below 2^n gives that value back |
| `Frame.UnpackPack` | DHTSimple.cpp:93-98 | unpacking a packed bit string gives the same bits: packing is injective |
| `Frame.PartialFrameUnreached` | DHTSimple.cpp:31 | a byte that no received bit has reached is still zero |
| `Frame.EmptyPartialFrame` | DHTSimple.cpp:31 | before any bit, the frame is the five zero bytes written at line 31 |
| `Frame.PartialFrameStep` | DHTSimple.cpp:93-98 | bit i changes only byte i/8, which is shifted left and gets bit 0 set for a one |
| `Frame.ByteOfStep` | DHTSimple.cpp:93-98 | a byte holding at most 7 bits is shifted left without losing a set bit, and a one sets its lowest bit |
| `Frame.FrameBitsRoundTrip` | DHTSimple.cpp:86-102 | decoding the 40 transmitted bits of any frame rebuilds that frame |
| `Frame.FrameBitsOfPartialFrame` | DHTSimple.cpp:86-102 | every 40-bit string is the transmission of the frame it decodes to |
| `Frame.WithChecksum` | DHTSimple.cpp:113 | a frame carrying the low byte of its data sum passes the check |
| `Frame.ChecksumOkIff` | DHTSimple.cpp:113 | the check passes iff byte 4 is the low byte of the sum of bytes 0-3 |
| `Frame.SingleByteErrorDetected` | DHTSimple.cpp:113 | replacing any one byte of a sensor frame with another value makes the check fail |
| `Frame.HumidityTenths` | DHTSimple.cpp:125-128 | humidity in tenths is below 65536, with byte 0 as its high byte and byte 1 as its low byte |
| `Frame.TemperatureTenths` | DHTSimple.cpp:116-120 | temperature magnitude is 15 bits from bytes 2-3, and the result is negative only when bit 7 of byte 2 is set |
| `Frame.HumidityRoundTrip` | DHTSimple.cpp:125-128 | every humidity in 0..65535 is decoded exactly from the two bytes a sensor sends for it |
| `Frame.TemperatureRoundTrip` | DHTSimple.cpp:116-120 | every temperature in -32767..32767 is decoded exactly from its sign-magnitude bytes |
| `Frame.TemperatureBytesRoundTrip` | DHTSimple.cpp:116-120 | re-encoding a decoded temperature gives the same bytes, except 0x80 0x00 (negative zero), which decodes to 0 |
| `Frame.ConvertAsWritten` | DHTSimple.cpp:113-142 | the conversion succeeds iff the checksum matches, and on failure both readings are unavailable |
| `Frame.ConvertAsWrittenEffect` | DHTSimple.cpp:115-137 | with a good checksum the read succeeds, humidity is always kept, and temperature is dropped only above 800 tenths |
| `Frame.Checksum` | DHTSimple.cpp:113 | the checksum is the one byte congruent to the sum of bytes 0-3 modulo 256 (`& 0xFF` of the int sum) |
| `Frame.ConvertIntended` | DHTSimple.cpp:122-136 | the intended check: success iff the checksum matches, temperature is in [-400, 800] and humidity in [0, 1000] tenths, and then both readings are the frame's; otherwise both are unavailable |
| `Frame.IntendedAgreesInRange` | DHTSimple.cpp:122-136 | where the intended check accepts, the code as written gives the same result |
| `Frame.IntendedAllOrNothing` | DHTSimple.cpp:132-136 | under the intended check, both readings are available or neither is, exactly as the return value says |
| `Frame.AsWrittenAcceptsLowTemperature` | DHTSimple.cpp:122 | frame 02 8C 99 16 3D, -642.2 degrees, is accepted as written and rejected as intended |
| `Frame.AsWrittenAcceptsHighHumidity` | DHTSimple.cpp:130 | 100.1 % humidity is accepted as written and rejected as intended |
| `Frame.AsWrittenPartialReading` | DHTSimple.cpp:132-137 | at 80.1 degrees the read returns true with temperature unavailable and humidity available |
| `Frame.ExampleFrame` | DHTSimple.cpp:113-128 | frame 02 8C 01 02 91 reads as 25.8 degrees and 65.2 % |
| `Decode.Bits` | DHTSimple.cpp:87-98 | bit i is a one iff count 2i + 1 (high) exceeds count 2i (low); equal counts give a zero |
| `Decode.FirstZeroPair` | DHTSimple.cpp:86-92 | finds the first bit whose pair holds a 0 count, and no earlier pair holds one |
| `Decode.DecodeCycles` | DHTSimple.cpp:86-102 | the decode either completes with a five-byte frame or stops at a bit i < 40 whose pair holds a 0 count, with a five-byte partial frame |
| `Decode.DecodeStopsAt` | DHTSimple.cpp:86-102 | when pair i is the first holding a 0 count, the decode stops there with the bits before i shifted in; with no such pair it completes with all 40 |
| `Decode.DecodedBytes` | DHTSimple.cpp:86-102 | after a full decode, byte j is the weighted sum of bits 8j..8j+7, where bit i = 1 iff count 2i+1 > count 2i |
| `Decode.TimedOutBytes` | DHTSimple.cpp:86-102 | after a stop at bit i, the bytes before i/8 are complete, byte i/8 holds the bits before i, and later bytes are zero |
| `Decode.DecodeEncodedFrame` | DHTSimple.cpp:86-102 | with nonzero counts where a zero's high pulse is no longer than the low pulse and a one's is longer, any frame's counts decode to that frame |
| `Pulse.Run` | DHTSimple.cpp:165-177 | the run counted by the polling loop never exceeds its limit |
| `Pulse.RunIsLeadingRun` | DHTSimple.cpp:165-177 | the run is made of samples at the level, and the sample after it is not at the level unless the limit was reached |
| `Pulse.RunUnique` | DHTSimple.cpp:165-177 | any count with those two properties is the run |
| `Pulse.Expect` | DHTSimple.cpp:155-180 | `expectPulse` polls between 1 and maxCycles + 1 times and returns TIMEOUT or a count of at most maxCycles |
| `Pulse.ExpectCountsPulse` | DHTSimple.cpp:155-180 | a pulse of n <= maxCycles polls returns n after n + 1 polls |
| `Pulse.ExpectTimesOut` | DHTSimple.cpp:166-167 | a pulse still at the level after maxCycles + 1 polls returns TIMEOUT after exactly those polls |
| `Pulse.ZeroCountIff` | DHTSimple.cpp:61-68 | the callers' `== 0` test holds iff the first poll already sees the other level, or the pulse times out and TIMEOUT is 0 |
| `Pulse.Capture` | DHTSimple.cpp:78-81 | the capture loop always produces exactly the requested number of counts |
| `Pulse.CaptureCounts` | DHTSimple.cpp:78-81 | each captured count is TIMEOUT or at most maxCycles |
| `Pulse.CapturePolls` | DHTSimple.cpp:78-81 | n measurements poll between n and n * (maxCycles + 1) times, so the capture never hangs |
| `RateLimit.Elapsed` | DHTSimple.cpp:26 | the uint32 difference is the one d in 0..2^32-1 with last + d = now modulo 2^32 |
| `RateLimit.ElapsedAcrossWrap` | DHTSimple.cpp:26 | d ms after `last` the difference is d, even across the 2^32 wrap |
| `RateLimit.TooSoon` | DHTSimple.cpp:26 | the read is cut short iff now - last < 2000 when now >= last, and iff now + 2^32 - last < 2000 when the clock has wrapped |
| `RateLimit.TooSoonIff` | DHTSimple.cpp:26 | a non-forced read is cut short iff it comes less than 2000 ms after the last attempt |
| `RateLimit.FirstReadProceedsIff` | DHTSimple.cpp:19 | after `begin`, a non-forced read proceeds iff `now` < 2^32 - 2000 |
| `Waveform.MeasureSegment` | DHTSimple.cpp:155-180 | on a sensor's pulse train, `expectPulse` started at a pulse returns that pulse's length and stops polling where the next pulse starts |
| `Waveform.CaptureTrain` | DHTSimple.cpp:78-81 | the capture loop records the lengths of the pulses the sensor sent, in order |
| `DhtSimple.Attempt` | DHTSimple.cpp:27-142 | one read past the rate limiter leaves a five-byte `data`; success implies a matching checksum and the frame's humidity |
| `DhtSimple.AttemptFailureUnavailable` | DHTSimple.cpp:29-30 | a failed read past the rate limiter reports both readings unavailable |
| `DhtSimple.AttemptStartFailure` | DHTSimple.cpp:61-68 | a 0 count on either start pulse fails the read, with both outputs unavailable and `data` all zero |
| `DhtSimple.AttemptBitFailure` | DHTSimple.cpp:86-92 | a 0 count in bit pair i fails the read at the first such i, and every byte after i/8 is zero |
| `DhtSimple.AttemptDecoded` | DHTSimple.cpp:86-137 | with all 80 counts nonzero, `data` bytes are the weighted bit sums, and the read succeeds iff the checksum matches, keeping humidity, dropping temperature above 800 and otherwise reporting the frame's temperature |
| `DhtSimple.AttemptOkIff` | DHTSimple.cpp:61-142 | the read returns true iff both start counts are nonzero, no bit pair holds a 0 and the checksum matches |
| `DhtSimple.SensorFrameRead` | DHTSimple.cpp:59-137 | with every pulse nonzero and within the budget, and a one's high pulse longer than the low reference and a zero's not, reading the sensor's pulse train for any frame leaves exactly that frame in `data` and returns its conversion |
| `DhtSimple.StuckLineFails` | DHTSimple.cpp:61-68 | a line held at one level fails the read at a start pulse with `data` zero, whatever TIMEOUT is |
| `DhtSimple.DHTSimple.constructor` | DHTSimple.h:73 | a new object has a five-byte `data` and the given TIMEOUT |
| `DhtSimple.DHTSimple.Begin` | DHTSimple.cpp:11-21 | stores the pin and cycle budget and sets the last read time to 2^32 - 2000 |
| `DhtSimple.DHTSimple.ExpectPulse` | DHTSimple.cpp:155-180 | the polling loop returns exactly the count and poll position that `Expect` gives |
| `DhtSimple.DHTSimple.CaptureCycles` | DHTSimple.cpp:78-81 | the 80-slot loop fills a fresh array with the alternating low/high counts that `Capture` gives |
| `DhtSimple.DHTSimple.ShiftBitIn` | DHTSimple.cpp:93-98 | shifting bit i in changes only byte i/8 of `data`: it is shifted left and gets bit 0 set for a one |
| `DhtSimple.DHTSimple.DecodeBits` | DHTSimple.cpp:86-102 | the decode loop leaves `data` holding the frame, or the partial frame at the first 0 count, and reports which |
| `DhtSimple.DHTSimple.Read` | DHTSimple.cpp:23-146 | too early and not forced: returns true and changes nothing; otherwise sets the last read time to `now` and has the outcome of `Attempt` |

## Left out

- The start signal and all pin and timing I/O (DHTSimple.cpp:18, 25, 37-57: `pinMode`, `digitalWrite`, `delay`, `delayMicroseconds`, `millis`). They only drive the line and wait. `now` and the line samples are parameters instead.
- `InterruptLock` (DHTSimple.h:94-106), which masks interrupts around the capture (DHTSimple.cpp:46-82). This is real-time and concurrency behaviour. In the model, the capture sees every sample of the line, none lost to an interrupt.
- The two ways of sampling the line in `expectPulse`: AVR direct register reads and `digitalRead` (DHTSimple.cpp:163-178). Both become one sample of `line`. `_bit`, `_port`, `digitalPinToBitMask` and `digitalPinToPort` are not modelled.
- The 16-bit counter used on AVR at 16 MHz or less (DHTSimple.cpp:159). The model uses the 32-bit counter. With a 16-bit counter and `_maxcycles` > 65535, the count would wrap and the loop would never time out.
- `microsecondsToClockCycles(1000)` (DHTSimple.cpp:17): the cycle budget is a parameter of `Begin`.
- Floating point (DHTSimple.cpp:116-134): readings are integers in tenths, and `Unavailable` stands for NaN. For a reading of t tenths, the float comparison `> 80.0` holds exactly when t > 800. This is argued from float rounding, not proved.
- TIMEOUT is defined in neither DHTSimple.cpp nor DHTSimple.h. It is a constant of the object, fixed at construction, so every property holds for any value. `expectPulse` is defined as `DHT::expectPulse` but declared in `DHTSimple`. It is modelled as a member of `DHTSimple`.
- DHTSimple.constructor: the C++ constructor leaves the fields uninitialised. The model starts them at zero.
- Debug printing (DHTSimple.h:55-68, DHTSimple.cpp:20, 104-110).

## Findings

| source | as written | input that shows it | evidently intended | confidence | as-written member | corrected member |
|---|---|---|---|---|---|---|
| DHTSimple.cpp:122 | `T == NAN && T < -40.0 \|\| T > 80.0` groups as `(T == NAN && T < -40.0) \|\| T > 80.0`, and `T == NAN` is always false, so only T > 80.0 is rejected | frame 02 8C 99 16 3D (-642.2 degrees) is accepted | reject temperatures outside [-40.0, 80.0] | high, not executed | `Frame.AsWrittenAcceptsLowTemperature` | `Frame.ConvertIntended` |
| DHTSimple.cpp:130 | `H == NAN && H < -0 && H > 100.0` can never hold, so humidity is never rejected | frame 03 E9 00 FA E6 (100.1 %) is accepted | reject humidity outside [0.0, 100.0] | high, not executed | `Frame.AsWrittenAcceptsHighHumidity` | `Frame.ConvertIntended` |
| DHTSimple.cpp:132 | `== NAN` is never true, so the branch that makes both readings NaN and returns false is dead | frame 02 8C 03 21 B2 (80.1 degrees): `Read` returns true with temperature NaN and humidity 65.2 % | both readings unavailable and `Read` returns false | high, not executed | `Frame.AsWrittenPartialReading` | `Frame.IntendedAllOrNothing` |

`Read` follows the code as written and uses `Frame.ConvertAsWritten`.
`Frame.ConvertIntended` is the corrected conversion. `Frame.IntendedAgreesInRange`
shows the two give the same result on every frame the corrected one accepts.
