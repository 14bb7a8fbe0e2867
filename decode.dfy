/** From the 80 captured cycle counts (40 pairs of a low reference pulse and
    a high data pulse) to the five frame bytes. */
module Decode {
  import opened Ints
  import opened Frame

  const PULSE_COUNT: nat := 80

  /** Bit i is a one exactly when its high pulse lasted more cycles than its
      low reference pulse; equal counts give a zero. */
  predicate BitAt(cycles: seq<uint32>, i: nat)
    requires |cycles| == PULSE_COUNT && i < FRAME_BITS
  {
    cycles[2 * i + 1] > cycles[2 * i]
  }

  function Bits(cycles: seq<uint32>): (bits: seq<bool>)
    requires |cycles| == PULSE_COUNT
    ensures |bits| == FRAME_BITS
    ensures forall i :: 0 <= i < FRAME_BITS ==> bits[i] == BitAt(cycles, i)
  {
    seq(FRAME_BITS, i requires 0 <= i < FRAME_BITS => BitAt(cycles, i))
  }

  /** The decoder's failure test for bit i: either count of its pair is 0. */
  predicate PairHasZero(cycles: seq<uint32>, i: nat)
    requires |cycles| == PULSE_COUNT && i < FRAME_BITS
  {
    cycles[2 * i] == 0 || cycles[2 * i + 1] == 0
  }

  /** No pair before bit i holds a 0 count. */
  predicate NoZeroPairBefore(cycles: seq<uint32>, i: nat)
    requires |cycles| == PULSE_COUNT && i <= FRAME_BITS
  {
    forall k :: 0 <= k < i ==> !PairHasZero(cycles, k)
  }

  lemma NoZeroPairExtend(cycles: seq<uint32>, i: nat)
    requires |cycles| == PULSE_COUNT && i < FRAME_BITS
    requires NoZeroPairBefore(cycles, i) && !PairHasZero(cycles, i)
    ensures NoZeroPairBefore(cycles, i + 1)
  {
  }

  /** The first bit index at or after `from` whose pair holds a 0 count, or 40. */
  function FirstZeroPair(cycles: seq<uint32>, from: nat): (i: nat)
    requires |cycles| == PULSE_COUNT && from <= FRAME_BITS
    ensures from <= i <= FRAME_BITS
    ensures forall k :: from <= k < i ==> !PairHasZero(cycles, k)
    ensures i < FRAME_BITS ==> PairHasZero(cycles, i)
    decreases FRAME_BITS - from
  {
    if from == FRAME_BITS then FRAME_BITS
    else if PairHasZero(cycles, from) then from
    else FirstZeroPair(cycles, from + 1)
  }

  lemma {:induction false} FirstZeroPairIs(cycles: seq<uint32>, from: nat, i: nat)
    requires |cycles| == PULSE_COUNT && from <= i <= FRAME_BITS
    requires forall k :: from <= k < i ==> !PairHasZero(cycles, k)
    requires i < FRAME_BITS ==> PairHasZero(cycles, i)
    ensures FirstZeroPair(cycles, from) == i
    decreases i - from
  {
    if from < i {
      FirstZeroPairIs(cycles, from + 1, i);
    }
  }

  datatype DecodeResult =
    | Complete(frame: seq<uint8>)
      /** The loop stopped at bit `bit`; `partial` is what `data` then holds. */
    | PulseTimeout(bit: nat, partial: seq<uint8>)

  /** Lines 86-102: the bits are shifted into an all-zero frame in order;
      the first pair holding a 0 count stops the decoding there. */
  function DecodeCycles(cycles: seq<uint32>): (r: DecodeResult)
    requires |cycles| == PULSE_COUNT
    ensures r.Complete? ==> |r.frame| == FRAME_BYTES
    ensures r.PulseTimeout? ==> r.bit < FRAME_BITS && PairHasZero(cycles, r.bit) && |r.partial| == FRAME_BYTES
  {
    var i := FirstZeroPair(cycles, 0);
    if i < FRAME_BITS then PulseTimeout(i, PartialFrame(Bits(cycles)[..i]))
    else Complete(PartialFrame(Bits(cycles)))
  }

  /** The decoder stops at bit i when every earlier pair is nonzero and pair
      i holds a 0, or completes when i is 40 and no pair does. */
  lemma DecodeStopsAt(cycles: seq<uint32>, i: nat)
    requires |cycles| == PULSE_COUNT && i <= FRAME_BITS
    requires NoZeroPairBefore(cycles, i)
    requires i < FRAME_BITS ==> PairHasZero(cycles, i)
    ensures DecodeCycles(cycles) == if i < FRAME_BITS then PulseTimeout(i, PartialFrame(Bits(cycles)[..i]))
                                    else Complete(PartialFrame(Bits(cycles)[..i]))
  {
    FirstZeroPairIs(cycles, 0, i);
    assert Bits(cycles)[..FRAME_BITS] == Bits(cycles);
  }

  /** A full decode: byte j is the weighted sum of bits 8j..8j+7, most
      significant first, every bit decided by its own pair of counts. */
  lemma DecodedBytes(cycles: seq<uint32>)
    requires |cycles| == PULSE_COUNT && DecodeCycles(cycles).Complete?
    ensures forall k :: 0 <= k < FRAME_BITS ==> !PairHasZero(cycles, k)
    ensures var frame := DecodeCycles(cycles).frame;
            |frame| == FRAME_BYTES
            && forall j :: 0 <= j < FRAME_BYTES ==>
                 frame[j] == WeightedSum(Bits(cycles)[8 * j..8 * j + 8])
  {
    var bits := Bits(cycles);
    var frame := DecodeCycles(cycles).frame;
    forall j | 0 <= j < FRAME_BYTES
      ensures frame[j] == WeightedSum(bits[8 * j..8 * j + 8])
    {
      assert ByteBits(bits, j) == bits[8 * j..8 * j + 8];
      PackBitsIsWeightedSum(bits[8 * j..8 * j + 8]);
    }
  }

  /** A decode that stops at bit i: every earlier pair was nonzero, pair i
      holds a 0, the bytes before i/8 are complete, byte i/8 holds the i%8
      bits before i, and every later byte is still zero. */
  lemma TimedOutBytes(cycles: seq<uint32>)
    requires |cycles| == PULSE_COUNT && DecodeCycles(cycles).PulseTimeout?
    ensures var r := DecodeCycles(cycles);
            var i := r.bit;
            i < FRAME_BITS && PairHasZero(cycles, i)
            && (forall k :: 0 <= k < i ==> !PairHasZero(cycles, k))
            && |r.partial| == FRAME_BYTES
            && (forall j :: 0 <= j < i / 8 ==> r.partial[j] == PackBits(Bits(cycles)[8 * j..8 * j + 8]))
            && r.partial[i / 8] == PackBits(Bits(cycles)[8 * (i / 8)..i])
            && (forall j :: i / 8 < j < FRAME_BYTES ==> r.partial[j] == 0)
  {
    var r := DecodeCycles(cycles);
    var i := r.bit;
    var pre := Bits(cycles)[..i];
    forall j | 0 <= j < i / 8
      ensures r.partial[j] == PackBits(Bits(cycles)[8 * j..8 * j + 8])
    {
      assert ByteBits(pre, j) == Bits(cycles)[8 * j..8 * j + 8];
    }
    assert ByteBits(pre, i / 8) == Bits(cycles)[8 * (i / 8)..i];
  }

  /** The counts a sensor's waveform produces for a bit string: a low
      reference of `low` cycles, then a high pulse of `one` cycles for a one
      and `zero` cycles for a zero. */
  function EncodeCycles(bits: seq<bool>, low: uint32, zero: uint32, one: uint32): (cycles: seq<uint32>)
    ensures |cycles| == 2 * |bits|
  {
    if bits == [] then []
    else EncodeCycles(bits[..|bits| - 1], low, zero, one)
         + [low, if bits[|bits| - 1] then one else zero]
  }

  lemma {:induction false} EncodeCyclesAt(bits: seq<bool>, low: uint32, zero: uint32, one: uint32, i: nat)
    requires i < |bits|
    ensures var cycles := EncodeCycles(bits, low, zero, one);
            cycles[2 * i] == low && cycles[2 * i + 1] == (if bits[i] then one else zero)
    decreases |bits|
  {
    if i < |bits| - 1 {
      EncodeCyclesAt(bits[..|bits| - 1], low, zero, one, i);
    }
  }

  lemma {:induction false} EncodeCyclesBounded(bits: seq<bool>, low: uint32, zero: uint32, one: uint32, bound: nat)
    requires low <= bound && zero <= bound && one <= bound
    ensures forall k :: 0 <= k < 2 * |bits| ==> EncodeCycles(bits, low, zero, one)[k] <= bound
    decreases |bits|
  {
    if bits != [] {
      EncodeCyclesBounded(bits[..|bits| - 1], low, zero, one, bound);
    }
  }

  /** Round trip: whenever the zero pulse is no longer than the reference and
      the one pulse longer, and no count is 0, decoding the counts of a
      frame's waveform rebuilds exactly that frame. */
  lemma DecodeEncodedFrame(frame: seq<uint8>, low: uint32, zero: uint32, one: uint32)
    requires |frame| == FRAME_BYTES
    requires 0 < zero <= low < one
    ensures DecodeCycles(EncodeCycles(FrameBits(frame), low, zero, one)) == Complete(frame)
  {
    var bits := FrameBits(frame);
    var cycles := EncodeCycles(bits, low, zero, one);
    forall i | 0 <= i < FRAME_BITS
      ensures Bits(cycles)[i] == bits[i] && !PairHasZero(cycles, i)
    {
      EncodeCyclesAt(bits, low, zero, one, i);
    }
    assert Bits(cycles) == bits;
    FrameBitsRoundTrip(frame);
  }
}
