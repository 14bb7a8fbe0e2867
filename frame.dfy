/** The DHT22/AM2302 40-bit frame: five bytes `[humidity high, humidity low,
    temperature high, temperature low, checksum]`, the most significant bit of
    every byte sent first; its additive checksum; and its conversion to
    readings in tenths of a unit. */
module Frame {
  import opened Ints

  const FRAME_BYTES: nat := 5
  const FRAME_BITS: nat := 40

  /** A reading in tenths of its unit (percent relative humidity, degrees
      Celsius), or the NaN the source stores when no reading is available. */
  datatype Reading = Unavailable | Tenths(value: int)

  /** What the conversion step hands back to the caller of `Read`. */
  datatype Conversion = Conversion(ok: bool, temperature: Reading, humidity: Reading)

  const FAILED: Conversion := Conversion(false, Unavailable, Unavailable)

  // ---------------------------------------------------------------------------
  // Bits and bytes

  function BitValue(b: bool): nat
  {
    if b then 1 else 0
  }

  /** Value of a bit string read most significant bit first, built the way the
      decoder builds it: every new bit shifts what came before left by one. */
  function PackBits(bits: seq<bool>): (v: nat)
    ensures v < Pow2(|bits|)
    decreases |bits|
  {
    if bits == [] then 0
    else 2 * PackBits(bits[..|bits| - 1]) + BitValue(bits[|bits| - 1])
  }

  /** Reference definition of the same value: bit k of an n-bit string weighs
      2^(n-1-k). */
  function WeightedSum(bits: seq<bool>): nat
  {
    if bits == [] then 0
    else BitValue(bits[0]) * Pow2(|bits| - 1) + WeightedSum(bits[1..])
  }

  lemma {:induction false} PackBitsPrepend(b: bool, bits: seq<bool>)
    ensures PackBits([b] + bits) == BitValue(b) * Pow2(|bits|) + PackBits(bits)
    decreases |bits|
  {
    var s := [b] + bits;
    if bits == [] {
      assert s[..|s| - 1] == [];
    } else {
      var init, last := bits[..|bits| - 1], bits[|bits| - 1];
      assert s[..|s| - 1] == [b] + init;
      assert s[|s| - 1] == last;
      assert PackBits(s) == 2 * PackBits([b] + init) + BitValue(last);
      PackBitsPrepend(b, init);
      assert Pow2(|bits|) == 2 * Pow2(|init|);
      assert 2 * (BitValue(b) * Pow2(|init|)) == BitValue(b) * Pow2(|bits|);
      assert PackBits(bits) == 2 * PackBits(init) + BitValue(last);
    }
  }

  /** Shifting-in bit by bit gives the weighted sum of the bits. */
  lemma {:induction false} PackBitsIsWeightedSum(bits: seq<bool>)
    ensures PackBits(bits) == WeightedSum(bits)
  {
    if bits != [] {
      assert bits == [bits[0]] + bits[1..];
      PackBitsPrepend(bits[0], bits[1..]);
      PackBitsIsWeightedSum(bits[1..]);
    }
  }

  /** The n low bits of v, most significant first: the inverse of PackBits. */
  function Unpack(v: nat, n: nat): (bits: seq<bool>)
    ensures |bits| == n
  {
    if n == 0 then [] else Unpack(v / 2, n - 1) + [v % 2 == 1]
  }

  lemma {:induction false} PackUnpack(v: nat, n: nat)
    requires v < Pow2(n)
    ensures PackBits(Unpack(v, n)) == v
  {
    if n > 0 {
      var s := Unpack(v, n);
      assert s[..n - 1] == Unpack(v / 2, n - 1);
      PackUnpack(v / 2, n - 1);
    }
  }

  lemma {:induction false} UnpackPack(bits: seq<bool>)
    ensures Unpack(PackBits(bits), |bits|) == bits
    decreases |bits|
  {
    if bits != [] {
      var init := bits[..|bits| - 1];
      UnpackPack(init);
      assert bits == init + [bits[|bits| - 1]];
    }
  }

  // ---------------------------------------------------------------------------
  // Filling the five frame bytes from the received bits

  function Min(a: nat, b: nat): nat
  {
    if a <= b then a else b
  }

  /** The bits, among those received so far, that belong to frame byte j. */
  function ByteBits(bits: seq<bool>, j: nat): (s: seq<bool>)
    ensures |s| <= 8
  {
    bits[Min(8 * j, |bits|)..Min(8 * j + 8, |bits|)]
  }

  function ByteOf(bits: seq<bool>, j: nat): (b: uint8)
    ensures b < Pow2(|ByteBits(bits, j)|)
  {
    var s := ByteBits(bits, j);
    Pow2Monotone(|s|, 8);
    PackBits(s)
  }

  /** The five frame bytes after the given bits have been shifted in, byte by
      byte and most significant bit first, starting from an all-zero frame. */
  function PartialFrame(bits: seq<bool>): (frame: seq<uint8>)
    ensures |frame| == FRAME_BYTES
  {
    seq(FRAME_BYTES, j requires 0 <= j < FRAME_BYTES => ByteOf(bits, j))
  }

  /** A byte that no received bit has reached is still zero. */
  lemma PartialFrameUnreached(bits: seq<bool>)
    ensures forall j :: 0 <= j < FRAME_BYTES && |bits| <= 8 * j ==> PartialFrame(bits)[j] == 0
  {
  }

  const ZERO_FRAME: seq<uint8> := [0, 0, 0, 0, 0]

  lemma EmptyPartialFrame()
    ensures PartialFrame([]) == ZERO_FRAME
  {
  }

  /** Receiving bit i, which belongs to byte q, appends it to the bits of
      byte q, which held fewer than 8, and leaves the bits of the other
      bytes as they were. */
  lemma ByteBitsStep(bits: seq<bool>, i: nat, q: nat)
    requires i < |bits| && 8 * q <= i < 8 * q + 8
    ensures ByteBits(bits[..i + 1], q) == ByteBits(bits[..i], q) + [bits[i]]
    ensures |ByteBits(bits[..i], q)| == i - 8 * q
    ensures forall j :: 0 <= j < FRAME_BYTES && j != q ==> ByteBits(bits[..i + 1], j) == ByteBits(bits[..i], j)
  {
    var pre, post := bits[..i], bits[..i + 1];
    assert ByteBits(pre, q) == bits[8 * q..i];
    assert ByteBits(post, q) == bits[8 * q..i + 1];
    forall j | 0 <= j < FRAME_BYTES && j != q
      ensures ByteBits(post, j) == ByteBits(pre, j)
    {
      if j < q {
        assert ByteBits(post, j) == bits[8 * j..8 * j + 8];
        assert ByteBits(pre, j) == bits[8 * j..8 * j + 8];
      } else {
        assert ByteBits(post, j) == [];
        assert ByteBits(pre, j) == [];
      }
    }
  }

  /** So byte q is shifted left and, for a one, has its lowest bit set; no
      set bit is lost, since it held at most 7 bits. */
  lemma ByteOfStep(bits: seq<bool>, i: nat, q: nat)
    requires i < |bits| && 8 * q <= i < 8 * q + 8
    ensures var shifted := ShiftLeft(ByteOf(bits[..i], q));
            ByteOf(bits[..i + 1], q) == if bits[i] then OrOne(shifted) else shifted
  {
    ByteBitsStep(bits, i, q);
    var s := ByteBits(bits[..i], q);
    var t := ByteBits(bits[..i + 1], q);
    assert t[..|t| - 1] == s;
    Pow2Monotone(|s|, 7);
  }

  /** The decoder's step on the frame so far: shifting bit i in turns the
      partial frame of bits ..i into that of bits ..i+1. It changes byte i/8
      only, which is shifted left and, for a one, has its lowest bit set. */
  lemma PartialFrameStep(bits: seq<bool>, i: nat, frame: seq<uint8>, bit: bool)
    requires i < |bits| && i < FRAME_BITS
    requires frame == PartialFrame(bits[..i]) && bit == bits[i]
    ensures |frame| == FRAME_BYTES
    ensures PartialFrame(bits[..i + 1])
            == frame[i / 8 := if bit then OrOne(ShiftLeft(frame[i / 8])) else ShiftLeft(frame[i / 8])]
  {
    var q := i / 8;
    var pre, post := bits[..i], bits[..i + 1];
    var byte := if bit then OrOne(ShiftLeft(frame[q])) else ShiftLeft(frame[q]);
    ByteBitsStep(bits, i, q);
    ByteOfStep(bits, i, q);
    forall j | 0 <= j < FRAME_BYTES
      ensures PartialFrame(post)[j] == frame[q := byte][j]
    {
      if j != q {
        assert ByteBits(post, j) == ByteBits(pre, j);
      }
    }
  }

  /** The 40 bits of a frame in transmission order. */
  function FrameBits(frame: seq<uint8>): (bits: seq<bool>)
    ensures |bits| == 8 * |frame|
  {
    if frame == [] then [] else Unpack(frame[0], 8) + FrameBits(frame[1..])
  }

  lemma SliceAfter(a: seq<bool>, b: seq<bool>, lo: nat, hi: nat)
    requires |a| <= lo <= hi <= |a| + |b|
    ensures (a + b)[lo..hi] == b[lo - |a|..hi - |a|]
  {
  }

  lemma {:induction false} FrameBitsSlice(frame: seq<uint8>, j: nat)
    requires j < |frame|
    ensures FrameBits(frame)[8 * j..8 * j + 8] == Unpack(frame[j], 8)
  {
    if j > 0 {
      var head, rest := Unpack(frame[0], 8), FrameBits(frame[1..]);
      assert FrameBits(frame) == head + rest;
      FrameBitsSlice(frame[1..], j - 1);
      assert rest[8 * (j - 1)..8 * (j - 1) + 8] == Unpack(frame[j], 8);
      SliceAfter(head, rest, 8 * j, 8 * j + 8);
    }
  }

  /** Decoding the bits of any frame rebuilds that frame. */
  lemma FrameBitsRoundTrip(frame: seq<uint8>)
    requires |frame| == FRAME_BYTES
    ensures PartialFrame(FrameBits(frame)) == frame
  {
    var bits := FrameBits(frame);
    forall j | 0 <= j < FRAME_BYTES
      ensures PartialFrame(bits)[j] == frame[j]
    {
      FrameBitsSlice(frame, j);
      assert ByteBits(bits, j) == Unpack(frame[j], 8);
      PackUnpack(frame[j], 8);
    }
  }

  /** And every 40-bit string is the bit string of the frame it decodes to. */
  lemma FrameBitsOfPartialFrame(bits: seq<bool>)
    requires |bits| == FRAME_BITS
    ensures FrameBits(PartialFrame(bits)) == bits
  {
    var frame := PartialFrame(bits);
    var fb := FrameBits(frame);
    forall j | 0 <= j < FRAME_BYTES
      ensures fb[8 * j..8 * j + 8] == bits[8 * j..8 * j + 8]
    {
      FrameBitsSlice(frame, j);
      assert ByteBits(bits, j) == bits[8 * j..8 * j + 8];
      UnpackPack(bits[8 * j..8 * j + 8]);
    }
    forall k | 0 <= k < FRAME_BITS
      ensures fb[k] == bits[k]
    {
      var j := k / 8;
      assert fb[k] == fb[8 * j..8 * j + 8][k - 8 * j];
      assert bits[k] == bits[8 * j..8 * j + 8][k - 8 * j];
    }
  }

  // ---------------------------------------------------------------------------
  // Checksum

  /** Low byte of the sum of the four data bytes (`& 0xFF` on a non-negative sum). */
  function Checksum(b0: uint8, b1: uint8, b2: uint8, b3: uint8): (c: uint8)
    ensures c <= b0 as int + b1 + b2 + b3
    ensures (b0 as int + b1 + b2 + b3 - c) % 0x100 == 0
  {
    (b0 as int + b1 + b2 + b3) % 0x100
  }

  predicate ChecksumOk(frame: seq<uint8>)
    requires |frame| == FRAME_BYTES
  {
    frame[4] == Checksum(frame[0], frame[1], frame[2], frame[3])
  }

  /** The frame a sensor sends for four data bytes. */
  function WithChecksum(b0: uint8, b1: uint8, b2: uint8, b3: uint8): (frame: seq<uint8>)
    ensures |frame| == FRAME_BYTES && frame[..4] == [b0, b1, b2, b3]
    ensures ChecksumOk(frame)
  {
    [b0, b1, b2, b3, Checksum(b0, b1, b2, b3)]
  }

  /** A frame passes the check exactly when it is the frame a sensor sends
      for its own data bytes. */
  lemma ChecksumOkIff(frame: seq<uint8>)
    requires |frame| == FRAME_BYTES
    ensures ChecksumOk(frame) <==> frame == WithChecksum(frame[0], frame[1], frame[2], frame[3])
  {
  }

  /** The additive checksum catches every error confined to one byte: a
      sensor's frame with byte k replaced by any other value fails the check. */
  lemma SingleByteErrorDetected(b0: uint8, b1: uint8, b2: uint8, b3: uint8, k: nat, b: uint8)
    requires k < FRAME_BYTES && b != WithChecksum(b0, b1, b2, b3)[k]
    ensures !ChecksumOk(WithChecksum(b0, b1, b2, b3)[k := b])
  {
    var frame := WithChecksum(b0, b1, b2, b3);
    var bad := frame[k := b];
    if k < 4 {
      var s := frame[0] as int + frame[1] + frame[2] + frame[3];
      var t := bad[0] as int + bad[1] + bad[2] + bad[3];
      assert t == s + (b - frame[k]);
    }
  }

  // ---------------------------------------------------------------------------
  // Conversion to readings

  /** Relative humidity in tenths of a percent: bytes 0 and 1, big-endian. */
  function HumidityTenths(frame: seq<uint8>): (h: nat)
    requires |frame| == FRAME_BYTES
    ensures h < 0x1_0000
    ensures h / 0x100 == frame[0] && h % 0x100 == frame[1]
  {
    frame[0] as int * 0x100 + frame[1]
  }

  /** Temperature in tenths of a degree Celsius, sign and magnitude: bit 7 of
      byte 2 is the sign, the other 15 bits of bytes 2 and 3 the magnitude. */
  function TemperatureTenths(frame: seq<uint8>): (t: int)
    requires |frame| == FRAME_BYTES
    ensures -0x8000 < t < 0x8000
    ensures t < 0 ==> frame[2] >= 0x80
    ensures t > 0 ==> frame[2] < 0x80
    ensures (if t < 0 then -t else t) % 0x100 == frame[3]
    ensures (if t < 0 then -t else t) / 0x100 == frame[2] % 0x80
  {
    var magnitude := (frame[2] as int % 0x80) * 0x100 + frame[3];
    if frame[2] >= 0x80 then -magnitude else magnitude
  }

  /** The two bytes a sensor sends for a humidity. */
  function EncodeHumidity(h: nat): (bytes: (uint8, uint8))
    requires h < 0x1_0000
  {
    (h / 0x100, h % 0x100)
  }

  /** The two bytes a sensor sends for a temperature (zero is sent positive). */
  function EncodeTemperature(t: int): (bytes: (uint8, uint8))
    requires -0x8000 < t < 0x8000
  {
    var magnitude := if t < 0 then -t else t;
    ((magnitude / 0x100) + (if t < 0 then 0x80 else 0), magnitude % 0x100)
  }

  lemma HumidityRoundTrip(h: nat, t2: uint8, t3: uint8, c: uint8)
    requires h < 0x1_0000
    ensures var (hi, lo) := EncodeHumidity(h);
            HumidityTenths([hi, lo, t2, t3, c]) == h
  {
  }

  lemma TemperatureRoundTrip(t: int, h0: uint8, h1: uint8, c: uint8)
    requires -0x8000 < t < 0x8000
    ensures var (hi, lo) := EncodeTemperature(t);
            TemperatureTenths([h0, h1, hi, lo, c]) == t
  {
  }

  /** Every temperature byte pair is what the sensor sends for the reading it
      decodes to, except "negative zero" 0x80 0x00, which reads as zero. */
  lemma TemperatureBytesRoundTrip(frame: seq<uint8>)
    requires |frame| == FRAME_BYTES
    ensures EncodeTemperature(TemperatureTenths(frame)) == (frame[2], frame[3])
            <==> !(frame[2] == 0x80 && frame[3] == 0)
  {
  }

  /** Line 132 compares a float with NAN using `==`; IEEE 754 makes every
      comparison with a NaN operand false, whatever the other operand is. */
  predicate EqualsNaN(r: Reading)
  {
    false
  }

  /** Lines 113-142 as written: checksum, then the conversion and the three
      range checks with C++'s grouping of `&&` over `||`. */
  function ConvertAsWritten(frame: seq<uint8>): (c: Conversion)
    requires |frame| == FRAME_BYTES
    ensures c.ok <==> ChecksumOk(frame)
    ensures !c.ok ==> c.temperature == Unavailable && c.humidity == Unavailable
  {
    if !ChecksumOk(frame) then FAILED
    else
      var t := TemperatureTenths(frame);
      var temperature :=
        if (EqualsNaN(Tenths(t)) && t < -400) || t > 800 then Unavailable else Tenths(t);
      var h := HumidityTenths(frame);
      var humidity :=
        if EqualsNaN(Tenths(h)) && h < 0 && h > 1000 then Unavailable else Tenths(h);
      if EqualsNaN(temperature) || EqualsNaN(humidity) then FAILED
      else Conversion(true, temperature, humidity)
  }

  /** What the as-written checks amount to: a frame with a good checksum is
      always accepted, its humidity always kept, and its temperature dropped
      only above 80.0 degrees. */
  lemma ConvertAsWrittenEffect(frame: seq<uint8>)
    requires |frame| == FRAME_BYTES && ChecksumOk(frame)
    ensures var c := ConvertAsWritten(frame);
            c.ok
            && c.humidity == Tenths(HumidityTenths(frame))
            && (c.temperature == Unavailable <==> TemperatureTenths(frame) > 800)
            && (c.temperature != Unavailable ==> c.temperature == Tenths(TemperatureTenths(frame)))
  {
  }

  /** The range check the header comment promises: temperature within
      [-40.0, 80.0], humidity within [0.0, 100.0], both or neither. */
  function ConvertIntended(frame: seq<uint8>): (c: Conversion)
    requires |frame| == FRAME_BYTES
    ensures c.ok ==> ChecksumOk(frame)
    ensures c.ok ==> c.temperature.Tenths? && -400 <= c.temperature.value <= 800
    ensures c.ok ==> c.humidity.Tenths? && 0 <= c.humidity.value <= 1000
    ensures !c.ok ==> c == FAILED
    ensures ChecksumOk(frame) && -400 <= TemperatureTenths(frame) <= 800 && HumidityTenths(frame) <= 1000
            ==> c == Conversion(true, Tenths(TemperatureTenths(frame)), Tenths(HumidityTenths(frame)))
  {
    var t := TemperatureTenths(frame);
    var h := HumidityTenths(frame);
    if ChecksumOk(frame) && -400 <= t <= 800 && h <= 1000 then Conversion(true, Tenths(t), Tenths(h))
    else FAILED
  }

  /** Where the intended check accepts, the code as written gives the same
      readings; it differs only on frames the intended check rejects. */
  lemma IntendedAgreesInRange(frame: seq<uint8>)
    requires |frame| == FRAME_BYTES && ConvertIntended(frame).ok
    ensures ConvertAsWritten(frame) == ConvertIntended(frame)
  {
  }

  /** The intended check is all-or-nothing; the one as written is not. */
  lemma IntendedAllOrNothing(frame: seq<uint8>)
    requires |frame| == FRAME_BYTES
    ensures var c := ConvertIntended(frame);
            (c.temperature == Unavailable) == (c.humidity == Unavailable) == !c.ok
  {
  }

  /** Frame 02 8C 99 16 3D, -642.2 degrees, passes the as-written check. */
  lemma AsWrittenAcceptsLowTemperature()
    ensures var frame := WithChecksum(0x02, 0x8C, 0x99, 0x16);
            ConvertAsWritten(frame) == Conversion(true, Tenths(-6422), Tenths(652))
            && !ConvertIntended(frame).ok
  {
  }

  /** 100.1 percent humidity passes the as-written check. */
  lemma AsWrittenAcceptsHighHumidity()
    ensures var frame := WithChecksum(0x03, 0xE9, 0x00, 0xFA);
            ConvertAsWritten(frame) == Conversion(true, Tenths(250), Tenths(1001))
            && !ConvertIntended(frame).ok
  {
  }

  /** 80.1 degrees yields a successful read with a temperature of NaN and a
      humidity, not the all-or-nothing failure. */
  lemma AsWrittenPartialReading()
    ensures var frame := WithChecksum(0x02, 0x8C, 0x03, 0x21);
            ConvertAsWritten(frame) == Conversion(true, Unavailable, Tenths(652))
            && !ConvertIntended(frame).ok
  {
  }

  /** Frame 02 8C 01 02 91 reads as 65.2 percent and 25.8 degrees. */
  lemma ExampleFrame()
    ensures ConvertAsWritten([0x02, 0x8C, 0x01, 0x02, 0x91]) == Conversion(true, Tenths(258), Tenths(652))
  {
  }
}
