/**
 One millisecond of one stream: a three-byte header and 1024 three-byte samples.

 The sources take the bytes apart with masks and shifts; here that is written
 with quotients and remainders, and the lemmas on bit vectors tie the two
 notations together.
 */
module Frames {
  import opened Bytes

  const HEADER: byte := 0xAA
  const SAMPLES_PER_MS: nat := 1024
  const BYTES_PER_MS: nat := 3075

  /** The masks and shifts the reader applies to a single byte. */
  lemma MasksAreQuotients(b: bv8)
    ensures (b & 0xFC == 0x80) <==> (b as int) / 4 == 32
    ensures (b & 0x03) as int == (b as int) % 4
    ensures ((b & 0xC0) >> 6) as int == (b as int) / 64
    ensures (b & 0x3F) as int == (b as int) % 64
  {
  }

  /** The two bytes the producer puts together from parts. */
  lemma OrIsSum(gain: bv8, high: bv8)
    ensures ((gain & 0x03) << 6) | (high & 0x3F) == (gain & 0x03) * 64 + (high & 0x3F)
    ensures 0x80 | (high & 0x03) == 128 + (high & 0x03)
  {
  }

  /** The shifts and ors of a sample's three bytes, on 32-bit words, in both directions. */
  lemma ShiftsAreProducts(b0: bv32, b1: bv32, b2: bv32, i: bv32)
    requires b0 < 0x100 && b1 < 0x100 && b2 < 0x100 && i < 0x400
    ensures ((b0 & 0x3F) << 16) + (b1 << 8) + b2 == b0 % 0x40 * 0x1_0000 + b1 * 0x100 + b2
    ensures (i << 12) | 0xAA == i * 0x1000 + 0xAA
  {
  }

  lemma BytesAreQuotients(rawVal: bv32)
    ensures (rawVal >> 16) & 0x3F == rawVal / 0x1_0000 % 0x40
    ensures (rawVal >> 8) & 0xFF == rawVal / 0x100 % 0x100
    ensures rawVal & 0xFF == rawVal % 0x100
  {
  }

  /** The shifts by the gain, on 64-bit words. */
  lemma ShiftBy8(rawVal: bv64)
    ensures rawVal << 8 == rawVal * 0x100
  {
  }

  lemma ShiftBy16(rawVal: bv64)
    ensures rawVal << 16 == rawVal * 0x1_0000
  {
  }

  lemma ShiftBy24(rawVal: bv64)
    ensures rawVal << 24 == rawVal * 0x100_0000
  {
  }

  /** First header byte, and the quotient that the mask of the second leaves. */
  predicate IsHeader(b0: byte, b1: byte) {
    b0 == HEADER && b1 / 4 == 32
  }

  /** The header test and the counter as the reader writes them, with masks and shifts. */
  lemma HeaderBits(b0: bv8, b1: bv8, b2: bv8)
    ensures IsHeader(b0 as int, b1 as int) <==> b0 == 0xAA && b1 & 0xFC == 0x80
    ensures b1 & 0x03 == b1 % 4
  {
    MasksAreQuotients(b1);
  }

  predicate IsFrame(frame: bytes) {
    |frame| == BYTES_PER_MS && IsHeader(frame[0], frame[1])
  }

  /** The ten-bit counter in the header. */
  function HeaderMs(frame: bytes): nat
    requires |frame| == BYTES_PER_MS
  {
    (frame[1] as int) % 4 * 256 + frame[2]
  }

  // ------------------------------------------------------------------
  // Samples
  // ------------------------------------------------------------------

  type Raw = x: int | 0 <= x < 0x40_0000

  /** 2 to the power 8 * (3 - gain). */
  function Scale(gain: nat): nat
    requires gain < 4
  {
    match gain
    case 0 => 0x100_0000
    case 1 => 0x1_0000
    case 2 => 0x100
    case 3 => 1
  }

  /** 2 to the power n, by doubling. */
  function Pow2(n: nat): nat {
    if n == 0 then 1 else 2 * Pow2(n - 1)
  }

  lemma PowersOf256()
    ensures Pow2(0) == 1 && Pow2(8) == 0x100 && Pow2(16) == 0x1_0000 && Pow2(24) == 0x100_0000
  {
    assert Pow2(8) == 0x100;
    assert Pow2(12) == 0x1000;
    assert Pow2(16) == 0x1_0000;
    assert Pow2(20) == 0x10_0000;
  }

  /** A sample is shifted left by eight bits for every step that its gain is below 3. */
  lemma ScaleIsShift(gain: nat)
    requires gain < 4
    ensures Scale(gain) == Pow2(8 * (3 - gain))
  {
    PowersOf256();
  }

  function RawOf(b0: byte, b1: byte, b2: byte): Raw {
    (b0 as int) % 64 * 0x1_0000 + (b1 as int) * 0x100 + b2
  }

  /** The sample whose first byte is at j: two bits of gain over 22 bits of value. */
  function SampleAt(frame: bytes, j: nat): nat
    requires j + 2 < |frame|
  {
    RawOf(frame[j], frame[j + 1], frame[j + 2]) * Scale(frame[j] / 64)
  }

  function Samples(frame: bytes): seq<nat>
    requires |frame| == BYTES_PER_MS
  {
    seq(SAMPLES_PER_MS, i requires 0 <= i < SAMPLES_PER_MS => SampleAt(frame, 3 + 3 * i))
  }

  function SwapHalves(s: seq<nat>): (r: seq<nat>)
    requires |s| == SAMPLES_PER_MS
    ensures |r| == |s|
  {
    s[SAMPLES_PER_MS / 2..] + s[..SAMPLES_PER_MS / 2]
  }

  /** What one frame puts into a row. */
  function Decode(frame: bytes): (data: seq<nat>)
    requires |frame| == BYTES_PER_MS
    ensures |data| == SAMPLES_PER_MS
  {
    SwapHalves(Samples(frame))
  }

  /** The value of a sample: 22 bits, shifted left by 8 * (3 - gain), where the gain is the first byte's top two bits. */
  ghost function Shifted(b0: byte, b1: byte, b2: byte): nat {
    (b0 % 64 * 65536 + b1 * 256 + b2) * Pow2(8 * (3 - b0 / 64))
  }

  /** Sample i goes half a millisecond further on, around the end. */
  lemma Swapped(s: seq<nat>, i: nat)
    requires |s| == SAMPLES_PER_MS && i < 1024
    ensures SwapHalves(s)[(i + 512) % 1024] == s[i]
  {
  }

  /** Where each sample of a frame goes, and its value. */
  lemma DecodedSample(frame: bytes, i: nat)
    requires |frame| == BYTES_PER_MS && i < 1024
    ensures Decode(frame)[(i + 512) % 1024] == Shifted(frame[3 + 3 * i], frame[4 + 3 * i], frame[5 + 3 * i])
  {
    hide Pow2;
    hide Scale;
    hide SwapHalves;
    ScaleIsShift(frame[3 + 3 * i] / 64);
    Swapped(Samples(frame), i);
  }

  /** Sums of these over 2^18 rows stay below 2^64. */
  lemma SamplesAreSmall(frame: bytes, i: nat)
    requires |frame| == BYTES_PER_MS && i < SAMPLES_PER_MS
    ensures Decode(frame)[i] < 0x4000_0000_0000
  {
    hide Scale;
    hide SwapHalves;
    hide RawOf;
    var k := if i < 512 then i + 512 else i - 512;
    var j := 3 + 3 * k;
    Swapped(Samples(frame), k);
    ScaleBound(RawOf(frame[j], frame[j + 1], frame[j + 2]), frame[j] / 64);
  }

  lemma ScaleBound(raw: Raw, gain: nat)
    requires gain < 4
    ensures raw * Scale(gain) < 0x4000_0000_0000
  {
  }

  lemma SwapTwice(s: seq<nat>)
    requires |s| == SAMPLES_PER_MS
    ensures SwapHalves(SwapHalves(s)) == s
  {
    assert s[512..] + s[..512] == SwapHalves(s);
    assert SwapHalves(s)[512..] == s[..512] && SwapHalves(s)[..512] == s[512..];
  }

  /** The processor's loop over a frame, and its swap of the two halves. */
  method DecodeFrame(frame: bytes) returns (data: seq<nat>)
    requires |frame| == BYTES_PER_MS
    ensures data == Decode(frame)
    ensures forall i :: 0 <= i < 1024 ==> data[(i + 512) % 1024] == Shifted(frame[3 + 3 * i], frame[4 + 3 * i], frame[5 + 3 * i])
  {
    hide Pow2;
    hide Shifted;
    var oneStreamSample := new nat[SAMPLES_PER_MS];
    var j := 3;
    while j < BYTES_PER_MS
      invariant 3 <= j <= BYTES_PER_MS && j % 3 == 0
      invariant oneStreamSample[..j / 3 - 1] == Samples(frame)[..j / 3 - 1]
    {
      var gain := frame[j] / 64;
      var rawVal := (frame[j] as int) % 64 * 0x1_0000 + (frame[j + 1] as int) * 0x100 + frame[j + 2];
      var realVal := rawVal * Scale(gain);
      oneStreamSample[j / 3 - 1] := realVal;
      assert Samples(frame)[j / 3 - 1] == SampleAt(frame, j);
      j := j + 3;
    }
    assert oneStreamSample[..] == Samples(frame);
    data := oneStreamSample[SAMPLES_PER_MS / 2..] + oneStreamSample[..SAMPLES_PER_MS / 2];
    assert data == Decode(frame);
    forall i | 0 <= i < 1024
      ensures data[(i + 512) % 1024] == Shifted(frame[3 + 3 * i], frame[4 + 3 * i], frame[5 + 3 * i])
    {
      DecodedSample(frame, i);
    }
  }

  // ------------------------------------------------------------------
  // The producer's side
  // ------------------------------------------------------------------

  /** Where and how the producer lays out samples of one gain, under a header for `ms`. */
  ghost predicate LaidOut(frame: bytes, ms: nat, gain: nat, raws: seq<Raw>) {
    && |frame| == BYTES_PER_MS && |raws| == SAMPLES_PER_MS
    && frame[0] == HEADER && frame[1] == 128 + ms / 256 % 4 && frame[2] == ms % 256
    && SamplesLaidOut(frame, gain, raws, SAMPLES_PER_MS)
  }

  ghost predicate SamplesLaidOut(frame: bytes, gain: nat, raws: seq<Raw>, n: nat)
    requires |frame| == BYTES_PER_MS && |raws| == SAMPLES_PER_MS && n <= SAMPLES_PER_MS
  {
    forall i :: 0 <= i < n ==>
      && frame[3 + i * 3] == gain % 4 * 64 + raws[i] / 0x1_0000 % 64
      && frame[3 + i * 3 + 1] == raws[i] / 0x100 % 256
      && frame[3 + i * 3 + 2] == raws[i] % 256
  }

  method EncodeFrame(dataBuffer: array<byte>, currentMs: nat, gain: nat, raws: seq<Raw>)
    requires dataBuffer.Length == BYTES_PER_MS && |raws| == SAMPLES_PER_MS
    modifies dataBuffer
    ensures LaidOut(dataBuffer[..], currentMs, gain, raws)
  {
    for i := 0 to SAMPLES_PER_MS
      invariant SamplesLaidOut(dataBuffer[..], gain, raws, i)
    {
      var rawVal := raws[i];
      var offset := 3 + i * 3;
      dataBuffer[offset] := gain % 4 * 64 + rawVal / 0x1_0000 % 64;
      dataBuffer[offset + 1] := rawVal / 0x100 % 256;
      dataBuffer[offset + 2] := rawVal % 256;
    }
    dataBuffer[0] := HEADER;
    dataBuffer[1] := 128 + currentMs / 256 % 4;
    dataBuffer[2] := currentMs % 256;
  }

  lemma BytesOfRaw(raw: Raw)
    ensures raw == raw / 0x1_0000 * 0x1_0000 + raw / 0x100 % 256 * 0x100 + raw % 256
  {
    var q := raw / 0x100;
    assert q / 0x100 == raw / 0x1_0000;
  }

  /** One sample survives the three bytes it is spread over. */
  lemma SampleRoundTrip(raw: Raw, gain: nat, b0: byte, b1: byte, b2: byte)
    requires gain < 4
    requires b0 == gain % 4 * 64 + raw / 0x1_0000 % 64 && b1 == raw / 0x100 % 256 && b2 == raw % 256
    ensures b0 / 64 == gain && RawOf(b0, b1, b2) == raw
  {
    var high := raw / 0x1_0000;
    assert high < 64;
    assert b0 == gain * 64 + high;
    assert b0 / 64 == gain && (b0 as int) % 64 == high;
    BytesOfRaw(raw);
  }

  lemma EncodedSampleDecodes(frame: bytes, gain: nat, raws: seq<Raw>, i: nat)
    requires |frame| == BYTES_PER_MS && |raws| == SAMPLES_PER_MS && gain < 4
    requires SamplesLaidOut(frame, gain, raws, SAMPLES_PER_MS) && i < SAMPLES_PER_MS
    ensures SampleAt(frame, 3 + 3 * i) == raws[i] * Scale(gain)
  {
    var j := 3 + i * 3;
    SampleRoundTrip(raws[i], gain, frame[j], frame[j + 1], frame[j + 2]);
  }

  /**
   What the producer encodes is recognised, keeps its counter, and decodes to the
   samples shifted by the gain, sample i half a millisecond further on.
   */
  lemma EncodedFrameDecodes(frame: bytes, ms: nat, gain: nat, raws: seq<Raw>)
    requires LaidOut(frame, ms, gain, raws) && ms < 1000 && gain < 4
    ensures IsFrame(frame) && HeaderMs(frame) == ms
    ensures Samples(frame) == seq(SAMPLES_PER_MS, i requires 0 <= i < SAMPLES_PER_MS => raws[i] * Scale(gain))
    ensures forall i :: 0 <= i < 1024 ==> Decode(frame)[(i + 512) % 1024] == raws[i] * Pow2(8 * (3 - gain))
  {
    hide Pow2;
    hide Scale;
    hide SwapHalves;
    hide SampleAt;
    hide SamplesLaidOut;
    var scaled := seq(SAMPLES_PER_MS, i requires 0 <= i < SAMPLES_PER_MS => raws[i] * Scale(gain));
    forall i | 0 <= i < SAMPLES_PER_MS
      ensures Samples(frame)[i] == scaled[i]
    {
      EncodedSampleDecodes(frame, gain, raws, i);
    }
    assert Samples(frame) == scaled;
    ScaleIsShift(gain);
    forall i | 0 <= i < 1024
      ensures SwapHalves(scaled)[(i + 512) % 1024] == raws[i] * Pow2(8 * (3 - gain))
    {
      Swapped(scaled, i);
    }
  }
}
