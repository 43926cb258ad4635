/** The MCP3008 single-ended read protocol at the byte level: the 3-byte
    command frame the host clocks out for a channel, and the 10-bit sample
    carried back in the 3-byte response frame.

    Channel indices are unbounded `int`s: the source performs no range check,
    and its `byte(...)` conversion keeps the low 8 bits of the shifted value,
    written here as `% 256` (Dafny's `%` is Euclidean, which is exactly the
    two's-complement low byte, also for negative channels). Because 256
    divides both 2^32 and 2^64, the width of Go's `int` on the target does
    not change that low byte. */
module Frame {
  import opened Bits

  /** Go's `byte`. */
  type byte = x: int | 0 <= x < 256

  /** Number of input channels of the converter. */
  const Channels: nat := 8

  /** Largest sample a 10-bit converter can report. */
  const MaxSample: nat := 1023

  /** The 10-bit mask the decoder applies to the assembled response. */
  const SampleMask: nat := 0x3FF

  /** Start bit sent as byte 0 of every command frame. */
  const StartByte: byte := 1

  /** A response buffer: Go allocates it with exactly three bytes and the
      transfer fills it in place, so its length never varies. */
  type Rx = s: seq<byte> | |s| == 3 witness [0, 0, 0]

  /** Go's `byte(x)` conversion: the low 8 bits of a two's-complement
      integer. */
  function ToByte(x: int): (b: byte)
    ensures (x - b) % 256 == 0
    ensures 0 <= x < 256 ==> b == x
  {
    x % 256
  }

  /** Byte 1 of the command frame: `byte((8 + channel) << 4)`, the
      single-ended bit and the channel number moved into the upper nibble.
      After truncation it depends on the channel only modulo 16, and its low
      nibble is always clear. */
  function Selector(channel: int): (b: byte)
    ensures b == ((channel + 8) % 16) * 16
    ensures b % 16 == 0
  {
    Pow2Values();
    ShiftLeftBy(8 + channel, 4, 16);
    NibbleToByte(8 + channel);
    ToByte(ShiftLeft(8 + channel, 4))
  }

  /** Moving a value into the upper nibble and truncating to a byte keeps
      only its low four bits. */
  lemma NibbleToByte(x: int)
    ensures (x * 16) % 256 == (x % 16) * 16
  {
    assert x * 16 == 256 * (x / 16) + 16 * (x % 16);
  }

  /** The command frame sent to read `channel`: start byte, selector byte,
      and a zero byte clocked out while the sample comes back. */
  function EncodeCommand(channel: int): (tx: seq<byte>)
    ensures |tx| == 3
    ensures tx[0] == 1 && tx[2] == 0
    ensures tx[1] % 16 == 0
    ensures 0 <= channel < Channels ==> 0x80 <= tx[1] <= 0xF0
    ensures 0 <= channel < Channels ==> tx[1] == (8 + channel) * 16
  {
    [StartByte, Selector(channel), 0]
  }

  /** The channel a command frame asks for: the selector's upper nibble
      (`tx[1] >> 4`) minus the single-ended bit. */
  function CommandChannel(tx: seq<byte>): (channel: int)
    requires |tx| == 3
    ensures -8 <= channel < 8
  {
    tx[1] as int / 16 - 8
  }

  /** True when the frame selects single-ended rather than differential
      conversion: the top bit of the selector byte is set. */
  predicate IsSingleEnded(tx: seq<byte>)
    requires |tx| == 3
  {
    tx[1] >= 0x80
  }

  /** The sample carried by a response: `(int(rx[1])<<8 | int(rx[2])) & 0x3FF`.
      Both bytes fit in 16 bits once widened, so the Go `int` arithmetic
      never overflows. Byte 0 is not read. */
  function DecodeSample(rx: Rx): (v: int)
    ensures 0 <= v <= MaxSample
  {
    And(Or(ShiftLeft(rx[1], 8), rx[2]), SampleMask)
  }

  /** The response an ideal device sends when it reports sample `v`: any
      leading byte, the two high sample bits in byte 1 (above them, whatever
      the bus happens to carry in `junk`) and the eight low bits in byte 2. */
  function DeviceResponse(lead: byte, junk: nat, v: int): (rx: Rx)
    requires 0 <= v <= MaxSample
    requires junk < 64
    ensures rx[1] % 4 == v / 256
    ensures rx[2] == v % 256
  {
    [lead, junk * 4 + v / 256, v % 256]
  }

  /** Adding the single-ended bit to the channel commutes with reducing it
      to a 4-bit selector, which flips the top bit of the nibble. */
  lemma ShiftModulo16(x: int)
    ensures (x + 8) % 16 == (x % 16 + 8) % 16
    ensures (x + 8) % 16 == if x % 16 < 8 then x % 16 + 8 else x % 16 - 8
  {
    assert x + 8 == 16 * (x / 16) + (x % 16 + 8);
  }

  // ---------------------------------------------------------------------
  // Command frame properties
  // ---------------------------------------------------------------------

  /** For every channel the converter has, the frame reads that channel back:
      the selector nibble minus 8 is the channel, and the single-ended bit
      is set. */
  lemma CommandRoundTrip(channel: int)
    requires 0 <= channel < Channels
    ensures CommandChannel(EncodeCommand(channel)) == channel
    ensures IsSingleEnded(EncodeCommand(channel))
  {
  }

  /** Encoding is injective on the channels the converter has. */
  lemma EncodeInjective(a: int, b: int)
    requires 0 <= a < Channels && 0 <= b < Channels
    ensures EncodeCommand(a) == EncodeCommand(b) <==> a == b
  {
    if EncodeCommand(a) == EncodeCommand(b) {
      CommandRoundTrip(a);
      CommandRoundTrip(b);
    }
  }

  /** Outside 0..7 nothing is rejected: two channels give the same frame
      exactly when they agree modulo 16. */
  lemma EncodeWrapsModulo16(a: int, b: int)
    ensures EncodeCommand(a) == EncodeCommand(b) <==> a % 16 == b % 16
  {
    var ta, tb := EncodeCommand(a), EncodeCommand(b);
    ShiftModulo16(a);
    ShiftModulo16(b);
    var na, nb := (a + 8) % 16, (b + 8) % 16;
    assert ta[1] == na * 16 && tb[1] == nb * 16;
    if a % 16 == b % 16 {
      assert ta == [ta[0], ta[1], ta[2]] == tb;
    } else {
      assert na != nb;
      assert ta[1] != tb[1];
    }
  }

  /** The single-ended bit is set exactly for channels congruent to 0..7
      modulo 16; any other index silently requests a differential read. */
  lemma SingleEndedExactly(channel: int)
    ensures IsSingleEnded(EncodeCommand(channel)) <==> channel % 16 < 8
  {
    ShiftModulo16(channel);
  }

  /** Channel 8, the first index past the end, wraps to selector byte 0. */
  lemma ChannelEightWrapsToZero()
    ensures EncodeCommand(8) == [1, 0, 0]
  {
  }

  // ---------------------------------------------------------------------
  // Response decoding properties
  // ---------------------------------------------------------------------

  /** Arithmetic reading of the bitwise decoder: the low two bits of byte 1
      are sample bits 9..8 and byte 2 is bits 7..0. */
  lemma DecodeArithmetic(rx: Rx)
    ensures DecodeSample(rx) == (rx[1] as int % 4) * 256 + rx[2] as int
  {
    Pow2Values();
    // Shifting byte 1 clear of byte 2 makes the OR an addition.
    var b1: int, b2: int := rx[1], rx[2];
    ShiftLeftBy(b1, 8, 256);
    OrDisjoint(b1, b2, 8, 256);
    // The mask then drops every bit of byte 1 above bit 1.
    assert b1 * 256 + b2 == (b1 / 4) * 1024 + ((b1 % 4) * 256 + b2);
    AndLowMask(b1 / 4, (b1 % 4) * 256 + b2, 10, 1024);
  }

  /** Only the low two bits of byte 1 and all of byte 2 matter: byte 0 and
      the upper six bits of byte 1 are ignored. */
  lemma DecodeIgnoresOtherBits(rx: Rx, rx': Rx)
    requires rx[1] % 4 == rx'[1] % 4
    requires rx[2] == rx'[2]
    ensures DecodeSample(rx) == DecodeSample(rx')
  {
    DecodeArithmetic(rx);
    DecodeArithmetic(rx');
  }

  /** Decoding inverts the ideal device: whatever it puts in byte 0 and in
      the unused upper bits of byte 1, the host reads back the sample. */
  lemma DecodeDeviceRoundTrip(lead: byte, junk: nat, v: int)
    requires 0 <= v <= MaxSample
    requires junk < 64
    ensures DecodeSample(DeviceResponse(lead, junk, v)) == v
  {
    DecodeArithmetic(DeviceResponse(lead, junk, v));
  }

  /** Every sample in range is the decoding of some response. */
  lemma DecodeSurjective(v: int)
    requires 0 <= v <= MaxSample
    ensures exists rx: Rx :: DecodeSample(rx) == v
  {
    DecodeDeviceRoundTrip(0, 0, v);
  }

  /** For example, a response `[_, 0x01, 0xFF]` is sample 511, whatever its
      first byte. */
  lemma DecodeExample(rx: Rx)
    requires rx[1] == 0x01 && rx[2] == 0xFF
    ensures DecodeSample(rx) == 511
  {
    DecodeIgnoresOtherBits(rx, DeviceResponse(0, 0, 511));
    DecodeDeviceRoundTrip(0, 0, 511);
  }
}
