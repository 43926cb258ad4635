# MCP3008 read protocol

This project models how the `mcp3008-go` poller reads an MCP3008. The MCP3008 is an
8-channel, 10-bit analog-to-digital converter on an SPI bus. The model covers three steps:

- **Command frame.** `readMCP3008` builds a 3-byte frame for a channel: the start byte 1, then
  `byte((8 + channel) << 4)`, then 0.
- **Response decoding.** It turns the 3-byte response into a sample with
  `(int(rx[1])<<8 | int(rx[2])) & 0x3FF`.
- **Collection.** `readAllChannels` reads channels 0 to 7 in order. It stops at the first
  transport error and returns only that error, without the samples it had already read.

The modules follow that structure:

- `Bits` (`bits.dfy`) defines Go's `|` and `&` on non-negative integers one bit at a time, and
  `<<` on any integer as multiplication by a power of two. The decoder can then be written with
  the same operators as the source. The module proves that `|` and `&` act bit by bit, and
  what they compute when the operands' bits do not overlap.
- `Frame` (`frame.dfy`) covers command encoding, response decoding and their properties.
- `Bus` (`bus.dfy`) models the SPI connection as an oracle. `answer(i)` is what the i-th
  transfer yields: either three received bytes or a transport error. The connection also keeps
  a log of the frames sent so far.
- `Reader` (`reader.dfy`) models `readMCP3008` and `readAllChannels`. Go's `(value, error)`
  pairs are kept as pairs, with `None` standing for `nil`.

Channel numbers are unbounded integers, because the source never checks the range. Go's
`byte(...)` keeps the low 8 bits of the two's-complement value. The model writes this as
Dafny's Euclidean `% 256`, which gives the same byte for negative values too. The width of Go's
`int` (32 or 64 bits) does not affect that byte.

Where the intended behaviour and the code disagree, the model follows the code. A channel
outside 0..7 is meant to be a caller error with undefined effect. The code accepts any channel and wraps
it modulo 16. Channels 8..15 (and -8..-1) clear the single-ended bit and so request a
differential read instead.

## Model

| member | source | states |
|---|---|---|
| Bits.ShiftLeft | main.go:77 | shifting a non-negative value left gives a non-negative value (the same operator decodes byte 1 at line 85) |
| Bits.ShiftLeftBits | main.go:85 | on a non-negative operand, `<< n` moves bit i to bit i + n and clears the n bits below it |
| Bits.Or | main.go:85 | the OR of two non-negative integers is at least each operand and at most their sum |
| Bits.OrBits | main.go:85 | bit i of `Or(a, b)` is set if and only if bit i of `a` or bit i of `b` is set, so `Or` is Go's bitwise OR |
| Bits.And | main.go:85 | the AND of two non-negative integers is at most each operand |
| Bits.AndBits | main.go:85 | bit i of `And(a, b)` is set if and only if bit i is set in both `a` and `b`, so `And` is Go's `&` |
| Bits.OrDisjoint | main.go:85 | ORing a value below 2^n into another value shifted left by n bits gives their sum |
| Bits.AndLowMask | main.go:85 | masking with 2^n - 1 keeps exactly the low n bits and drops everything above them |
| Frame.ToByte | main.go:77 | Go's `byte(x)` differs from `x` by a multiple of 256, and leaves values in 0..255 unchanged |
| Frame.Selector | main.go:77 | byte 1 equals `((channel + 8) mod 16) * 16` after Go's truncation, so its low nibble is always zero |
| Frame.EncodeCommand | main.go:77 | the frame has 3 bytes, byte 0 is 1 and byte 2 is 0; for channels 0..7, byte 1 is `(8 + channel) * 16`, which lies in 0x80..0xF0 |
| Frame.CommandRoundTrip | main.go:77 | for channels 0..7, `(byte1 >> 4) - 8` recovers the channel and the single-ended bit is set |
| Frame.EncodeInjective | main.go:77 | on channels 0..7, two frames are equal if and only if their channels are equal |
| Frame.EncodeWrapsModulo16 | main.go:77 | for any integers, two channels give the same frame if and only if they agree modulo 16 (no range check) |
| Frame.SingleEndedExactly | main.go:77 | the single-ended bit is set if and only if `channel mod 16 < 8`; other indices silently select differential mode |
| Frame.ChannelEightWrapsToZero | main.go:77 | channel 8 wraps to the frame `[1, 0, 0]` |
| Frame.DecodeSample | main.go:85 | the decoded sample always lies in 0..1023, whatever the response bytes |
| Frame.DecodeArithmetic | main.go:85 | the shift, OR and mask compute `(b1 mod 4) * 256 + b2` |
| Frame.DecodeIgnoresOtherBits | main.go:85 | responses that agree on the low 2 bits of byte 1 and on byte 2 decode to the same sample; byte 0 is ignored |
| Frame.DecodeDeviceRoundTrip | main.go:85 | a device reporting v in 0..1023 as byte1 = v / 256 and byte2 = v mod 256 is decoded to v, whatever it puts in byte 0 and the upper bits of byte 1 |
| Frame.DecodeSurjective | main.go:85 | every sample in 0..1023 is the decoding of some response |
| Frame.DecodeExample | main.go:85 | a response `[_, 0x01, 0xFF]` decodes to 511 |
| Bus.Tx | main.go:78-79 | an oracle for the library call: the outcome is the connection's next answer, the frame is appended to the log, and the answers themselves are not changed |
| Bus.TxAdvances | main.go:79 | after a transfer, the answer i transfers ahead is the one that was i + 1 transfers ahead before it |
| Reader.ReadMCP3008 | main.go:75-87 | exactly one transfer is made, carrying the channel's frame; if it fails, the result is -1 with the transport error unchanged; otherwise the error is nil and the value is the in-range arithmetic reading of the response |
| Reader.FirstFailure | main.go:91-95 | the index it returns is the first failed transfer: every earlier transfer succeeded, and this one failed unless it equals the length |
| Reader.ReadLoop | main.go:91-97 | from any channel 0..8, the loop sends consecutive channels' frames up to and including the first failure; it returns that error with no samples, or all samples with earlier slots untouched |
| Reader.LoopStep | main.go:92-96 | one successful iteration followed by the rest of the loop meets the loop's promise from that channel |
| Reader.ReadAllChannels | main.go:89-99 | the result has no error if and only if all 8 transfers succeed; if transfer k is the first to fail, the result is (nil, that error) after the frames of channels 0..k; otherwise it is 8 samples, sample i being the decoded i-th answer, after the frames of channels 0..7 |
| Reader.FirstFailureUnique | main.go:91-95 | the first-failure index is uniquely determined: all successes before it, a failure at it |
| Reader.SucceedsIffAllTransfersSucceed | main.go:89-99 | collection succeeds if and only if every one of the 8 transfers succeeds, and then every sample is in 0..1023 and equals `(b1 mod 4) * 256 + b2` of its answer |
| Reader.FailureAtChannel | main.go:91-95 | if transfers 0..k-1 succeed and transfer k fails, the result is (nil, that error) after exactly k + 1 transfers, the j-th carrying channel j's frame |
| Reader.TransfersInChannelOrder | main.go:91-92 | the j-th transfer asks for channel j in single-ended mode; the number of transfers is k + 1 if transfer k fails first, otherwise 8 |
| Reader.LaterAnswersIgnored | main.go:93-95 | answers after the first failure never affect the result or the frames sent |
| Reader.AllZeroResponses | main.go:90-98 | all-zero responses yield eight zero samples |
| Reader.DeviceEndToEnd | main.go:75-99 | a device that answers each channel's frame with the ideal response for that channel's sample in 0..1023 has exactly those eight samples read back, with no error |

## Left out

- `main` (main.go:22-73): flag parsing, periph.io host initialisation, opening the port,
  setting the speed, `Connect`, the deferred close, signal handling, the one-second ticker loop,
  console printing and `log.Fatal`. These are I/O, library calls and event-loop concurrency.
- The electrical side of `c.Tx`: clocking, SPI mode 0 and the 1 MHz limit. The transfer is a
  call into a library and is modelled only as the `Bus.Conn` oracle. That oracle yields the
  received bytes or an error for each transfer, independent of timing.
- The commented-out alternative decoder at main.go:84. It is not executed.
- Go's `error` values are opaque. They are modelled as `Bus.TxError` carrying a message. The
  reader never inspects them; it only passes them on.
- The bitwise operators are defined only for non-negative operands, which is all the decoder
  applies them to. The command encoder's shift of a possibly negative `8 + channel` is
  modelled as multiplication by 16, which is what Go's `<<` computes on two's-complement
  `int`s before the truncation to `byte`.
