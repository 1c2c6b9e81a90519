# SpaceLab EPS 2.0 register read protocol, modelled in Dafny

This project models the master side of the register read protocol that an
on-board computer uses to query the SpaceLab EPS 2.0 power module over I2C.
It also proves properties of that model.

- **Checksum** (`crc8.dfy`) is the 8-bit CRC. Its parameters are polynomial
  0x07, initial value 0x00, most significant bit first, no reflection and no
  final XOR. This is the SMBus Packet Error Code parameter set; the Python driver
  calls it CRC8-CCITT. The CRC is specified as a left fold (`Fold`, `Crc8`)
  of a per-byte step over the input. `ComputeCrc8` is the nested
  shift/XOR loop of `crc8`, and it is proved equal to that fold.
- **I2c** (`bus.dfy`) is an abstract bus. It records every write, delay and
  read in a ghost log. It knows which addresses acknowledge, and it hands
  out the replies the device will give, in order.
- **Eps2Protocol** (`eps2.dfy`) holds the protocol:
  - the register and address constants;
  - the two-byte command frame `[reg, crc8([reg])]`;
  - the six-byte response frame, with its integrity check and its
    big-endian decoding into an unsigned 32-bit value. The decoding uses the
    shifts and bitwise OR of `read_reg` on 32-bit words. They are exact here:
    `read_reg` shifts unbounded Python integers, but every shifted byte
    fits in 32 bits, and the decoded word is proved to be worth
    b3 * 2^24 + b2 * 2^16 + b1 * 2^8 + b0;
  - the `Eps2` driver class, whose `ReadReg` performs write, 50 ms delay,
    6-byte read, check and decode;
  - the fixed-register accessors for reset cause (3), reset count (4) and
    device id (48).

A checksum mismatch does not stop a read, as in `read_reg`. The value is
still decoded and returned. `read_reg` only prints a message about the
mismatch; here the mismatch is the `crcOk` flag of the returned `Reading`.

The Python driver reports errors by raising exceptions. Here they are failures
of the returned `Result`:
- an index outside 0..255 (Python's `bytes([reg])` raises before any bus
  traffic) gives `RegisterOutOfRange`;
- a write that is not acknowledged, or a read that gets no 6-byte reply,
  gives `TransportError`.

The driver's bus and address are `const` fields, so nothing can change them
after construction.

The accumulator of the checksum is a 16-bit vector. In `crc8` it is
an unbounded integer, masked to 8 bits after each shift. The 16-bit width
holds the 9-bit intermediate `crc << 1` exactly, so the 0..255 bound of
the result is proved rather than given by the type.

## Model

| member | source | states |
|---|---|---|
| Checksum.ShiftRound | eps2_i2c_obdh_emulator.py:31-34 | One shift round (XOR with the polynomial when the top bit is set, then mask) always yields a byte. |
| Checksum.Rounds | eps2_i2c_obdh_emulator.py:30-34 | Any number of shift rounds applied to a byte yields a byte. |
| Checksum.ByteStep | eps2_i2c_obdh_emulator.py:29-34 | Mixing one input byte into a byte-sized accumulator and running eight rounds yields a byte. |
| Checksum.Fold | eps2_i2c_obdh_emulator.py:26-36 | The checksum fold over any byte sequence, of any length, the empty one included, yields a value in 0..255. |
| Checksum.Crc8 | eps2_i2c_obdh_emulator.py:22-36 | `crc8` itself: the per-byte step folded over the input from the initial value 0x00; the result is always a byte. |
| Checksum.Crc8IsByte | eps2_i2c_obdh_emulator.py:26-36 | crc8 of any input lies in 0..255. |
| Checksum.FoldAppend | eps2_i2c_obdh_emulator.py:28-35 | Folding over `a + b` equals folding over `b` from the fold over `a`: the checksum is a left fold over the bytes. |
| Checksum.Crc8Append | eps2_i2c_obdh_emulator.py:28-35 | crc8(a + b) equals the per-byte step run over `b` starting from crc8(a). |
| Checksum.ByteStepUnrolled | eps2_i2c_obdh_emulator.py:29-34 | The work for one byte is exactly eight shift rounds after the XOR (the inner `range(8)` loop). |
| Checksum.ReferenceVectors | eps2_i2c_obdh_emulator.py:18-36 | crc8([]) = 0x00, crc8([0x00]) = 0x00, crc8([0x01]) = 0x07, and crc8("123456789") = 0xF4, the catalogue check value of this CRC. |
| Checksum.ComputeCrc8 | eps2_i2c_obdh_emulator.py:22-36 | The imperative nested loop over the bytes and the eight rounds returns exactly the checksum fold, which is a byte. |
| Checksum.ShiftRoundInjective | eps2_i2c_obdh_emulator.py:31-34 | One shift round maps different bytes to different bytes. |
| Checksum.ByteStepInjectiveInByte | eps2_i2c_obdh_emulator.py:29-34 | The same accumulator mixed with two different bytes gives different results. |
| Checksum.FoldInjectiveInCrc | eps2_i2c_obdh_emulator.py:28-35 | Folding the same bytes from two different accumulators gives different checksums. |
| Checksum.SingleByteErrorDetected | eps2_i2c_obdh_emulator.py:22-36 | Two equal-length inputs that differ in exactly one byte position (in any bits of it) have different checksums. |
| Eps2Protocol.CommandFrame | eps2_i2c_obdh_emulator.py:48 | For any register byte the command frame has length 2, byte 0 is the register and byte 1 is crc8([reg]). |
| Eps2Protocol.ParseCommand | eps2_i2c_obdh_emulator.py:48 | A frame the device accepts as a command is two bytes long and names its first byte as the register. |
| Eps2Protocol.CommandFrameRoundTrip | eps2_i2c_obdh_emulator.py:48 | Every command frame is accepted as a request for its own register, and a frame is accepted for `reg` exactly when it is the command frame of `reg`. |
| Eps2Protocol.CommandChecksumDeterminesRegister | eps2_i2c_obdh_emulator.py:48 | Command frames for different registers have different checksum bytes. |
| Eps2Protocol.AccessorCommandFrames | eps2_i2c_obdh_emulator.py:98-105 | The reset-cause, reset-count and device-id accessors put [0x03, 0x09], [0x04, 0x1C] and [0x30, 0x90] on the wire. |
| Eps2Protocol.Pack | eps2_i2c_obdh_emulator.py:95 | The word built by shifting bytes 1..4 left by 24, 16, 8 and 0 bits and OR-ing them is worth b3 * 2^24 + b2 * 2^16 + b1 * 2^8 + b0, the value the Python expression has on unbounded integers. |
| Eps2Protocol.BigEndianFour | eps2_i2c_obdh_emulator.py:93-95 | Four bytes read big-endian (shift the word left a byte, fill the low byte, four times) give exactly the word the decoder assembles by shifting the bytes left by 24, 16, 8 and 0 bits and OR-ing them. |
| Eps2Protocol.PayloadOfInverse | eps2_i2c_obdh_emulator.py:93-95 | Splitting any 32-bit word into its four bytes, most significant first, and reading them back big-endian gives the word: every register value has a payload. |
| Eps2Protocol.DecodeValue | eps2_i2c_obdh_emulator.py:93-96 | The decoded value is the big-endian reading of payload bytes 1..4 only, as an unsigned 32-bit word, and its value is buf[1] * 2^24 + buf[2] * 2^16 + buf[3] * 2^8 + buf[4]. |
| Eps2Protocol.CrcOk | eps2_i2c_obdh_emulator.py:88-89 | The integrity check: a six-byte response passes exactly when crc8 of its bytes 0..4 equals its byte 5. |
| Eps2Protocol.PayloadOfDecodeValue | eps2_i2c_obdh_emulator.py:93-96 | The four payload bytes are recovered from the decoded value, so decoding loses no information. |
| Eps2Protocol.ParseReply | eps2_i2c_obdh_emulator.py:88-96 | A response yields the big-endian value of bytes 1..4, and its flag is set exactly when crc8 of bytes 0..4 equals byte 5; the echoed byte 0 is not compared with the request. |
| Eps2Protocol.ResponseFrame | eps2_i2c_obdh_emulator.py:83-95 | The device's frame for a register and a value is six bytes: the echoed register, the value's four big-endian bytes, then crc8 of those five bytes. |
| Eps2Protocol.ResponseRoundTrip | eps2_i2c_obdh_emulator.py:88-96 | The device's frame for any register and any 32-bit value decodes to that value with the check passing. |
| Eps2Protocol.CrcOkIffWellFormed | eps2_i2c_obdh_emulator.py:89 | A six-byte response passes the integrity check exactly when it is the device's frame for its own echoed index and its decoded value. |
| Eps2Protocol.ValueIffPayload | eps2_i2c_obdh_emulator.py:93-96 | Two responses decode to the same value exactly when their bytes 1..4 agree, whatever their bytes 0 and 5 and whether or not their checks pass. |
| Eps2Protocol.CorruptionDetected | eps2_i2c_obdh_emulator.py:88-96 | Changing any bits of one byte among bytes 0..4 of a passing response makes the check fail; the altered frame's value is still returned. |
| Eps2Protocol.WrongChecksumByte | eps2_i2c_obdh_emulator.py:89-96 | A passing response with a different byte 5 fails the check and still yields the same value. |
| Eps2Protocol.DeviceIdReadings | eps2_i2c_obdh_emulator.py:88-96 | Device-id replies: 0x0000EEE2 with a correct checksum gives 0xEEE2 with the check passing; 0x00001234 gives 0x1234 with the check passing; 0x0000EEE2 with a wrong checksum byte gives 0xEEE2 with the check failing. |
| I2c.Bus.Write | eps2_i2c_obdh_emulator.py:79 | A write is logged and consumes no replies; it is acknowledged exactly when a device answers at the address. |
| I2c.Bus.Sleep | eps2_i2c_obdh_emulator.py:81 | The settle delay is logged and changes nothing else. |
| I2c.Bus.Read | eps2_i2c_obdh_emulator.py:84 | A read is logged. It succeeds exactly when the device answers and has a reply of the requested length, and then it returns and consumes that reply. |
| Eps2Protocol.Eps2.constructor | eps2_i2c_obdh_emulator.py:41-43 | The driver holds the given bus and address (by default 0x36), both constant for its lifetime. |
| Eps2Protocol.ReadRegDone | eps2_i2c_obdh_emulator.py:45-96 | What one `read_reg` call does. An index outside 0..255 gives a range failure and leaves the bus untouched. Otherwise the command frame is written. Without an acknowledgement that single write is all that happens, and the result is a transport failure. With one, the 50 ms delay and a 6-byte read follow. The result is then the parsed next reply, which is consumed, or a transport failure with the replies untouched. |
| Eps2Protocol.Eps2.ReadReg | eps2_i2c_obdh_emulator.py:45-96 | An index outside 0..255 fails with no bus traffic. Otherwise the read writes exactly the command frame; an unacknowledged write stops there; else it sleeps 50 ms and reads 6 bytes. A missing reply is a transport failure; otherwise the reply decodes to its value and the CRC flag, and the reply is consumed. |
| Eps2Protocol.Eps2.GetResetCause | eps2_i2c_obdh_emulator.py:98-99 | Exactly the effect and result of reading register 3. |
| Eps2Protocol.Eps2.GetResetCount | eps2_i2c_obdh_emulator.py:101-102 | Exactly the effect and result of reading register 4. |
| Eps2Protocol.Eps2.GetDeviceId | eps2_i2c_obdh_emulator.py:104-105 | Exactly the effect and result of reading register 48. |

## Left out

- Bus construction and pin setup (eps2_i2c_obdh_emulator.py:128-133): these configure hardware through a foreign module. The bus is an abstract object instead.
- The real `writeto`, `readfrom` and `sleep_ms` calls: they are blocking hardware I/O. The abstract bus logs them. It models a bus error as "the address does not acknowledge" or "no reply of the requested length is queued", and gives no finer error kinds.
- The `print` diagnostics in `read_reg`: these are logging only. The checksum mismatch they report is the `crcOk` flag.
- `get_temperature_k` and `get_temperature_c`: they cast to floating point and subtract 273.15. The raw register they read (index 1) is covered by `ReadReg`.
- `i2c_scan` and `main`: they enumerate the bus and orchestrate and print readings. The device-identity comparison in `main` is one of these; `EPS2_DEVICE_ID` is defined, and `DeviceIdReadings` decodes both identities.
- The commented-out four-byte-index framing: it is dead code and is not what runs.
