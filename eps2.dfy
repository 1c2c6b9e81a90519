/** The master side of the SpaceLab EPS 2.0 register read protocol.

    A read of register `reg` sends the two-byte command frame
    `[reg, crc8([reg])]`, waits 50 ms, and reads a six-byte response frame
    `[echoed reg, b3, b2, b1, b0, crc8(first five bytes)]`. The payload
    bytes b3..b0 are the register's 32-bit value, most significant first.
    A checksum mismatch does not stop the read: the value is still decoded
    and returned, and here the mismatch is reported in the result's
    `crcOk` flag instead of being printed. */
module Eps2Protocol {
  import opened Checksum
  import opened I2c

  /** The device's 7-bit subordinate address. */
  const EPS2_I2C_ADDR: int := 0x36
  /** The value the device-id register is expected to hold. */
  const EPS2_DEVICE_ID: bv32 := 0xEEE2

  // Register indices of the EPS 2.0 module.
  const REG_TIME_COUNTER_MS: int := 0
  const REG_UC_TEMPERATURE_K: int := 1
  const REG_LAST_RESET_CAUSE: int := 3
  const REG_RESET_COUNTER: int := 4
  const REG_MAIN_POWER_BUS_VOLT_MV: int := 18
  const REG_DEVICE_ID: int := 48

  /** Delay between the command and the response, in milliseconds. */
  const SETTLE_DELAY_MS: nat := 50
  /** Length of a response frame: echoed index, four payload bytes, checksum. */
  const RESPONSE_LENGTH: nat := 6

  // ---------------------------------------------------------------------
  // Command frame

  /** The frame that asks for register `reg`. */
  function CommandFrame(reg: bv8): (frame: seq<bv8>)
    ensures |frame| == 2 && frame[0] == reg && frame[1] as bv16 == Crc8([reg])
  {
    [reg, Crc8([reg]) as bv8]
  }

  /** The subordinate's view of a command frame: the requested register when
      the frame is two bytes long and its checksum byte is right. */
  function ParseCommand(frame: seq<bv8>): (reg: Option<bv8>)
    ensures reg.Some? ==> |frame| == 2 && reg.value == frame[0]
  {
    if |frame| == 2 && frame[1] as bv16 == Crc8([frame[0]]) then Some(frame[0]) else None
  }

  /** Every command frame is accepted, and names the register it was built
      for; a frame is accepted only if it is the command frame of the
      register it names. */
  lemma CommandFrameRoundTrip(reg: bv8, frame: seq<bv8>)
    ensures ParseCommand(CommandFrame(reg)) == Some(reg)
    ensures ParseCommand(frame) == Some(reg) <==> frame == CommandFrame(reg)
  {
    if ParseCommand(frame) == Some(reg) {
      assert frame == [frame[0], frame[1]];
    }
  }

  /** Command frames for different registers differ in both bytes: the
      checksum byte alone determines the register. */
  lemma CommandChecksumDeterminesRegister(reg: bv8, reg': bv8)
    requires reg != reg'
    ensures CommandFrame(reg)[1] != CommandFrame(reg')[1]
  {
    Crc8Single(reg);
    Crc8Single(reg');
    if Crc8([reg]) == Crc8([reg']) {
      ByteStepInjectiveInByte(CRC8_INITIAL_VALUE, reg, reg');
    }
  }

  /** The wire bytes the three fixed-register accessors send. */
  lemma AccessorCommandFrames()
    ensures CommandFrame(REG_LAST_RESET_CAUSE as bv8) == [0x03, 0x09]
    ensures CommandFrame(REG_RESET_COUNTER as bv8) == [0x04, 0x1C]
    ensures CommandFrame(REG_DEVICE_ID as bv8) == [0x30, 0x90]
  {
    assert REG_LAST_RESET_CAUSE as bv8 == 0x03;
    assert REG_RESET_COUNTER as bv8 == 0x04;
    assert REG_DEVICE_ID as bv8 == 0x30;
    Crc8Single(0x03);
    ByteStepUnrolled(CRC8_INITIAL_VALUE, 0x03);
    assert Crc8([0x03]) == 0x09;
    Crc8Single(0x04);
    ByteStepUnrolled(CRC8_INITIAL_VALUE, 0x04);
    assert Crc8([0x04]) == 0x1C;
    Crc8Single(0x30);
    ByteStepUnrolled(CRC8_INITIAL_VALUE, 0x30);
    assert Crc8([0x30]) == 0x90;
  }

  // ---------------------------------------------------------------------
  // Response frame

  /** One Horner step: shift the word left by a byte and put `b` in the low byte. */
  function ShiftIn(w: bv32, b: bv8): (w': bv32) {
    (w << 8) | (b as bv32)
  }

  /** The value of a byte string read most significant byte first, as a
      32-bit word: each byte shifts the word left by eight bits and fills the
      low byte. */
  function BigEndian(s: seq<bv8>): (w: bv32)
    decreases |s|
  {
    if s == [] then 0 else ShiftIn(BigEndian(s[..|s| - 1]), s[|s| - 1])
  }

  /** The word with big-endian bytes `b3, b2, b1, b0`, assembled as
      `read_reg` does it: shifts by 24, 16 and 8 and a bitwise OR. Its value
      is the bytes weighted by 2^24, 2^16, 2^8 and 1, the value the Python
      driver computes on unbounded integers: no shifted byte leaves the
      32-bit word. */
  function Pack(b3: bv8, b2: bv8, b1: bv8, b0: bv8): (w: bv32)
    ensures w as int == b3 as int * 0x100_0000 + b2 as int * 0x1_0000 + b1 as int * 0x100 + b0 as int
  {
    ShiftOrValue(b3, b2, b1, b0);
    ((b3 as bv32) << 24) | ((b2 as bv32) << 16) | ((b1 as bv32) << 8) | (b0 as bv32)
  }

  /** The value of the shifted and OR-ed bytes, from the two facts below. */
  lemma ShiftOrValue(b3: bv8, b2: bv8, b1: bv8, b0: bv8)
    ensures (((b3 as bv32) << 24) | ((b2 as bv32) << 16) | ((b1 as bv32) << 8) | (b0 as bv32)) as int
      == b3 as int * 0x100_0000 + b2 as int * 0x1_0000 + b1 as int * 0x100 + b0 as int
  {
    PackIsSum(b3, b2, b1, b0);
    ShiftedByteValue(b3);
    ShiftedByteValue(b2);
    ShiftedByteValue(b1);
    ShiftedByteValue(b0);
  }

  /** A byte shifted left inside a 32-bit word by 0, 8, 16 or 24 bits keeps
      all its bits: its value is multiplied by the power of two. */
  lemma ShiftedByteValue(b: bv8)
    ensures ((b as bv32) << 24) as int == b as int * 0x100_0000
    ensures ((b as bv32) << 16) as int == b as int * 0x1_0000
    ensures ((b as bv32) << 8) as int == b as int * 0x100
    ensures (b as bv32) as int == b as int
  {
  }

  /** The shifted bytes occupy disjoint bits, so their OR is their sum. */
  lemma PackIsSum(b3: bv8, b2: bv8, b1: bv8, b0: bv8)
    ensures ((b3 as bv32) << 24) | ((b2 as bv32) << 16) | ((b1 as bv32) << 8) | (b0 as bv32)
      == ((b3 as bv32) << 24) + ((b2 as bv32) << 16) + ((b1 as bv32) << 8) + (b0 as bv32)
  {
  }

  /** The four bytes of a 32-bit word, most significant first. */
  function PayloadOf(v: bv32): (s: seq<bv8>)
    ensures |s| == 4
  {
    [((v >> 24) & 0xFF) as bv8, ((v >> 16) & 0xFF) as bv8,
     ((v >> 8) & 0xFF) as bv8, (v & 0xFF) as bv8]
  }

  /** Four Horner steps from zero assemble the same word as the shifts and OR. */
  lemma HornerIsPack(b3: bv8, b2: bv8, b1: bv8, b0: bv8)
    ensures ShiftIn(ShiftIn(ShiftIn(ShiftIn(0, b3), b2), b1), b0) == Pack(b3, b2, b1, b0)
  {
  }

  /** Appending a byte is one Horner step. */
  lemma BigEndianSnoc(s: seq<bv8>, b: bv8)
    ensures BigEndian(s + [b]) == ShiftIn(BigEndian(s), b)
  {
    assert (s + [b])[..|s + [b]| - 1] == s;
  }

  /** Four bytes read big-endian are four Horner steps from zero. */
  lemma BigEndianSteps(b3: bv8, b2: bv8, b1: bv8, b0: bv8)
    ensures BigEndian([b3, b2, b1, b0]) == ShiftIn(ShiftIn(ShiftIn(ShiftIn(0, b3), b2), b1), b0)
  {
    BigEndianSnoc([], b3);
    assert [] + [b3] == [b3];
    BigEndianSnoc([b3], b2);
    assert [b3] + [b2] == [b3, b2];
    BigEndianSnoc([b3, b2], b1);
    assert [b3, b2] + [b1] == [b3, b2, b1];
    BigEndianSnoc([b3, b2, b1], b0);
    assert [b3, b2, b1] + [b0] == [b3, b2, b1, b0];
  }

  /** Read big-endian, four bytes give the word the shifts and OR assemble. */
  lemma BigEndianFour(s: seq<bv8>)
    requires |s| == 4
    ensures BigEndian(s) == Pack(s[0], s[1], s[2], s[3])
  {
    assert s == [s[0], s[1], s[2], s[3]];
    BigEndianSteps(s[0], s[1], s[2], s[3]);
    HornerIsPack(s[0], s[1], s[2], s[3]);
  }

  /** Splitting a word into its four bytes and reading them back gives the word. */
  lemma PayloadOfInverse(v: bv32)
    ensures BigEndian(PayloadOf(v)) == v
  {
    var s := PayloadOf(v);
    BigEndianFour(s);
  }

  /** Splitting the word that four bytes assemble gives those bytes back. */
  lemma PayloadOfPack(s: seq<bv8>)
    requires |s| == 4
    ensures PayloadOf(Pack(s[0], s[1], s[2], s[3])) == s
  {
    var t := PayloadOf(Pack(s[0], s[1], s[2], s[3]));
    assert t[0] == s[0] && t[1] == s[1] && t[2] == s[2] && t[3] == s[3];
  }

  /** The payload bytes 1..4 of a response frame as the register's unsigned
      32-bit value. `read_reg` shifts Python integers, which cannot
      overflow; every shifted field fits in 32 bits, so the word holds the
      same value, the big-endian reading of the payload. */
  function DecodeValue(buf: seq<bv8>): (v: bv32)
    requires |buf| == RESPONSE_LENGTH
    ensures v == BigEndian(buf[1..5])
    ensures v as int == buf[1] as int * 0x100_0000 + buf[2] as int * 0x1_0000
                        + buf[3] as int * 0x100 + buf[4] as int
  {
    BigEndianFour(buf[1..5]);
    Pack(buf[1], buf[2], buf[3], buf[4])
  }

  /** The payload is recovered from the decoded value: decoding loses
      nothing. */
  lemma PayloadOfDecodeValue(buf: seq<bv8>)
    requires |buf| == RESPONSE_LENGTH
    ensures PayloadOf(DecodeValue(buf)) == buf[1..5]
  {
    PayloadOfPack(buf[1..5]);
  }

  /** The integrity check on a response frame: the checksum of its first five
      bytes equals its sixth. */
  predicate CrcOk(buf: seq<bv8>)
    requires |buf| == RESPONSE_LENGTH
  {
    Crc8(buf[..5]) == buf[5] as bv16
  }

  /** What a completed read yields: the decoded value, and whether the
      response passed the integrity check. */
  datatype Reading = Reading(value: bv32, crcOk: bool)

  /** Decodes a response frame. The echoed index in byte 0 is not compared
      with the requested register, and a failed check still yields the value. */
  function ParseReply(buf: seq<bv8>): (r: Reading)
    requires |buf| == RESPONSE_LENGTH
    ensures r.value == BigEndian(buf[1..5])
    ensures r.crcOk <==> Crc8(buf[..5]) == buf[5] as bv16
  {
    Reading(DecodeValue(buf), CrcOk(buf))
  }

  /** The reading of a response, given the checksum of its first five bytes
      computed separately, as the driver does. */
  lemma ParseReplyOfChecksum(buf: seq<bv8>, check: bv16)
    requires |buf| == RESPONSE_LENGTH && check == Crc8(buf[..5])
    ensures ParseReply(buf) == Reading(DecodeValue(buf), check == buf[5] as bv16)
  {
  }

  /** The frame a well-behaved device sends for register `reg` holding `v`. */
  function ResponseFrame(reg: bv8, v: bv32): (buf: seq<bv8>)
    ensures |buf| == RESPONSE_LENGTH && buf[0] == reg && buf[1..5] == PayloadOf(v)
    ensures buf[5] as bv16 == Crc8(buf[..5])
  {
    var body := [reg] + PayloadOf(v);
    assert (body + [Crc8(body) as bv8])[..5] == body;
    body + [Crc8(body) as bv8]
  }

  /** A frame built by the device decodes to the value it carries, with the
      integrity check passing. */
  lemma ResponseRoundTrip(reg: bv8, v: bv32)
    ensures ParseReply(ResponseFrame(reg, v)) == Reading(v, true)
  {
    PayloadOfInverse(v);
  }

  /** A six-byte frame passes the integrity check exactly when it is the
      device's frame for its own echoed index and value. */
  lemma CrcOkIffWellFormed(buf: seq<bv8>)
    requires |buf| == RESPONSE_LENGTH
    ensures CrcOk(buf) <==> buf == ResponseFrame(buf[0], DecodeValue(buf))
  {
    PayloadOfDecodeValue(buf);
    var f := ResponseFrame(buf[0], DecodeValue(buf));
    assert f[..5] == [f[0]] + f[1..5];
    assert buf[..5] == [buf[0]] + buf[1..5];
    if CrcOk(buf) {
      assert f[..5] == buf[..5];
      assert f == f[..5] + [f[5]] && buf == buf[..5] + [buf[5]];
    }
  }

  /** Two responses decode to the same value exactly when their payload
      bytes 1..4 agree: the echoed index and the checksum byte, a checksum
      mismatch included, play no part, and no two payloads share a value. */
  lemma ValueIffPayload(buf: seq<bv8>, buf': seq<bv8>)
    requires |buf| == RESPONSE_LENGTH && |buf'| == RESPONSE_LENGTH
    ensures ParseReply(buf).value == ParseReply(buf').value <==> buf[1..5] == buf'[1..5]
  {
    PayloadOfDecodeValue(buf);
    PayloadOfDecodeValue(buf');
  }

  /** A check that passes on a frame fails once any bits of one byte among
      bytes 0..4 change; the value of the altered frame is still decoded. */
  lemma CorruptionDetected(buf: seq<bv8>, buf': seq<bv8>, i: nat)
    requires |buf| == RESPONSE_LENGTH && |buf'| == RESPONSE_LENGTH
    requires CrcOk(buf)
    requires i < 5 && buf[i] != buf'[i]
    requires forall j :: 0 <= j < RESPONSE_LENGTH && j != i ==> buf[j] == buf'[j]
    ensures !CrcOk(buf')
    ensures ParseReply(buf') == Reading(BigEndian(buf'[1..5]), false)
  {
    SingleByteErrorDetected(buf[..5], buf'[..5], i);
  }

  /** A frame whose checksum byte alone is wrong fails the check and keeps
      the value the correct frame carries. */
  lemma WrongChecksumByte(buf: seq<bv8>, c: bv8)
    requires |buf| == RESPONSE_LENGTH && CrcOk(buf) && c != buf[5]
    ensures ParseReply(buf[5 := c]) == Reading(ParseReply(buf).value, false)
  {
    assert buf[5 := c][..5] == buf[..5];
    assert buf[5 := c][1..5] == buf[1..5];
  }

  /** Two device-id readings: the expected identity and an unexpected one,
      both with correct checksums, and the expected one with a wrong
      checksum byte. */
  lemma DeviceIdReadings()
    ensures ParseReply([0x30, 0x00, 0x00, 0xEE, 0xE2, 0x63]) == Reading(EPS2_DEVICE_ID, true)
    ensures ParseReply([0x30, 0x00, 0x00, 0x12, 0x34, 0xA7]) == Reading(0x1234, true)
    ensures ParseReply([0x30, 0x00, 0x00, 0xEE, 0xE2, 0x00]) == Reading(EPS2_DEVICE_ID, false)
  {
    var good: seq<bv8> := [0x30, 0x00, 0x00, 0xEE, 0xE2, 0x63];
    var other: seq<bv8> := [0x30, 0x00, 0x00, 0x12, 0x34, 0xA7];
    var bad: seq<bv8> := [0x30, 0x00, 0x00, 0xEE, 0xE2, 0x00];
    ExpectedIdChecksum(good[..5]);
    OtherIdChecksum(other[..5]);
    assert bad[..5] == good[..5];
    assert DecodeValue(good) == Pack(0x00, 0x00, 0xEE, 0xE2) == EPS2_DEVICE_ID;
    assert DecodeValue(other) == Pack(0x00, 0x00, 0x12, 0x34) == 0x1234;
    assert bad[1..5] == good[1..5];
  }

  /** The checksum of the first five bytes of the expected device-id reply. */
  lemma ExpectedIdChecksum(g: seq<bv8>)
    requires g == [0x30, 0x00, 0x00, 0xEE, 0xE2]
    ensures Crc8(g) == 0x63
  {
    FoldPrefix(CRC8_INITIAL_VALUE, g, 0, 0x30, CRC8_INITIAL_VALUE, 0x90);
    FoldPrefix(CRC8_INITIAL_VALUE, g, 1, 0x00, 0x90, 0xF9);
    FoldPrefix(CRC8_INITIAL_VALUE, g, 2, 0x00, 0xF9, 0xE1);
    FoldPrefix(CRC8_INITIAL_VALUE, g, 3, 0xEE, 0xE1, 0x2D);
    FoldPrefix(CRC8_INITIAL_VALUE, g, 4, 0xE2, 0x2D, 0x63);
    assert g[..5] == g;
  }

  /** The checksum of the first five bytes of a device-id reply of 0x1234. */
  lemma OtherIdChecksum(o: seq<bv8>)
    requires o == [0x30, 0x00, 0x00, 0x12, 0x34]
    ensures Crc8(o) == 0xA7
  {
    FoldPrefix(CRC8_INITIAL_VALUE, o, 0, 0x30, CRC8_INITIAL_VALUE, 0x90);
    FoldPrefix(CRC8_INITIAL_VALUE, o, 1, 0x00, 0x90, 0xF9);
    FoldPrefix(CRC8_INITIAL_VALUE, o, 2, 0x00, 0xF9, 0xE1);
    FoldPrefix(CRC8_INITIAL_VALUE, o, 3, 0x12, 0xE1, 0xD7);
    FoldPrefix(CRC8_INITIAL_VALUE, o, 4, 0x34, 0xD7, 0xA7);
    assert o[..5] == o;
  }

  // ---------------------------------------------------------------------
  // Driver

  datatype Option<+T> = None | Some(value: T)

  /** Why a read produced no reading. */
  datatype Fault =
    | RegisterOutOfRange  // the index is not a byte; no frame can be built
    | TransportError      // the device did not acknowledge, or sent no reply

  datatype Result<+T> = Success(value: T) | Failure(fault: Fault)

  /** What one read of register `reg` at `addr` does to `bus`: the bus
      operations it performs and the result it returns. */
  twostate predicate ReadRegDone(bus: Bus, addr: int, reg: int, new r: Result<Reading>)
    reads bus
  {
    if !(0 <= reg < 256) then
      r == Failure(RegisterOutOfRange)
      && bus.log == old(bus.log) && bus.replies == old(bus.replies)
    else
      var cmd := CommandFrame(reg as bv8);
      if addr !in bus.devices then
        r == Failure(TransportError)
        && bus.log == old(bus.log) + [WriteTo(addr, cmd)]
        && bus.replies == old(bus.replies)
      else
        bus.log == old(bus.log) + [WriteTo(addr, cmd), SleepMs(SETTLE_DELAY_MS), ReadFrom(addr, RESPONSE_LENGTH)]
        && if old(bus.CanRead(addr, RESPONSE_LENGTH)) then
             r == Success(ParseReply(old(bus.replies[0])))
             && bus.replies == old(bus.replies[1..])
           else
             r == Failure(TransportError) && bus.replies == old(bus.replies)
  }

  /** The driver: the bus it owns and the subordinate address, both fixed
      when it is created. */
  class Eps2 {
    const bus: Bus
    const addr: int

    constructor (bus: Bus, addr: int := EPS2_I2C_ADDR)
      ensures this.bus == bus && this.addr == addr
    {
      this.bus := bus;
      this.addr := addr;
    }

    /** Reads one 32-bit register. */
    method ReadReg(reg: int) returns (r: Result<Reading>)
      modifies bus
      ensures ReadRegDone(bus, addr, reg, r)
    {
      if !(0 <= reg < 256) {
        return Failure(RegisterOutOfRange);
      }
      var c := ComputeCrc8([reg as bv8]);
      var outbuf := [reg as bv8, c as bv8];
      assert outbuf == CommandFrame(reg as bv8);
      ghost var log0, replies0 := bus.log, bus.replies;
      ghost var canRead := bus.CanRead(addr, RESPONSE_LENGTH);
      var acked := bus.Write(addr, outbuf);
      if !acked {
        return Failure(TransportError);
      }
      bus.Sleep(SETTLE_DELAY_MS);
      var ok, buf := bus.Read(addr, RESPONSE_LENGTH);
      assert bus.log == log0 + [WriteTo(addr, outbuf), SleepMs(SETTLE_DELAY_MS), ReadFrom(addr, RESPONSE_LENGTH)];
      if !ok {
        return Failure(TransportError);
      }
      assert canRead && buf == replies0[0];
      var check := ComputeCrc8(buf[..5]);
      var val := DecodeValue(buf);
      ParseReplyOfChecksum(buf, check);
      r := Success(Reading(val, check == buf[5] as bv16));
    }

    method GetResetCause() returns (r: Result<Reading>)
      modifies bus
      ensures ReadRegDone(bus, addr, REG_LAST_RESET_CAUSE, r)
    {
      r := ReadReg(REG_LAST_RESET_CAUSE);
    }

    method GetResetCount() returns (r: Result<Reading>)
      modifies bus
      ensures ReadRegDone(bus, addr, REG_RESET_COUNTER, r)
    {
      r := ReadReg(REG_RESET_COUNTER);
    }

    method GetDeviceId() returns (r: Result<Reading>)
      modifies bus
      ensures ReadRegDone(bus, addr, REG_DEVICE_ID, r)
    {
      r := ReadReg(REG_DEVICE_ID);
    }
  }
}
