/** The 8-bit checksum used by the EPS 2.0 register protocol: width 8,
    polynomial 0x07 (x^8 + x^2 + x + 1), initial value 0x00, processed most
    significant bit first, no reflection and no final XOR. This parameter set
    is also the Packet Error Code of the SMBus specification.

    The accumulator is an unbounded integer in the Python driver's `crc8` that is
    masked with 0xFF after every shift; here it is a 16-bit vector (wide
    enough to hold the 9-bit intermediate value `crc << 1` without loss), so
    that the 0..255 bound is something the model proves rather than
    something its types give away. */
module Checksum {

  const CRC8_INITIAL_VALUE: bv16 := 0x00
  const CRC8_POLYNOMIAL: bv16 := 0x07

  /** An accumulator value that fits in one byte. */
  predicate IsByte(crc: bv16) {
    crc < 0x100
  }

  /** One of the eight shift rounds applied per input byte. */
  function ShiftRound(crc: bv16): (r: bv16)
    ensures IsByte(r)
  {
    if crc & 0x80 != 0 then ((crc << 1) ^ CRC8_POLYNOMIAL) & 0xFF
    else (crc << 1) & 0xFF
  }

  /** `n` shift rounds applied to `crc`. */
  function Rounds(crc: bv16, n: nat): (r: bv16)
    requires IsByte(crc)
    ensures IsByte(r)
  {
    if n == 0 then crc else ShiftRound(Rounds(crc, n - 1))
  }

  /** The work done for one input byte: XOR it in, then eight shift rounds. */
  function ByteStep(crc: bv16, b: bv8): (r: bv16)
    requires IsByte(crc)
    ensures IsByte(r)
  {
    Rounds(crc ^ (b as bv16), 8)
  }

  /** The checksum as a left fold of ByteStep over `data`, starting at `crc`. */
  function Fold(crc: bv16, data: seq<bv8>): (r: bv16)
    requires IsByte(crc)
    ensures IsByte(r)
    decreases |data|
  {
    if data == [] then crc else Fold(ByteStep(crc, data[0]), data[1..])
  }

  /** The checksum of `data`. */
  function Crc8(data: seq<bv8>): (r: bv16)
    ensures IsByte(r)
  {
    Fold(CRC8_INITIAL_VALUE, data)
  }

  /** The checksum is a byte for every input, of any length, the empty one included. */
  lemma Crc8IsByte(data: seq<bv8>)
    ensures 0 <= Crc8(data) as int <= 255
  {
  }

  /** Folding over a concatenation is folding over the second part, starting
      from the result of folding over the first. */
  lemma {:induction false} FoldAppend(crc: bv16, a: seq<bv8>, b: seq<bv8>)
    requires IsByte(crc)
    ensures Fold(crc, a + b) == Fold(Fold(crc, a), b)
    decreases |a|
  {
    if a == [] {
      assert a + b == b;
    } else {
      assert (a + b)[1..] == a[1..] + b;
      FoldAppend(ByteStep(crc, a[0]), a[1..], b);
    }
  }

  /** The checksum of `a + b` is the per-byte step run over `b`, starting
      from the checksum of `a`. */
  lemma Crc8Append(a: seq<bv8>, b: seq<bv8>)
    ensures Crc8(a + b) == Fold(Crc8(a), b)
  {
    FoldAppend(CRC8_INITIAL_VALUE, a, b);
  }

  /** The eight rounds of one byte written out. */
  lemma ByteStepUnrolled(crc: bv16, b: bv8)
    requires IsByte(crc)
    ensures var x := crc ^ (b as bv16);
      ByteStep(crc, b) == ShiftRound(ShiftRound(ShiftRound(ShiftRound(
        ShiftRound(ShiftRound(ShiftRound(ShiftRound(x))))))))
  {
    var x := crc ^ (b as bv16);
    assert Rounds(x, 1) == ShiftRound(x);
    assert Rounds(x, 2) == ShiftRound(Rounds(x, 1));
    assert Rounds(x, 3) == ShiftRound(Rounds(x, 2));
    assert Rounds(x, 4) == ShiftRound(Rounds(x, 3));
    assert Rounds(x, 5) == ShiftRound(Rounds(x, 4));
    assert Rounds(x, 6) == ShiftRound(Rounds(x, 5));
    assert Rounds(x, 7) == ShiftRound(Rounds(x, 6));
  }

  /** The checksum of a one-byte input is the byte step from the initial value. */
  lemma Crc8Single(b: bv8)
    ensures Crc8([b]) == ByteStep(CRC8_INITIAL_VALUE, b)
  {
    assert [b][1..] == [];
    assert Fold(ByteStep(CRC8_INITIAL_VALUE, b), []) == ByteStep(CRC8_INITIAL_VALUE, b);
  }

  /** Reference values that follow from the initial value 0x00 and the
      polynomial 0x07, and the catalogue check value of this CRC over the
      ASCII string "123456789". */
  lemma ReferenceVectors()
    ensures Crc8([]) == 0x00
    ensures Crc8([0x00]) == 0x00
    ensures Crc8([0x01]) == 0x07
    ensures Crc8([0x31, 0x32, 0x33, 0x34, 0x35, 0x36, 0x37, 0x38, 0x39]) == 0xF4
  {
    Crc8Single(0x00);
    ByteStepUnrolled(0x00, 0x00);
    Crc8Single(0x01);
    ByteStepUnrolled(0x00, 0x01);
    CheckValue();
  }

  /** The catalogue check value, byte by byte: the first four bytes give
      0xC2, and the last five take 0xC2 to 0xF4. */
  lemma CheckValue()
    ensures Crc8([0x31, 0x32, 0x33, 0x34, 0x35, 0x36, 0x37, 0x38, 0x39]) == 0xF4
  {
    var a: seq<bv8> := [0x31, 0x32, 0x33, 0x34];
    var b: seq<bv8> := [0x35, 0x36, 0x37, 0x38, 0x39];
    CheckValueHead(a);
    CheckValueTail(b);
    Crc8Append(a, b);
    assert a + b == [0x31, 0x32, 0x33, 0x34, 0x35, 0x36, 0x37, 0x38, 0x39];
  }

  lemma CheckValueHead(a: seq<bv8>)
    requires a == [0x31, 0x32, 0x33, 0x34]
    ensures Crc8(a) == 0xC2
  {
    FoldPrefix(CRC8_INITIAL_VALUE, a, 0, 0x31, CRC8_INITIAL_VALUE, 0x97);
    FoldPrefix(CRC8_INITIAL_VALUE, a, 1, 0x32, 0x97, 0x72);
    FoldPrefix(CRC8_INITIAL_VALUE, a, 2, 0x33, 0x72, 0xC0);
    FoldPrefix(CRC8_INITIAL_VALUE, a, 3, 0x34, 0xC0, 0xC2);
    assert a[..4] == a;
  }

  lemma CheckValueTail(b: seq<bv8>)
    requires b == [0x35, 0x36, 0x37, 0x38, 0x39]
    ensures Fold(0xC2, b) == 0xF4
  {
    FoldPrefix(0xC2, b, 0, 0x35, 0xC2, 0xCB);
    FoldPrefix(0xC2, b, 1, 0x36, 0xCB, 0xFD);
    FoldPrefix(0xC2, b, 2, 0x37, 0xFD, 0x78);
    FoldPrefix(0xC2, b, 3, 0x38, 0x78, 0xC7);
    FoldPrefix(0xC2, b, 4, 0x39, 0xC7, 0xF4);
    assert b[..5] == b;
  }

  /** One step of a worked computation: if folding the first `i` bytes from
      `start` gives `c`, byte `i` is `b`, and eight rounds take `c ^ b` to
      `c'`, folding the first `i + 1` bytes gives `c'`. */
  lemma FoldPrefix(start: bv16, data: seq<bv8>, i: nat, b: bv8, c: bv16, c': bv16)
    requires i < |data| && data[i] == b && IsByte(start) && IsByte(c)
    requires Fold(start, data[..i]) == c
    requires var x := c ^ (b as bv16);
      ShiftRound(ShiftRound(ShiftRound(ShiftRound(
        ShiftRound(ShiftRound(ShiftRound(ShiftRound(x)))))))) == c'
    ensures Fold(start, data[..i + 1]) == c'
  {
    assert data[..i + 1] == data[..i] + [b];
    FoldAppend(start, data[..i], [b]);
    assert Fold(c, [b]) == ByteStep(c, b) by {
      assert [b][1..] == [];
    }
    ByteStepUnrolled(c, b);
  }

  /** The checksum as `crc8` computes it: an accumulator updated by a
      loop over the bytes, with an inner loop of eight shift rounds. */
  method ComputeCrc8(data: seq<bv8>) returns (crc: bv16)
    ensures crc == Crc8(data)
    ensures IsByte(crc)
  {
    crc := CRC8_INITIAL_VALUE;
    var i := 0;
    while i < |data|
      invariant 0 <= i <= |data|
      invariant IsByte(crc)
      invariant crc == Crc8(data[..i])
    {
      ghost var before := crc;
      crc := crc ^ (data[i] as bv16);
      ghost var mixed := crc;
      var k := 0;
      while k < 8
        invariant 0 <= k <= 8
        invariant IsByte(mixed)
        invariant crc == Rounds(mixed, k)
      {
        if crc & 0x80 != 0 {
          crc := ((crc << 1) ^ CRC8_POLYNOMIAL) & 0xFF;
        } else {
          crc := (crc << 1) & 0xFF;
        }
        k := k + 1;
      }
      assert crc == ByteStep(before, data[i]);
      assert data[..i + 1] == data[..i] + [data[i]];
      FoldAppend(CRC8_INITIAL_VALUE, data[..i], [data[i]]);
      i := i + 1;
    }
    assert data[..i] == data;
  }

  // Injectivity: why any change confined to one byte changes the checksum.

  /** A shift round loses no information on byte-sized values: it is
      multiplication by x modulo a polynomial with a constant term. */
  lemma ShiftRoundInjective(x: bv16, y: bv16)
    requires IsByte(x) && IsByte(y)
    requires ShiftRound(x) == ShiftRound(y)
    ensures x == y
  {
  }

  lemma {:induction false} RoundsInjective(x: bv16, y: bv16, n: nat)
    requires IsByte(x) && IsByte(y)
    requires Rounds(x, n) == Rounds(y, n)
    ensures x == y
  {
    if n > 0 {
      ShiftRoundInjective(Rounds(x, n - 1), Rounds(y, n - 1));
      RoundsInjective(x, y, n - 1);
    }
  }

  /** Two different bytes fed into the same accumulator give different results. */
  lemma ByteStepInjectiveInByte(crc: bv16, b: bv8, b': bv8)
    requires IsByte(crc)
    requires ByteStep(crc, b) == ByteStep(crc, b')
    ensures b == b'
  {
    RoundsInjective(crc ^ (b as bv16), crc ^ (b' as bv16), 8);
  }

  /** The same byte fed into two different accumulators gives different results. */
  lemma ByteStepInjectiveInCrc(x: bv16, y: bv16, b: bv8)
    requires IsByte(x) && IsByte(y)
    requires ByteStep(x, b) == ByteStep(y, b)
    ensures x == y
  {
    RoundsInjective(x ^ (b as bv16), y ^ (b as bv16), 8);
  }

  lemma {:induction false} FoldInjectiveInCrc(x: bv16, y: bv16, data: seq<bv8>)
    requires IsByte(x) && IsByte(y)
    requires Fold(x, data) == Fold(y, data)
    ensures x == y
    decreases |data|
  {
    if data != [] {
      FoldInjectiveInCrc(ByteStep(x, data[0]), ByteStep(y, data[0]), data[1..]);
      ByteStepInjectiveInCrc(x, y, data[0]);
    }
  }

  /** Two inputs of the same length that differ in exactly one byte position
      (in any number of bits of that byte) have different checksums. */
  lemma SingleByteErrorDetected(a: seq<bv8>, a': seq<bv8>, i: nat)
    requires |a| == |a'| && i < |a|
    requires a[i] != a'[i]
    requires forall j :: 0 <= j < |a| && j != i ==> a[j] == a'[j]
    ensures Crc8(a) != Crc8(a')
  {
    var p, s := a[..i], a[i + 1..];
    assert a == p + [a[i]] + s;
    assert a' == p + [a'[i]] + s;
    Crc8Append(p + [a[i]], s);
    Crc8Append(p + [a'[i]], s);
    Crc8Append(p, [a[i]]);
    Crc8Append(p, [a'[i]]);
    var c := Crc8(p);
    assert Fold(c, [a[i]]) == ByteStep(c, a[i]);
    assert Fold(c, [a'[i]]) == ByteStep(c, a'[i]);
    if Crc8(a) == Crc8(a') {
      FoldInjectiveInCrc(ByteStep(c, a[i]), ByteStep(c, a'[i]), s);
      ByteStepInjectiveInByte(c, a[i], a'[i]);
    }
  }
}
