/**
 The table-driven MODBUS CRC, against the bit-at-a-time definition, and what that definition detects.
 */
module Crc {

  type Byte = bv8
  type Word = bv16

  // ---------------------------------------------------------------- section 6.2.2 of MODBUS over Serial Line

  const INITIAL: Word := 0xFFFF

  /** Shift right; when a one falls out, XOR the polynomial, which is 0xA001 in this bit order. */
  function Bit(c: Word): Word {
    if Odd(c) then Xor(Half(c), 0xA001) else Half(c)
  }

  predicate Odd(c: Word) {
    c & 1 == 1
  }

  function Half(c: Word): Word {
    c >> 1
  }

  function Xor(c: Word, d: Word): Word {
    c ^ d
  }

  function Eight(c: Word): Word {
    Bit(Bit(Bit(Bit(Bit(Bit(Bit(Bit(c))))))))
  }

  /** XOR the byte into the low half, then shift eight times. */
  function Feed(c: Word, b: Byte): Word {
    Eight(Xor(c, b as Word))
  }

  function CrcFrom(c: Word, m: seq<Byte>): Word
    decreases |m|
  {
    if m == [] then c else CrcFrom(Feed(c, m[0]), m[1..])
  }

  function Crc(m: seq<Byte>): Word {
    CrcFrom(INITIAL, m)
  }

  function LowByte(c: Word): Byte {
    (c & 0xFF) as Byte
  }

  function HighByte(c: Word): Byte {
    (c >> 8) as Byte
  }

  // ---------------------------------------------------------------- the tables, sixteen entries to a row

  const CRC_HI: seq<seq<Byte>> := [
    [0x00, 0xC1, 0x81, 0x40, 0x01, 0xC0, 0x80, 0x41, 0x01, 0xC0, 0x80, 0x41, 0x00, 0xC1, 0x81, 0x40],
    [0x01, 0xC0, 0x80, 0x41, 0x00, 0xC1, 0x81, 0x40, 0x00, 0xC1, 0x81, 0x40, 0x01, 0xC0, 0x80, 0x41],
    [0x01, 0xC0, 0x80, 0x41, 0x00, 0xC1, 0x81, 0x40, 0x00, 0xC1, 0x81, 0x40, 0x01, 0xC0, 0x80, 0x41],
    [0x00, 0xC1, 0x81, 0x40, 0x01, 0xC0, 0x80, 0x41, 0x01, 0xC0, 0x80, 0x41, 0x00, 0xC1, 0x81, 0x40],
    [0x01, 0xC0, 0x80, 0x41, 0x00, 0xC1, 0x81, 0x40, 0x00, 0xC1, 0x81, 0x40, 0x01, 0xC0, 0x80, 0x41],
    [0x00, 0xC1, 0x81, 0x40, 0x01, 0xC0, 0x80, 0x41, 0x01, 0xC0, 0x80, 0x41, 0x00, 0xC1, 0x81, 0x40],
    [0x00, 0xC1, 0x81, 0x40, 0x01, 0xC0, 0x80, 0x41, 0x01, 0xC0, 0x80, 0x41, 0x00, 0xC1, 0x81, 0x40],
    [0x01, 0xC0, 0x80, 0x41, 0x00, 0xC1, 0x81, 0x40, 0x00, 0xC1, 0x81, 0x40, 0x01, 0xC0, 0x80, 0x41],
    [0x01, 0xC0, 0x80, 0x41, 0x00, 0xC1, 0x81, 0x40, 0x00, 0xC1, 0x81, 0x40, 0x01, 0xC0, 0x80, 0x41],
    [0x00, 0xC1, 0x81, 0x40, 0x01, 0xC0, 0x80, 0x41, 0x01, 0xC0, 0x80, 0x41, 0x00, 0xC1, 0x81, 0x40],
    [0x00, 0xC1, 0x81, 0x40, 0x01, 0xC0, 0x80, 0x41, 0x01, 0xC0, 0x80, 0x41, 0x00, 0xC1, 0x81, 0x40],
    [0x01, 0xC0, 0x80, 0x41, 0x00, 0xC1, 0x81, 0x40, 0x00, 0xC1, 0x81, 0x40, 0x01, 0xC0, 0x80, 0x41],
    [0x00, 0xC1, 0x81, 0x40, 0x01, 0xC0, 0x80, 0x41, 0x01, 0xC0, 0x80, 0x41, 0x00, 0xC1, 0x81, 0x40],
    [0x01, 0xC0, 0x80, 0x41, 0x00, 0xC1, 0x81, 0x40, 0x00, 0xC1, 0x81, 0x40, 0x01, 0xC0, 0x80, 0x41],
    [0x01, 0xC0, 0x80, 0x41, 0x00, 0xC1, 0x81, 0x40, 0x00, 0xC1, 0x81, 0x40, 0x01, 0xC0, 0x80, 0x41],
    [0x00, 0xC1, 0x81, 0x40, 0x01, 0xC0, 0x80, 0x41, 0x01, 0xC0, 0x80, 0x41, 0x00, 0xC1, 0x81, 0x40]]

  const CRC_LOW: seq<seq<Byte>> := [
    [0x00, 0xC0, 0xC1, 0x01, 0xC3, 0x03, 0x02, 0xC2, 0xC6, 0x06, 0x07, 0xC7, 0x05, 0xC5, 0xC4, 0x04],
    [0xCC, 0x0C, 0x0D, 0xCD, 0x0F, 0xCF, 0xCE, 0x0E, 0x0A, 0xCA, 0xCB, 0x0B, 0xC9, 0x09, 0x08, 0xC8],
    [0xD8, 0x18, 0x19, 0xD9, 0x1B, 0xDB, 0xDA, 0x1A, 0x1E, 0xDE, 0xDF, 0x1F, 0xDD, 0x1D, 0x1C, 0xDC],
    [0x14, 0xD4, 0xD5, 0x15, 0xD7, 0x17, 0x16, 0xD6, 0xD2, 0x12, 0x13, 0xD3, 0x11, 0xD1, 0xD0, 0x10],
    [0xF0, 0x30, 0x31, 0xF1, 0x33, 0xF3, 0xF2, 0x32, 0x36, 0xF6, 0xF7, 0x37, 0xF5, 0x35, 0x34, 0xF4],
    [0x3C, 0xFC, 0xFD, 0x3D, 0xFF, 0x3F, 0x3E, 0xFE, 0xFA, 0x3A, 0x3B, 0xFB, 0x39, 0xF9, 0xF8, 0x38],
    [0x28, 0xE8, 0xE9, 0x29, 0xEB, 0x2B, 0x2A, 0xEA, 0xEE, 0x2E, 0x2F, 0xEF, 0x2D, 0xED, 0xEC, 0x2C],
    [0xE4, 0x24, 0x25, 0xE5, 0x27, 0xE7, 0xE6, 0x26, 0x22, 0xE2, 0xE3, 0x23, 0xE1, 0x21, 0x20, 0xE0],
    [0xA0, 0x60, 0x61, 0xA1, 0x63, 0xA3, 0xA2, 0x62, 0x66, 0xA6, 0xA7, 0x67, 0xA5, 0x65, 0x64, 0xA4],
    [0x6C, 0xAC, 0xAD, 0x6D, 0xAF, 0x6F, 0x6E, 0xAE, 0xAA, 0x6A, 0x6B, 0xAB, 0x69, 0xA9, 0xA8, 0x68],
    [0x78, 0xB8, 0xB9, 0x79, 0xBB, 0x7B, 0x7A, 0xBA, 0xBE, 0x7E, 0x7F, 0xBF, 0x7D, 0xBD, 0xBC, 0x7C],
    [0xB4, 0x74, 0x75, 0xB5, 0x77, 0xB7, 0xB6, 0x76, 0x72, 0xB2, 0xB3, 0x73, 0xB1, 0x71, 0x70, 0xB0],
    [0x50, 0x90, 0x91, 0x51, 0x93, 0x53, 0x52, 0x92, 0x96, 0x56, 0x57, 0x97, 0x55, 0x95, 0x94, 0x54],
    [0x9C, 0x5C, 0x5D, 0x9D, 0x5F, 0x9F, 0x9E, 0x5E, 0x5A, 0x9A, 0x9B, 0x5B, 0x99, 0x59, 0x58, 0x98],
    [0x88, 0x48, 0x49, 0x89, 0x4B, 0x8B, 0x8A, 0x4A, 0x4E, 0x8E, 0x8F, 0x4F, 0x8D, 0x4D, 0x4C, 0x8C],
    [0x44, 0x84, 0x85, 0x45, 0x87, 0x47, 0x46, 0x86, 0x82, 0x42, 0x43, 0x83, 0x41, 0x81, 0x80, 0x40]]

  lemma TableSizes()
    ensures |CRC_HI| == 16 && forall r :: 0 <= r < 16 ==> |CRC_HI[r]| == 16
    ensures |CRC_LOW| == 16 && forall r :: 0 <= r < 16 ==> |CRC_LOW[r]| == 16
  {
  }

  function HiEntry(index: Byte): Byte {
    TableSizes();
    CRC_HI[(index >> 4) as int][(index & 0xF) as int]
  }

  function LowEntry(index: Byte): Byte {
    TableSizes();
    CRC_LOW[(index >> 4) as int][(index & 0xF) as int]
  }

  function Halves(high: Byte, low: Byte): Word {
    ((high as Word) << 8) | (low as Word)
  }

  /** The two table bytes at an index are the halves of eight shifts of the index. */
  predicate Tabulated(index: Byte) {
    Eight(index as Word) == Halves(LowEntry(index), HiEntry(index))
  }

  lemma Quarter0(index: Byte)
    requires index >> 6 == 0
    ensures Tabulated(index)
  {
  }

  lemma Quarter1(index: Byte)
    requires index >> 6 == 1
    ensures Tabulated(index)
  {
  }

  lemma Quarter2(index: Byte)
    requires index >> 6 == 2
    ensures Tabulated(index)
  {
  }

  lemma Quarter3(index: Byte)
    requires index >> 6 == 3
    ensures Tabulated(index)
  {
  }

  /** All 512 table bytes. */
  lemma TableEntry(index: Byte)
    ensures Tabulated(index)
  {
    hide Tabulated;
    if index >> 6 == 0 {
      Quarter0(index);
    } else if index >> 6 == 1 {
      Quarter1(index);
    } else if index >> 6 == 2 {
      Quarter2(index);
    } else {
      Quarter3(index);
    }
  }

  // ---------------------------------------------------------------- eight shifts

  /** A byte moved up `k` places, out of the way of the next `k` shifts. */
  function Up(b: Byte, k: nat): Word
    requires k <= 8
  {
    (b as Word) << k
  }

  /** Bits above the lowest move down undisturbed. */
  lemma BitCarries(c: Word, d: Word)
    requires !Odd(d)
    ensures Bit(Xor(c, d)) == Xor(Bit(c), Half(d))
  {
    hide Odd;
    hide Half;
    hide Xor;
    Parity(c, d);
    XorShift(c, d);
    XorSwap(Half(c), Half(d), 0xA001);
  }

  lemma Parity(c: Word, d: Word)
    requires !Odd(d)
    ensures Odd(Xor(c, d)) == Odd(c)
  {
  }

  lemma XorShift(c: Word, d: Word)
    ensures Half(Xor(c, d)) == Xor(Half(c), Half(d))
  {
  }

  lemma XorSwap(c: Word, d: Word, e: Word)
    ensures Xor(Xor(c, d), e) == Xor(Xor(c, e), d)
  {
  }

  lemma UpCarries(c: Word, b: Byte, k: nat)
    requires 0 < k <= 8
    ensures Bit(Xor(c, Up(b, k))) == Xor(Bit(c), Up(b, k - 1))
  {
    hide Bit;
    hide Xor;
    hide Up;
    hide Half;
    hide Odd;
    UpHalf(b, k);
    BitCarries(c, Up(b, k));
  }

  lemma UpHalf(b: Byte, k: nat)
    requires 0 < k <= 8
    ensures !Odd(Up(b, k)) && Half(Up(b, k)) == Up(b, k - 1)
  {
    if k <= 4 {
      if k == 1 {
      } else if k == 2 {
      } else if k == 3 {
      }
    } else if k == 5 {
    } else if k == 6 {
    } else if k == 7 {
    }
  }

  /** A byte in the upper half comes out in the lower half. */
  lemma EightCarries(c: Word, b: Byte)
    ensures Eight(Xor(c, Up(b, 8))) == Xor(Eight(c), Up(b, 0))
  {
    hide Bit;
    hide Xor;
    hide Up;
    UpCarries(c, b, 8);
    UpCarries(Bit(c), b, 7);
    UpCarries(Bit(Bit(c)), b, 6);
    UpCarries(Bit(Bit(Bit(c))), b, 5);
    UpCarries(Bit(Bit(Bit(Bit(c)))), b, 4);
    UpCarries(Bit(Bit(Bit(Bit(Bit(c))))), b, 3);
    UpCarries(Bit(Bit(Bit(Bit(Bit(Bit(c)))))), b, 2);
    UpCarries(Bit(Bit(Bit(Bit(Bit(Bit(Bit(c))))))), b, 1);
  }

  lemma BitInjective(a: Word, b: Word)
    requires Bit(a) == Bit(b)
    ensures a == b
  {
  }

  lemma EightInjective(a: Word, b: Word)
    requires Eight(a) == Eight(b)
    ensures a == b
  {
    hide Bit;
    BitInjective(Bit(Bit(Bit(Bit(Bit(Bit(Bit(a))))))), Bit(Bit(Bit(Bit(Bit(Bit(Bit(b))))))));
    BitInjective(Bit(Bit(Bit(Bit(Bit(Bit(a)))))), Bit(Bit(Bit(Bit(Bit(Bit(b)))))));
    BitInjective(Bit(Bit(Bit(Bit(Bit(a))))), Bit(Bit(Bit(Bit(Bit(b))))));
    BitInjective(Bit(Bit(Bit(Bit(a)))), Bit(Bit(Bit(Bit(b)))));
    BitInjective(Bit(Bit(Bit(a))), Bit(Bit(Bit(b))));
    BitInjective(Bit(Bit(a)), Bit(Bit(b)));
    BitInjective(Bit(a), Bit(b));
    BitInjective(a, b);
  }

  // ---------------------------------------------------------------- the C function

  method ModbusCrc16(data: seq<Byte>) returns (crc: Word)
    ensures crc == Crc(data)
  {
    hide Feed;
    hide HiEntry;
    hide LowEntry;
    var high: Byte, low: Byte := 0xFF, 0xFF;
    assert Halves(high, low) == INITIAL;
    var i := 0;
    while i < |data|
      invariant 0 <= i <= |data|
      invariant CrcFrom(Halves(high, low), data[i..]) == Crc(data)
    {
      TableStep(high, low, data[i]);
      assert data[i..][1..] == data[i + 1..];
      var index := low ^ data[i];
      low := high ^ HiEntry(index);
      high := LowEntry(index);
      i := i + 1;
    }
    crc := Halves(high, low);
  }

  /** One turn of the loop: two lookups do the work of eight shifts. */
  lemma TableStep(high: Byte, low: Byte, b: Byte)
    ensures var index := low ^ b;
            Feed(Halves(high, low), b) == Halves(LowEntry(index), high ^ HiEntry(index))
  {
    hide Eight;
    hide HiEntry;
    hide LowEntry;
    hide Feed;
    hide Xor;
    hide Up;
    hide Halves;
    var index := low ^ b;
    FeedIs(Halves(high, low), b);
    TableEntry(index);
    EightCarries(index as Word, high);
    Reorder(high, low, b);
    XorLow(LowEntry(index), HiEntry(index), high);
  }

  lemma FeedIs(c: Word, b: Byte)
    ensures Feed(c, b) == Eight(Xor(c, b as Word))
  {
  }

  lemma Reorder(high: Byte, low: Byte, b: Byte)
    ensures Xor(Halves(high, low), b as Word) == Xor((low ^ b) as Word, Up(high, 8))
  {
    hide Xor;
    hide Up;
    hide Halves;
    HalvesXor(high, low);
    Widen(low, b);
    XorRotate(Up(high, 8), low as Word, b as Word);
  }

  lemma HalvesXor(high: Byte, low: Byte)
    ensures Halves(high, low) == Xor(Up(high, 8), low as Word)
  {
  }

  lemma Widen(low: Byte, b: Byte)
    ensures (low ^ b) as Word == Xor(low as Word, b as Word)
  {
  }

  lemma XorRotate(u: Word, l: Word, b: Word)
    ensures Xor(Xor(u, l), b) == Xor(Xor(l, b), u)
  {
  }

  lemma XorLow(high: Byte, low: Byte, b: Byte)
    ensures Xor(Halves(high, low), Up(b, 0)) == Halves(high, b ^ low)
  {
  }

  // ---------------------------------------------------------------- what the CRC detects

  lemma {:induction false} CrcConcat(c: Word, m: seq<Byte>, rest: seq<Byte>)
    ensures CrcFrom(c, m + rest) == CrcFrom(CrcFrom(c, m), rest)
    decreases |m|
  {
    hide Feed;
    if m == [] {
      assert m + rest == rest;
    } else {
      assert (m + rest)[1..] == m[1..] + rest;
      CrcConcat(Feed(c, m[0]), m[1..], rest);
    }
  }

  /** The same bytes never bring two different states together. */
  lemma {:induction false} CrcFromInjective(a: Word, b: Word, m: seq<Byte>)
    requires CrcFrom(a, m) == CrcFrom(b, m)
    ensures a == b
    decreases |m|
  {
    if m != [] {
      FeedInjective(a, b, m[0]);
      CrcFromInjective(Feed(a, m[0]), Feed(b, m[0]), m[1..]);
    }
  }

  lemma FeedInjective(a: Word, b: Word, x: Byte)
    ensures Feed(a, x) == Feed(b, x) ==> a == b
  {
    hide Eight;
    if Feed(a, x) == Feed(b, x) {
      EightInjective(a ^ (x as Word), b ^ (x as Word));
      Cancel(a, b, x as Word);
    }
  }

  lemma Cancel(a: Word, b: Word, x: Word)
    ensures a ^ x == b ^ x ==> a == b
    ensures x ^ a == x ^ b ==> a == b
  {
  }

  /** Two bytes are sixteen shifts of the state XORed with the word they make, low byte first. */
  lemma TwoBytes(c: Word, x: Byte, y: Byte)
    ensures CrcFrom(c, [x, y]) == Eight(Eight(c ^ Halves(y, x)))
  {
    hide Eight;
    OneByte(Feed(c, x), y);
    assert [x, y][1..] == [y];
    EightCarries(c ^ (x as Word), y);
    Regroup(c, x, y);
  }

  lemma OneByte(c: Word, y: Byte)
    ensures CrcFrom(c, [y]) == Feed(c, y)
  {
  }

  lemma Regroup(c: Word, x: Byte, y: Byte)
    ensures c ^ Halves(y, x) == Xor(c ^ (x as Word), Up(y, 8))
    ensures forall e: Word :: Xor(e, Up(y, 0)) == e ^ (y as Word)
  {
  }

  lemma HalvesInjective(a: Byte, b: Byte, x: Byte, y: Byte)
    ensures Halves(a, b) == Halves(x, y) ==> a == x && b == y
  {
  }

  /** Different pairs of bytes lead apart. */
  lemma TwoBytesInjective(c: Word, x: Byte, y: Byte, x': Byte, y': Byte)
    requires CrcFrom(c, [x, y]) == CrcFrom(c, [x', y'])
    ensures x == x' && y == y'
  {
    hide Eight;
    hide Halves;
    TwoBytes(c, x, y);
    TwoBytes(c, x', y');
    EightInjective(Eight(c ^ Halves(y, x)), Eight(c ^ Halves(y', x')));
    EightInjective(c ^ Halves(y, x), c ^ Halves(y', x'));
    Cancel(Halves(y, x), Halves(y', x'), c);
    HalvesInjective(y, x, y', x');
  }

  /** A message followed by two bytes checks to 0 exactly when they are its CRC, low byte first. */
  lemma CheckedIffCrc(m: seq<Byte>, x: Byte, y: Byte)
    ensures Crc(m + [x, y]) == 0 <==> x == LowByte(Crc(m)) && y == HighByte(Crc(m))
  {
    hide Eight;
    hide CrcFrom;
    var c := Crc(m);
    CrcConcat(INITIAL, m, [x, y]);
    TwoBytes(c, LowByte(c), HighByte(c));
    assert c ^ Halves(HighByte(c), LowByte(c)) == 0;
    ZeroStays();
    if CrcFrom(c, [x, y]) == 0 {
      TwoBytesInjective(c, x, y, LowByte(c), HighByte(c));
    }
  }

  lemma ZeroStays()
    ensures Eight(0) == 0
  {
  }

  /** Two messages that differ only inside two adjacent bytes never share a CRC. */
  lemma BurstDetected(m: seq<Byte>, m': seq<Byte>, k: nat)
    requires |m| == |m'| && k + 2 <= |m| && m != m'
    requires m[..k] == m'[..k] && m[k + 2..] == m'[k + 2..]
    ensures Crc(m) != Crc(m')
  {
    hide CrcFrom;
    var head, tail := m[..k], m[k + 2..];
    var c := CrcFrom(INITIAL, head);
    assert m == head + ([m[k], m[k + 1]] + tail);
    assert m' == head + ([m'[k], m'[k + 1]] + tail);
    CrcConcat(INITIAL, head, [m[k], m[k + 1]] + tail);
    CrcConcat(INITIAL, head, [m'[k], m'[k + 1]] + tail);
    CrcConcat(c, [m[k], m[k + 1]], tail);
    CrcConcat(c, [m'[k], m'[k + 1]], tail);
    if Crc(m) == Crc(m') {
      CrcFromInjective(CrcFrom(c, [m[k], m[k + 1]]), CrcFrom(c, [m'[k], m'[k + 1]]), tail);
      TwoBytesInjective(c, m[k], m[k + 1], m'[k], m'[k + 1]);
      assert false;
    }
  }

  // ---------------------------------------------------------------- known values

  /** The check value of this CRC: that of the nine characters 123456789. */
  lemma CheckValue()
    ensures Crc([0x31, 0x32, 0x33, 0x34, 0x35, 0x36, 0x37, 0x38, 0x39]) == 0x4B37
  {
  }

  /** The frame that writes 1 into register 2 of device 1. */
  lemma CommandValue()
    ensures Crc([0x01, 0x06, 0x00, 0x02, 0x00, 0x01]) == 0xCAE9
  {
  }

  /** The frame that reads two registers of device 2, from the first on. */
  lemma QueryValue()
    ensures Crc([0x02, 0x03, 0x00, 0x00, 0x00, 0x02]) == 0x38C4
  {
  }
}
