/** Converting a small number to a byte and back. */
module ByteConversion {

  lemma RoundTrip(n: int)
    requires 0 <= n < 0x100
    ensures (n as bv8) as int == n
  {
  }

  lemma Back(b: bv8)
    ensures (b as int) as bv8 == b
  {
  }
}

/**
 The eight-byte request frames: address, function code, two big-endian fields and the CRC, low byte first
 (sections 6.3 and 6.6 of the Modbus Application Protocol).
 */
module Modbus {
  import ByteConversion
  import Crc
  import opened Wrappers

  type Byte = bv8

  const FC_READ: Byte := 0x03
  const FC_WRITE: Byte := 0x06

  /** A request as a device reads it. */
  datatype Request = Request(address: nat, code: Byte, register: nat, operand: nat)

  function FieldOf(high: Byte, low: Byte): nat {
    (high as int) * 0x100 + (low as int)
  }

  /** What a device makes of a frame; a frame with a wrong CRC is dropped. */
  function Decode(frame: seq<Byte>): Option<Request> {
    if |frame| != 8 || Crc.Crc(frame[..6]) != Crc.Halves(frame[7], frame[6]) then None
    else Some(Request(frame[0] as int, frame[1], FieldOf(frame[2], frame[3]), FieldOf(frame[4], frame[5])))
  }

  function Low(n: int): Byte {
    (n % 0x100) as Byte
  }

  function High(n: int): Byte {
    (n / 0x100 % 0x100) as Byte
  }

  function Frame(plc: int, code: Byte, register: int, operand: int): seq<Byte> {
    var body := [Low(plc), code, High(register), Low(register), High(operand), Low(operand)];
    body + [Crc.LowByte(Crc.Crc(body)), Crc.HighByte(Crc.Crc(body))]
  }

  /** The bytes the gateway fills in one by one. */
  method Compose(plc: int, code: Byte, register: int, operand: int) returns (frame: array<Byte>)
    ensures fresh(frame) && frame[..] == Frame(plc, code, register, operand)
  {
    hide Low;
    hide High;
    hide Crc.Crc;
    hide Crc.LowByte;
    hide Crc.HighByte;
    frame := new Byte[8];
    frame[0] := Low(plc);
    frame[1] := code;
    frame[2] := High(register);
    frame[3] := Low(register);
    frame[4] := High(operand);
    frame[5] := Low(operand);
    var crc16 := Crc.ModbusCrc16(frame[..6]);
    assert frame[..6] == [Low(plc), code, High(register), Low(register), High(operand), Low(operand)];
    ghost var body := frame[..6];
    frame[6] := Crc.LowByte(crc16);
    frame[7] := Crc.HighByte(crc16);
    assert frame[..] == body + [Crc.LowByte(crc16), Crc.HighByte(crc16)];
  }

  lemma FieldBytes(n: int)
    ensures FieldOf(High(n), Low(n)) == n % 0x1_0000
    ensures Low(n) as int == n % 0x100
  {
    assert (n / 0x100 % 0x100) * 0x100 + n % 0x100 == n % 0x1_0000;
    ByteConversion.RoundTrip(n % 0x100);
    ByteConversion.RoundTrip(n / 0x100 % 0x100);
  }

  /** A device reads back the fields the gateway put in, each modulo its width, and the frame checks to 0. */
  lemma FrameRoundTrip(plc: int, code: Byte, register: int, operand: int)
    ensures Decode(Frame(plc, code, register, operand)) ==
            Some(Request(plc % 0x100, code, register % 0x1_0000, operand % 0x1_0000))
    ensures Crc.Crc(Frame(plc, code, register, operand)) == 0
  {
    hide Low;
    hide High;
    hide FieldOf;
    hide Crc.Crc;
    hide Crc.LowByte;
    hide Crc.HighByte;
    hide Crc.Halves;
    FieldBytes(plc);
    FieldBytes(register);
    FieldBytes(operand);
    var body := [Low(plc), code, High(register), Low(register), High(operand), Low(operand)];
    var c := Crc.Crc(body);
    Crc.CheckedIffCrc(body, Crc.LowByte(c), Crc.HighByte(c));
    assert Frame(plc, code, register, operand)[..6] == body;
    Rejoin(c);
  }

  lemma Rejoin(c: Crc.Word)
    ensures Crc.Halves(Crc.HighByte(c), Crc.LowByte(c)) == c
  {
  }

  /** Writing 1 into register 2 of device 1. */
  lemma CommandFrame()
    ensures Frame(1, FC_WRITE, 2, 1) == [0x01, 0x06, 0x00, 0x02, 0x00, 0x01, 0xE9, 0xCA]
  {
    hide Crc.Crc;
    hide Crc.LowByte;
    hide Crc.HighByte;
    SmallBytes();
    Crc.CommandValue();
    CrcHalves();
  }

  lemma SmallBytes()
    ensures Low(0) == 0 && Low(1) == 1 && Low(2) == 2 && High(0) == 0 && High(1) == 0 && High(2) == 0
  {
  }

  lemma CrcHalves()
    ensures Crc.LowByte(0xCAE9) == 0xE9 && Crc.HighByte(0xCAE9) == 0xCA
    ensures Crc.LowByte(0x38C4) == 0xC4 && Crc.HighByte(0x38C4) == 0x38
  {
  }

  /** Reading the first two registers of device 2. */
  lemma QueryFrame()
    ensures Frame(2, FC_READ, 0, 2) == [0x02, 0x03, 0x00, 0x00, 0x00, 0x02, 0xC4, 0x38]
  {
    hide Crc.Crc;
    hide Crc.LowByte;
    hide Crc.HighByte;
    SmallBytes();
    Crc.QueryValue();
    CrcHalves();
  }

  /** A frame damaged inside two adjacent bytes is dropped. */
  lemma DamageDropped(plc: int, code: Byte, register: int, operand: int, damaged: seq<Byte>, k: nat)
    requires var frame := Frame(plc, code, register, operand);
             && |damaged| == 8 && k <= 6 && damaged != frame
             && damaged[..k] == frame[..k] && damaged[k + 2..] == frame[k + 2..]
    ensures Decode(damaged) == None
  {
    hide Crc.Crc;
    hide Crc.LowByte;
    hide Crc.HighByte;
    hide Crc.Halves;
    hide Low;
    hide High;
    var frame := Frame(plc, code, register, operand);
    assert damaged == damaged[..6] + [damaged[6], damaged[7]];
    SplitHalves(damaged[7], damaged[6]);
    Crc.CheckedIffCrc(damaged[..6], damaged[6], damaged[7]);
    FrameRoundTrip(plc, code, register, operand);
    Crc.BurstDetected(damaged, frame, k);
  }

  lemma SplitHalves(high: Byte, low: Byte)
    ensures Crc.LowByte(Crc.Halves(high, low)) == low && Crc.HighByte(Crc.Halves(high, low)) == high
  {
  }
}
