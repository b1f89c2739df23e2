/**
 A device on the 485 bus, by the Modbus Application Protocol and MODBUS over Serial Line alone: what a frame makes it
 do, whatever the gateway meant by it.
 */
module ModbusDevice {
  import opened Wrappers
  import Crc
  import Modbus

  type Byte = Modbus.Byte

  /** It does nothing, returns `count` registers from `first` on, or sets one. */
  datatype Reaction = Silent | Returns(first: nat, count: nat) | Sets(register: nat, value: nat)

  /** A field: two bytes, the high one first (section 4.2 of the Modbus Application Protocol). */
  function Field(frame: seq<Byte>, at: nat): nat
    requires at + 1 < |frame|
  {
    256 * (frame[at] as int) + (frame[at + 1] as int)
  }

  /** The CRC of a frame follows it, low byte first (section 6.2.2 of MODBUS over Serial Line). */
  predicate Intact(frame: seq<Byte>) {
    |frame| == 8
    && var crc := Crc.Crc(frame[..6]);
       crc & 0xFF == (frame[6] as Crc.Word) && crc >> 8 == (frame[7] as Crc.Word)
  }

  /**
   Function code 3 returns 1 to 125 registers (section 6.3), function code 6 sets one (section 6.6).  Address 0 is a
   broadcast, obeyed by every device and answered by none (section 2.1 of MODBUS over Serial Line).
   */
  function React(frame: seq<Byte>, device: nat): Reaction {
    if !Intact(frame) then Silent
    else if frame[1] as int == 3 then
      if frame[0] as int == device && 1 <= Field(frame, 4) <= 125 then Returns(Field(frame, 2), Field(frame, 4))
      else Silent
    else if frame[1] as int == 6 then
      if frame[0] as int == device || frame[0] as int == 0 then Sets(Field(frame, 2), Field(frame, 4)) else Silent
    else Silent
  }

  type Registers = map<nat, nat>

  function AfterFrame(registers: Registers, frame: seq<Byte>, device: nat): Registers {
    match React(frame, device)
    case Sets(register, value) => registers[register := value]
    case _ => registers
  }

  /** The device's registers after frames arrived one by one. */
  function AfterFrames(registers: Registers, frames: seq<seq<Byte>>, device: nat): Registers {
    if frames == [] then registers
    else AfterFrame(AfterFrames(registers, frames[..|frames| - 1], device), frames[|frames| - 1], device)
  }

  // ---------------------------------------------------------------- the gateway's frames

  lemma CrcBytes(crc: Crc.Word)
    ensures crc & 0xFF == (Crc.LowByte(crc) as Crc.Word) && crc >> 8 == (Crc.HighByte(crc) as Crc.Word)
  {
  }

  lemma FrameFields(plc: int, code: Byte, register: int, operand: int)
    ensures var frame := Modbus.Frame(plc, code, register, operand);
            && Intact(frame) && frame[0] as int == plc % 0x100 && frame[1] == code
            && Field(frame, 2) == register % 0x1_0000 && Field(frame, 4) == operand % 0x1_0000
  {
    hide Modbus.Low;
    hide Modbus.High;
    hide Crc.Crc;
    hide Crc.LowByte;
    hide Crc.HighByte;
    hide Crc.Halves;
    Modbus.FieldBytes(plc);
    Modbus.FieldBytes(register);
    Modbus.FieldBytes(operand);
    var frame := Modbus.Frame(plc, code, register, operand);
    var body := frame[..6];
    assert body == [Modbus.Low(plc), code, Modbus.High(register), Modbus.Low(register),
                    Modbus.High(operand), Modbus.Low(operand)];
    CrcBytes(Crc.Crc(body));
  }

  /** The gateway's read is a read: it returns registers and sets none. */
  lemma ReadReturns(plc: int, start: int, count: int, device: nat)
    requires 0 <= start < 0x1_0000 && 1 <= count <= 125
    ensures React(Modbus.Frame(plc, Modbus.FC_READ, start, count), device) ==
            if plc % 0x100 == device then Returns(start, count) else Silent
  {
    hide Intact;
    hide Modbus.Frame;
    hide Field;
    FrameFields(plc, Modbus.FC_READ, start, count);
    CodesAre();
  }

  /** The gateway's write sets its register to its value, at the device addressed or, with address 0, at all. */
  lemma WriteSets(plc: int, register: int, value: int, device: nat)
    ensures React(Modbus.Frame(plc, Modbus.FC_WRITE, register, value), device) ==
            if plc % 0x100 == device || plc % 0x100 == 0 then Sets(register % 0x1_0000, value % 0x1_0000) else Silent
  {
    hide Intact;
    hide Modbus.Frame;
    hide Field;
    FrameFields(plc, Modbus.FC_WRITE, register, value);
    CodesAre();
  }

  lemma CodesAre()
    ensures Modbus.FC_READ as int == 3 && Modbus.FC_WRITE as int == 6
  {
  }

  /** Frames that set nothing leave the registers alone. */
  lemma {:induction false} NothingSet(registers: Registers, frames: seq<seq<Byte>>, device: nat)
    requires forall i :: 0 <= i < |frames| ==> !React(frames[i], device).Sets?
    ensures AfterFrames(registers, frames, device) == registers
  {
    hide React;
    if frames != [] {
      NothingSet(registers, frames[..|frames| - 1], device);
    }
  }
}
