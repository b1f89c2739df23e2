/**
 The message a LoRa node is sent: a frame written in hexadecimal inside a small JSON object.

 `signedChar` says whether the platform's `char` is signed, which the hexadecimal conversion depends on.
 */
module LoraMessage {
  import opened Bytes
  import opened JsonValue
  import opened Wrappers
  import ByteConversion
  import JsonCompare
  import JsonPrinter
  import JsonReading
  import JsonRoundTrip
  import Modbus
  import Utf

  // ---------------------------------------------------------------- hexadecimal

  /** `hex[i] >> 4`, which drags the sign along where `char` is signed. */
  function HighHalf(b: Modbus.Byte, signedChar: bool): (h: int)
    ensures -8 <= h < 16
  {
    var n := b as int;
    if signedChar && n >= 0x80 then n / 16 - 16 else n / 16
  }

  function LowHalf(b: Modbus.Byte): (h: int)
    ensures 0 <= h < 16
  {
    (b as int) % 16
  }

  function AsciiDigit(half: int): byte
    requires -8 <= half < 16
  {
    if half <= 9 then 0x30 + half else 0x41 + half - 10
  }

  function HexPair(b: Modbus.Byte, signedChar: bool): (r: seq<byte>)
    ensures |r| == 2
  {
    [AsciiDigit(HighHalf(b, signedChar)), AsciiDigit(LowHalf(b))]
  }

  function HexText(frame: seq<Modbus.Byte>, signedChar: bool): (r: seq<byte>)
    ensures |r| == 2 * |frame|
  {
    if frame == [] then [] else HexText(frame[..|frame| - 1], signedChar) + HexPair(frame[|frame| - 1], signedChar)
  }

  /** What a reader makes of a run of hexadecimal digit pairs. */
  function UnHex(text: seq<byte>): Option<seq<Modbus.Byte>> {
    if text == [] then Some([])
    else if |text| == 1 then None
    else
      var high, low := Utf.HexValue(text[|text| - 2]), Utf.HexValue(text[|text| - 1]);
      var rest := UnHex(text[..|text| - 2]);
      if rest.None? || high.None? || low.None? then None
      else Some(rest.value + [(16 * high.value + low.value) as Modbus.Byte])
  }

  method Hex2Ascii(hex: array<Modbus.Byte>, ascii: array<byte>, signedChar: bool)
    requires 2 * hex.Length < ascii.Length
    modifies ascii
    ensures ascii[..2 * hex.Length] == HexText(hex[..], signedChar) && ascii[2 * hex.Length] == NUL
  {
    hide HexPair;
    hide AsciiDigit;
    hide HighHalf;
    hide LowHalf;
    var i, j := 0, 0;
    while i < hex.Length
      invariant 0 <= i <= hex.Length && j == 2 * i
      invariant ascii[..j] == HexText(hex[..i], signedChar)
    {
      assert hex[..i + 1][..i] == hex[..i];
      var hiHalf, loHalf := HighHalf(hex[i], signedChar), LowHalf(hex[i]);
      PairIs(hex[i], signedChar);
      ascii[j] := AsciiDigit(hiHalf);
      j := j + 1;
      ascii[j] := AsciiDigit(loHalf);
      j := j + 1;
      assert ascii[..j] == ascii[..j - 2] + HexPair(hex[i], signedChar);
      i := i + 1;
    }
    assert hex[..hex.Length] == hex[..];
    ascii[j] := NUL;
  }

  lemma PairIs(b: Modbus.Byte, signedChar: bool)
    ensures HexPair(b, signedChar) == [AsciiDigit(HighHalf(b, signedChar)), AsciiDigit(LowHalf(b))]
  {
  }

  predicate Readable(frame: seq<Modbus.Byte>, signedChar: bool) {
    !signedChar || forall i :: 0 <= i < |frame| ==> frame[i] as int < 0x80
  }

  lemma PairBack(b: Modbus.Byte, signedChar: bool)
    ensures var pair := HexPair(b, signedChar);
            && Utf.HexValue(pair[1]) == Some((b as int) % 16)
            && Utf.HexValue(pair[0]) == if signedChar && b as int >= 0x80 then None else Some((b as int) / 16)
  {
  }

  lemma UnHexMore(text: seq<byte>, pair: seq<byte>)
    requires |pair| == 2
    ensures var rest, high, low := UnHex(text), Utf.HexValue(pair[0]), Utf.HexValue(pair[1]);
            UnHex(text + pair) ==
            if rest.None? || high.None? || low.None? then None
            else Some(rest.value + [(16 * high.value + low.value) as Modbus.Byte])
  {
  }

  lemma HexTextMore(frame: seq<Modbus.Byte>, signedChar: bool)
    requires frame != []
    ensures HexText(frame, signedChar) ==
            HexText(frame[..|frame| - 1], signedChar) + HexPair(frame[|frame| - 1], signedChar)
  {
    hide HexPair;
  }

  /** The text reads back as the frame, unless `char` is signed and a byte has its top bit set. */
  lemma {:induction false} HexBack(frame: seq<Modbus.Byte>, signedChar: bool)
    ensures UnHex(HexText(frame, signedChar)) == if Readable(frame, signedChar) then Some(frame) else None
  {
    hide HexPair;
    hide HexText;
    hide UnHex;
    hide Utf.HexValue;
    hide Readable;
    if frame == [] {
      NothingToRead(signedChar);
    } else {
      var front, last := frame[..|frame| - 1], frame[|frame| - 1];
      HexBack(front, signedChar);
      HexTextMore(frame, signedChar);
      UnHexMore(HexText(front, signedChar), HexPair(last, signedChar));
      PairBack(last, signedChar);
      ByteConversion.Back(last);
      assert 16 * (last as int / 16) + last as int % 16 == last as int;
      assert frame == front + [last];
      ReadableMore(front, last, signedChar);
    }
  }

  lemma ReadableMore(frame: seq<Modbus.Byte>, b: Modbus.Byte, signedChar: bool)
    ensures Readable(frame + [b], signedChar) <==> Readable(frame, signedChar) && (!signedChar || b as int < 0x80)
  {
    if Readable(frame + [b], signedChar) {
      assert forall i :: 0 <= i < |frame| ==> (frame + [b])[i] == frame[i];
      assert (frame + [b])[|frame|] == b;
    }
  }

  lemma NothingToRead(signedChar: bool)
    ensures UnHex([]) == Some([]) && Readable([], signedChar)
  {
  }

  // ---------------------------------------------------------------- the JSON object

  const DATA: seq<byte> := [0x64, 0x61, 0x74, 0x61]
  const DEVADDR: seq<byte> := [0x64, 0x65, 0x76, 0x61, 0x64, 0x64, 0x72]
  const PORT: seq<byte> := [0x70, 0x6F, 0x72, 0x74]
  const TIME: seq<byte> := [0x74, 0x69, 0x6D, 0x65]
  const IMMEDIATELY: seq<byte> := [0x69, 0x6D, 0x6D, 0x65, 0x64, 0x69, 0x61, 0x74, 0x65, 0x6C, 0x79]
  const TWO: seq<byte> := [0x32]

  function Message(data: seq<byte>, lora: seq<byte>): Value {
    Object([Member(DATA, String(data)), Member(DEVADDR, String(lora)),
            Member(PORT, Number(TWO)), Member(TIME, String(IMMEDIATELY))])
  }

  function MessageText(data: seq<byte>, lora: seq<byte>): seq<byte> {
    Text(Message(data, lora), true, 0)
  }

  /** `get_object_item`, case sensitive: the value of the first member with the key. */
  function ItemNamed(v: Value, key: seq<byte>): Option<Value> {
    if !v.Object? then None
    else
      match JsonCompare.Find(v.members, key, true)
      case None => None
      case Some(i) => Some(v.members[i].value)
  }

  /** The first member whose key is exactly that; upper and lower case count as different. */
  lemma ItemNamedIsFirst(v: Value, key: seq<byte>, i: nat)
    requires v.Object? && i <= |v.members|
    requires forall j :: 0 <= j < i ==> v.members[j].key != key
    requires i < |v.members| ==> v.members[i].key == key
    ensures ItemNamed(v, key) == if i < |v.members| then Some(v.members[i].value) else None
  {
    JsonCompare.SameKey(key, key, true);
    if i < |v.members| {
      JsonCompare.SameKey(v.members[i].key, key, true);
    }
    if JsonCompare.Find(v.members, key, true).Some? {
      JsonCompare.SameKey(v.members[JsonCompare.Find(v.members, key, true).value].key, key, true);
    }
  }

  /** A frame for the device at a LoRa address, through a LoRa port. */
  datatype Packet = Packet(lora: seq<byte>, port: seq<byte>, frame: seq<Modbus.Byte>)

  /** What the network server makes of a message: JSON to be sent at once, with the frame in hexadecimal. */
  function Unpacked(text: seq<byte>): Option<Packet> {
    if !JsonReading.Terminated(text + [NUL]) then None
    else
      match JsonReading.ReadText(text + [NUL], false)
      case Failed(_) => None
      case Parsed(v, _) =>
        var data, lora := ItemNamed(v, Ascii("data")), ItemNamed(v, Ascii("devaddr"));
        var port, time := ItemNamed(v, Ascii("port")), ItemNamed(v, Ascii("time"));
        if time != Some(String(Ascii("immediately"))) then None
        else
          match (data, lora, port)
          case (Some(String(hex)), Some(String(node)), Some(Number(number))) =>
            (match UnHex(hex)
             case None => None
             case Some(frame) => Some(Packet(node, number, frame)))
          case _ => None
  }

  /** A request that reached the device at a LoRa address. */
  datatype Delivery = Delivery(lora: seq<byte>, request: Modbus.Request)

  /** What the device makes of a message, behind the network server. */
  function Delivered(text: seq<byte>): Option<Delivery> {
    match Unpacked(text)
    case None => None
    case Some(packet) =>
      match Modbus.Decode(packet.frame)
      case None => None
      case Some(request) => Some(Delivery(packet.lora, request))
  }

  lemma {:induction false} HexNulFree(frame: seq<Modbus.Byte>, signedChar: bool)
    ensures NulFree(HexText(frame, signedChar))
  {
    if frame != [] {
      HexNulFree(frame[..|frame| - 1], signedChar);
    }
  }

  lemma MessageWellFormed(data: seq<byte>, lora: seq<byte>)
    requires NulFree(data) && NulFree(lora)
    ensures WellFormed(Message(data, lora)) && JsonRoundTrip.AllFinite(Message(data, lora))
    ensures Nesting(Message(data, lora)) == 1
    ensures ItemNamed(Message(data, lora), Ascii("data")) == Some(String(data))
    ensures ItemNamed(Message(data, lora), Ascii("devaddr")) == Some(String(lora))
    ensures ItemNamed(Message(data, lora), Ascii("port")) == Some(Number(Ascii("2")))
    ensures ItemNamed(Message(data, lora), Ascii("time")) == Some(String(Ascii("immediately")))
  {
    hide Nesting;
    hide WellFormed;
    hide JsonRoundTrip.AllFinite;
    hide ItemNamed;
    FlatMessage(data, lora);
    NamedItems(data, lora);
  }

  lemma FlatMessage(data: seq<byte>, lora: seq<byte>)
    requires NulFree(data) && NulFree(lora)
    ensures WellFormed(Message(data, lora)) && JsonRoundTrip.AllFinite(Message(data, lora))
    ensures Nesting(Message(data, lora)) == 1
  {
    hide Nesting;
    hide WellFormed;
    hide JsonRoundTrip.AllFinite;
    hide IsLexeme;
    NamesNulFree();
    TwoIsLexeme();
    FlatObject([Member(DATA, String(data)), Member(DEVADDR, String(lora)),
                Member(PORT, Number(TWO)), Member(TIME, String(IMMEDIATELY))]);
  }

  lemma NamesNulFree()
    ensures NulFree(DATA) && NulFree(DEVADDR) && NulFree(PORT) && NulFree(TIME) && NulFree(IMMEDIATELY)
  {
  }

  predicate Flat(member: Member) {
    NulFree(member.key)
    && match member.value
       case String(text) => NulFree(text)
       case Number(lexeme) => IsLexeme(lexeme)
       case _ => false
  }

  lemma FlatObject(members: seq<Member>)
    requires forall i :: 0 <= i < |members| ==> Flat(members[i])
    ensures WellFormed(Object(members)) && JsonRoundTrip.AllFinite(Object(members)) && Nesting(Object(members)) == 1
  {
    hide IsLexeme;
    FlatMembers(members);
  }

  lemma NamesAre()
    ensures DATA == Ascii("data") && DEVADDR == Ascii("devaddr") && PORT == Ascii("port") && TIME == Ascii("time")
    ensures TWO == Ascii("2") && IMMEDIATELY == Ascii("immediately")
  {
  }

  lemma NamedItems(data: seq<byte>, lora: seq<byte>)
    ensures ItemNamed(Message(data, lora), Ascii("data")) == Some(String(data))
    ensures ItemNamed(Message(data, lora), Ascii("devaddr")) == Some(String(lora))
    ensures ItemNamed(Message(data, lora), Ascii("port")) == Some(Number(Ascii("2")))
    ensures ItemNamed(Message(data, lora), Ascii("time")) == Some(String(Ascii("immediately")))
  {
    var v := Message(data, lora);
    assert |DATA| != |DEVADDR|;
    assert v.members[1..][0] == Member(DEVADDR, String(lora));
    assert JsonCompare.Find(v.members[1..], DEVADDR, true) == Some(0);
    NamesAre();
    assert v.members[2..][0].key == PORT && v.members[3..][0].key == TIME;
    assert v.members[1..][1..] == v.members[2..] && v.members[2..][1..] == v.members[3..];
    assert JsonCompare.Find(v.members[2..], PORT, true) == Some(0);
    assert JsonCompare.Find(v.members[3..], TIME, true) == Some(0);
    assert JsonCompare.Find(v.members[2..], TIME, true) == Some(1);
  }

  lemma TwoIsLexeme()
    ensures IsLexeme(TWO)
  {
  }

  lemma {:induction false} FlatMembers(members: seq<Member>)
    requires forall i :: 0 <= i < |members| ==> !members[i].value.Array? && !members[i].value.Object?
    ensures MembersNesting(members) == 0
  {
    if members != [] {
      FlatMembers(members[1..]);
    }
  }

  /** A message composed for a frame carries it to the node it names, and the device reads what the frame says. */
  lemma MessageDelivers(frame: seq<Modbus.Byte>, signedChar: bool, lora: seq<byte>)
    requires NulFree(lora)
    ensures Unpacked(MessageText(HexText(frame, signedChar), lora)) ==
            if Readable(frame, signedChar) then Some(Packet(lora, Ascii("2"), frame)) else None
    ensures Delivered(MessageText(HexText(frame, signedChar), lora)) ==
            if Readable(frame, signedChar) && Modbus.Decode(frame).Some?
            then Some(Delivery(lora, Modbus.Decode(frame).value)) else None
  {
    hide Readable;
    hide HexText;
    hide Text;
    hide UnHex;
    hide Modbus.Decode;
    hide JsonReading.ReadText;
    hide JsonReading.Terminated;
    hide ItemNamed;
    var data := HexText(frame, signedChar);
    HexNulFree(frame, signedChar);
    HexBack(frame, signedChar);
    MessageWellFormed(data, lora);
    JsonRoundTrip.RoundTrip(Message(data, lora), true, false);
  }

  /**
   A command or query the gateway sends arrives as it was meant, unless `char` is signed and a byte of its frame has
   the top bit set; then nothing arrives.
   */
  lemma RequestArrives(plc: int, code: Modbus.Byte, register: int, operand: int, signedChar: bool, lora: seq<byte>)
    requires NulFree(lora)
    ensures var frame := Modbus.Frame(plc, code, register, operand);
            Delivered(MessageText(HexText(frame, signedChar), lora)) ==
            if Readable(frame, signedChar)
            then Some(Delivery(lora, Modbus.Request(plc % 0x100, code, register % 0x1_0000, operand % 0x1_0000)))
            else None
  {
    hide Readable;
    hide Modbus.Frame;
    hide Modbus.Decode;
    hide Delivered;
    Modbus.FrameRoundTrip(plc, code, register, operand);
    MessageDelivers(Modbus.Frame(plc, code, register, operand), signedChar, lora);
  }

  // ---------------------------------------------------------------- the documented examples

  /** The frame that controls a device, as hexadecimal text. */
  lemma CommandExample()
    ensures HexText(Modbus.Frame(1, Modbus.FC_WRITE, 2, 1), false) == Ascii("010600020001E9CA")
  {
    hide Modbus.Frame;
    hide HexText;
    Modbus.CommandFrame();
    EightBytes(Modbus.Frame(1, Modbus.FC_WRITE, 2, 1), Ascii("010600020001E9CA"));
  }

  /** The message the network server is documented to expect, without white space. */
  lemma QueryExample()
    ensures HexText(Modbus.Frame(2, Modbus.FC_READ, 0, 2), false) == Ascii("020300000002C438")
  {
    hide Modbus.Frame;
    hide HexText;
    Modbus.QueryFrame();
    EightBytes(Modbus.Frame(2, Modbus.FC_READ, 0, 2), Ascii("020300000002C438"));
  }

  lemma EightBytes(frame: seq<Modbus.Byte>, text: seq<byte>)
    requires |frame| == 8 && |text| == 16
    requires forall i :: 0 <= i < 8 ==> HexPair(frame[i], false) == [text[2 * i], text[2 * i + 1]]
    ensures HexText(frame, false) == text
  {
    HexByPairs(frame, text, 8);
    assert frame[..8] == frame && text[..16] == text;
  }

  lemma {:induction false} HexByPairs(frame: seq<Modbus.Byte>, text: seq<byte>, n: nat)
    requires n <= |frame| && |text| == 2 * |frame|
    requires forall i :: 0 <= i < |frame| ==> HexPair(frame[i], false) == [text[2 * i], text[2 * i + 1]]
    ensures HexText(frame[..n], false) == text[..2 * n]
  {
    hide HexPair;
    if n > 0 {
      HexByPairs(frame, text, n - 1);
      assert frame[..n][..n - 1] == frame[..n - 1];
      assert text[..2 * n] == text[..2 * n - 2] + [text[2 * n - 2], text[2 * n - 1]];
    }
  }

  // ---------------------------------------------------------------- the fixed buffer

  const TEXT_BUFFER: nat := 1024
  const NAME_BUFFER: nat := 64

  lemma {:induction false} EscapeBound(s: seq<byte>)
    ensures |Escape(s)| <= 6 * |s|
  {
    if s != [] {
      EscapeBound(s[1..]);
    }
  }

  lemma MemberBound(members: seq<Member>)
    requires members != []
    ensures |MembersText(members, true, 1)| <=
            7 + 6 * |members[0].key| + |Text(members[0].value, true, 1)| + |MembersText(members[1..], true, 1)|
  {
    hide Text;
    hide Escape;
    EscapeBound(members[0].key);
  }

  lemma StringBound(s: seq<byte>)
    ensures |Text(String(s), true, 1)| <= 6 * |s| + 2
  {
    EscapeBound(s);
  }

  /** The text fits the fixed buffer it is copied to, for every frame of eight bytes and every node name. */
  lemma MessageFits(data: seq<byte>, lora: seq<byte>)
    requires |data| == 16 && |lora| < NAME_BUFFER
    ensures |MessageText(data, lora)| < TEXT_BUFFER
  {
    hide MembersText;
    hide Escape;
    var m := Message(data, lora).members;
    StringBound(data);
    StringBound(lora);
    StringBound(IMMEDIATELY);
    MemberBound(m);
    MemberBound(m[1..]);
    MemberBound(m[2..]);
    MemberBound(m[3..]);
    assert m[1..][1..] == m[2..] && m[2..][1..] == m[3..] && m[3..][1..] == [];
    NoMembersText();
    assert |Text(m[2].value, true, 1)| == 1;
    assert |Indent(true, 0)| == 0;
  }

  lemma NoMembersText()
    ensures MembersText([], true, 1) == []
  {
  }

  method ConstructJsonText2Lora(data: seq<byte>, lora: seq<byte>, output: array<byte>)
    requires NulFree(data) && NulFree(lora) && |data| == 16 && |lora| < NAME_BUFFER && output.Length == TEXT_BUFFER
    modifies output
    ensures |MessageText(data, lora)| < TEXT_BUFFER
    ensures output[..|MessageText(data, lora)| + 1] == MessageText(data, lora) + [NUL]
  {
    hide Message;
    hide Text;
    ghost var text := MessageText(data, lora);
    MessageWellFormed(data, lora);
    MessageFits(data, lora);
    var printed := JsonPrinter.Print(Message(data, lora), true);
    assert printed != null;
    var n := printed.Length;
    forall i | 0 <= i < n {
      output[i] := printed[i];
    }
    assert output[..n] == printed[..];
  }
}
