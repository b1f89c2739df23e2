/**
 Handling one message from the IoT hub: every parameter that names a known switch becomes a write command at
 the head of the websocket queue.

 The switch list is built by prepending and the commands are inserted at the head, so the two reversals cancel
 and the commands leave in the order of the JSON members.
 */
module HubMessage {
  import opened Bytes
  import opened JsonValue
  import opened Wrappers
  import JsonCompare
  import JsonParser
  import JsonReading
  import JsonRoundTrip
  import LoraMessage
  import Modbus
  import ModbusDevice
  import MsgQueue
  import SwitchIndex

  type Switch = SwitchIndex.Switch

  const PARAMS: seq<byte> := [0x70, 0x61, 0x72, 0x61, 0x6D, 0x73]
  const LORA_NODE_SERIAL_NO: seq<byte> := [
    0x6C, 0x6F, 0x72, 0x61, 0x4E, 0x6F, 0x64, 0x65, 0x53, 0x65, 0x72, 0x69, 0x61, 0x6C, 0x4E, 0x6F]
  const WATER_FERTILIZER_PRESSURE: seq<byte> := [
    0x77, 0x61, 0x74, 0x65, 0x72, 0x46, 0x65, 0x72, 0x74, 0x69, 0x6C, 0x69, 0x7A, 0x65, 0x72, 0x50,
    0x72, 0x65, 0x73, 0x73, 0x75, 0x72, 0x65]

  const SERIAL_BUFFER: nat := 32

  /** What C makes of a number's text: `valueint`, and ten times `valuedouble` converted to an int. */
  datatype Numbers = Numbers(valueint: seq<byte> -> int, tenfold: seq<byte> -> int)

  /** How the gateway is set up: its switch definitions, its number conversions and its `char`. */
  datatype Gateway = Gateway(defs: seq<Switch>, numbers: Numbers, signedChar: bool)

  // ---------------------------------------------------------------- what a message asks for

  /** The command value: anything but a number leaves what the switch node held. */
  function ValueFor(sw: Switch, key: seq<byte>, v: Value, numbers: Numbers): int {
    match v
    case Number(lexeme) =>
      if key == Ascii("waterFertilizerPressure") then numbers.tenfold(lexeme) else numbers.valueint(lexeme)
    case _ => sw.value
  }

  /** The switch a parameter commands, with the value to write. */
  function CommandOf(member: Member, g: Gateway): Option<Switch> {
    if member.key == Ascii("loraNodeSerialNo") then None
    else
      match SwitchIndex.SwitchNamed(g.defs, member.key)
      case None => None
      case Some(sw) => Some(sw.(value := ValueFor(sw, member.key, member.value, g.numbers)))
  }

  function Commands(params: seq<Member>, g: Gateway): seq<Switch> {
    if params == [] then []
    else
      var before := Commands(params[..|params| - 1], g);
      match CommandOf(params[|params| - 1], g)
      case None => before
      case Some(sw) => before + [sw]
  }

  /** The LoRa node all the commands of a message go to: the last one it names. */
  function SerialNo(params: seq<Member>): seq<byte> {
    if params == [] then []
    else
      var last := params[|params| - 1];
      if last.key == Ascii("loraNodeSerialNo") && last.value.String? then last.value.text
      else SerialNo(params[..|params| - 1])
  }

  function CommandText(sw: Switch, serial: seq<byte>, signedChar: bool): seq<byte> {
    LoraMessage.MessageText(
      LoraMessage.HexText(Modbus.Frame(sw.plc, Modbus.FC_WRITE, sw.channel, sw.value), signedChar), serial)
  }

  function CommandTexts(cmds: seq<Switch>, serial: seq<byte>, signedChar: bool): (r: seq<seq<byte>>)
    ensures |r| == |cmds| && forall i :: 0 <= i < |cmds| ==> r[i] == CommandText(cmds[i], serial, signedChar)
  {
    seq(|cmds|, i requires 0 <= i < |cmds| => CommandText(cmds[i], serial, signedChar))
  }

  /** The parameters of a message, if it has any; only the children of an object have names. */
  function ParamsOf(text: seq<byte>): Option<seq<Member>>
    requires JsonReading.Terminated(text + [NUL])
  {
    match JsonReading.ReadText(text + [NUL], false)
    case Failed(_) => None
    case Parsed(root, _) =>
      match LoraMessage.ItemNamed(root, Ascii("params"))
      case None => None
      case Some(params) => Some(if params.Object? then params.members else [])
  }

  /** What the handler needs of a message: a serial number must be a string that fits its buffer. */
  predicate SerialFits(params: seq<Member>) {
    forall i :: 0 <= i < |params| && params[i].key == Ascii("loraNodeSerialNo") ==>
      params[i].value.String? && |params[i].value.text| < SERIAL_BUFFER
  }

  // ---------------------------------------------------------------- the handler

  method GetItemNamed(root: Value, key: seq<byte>) returns (found: Option<Value>)
    ensures found == LoraMessage.ItemNamed(root, key)
  {
    if !root.Object? {
      return None;
    }
    hide JsonCompare.Find;
    var i := JsonCompare.GetObjectItem(root.members, key, true);
    found := if i.Some? then Some(root.members[i.value].value) else None;
  }

  /** The loop over the parameters: the serial number, and the commanded switches, last one first. */
  method CollectSwitches(params: seq<Member>, registry: SwitchIndex.Registry, g: Gateway)
    returns (serial: seq<byte>, list: seq<Switch>)
    requires registry.Holds(g.defs) && SerialFits(params)
    ensures serial == SerialNo(params) && |serial| < SERIAL_BUFFER
    ensures Backwards(list, Commands(params, g))
  {
    hide SwitchIndex.Registry.Holds;
    hide SwitchIndex.SwitchNamed;
    hide ValueFor;
    hide Ascii;
    KeysAre();
    serial, list := [], [];
    assert params[..0] == [];
    for i := 0 to |params|
      invariant registry.Holds(g.defs)
      invariant serial == SerialNo(params[..i]) && |serial| < SERIAL_BUFFER
      invariant Backwards(list, Commands(params[..i], g))
    {
      assert params[..i + 1][..i] == params[..i];
      var current := params[i];
      if current.key == LORA_NODE_SERIAL_NO {
        serial := current.value.text;
      } else {
        var p := registry.GetSwitchNode(current.key, g.defs);
        if p.Some? {
          var q := p.value;
          if current.value.Number? {
            var lexeme := current.value.lexeme;
            q := q.(value := if current.key == WATER_FERTILIZER_PRESSURE
                             then g.numbers.tenfold(lexeme) else g.numbers.valueint(lexeme));
          }
          QueuedIs(q, p.value, current, g);
          list := [q] + list;
        }
      }
    }
    assert params[..|params|] == params;
  }

  lemma KeysAre()
    ensures PARAMS == Ascii("params") && LORA_NODE_SERIAL_NO == Ascii("loraNodeSerialNo")
    ensures WATER_FERTILIZER_PRESSURE == Ascii("waterFertilizerPressure")
  {
  }

  lemma QueuedIs(q: Switch, p: Switch, current: Member, g: Gateway)
    requires q == if current.value.Number?
                  then p.(value := if current.key == WATER_FERTILIZER_PRESSURE
                                   then g.numbers.tenfold(current.value.lexeme)
                                   else g.numbers.valueint(current.value.lexeme))
                  else p
    ensures q == p.(value := ValueFor(p, current.key, current.value, g.numbers))
  {
    hide Ascii;
    KeysAre();
  }

  ghost predicate Backwards<T(!new)>(list: seq<T>, s: seq<T>) {
    |list| == |s| && forall i :: 0 <= i < |s| ==> list[i] == s[|s| - 1 - i]
  }

  /** The text of one command, composed in the handler's buffers. */
  method ComposeCommand(p: Switch, serial: seq<byte>, signedChar: bool) returns (text: seq<byte>)
    requires NulFree(serial) && |serial| < SERIAL_BUFFER
    ensures text == CommandText(p, serial, signedChar)
  {
    hide *;
    var frame := Modbus.Compose(p.plc, Modbus.FC_WRITE, p.channel, p.value);
    var ascii := new byte[17];
    FrameSize(p);
    LoraMessage.Hex2Ascii(frame, ascii, signedChar);
    LoraMessage.HexNulFree(frame[..], signedChar);
    var jsonText := new byte[1024];
    BufferSizes();
    LoraMessage.ConstructJsonText2Lora(ascii[..16], serial, jsonText);
    CommandTextIs(p, serial, signedChar);
    text := StringIn(jsonText, CommandText(p, serial, signedChar));
  }

  lemma FrameSize(p: Switch)
    ensures |Modbus.Frame(p.plc, Modbus.FC_WRITE, p.channel, p.value)| == 8
  {
  }

  lemma BufferSizes()
    ensures SERIAL_BUFFER <= LoraMessage.NAME_BUFFER && LoraMessage.TEXT_BUFFER == 1024
  {
  }

  lemma CommandTextIs(p: Switch, serial: seq<byte>, signedChar: bool)
    requires NulFree(serial)
    ensures var hex := LoraMessage.HexText(Modbus.Frame(p.plc, Modbus.FC_WRITE, p.channel, p.value), signedChar);
            CommandText(p, serial, signedChar) == LoraMessage.MessageText(hex, serial)
    ensures NulFree(CommandText(p, serial, signedChar))
  {
    hide Text;
    hide WellFormed;
    hide LoraMessage.Message;
    var frame := Modbus.Frame(p.plc, Modbus.FC_WRITE, p.channel, p.value);
    LoraMessage.HexNulFree(frame, signedChar);
    LoraMessage.MessageWellFormed(LoraMessage.HexText(frame, signedChar), serial);
    JsonRoundTrip.TextNulFree(LoraMessage.Message(LoraMessage.HexText(frame, signedChar), serial), true, 0);
  }

  /** The string a buffer holds, as `strlen` and the copy into the queue see it. */
  method StringIn(buffer: array<byte>, ghost text: seq<byte>) returns (s: seq<byte>)
    requires |text| < buffer.Length && buffer[..|text| + 1] == text + [NUL] && NulFree(text)
    ensures s == text
  {
    assert forall i :: 0 <= i < |text| ==> buffer[i] == buffer[..|text| + 1][i] == text[i] != NUL;
    assert buffer[|text|] == buffer[..|text| + 1][|text|] == NUL;
    var n := 0;
    while buffer[n] != NUL
      invariant 0 <= n <= |text|
      decreases |text| - n
    {
      n := n + 1;
    }
    s := buffer[..n];
    assert s == (text + [NUL])[..n];
  }

  method RunCommandOnLoraNode(serial: seq<byte>, list: seq<Switch>, signedChar: bool, queue: MsgQueue.Queue,
                              ghost cmds: seq<Switch>)
    requires NulFree(serial) && |serial| < SERIAL_BUFFER && Backwards(list, cmds) && queue.Valid()
    modifies queue, queue.nodes
    ensures queue.Valid()
    ensures queue.Contents() == CommandTexts(cmds, serial, signedChar) + old(queue.Contents())
    ensures forall n :: n in queue.nodes ==> n in old(queue.nodes) || fresh(n)
  {
    hide CommandText;
    hide MsgQueue.Queue.Valid;
    hide MsgQueue.Queue.Contents;
    ghost var before, count := queue.Contents(), |cmds|;
    assert before == CommandTexts(cmds[count..], serial, signedChar) + before;
    for i := 0 to |list|
      invariant queue.Valid() && forall n :: n in queue.nodes ==> n in old(queue.nodes) || fresh(n)
      invariant queue.Contents() == CommandTexts(cmds[count - i..], serial, signedChar) + before
    {
      var text := ComposeCommand(list[i], serial, signedChar);
      OneMoreText(cmds, count - i - 1, serial, signedChar, before);
      assert forall k :: 0 <= k < |queue.nodes| ==> queue.nodes[k] in queue.nodes;
      queue.EnQ(text, true);
    }
    assert cmds[0..] == cmds;
  }

  lemma OneMoreText(cmds: seq<Switch>, i: nat, serial: seq<byte>, signedChar: bool, before: seq<seq<byte>>)
    requires i < |cmds|
    ensures CommandTexts(cmds[i..], serial, signedChar) + before ==
            [CommandText(cmds[i], serial, signedChar)] + (CommandTexts(cmds[i + 1..], serial, signedChar) + before)
  {
    hide CommandText;
  }

  /**
   `process_single_iot_hub_msg`: the queue afterwards is the commands of the message, in the order of its
   parameters, and then what was queued before.  Nothing is dequeued meanwhile.
   */
  method ProcessSingleIotHubMsg(text: seq<byte>, registry: SwitchIndex.Registry, g: Gateway, queue: MsgQueue.Queue)
    requires NulFree(text) && registry.Holds(g.defs) && queue.Valid()
    requires ParamsOf(text).Some? ==> SerialFits(ParamsOf(text).value)
    modifies queue, queue.nodes
    ensures queue.Valid()
    ensures queue.Contents() ==
            (match ParamsOf(text)
             case None => []
             case Some(params) => CommandTexts(Commands(params, g), SerialNo(params), g.signedChar))
            + old(queue.Contents())
  {
    hide JsonReading.ReadText;
    hide JsonReading.ReadValue;
    hide Commands;
    hide CommandTexts;
    hide MsgQueue.Queue.Valid;
    hide MsgQueue.Queue.Contents;
    hide SwitchIndex.Registry.Holds;
    hide LoraMessage.ItemNamed;
    hide Ascii;
    KeysAre();
    var ok, root, end := JsonParser.ParseWithOpts(text, false);
    assert [] + queue.Contents() == queue.Contents();
    if !ok {
      return;
    }
    var params := GetItemNamed(root, PARAMS);
    if params.None? {
      return;
    }
    var children := if params.value.Object? then params.value.members else [];
    assert ParamsOf(text) == Some(children);
    SerialIsString(text);
    var serial, list := CollectSwitches(children, registry, g);
    RunCommandOnLoraNode(serial, list, g.signedChar, queue, Commands(children, g));
  }

  // ---------------------------------------------------------------- what arrives

  lemma ItemStrings(root: Value, key: seq<byte>)
    requires JsonRoundTrip.StringsNulFree(root)
    ensures var item := LoraMessage.ItemNamed(root, key);
            item.Some? ==> JsonRoundTrip.StringsNulFree(item.value)
  {
    hide JsonCompare.Find;
  }

  lemma {:induction false} SerialNulFree(params: seq<Member>)
    requires JsonRoundTrip.StringsNulFree(Object(params))
    ensures NulFree(SerialNo(params))
  {
    if params != [] {
      assert forall i :: 0 <= i < |params| - 1 ==> params[..|params| - 1][i] == params[i];
      SerialNulFree(params[..|params| - 1]);
    }
  }

  /** The serial number came out of the parser, so it is a C string. */
  lemma SerialIsString(text: seq<byte>)
    requires JsonReading.Terminated(text + [NUL])
    ensures ParamsOf(text).Some? ==> NulFree(SerialNo(ParamsOf(text).value))
  {
    hide JsonReading.ReadValue;
    hide JsonRoundTrip.StringsNulFree;
    hide SerialNo;
    var t := text + [NUL];
    var start := JsonReading.SkipWhitespace(t, JsonReading.SkipByteOrderMark(t));
    JsonRoundTrip.AcceptedAdmissible(t, start, 0);
    if ParamsOf(text).Some? {
      var root := JsonReading.ReadText(t, false).value;
      ItemStrings(root, Ascii("params"));
      ParamStrings(LoraMessage.ItemNamed(root, Ascii("params")).value);
      SerialNulFree(ParamsOf(text).value);
    }
  }

  lemma ParamStrings(params: Value)
    requires JsonRoundTrip.StringsNulFree(params)
    ensures JsonRoundTrip.StringsNulFree(Object(if params.Object? then params.members else []))
  {
  }

  /**
   Every command queued for a message reaches its device as it was meant, unless `char` is signed and a byte of its
   frame has the top bit set; then nothing does.
   */
  lemma CommandsArrive(text: seq<byte>, g: Gateway, i: nat)
    requires JsonReading.Terminated(text + [NUL]) && ParamsOf(text).Some?
    requires i < |Commands(ParamsOf(text).value, g)|
    ensures var params := ParamsOf(text).value;
            var sw := Commands(params, g)[i];
            var frame := Modbus.Frame(sw.plc, Modbus.FC_WRITE, sw.channel, sw.value);
            LoraMessage.Delivered(CommandTexts(Commands(params, g), SerialNo(params), g.signedChar)[i]) ==
            if LoraMessage.Readable(frame, g.signedChar)
            then Some(LoraMessage.Delivery(SerialNo(params),
                                           Modbus.Request(sw.plc % 0x100, Modbus.FC_WRITE,
                                                          sw.channel % 0x1_0000, sw.value % 0x1_0000)))
            else None
  {
    hide LoraMessage.Delivered;
    hide LoraMessage.Readable;
    hide Modbus.Frame;
    hide Commands;
    hide ParamsOf;
    hide SerialNo;
    var params := ParamsOf(text).value;
    var sw := Commands(params, g)[i];
    SerialIsString(text);
    LoraMessage.RequestArrives(sw.plc, Modbus.FC_WRITE, sw.channel, sw.value, g.signedChar, SerialNo(params));
  }

  /**
   What the network server unpacks from a queued command makes the device at the switch's 485 address, and no other,
   set the switch's register to the value asked for; address 0 is heard by every device.
   */
  lemma CommandObeyed(text: seq<byte>, g: Gateway, i: nat, device: nat)
    requires JsonReading.Terminated(text + [NUL]) && ParamsOf(text).Some?
    requires i < |Commands(ParamsOf(text).value, g)|
    ensures var params := ParamsOf(text).value;
            var sw := Commands(params, g)[i];
            match LoraMessage.Unpacked(CommandTexts(Commands(params, g), SerialNo(params), g.signedChar)[i])
            case None => !LoraMessage.Readable(Modbus.Frame(sw.plc, 6, sw.channel, sw.value), g.signedChar)
            case Some(packet) =>
              && packet.lora == SerialNo(params) && packet.port == Ascii("2")
              && ModbusDevice.React(packet.frame, device) ==
                 if sw.plc % 0x100 == device || sw.plc % 0x100 == 0
                 then ModbusDevice.Sets(sw.channel % 0x1_0000, sw.value % 0x1_0000) else ModbusDevice.Silent
  {
    hide LoraMessage.Unpacked;
    hide LoraMessage.Readable;
    hide ModbusDevice.React;
    hide Modbus.Frame;
    hide Ascii;
    hide Commands;
    hide ParamsOf;
    hide SerialNo;
    var params := ParamsOf(text).value;
    var sw := Commands(params, g)[i];
    SerialIsString(text);
    ModbusDevice.CodesAre();
    LoraMessage.MessageDelivers(Modbus.Frame(sw.plc, Modbus.FC_WRITE, sw.channel, sw.value), g.signedChar,
                                SerialNo(params));
    ModbusDevice.WriteSets(sw.plc, sw.channel, sw.value, device);
  }

  /** The node is the one named last; without a name it is the empty string. */
  lemma {:induction false} SerialIsLast(params: seq<Member>, i: nat)
    requires SerialFits(params) && i <= |params|
    requires forall j :: i < j < |params| ==> params[j].key != Ascii("loraNodeSerialNo")
    requires i < |params| ==> params[i].key == Ascii("loraNodeSerialNo")
    requires i == |params| ==> forall j :: 0 <= j < |params| ==> params[j].key != Ascii("loraNodeSerialNo")
    ensures i < |params| ==> params[i].value == String(SerialNo(params))
    ensures i == |params| ==> SerialNo(params) == []
  {
    hide Ascii;
    if params != [] && i != |params| - 1 {
      var front := params[..|params| - 1];
      SerialIsLast(front, if i == |params| then |front| else i);
    }
  }

  /** A parameter commands a switch when it bears a switch's name and is not the serial number. */
  predicate Commanding(member: Member, defs: seq<Switch>) {
    member.key != Ascii("loraNodeSerialNo") && exists d :: 0 <= d < |defs| && defs[d].name == member.key
  }

  function CommandingCount(params: seq<Member>, defs: seq<Switch>): nat {
    if params == [] then 0
    else (if Commanding(params[0], defs) then 1 else 0) + CommandingCount(params[1..], defs)
  }

  lemma {:induction false} CountMore(params: seq<Member>, member: Member, defs: seq<Switch>)
    ensures CommandingCount(params + [member], defs) ==
            CommandingCount(params, defs) + if Commanding(member, defs) then 1 else 0
  {
    hide Commanding;
    if params == [] {
      assert (params + [member])[1..] == [];
    } else {
      assert (params + [member])[1..] == params[1..] + [member];
      CountMore(params[1..], member, defs);
    }
  }

  lemma CommandIfCommanding(member: Member, g: Gateway)
    ensures CommandOf(member, g).Some? <==> Commanding(member, g.defs)
  {
    hide Ascii;
    hide SwitchIndex.SwitchNamed;
    SwitchIndex.NoSwitchNamed(g.defs, member.key);
  }

  lemma {:induction false} CommandsCount(params: seq<Member>, g: Gateway)
    ensures |Commands(params, g)| == CommandingCount(params, g.defs)
  {
    hide CommandOf;
    hide Commanding;
    if params != [] {
      var front, last := params[..|params| - 1], params[|params| - 1];
      assert params == front + [last];
      CommandsCount(front, g);
      CountMore(front, last, g.defs);
      CommandIfCommanding(last, g);
    }
  }

  lemma {:induction false} CommandsStart(params: seq<Member>, n: nat, g: Gateway)
    requires n <= |params|
    ensures Commands(params[..n], g) <= Commands(params, g)
    decreases |params|
  {
    hide CommandOf;
    if n == |params| {
      assert params[..n] == params;
    } else {
      var front := params[..|params| - 1];
      assert front[..n] == params[..n];
      CommandsStart(front, n, g);
    }
  }

  /**
   There are as many commands as commanding parameters, in the order of those.  Each is for the last definition of the
   name and asks for the number's integer value, ten times the value for a pressure, and for anything but a number
   what the definition held.
   */
  lemma CommandsAsked(params: seq<Member>, g: Gateway, i: nat, d: nat)
    requires i < |params| && Commanding(params[i], g.defs)
    requires d < |g.defs| && g.defs[d].name == params[i].key
    requires forall e :: d < e < |g.defs| ==> g.defs[e].name != params[i].key
    ensures |Commands(params, g)| == CommandingCount(params, g.defs)
    ensures var k := CommandingCount(params[..i], g.defs);
            && k < |Commands(params, g)|
            && Commands(params, g)[k].plc == g.defs[d].plc
            && Commands(params, g)[k].channel == g.defs[d].channel
            && Commands(params, g)[k].value ==
               match params[i].value
               case Number(lexeme) =>
                 if params[i].key == Ascii("waterFertilizerPressure")
                 then g.numbers.tenfold(lexeme) else g.numbers.valueint(lexeme)
               case _ => g.defs[d].value
  {
    hide Ascii;
    hide SwitchIndex.SwitchNamed;
    hide Commanding;
    CommandsCount(params, g);
    CommandsCount(params[..i], g);
    CommandsStart(params, i + 1, g);
    assert params[..i + 1][..i] == params[..i];
    CommandIfCommanding(params[i], g);
    SwitchIndex.SwitchNamedIsLast(g.defs, params[i].key, d);
    assert Commands(params[..i + 1], g) == Commands(params[..i], g) + [CommandOf(params[i], g).value];
  }
}
