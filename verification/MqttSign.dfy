/**
 The MQTT credentials: client id, user name and a password that signs them with HMAC-SHA-256.

 Every string is assembled by appending at the terminator of a fixed buffer; that nothing is written past one
 is what the array accesses prove.
 */
module MqttSign {
  import opened Bytes
  import opened Wrappers
  import LoraMessage
  import Sha256
  import Sha256Spec

  const PRODUCTKEY_MAXLEN: nat := 20
  const DEVICENAME_MAXLEN: nat := 32
  const DEVICESECRET_MAXLEN: nat := 64
  const SIGN_SOURCE_MAXLEN: nat := 200
  const CLIENTID_MAXLEN: nat := 150
  const USERNAME_MAXLEN: nat := 64
  const PASSWORD_MAXLEN: nat := 65

  const AMPERSAND: seq<byte> := [0x26]
  const CLIENT_ID: seq<byte> := [0x63, 0x6C, 0x69, 0x65, 0x6E, 0x74, 0x49, 0x64]
  const DEVICE_NAME: seq<byte> := [0x64, 0x65, 0x76, 0x69, 0x63, 0x65, 0x4E, 0x61, 0x6D, 0x65]
  const PRODUCT_KEY: seq<byte> := [0x70, 0x72, 0x6F, 0x64, 0x75, 0x63, 0x74, 0x4B, 0x65, 0x79]
  const TIMESTAMP: seq<byte> := [0x74, 0x69, 0x6D, 0x65, 0x73, 0x74, 0x61, 0x6D, 0x70]
  const TIMESTAMP_VALUE: seq<byte> := [0x32, 0x35, 0x32, 0x34, 0x36, 0x30, 0x38, 0x30, 0x30, 0x30, 0x30, 0x30, 0x30]

  /** The signing parameters, which end the client id. */
  const KV_TIMESTAMP: seq<byte> := [
    0x7C, 0x74, 0x69, 0x6D, 0x65, 0x73, 0x74, 0x61, 0x6D, 0x70, 0x3D, 0x32, 0x35, 0x32, 0x34, 0x36,
    0x30, 0x38, 0x30, 0x30, 0x30, 0x30, 0x30, 0x30]
  const KV_VERSION: seq<byte> := [
    0x2C, 0x5F, 0x76, 0x3D, 0x70, 0x61, 0x68, 0x6F, 0x2D, 0x63, 0x2D, 0x31, 0x2E, 0x30, 0x2E, 0x30]
  const KV_SECURE_MODE: seq<byte> := [0x2C, 0x73, 0x65, 0x63, 0x75, 0x72, 0x65, 0x6D, 0x6F, 0x64, 0x65, 0x3D, 0x33]
  const KV_SIGN_METHOD: seq<byte> := [
    0x2C, 0x73, 0x69, 0x67, 0x6E, 0x6D, 0x65, 0x74, 0x68, 0x6F, 0x64, 0x3D, 0x68, 0x6D, 0x61, 0x63,
    0x73, 0x68, 0x61, 0x32, 0x35, 0x36]
  const KV_LAN: seq<byte> := [0x2C, 0x6C, 0x61, 0x6E, 0x3D, 0x43, 0x7C]
  const CLIENTID_KV: seq<byte> := KV_TIMESTAMP + KV_VERSION + KV_SECURE_MODE + KV_SIGN_METHOD + KV_LAN

  type Octet = Sha256Spec.Byte

  function Octets(s: seq<byte>): (r: seq<Octet>)
    ensures |r| == |s|
  {
    seq(|s|, i requires 0 <= i < |s| => s[i] as Octet)
  }

  /** `deviceName&productKey`. */
  function DeviceId(productKey: seq<byte>, deviceName: seq<byte>): seq<byte> {
    deviceName + Ascii("&") + productKey
  }

  /** The device and the signing parameters, the time signed among them. */
  function ClientId(productKey: seq<byte>, deviceName: seq<byte>): seq<byte> {
    DeviceId(productKey, deviceName) + Parameters()
  }

  function Parameters(): (r: seq<byte>)
    ensures |r| == 82
  {
    Ascii("|timestamp=2524608000000") + Ascii(",_v=paho-c-1.0.0") + Ascii(",securemode=3")
    + Ascii(",signmethod=hmacsha256") + Ascii(",lan=C|")
  }

  /** What is signed. */
  function SignSource(productKey: seq<byte>, deviceName: seq<byte>): seq<byte> {
    Ascii("clientId") + DeviceId(productKey, deviceName) + Ascii("deviceName") + deviceName
    + Ascii("productKey") + productKey + Ascii("timestamp") + Ascii("2524608000000")
  }

  function Signature(productKey: seq<byte>, deviceName: seq<byte>, deviceSecret: seq<byte>): seq<Octet>
    requires |deviceSecret| <= DEVICESECRET_MAXLEN
  {
    Sha256Spec.Hmac(Octets(deviceSecret), Octets(SignSource(productKey, deviceName)))
  }

  /** The buffer holds the string, and nothing after it. */
  ghost predicate Filled(buffer: array<byte>, s: seq<byte>)
    reads buffer
  {
    && NulFree(s) && |s| < buffer.Length && buffer[..|s|] == s
    && forall i :: |s| <= i < buffer.Length ==> buffer[i] == NUL
  }

  method StrLen(buffer: array<byte>, ghost s: seq<byte>) returns (n: nat)
    requires Filled(buffer, s)
    ensures n == |s|
  {
    assert forall i :: 0 <= i < |s| ==> buffer[i] == s[i] != NUL;
    n := 0;
    while buffer[n] != NUL
      invariant 0 <= n <= |s|
      decreases |s| - n
    {
      n := n + 1;
    }
  }

  /** `memcpy(buffer + strlen(buffer), s, strlen(s))`. */
  method Append(buffer: array<byte>, s: seq<byte>, ghost held: seq<byte>)
    requires Filled(buffer, held) && NulFree(s) && |held| + |s| < buffer.Length
    modifies buffer
    ensures Filled(buffer, held + s)
  {
    var at := StrLen(buffer, held);
    forall i | 0 <= i < |s| {
      buffer[at + i] := s[i];
    }
    assert buffer[..at] == held;
    assert buffer[at..at + |s|] == s;
    assert buffer[..at + |s|] == buffer[..at] + buffer[at..at + |s|];
  }

  method NewBuffer(size: nat) returns (buffer: array<byte>)
    requires size > 0
    ensures fresh(buffer) && buffer.Length == size && Filled(buffer, [])
  {
    buffer := new byte[size](_ => NUL);
    assert buffer[..0] == [];
  }

  lemma ConstantsNulFree()
    ensures NulFree(AMPERSAND) && NulFree(CLIENT_ID) && NulFree(DEVICE_NAME) && NulFree(PRODUCT_KEY)
    ensures NulFree(TIMESTAMP) && NulFree(TIMESTAMP_VALUE)
  {
  }

  lemma ConstantLengths()
    ensures |AMPERSAND| == 1 && |CLIENT_ID| == 8 && |DEVICE_NAME| == 10 && |PRODUCT_KEY| == 10
    ensures |TIMESTAMP| == 9 && |TIMESTAMP_VALUE| == 13 && |CLIENTID_KV| == 82
  {
  }

  lemma NamesAre()
    ensures AMPERSAND == Ascii("&") && CLIENT_ID == Ascii("clientId") && DEVICE_NAME == Ascii("deviceName")
    ensures PRODUCT_KEY == Ascii("productKey") && TIMESTAMP == Ascii("timestamp")
    ensures TIMESTAMP_VALUE == Ascii("2524608000000")
  {
  }

  lemma ParametersAre()
    ensures CLIENTID_KV == Parameters()
  {
    hide Ascii;
    hide KV_TIMESTAMP;
    hide KV_VERSION;
    hide KV_SECURE_MODE;
    hide KV_SIGN_METHOD;
    hide KV_LAN;
    TimeAndVersion();
    ModeAndMethod();
  }

  lemma TimeAndVersion()
    ensures KV_TIMESTAMP == Ascii("|timestamp=2524608000000") && KV_VERSION == Ascii(",_v=paho-c-1.0.0")
  {
  }

  lemma ModeAndMethod()
    ensures KV_SECURE_MODE == Ascii(",securemode=3") && KV_SIGN_METHOD == Ascii(",signmethod=hmacsha256")
    ensures KV_LAN == Ascii(",lan=C|")
  {
  }

  /** The longest accepted names fill every buffer with room for the terminator. */
  lemma Fits(productKey: seq<byte>, deviceName: seq<byte>)
    requires |productKey| <= PRODUCTKEY_MAXLEN && |deviceName| <= DEVICENAME_MAXLEN
    ensures |DeviceId(productKey, deviceName)| < PRODUCTKEY_MAXLEN + DEVICENAME_MAXLEN + 2
    ensures |ClientId(productKey, deviceName)| < CLIENTID_MAXLEN
    ensures |DeviceId(productKey, deviceName)| < USERNAME_MAXLEN
    ensures |SignSource(productKey, deviceName)| < SIGN_SOURCE_MAXLEN
  {
  }

  method SetupDeviceId(productKey: seq<byte>, deviceName: seq<byte>) returns (deviceId: array<byte>)
    requires NulFree(productKey) && NulFree(deviceName)
    requires |productKey| <= PRODUCTKEY_MAXLEN && |deviceName| <= DEVICENAME_MAXLEN
    ensures fresh(deviceId) && Filled(deviceId, DeviceId(productKey, deviceName))
  {
    hide Filled;
    hide NulFree;
    hide Ascii;
    ConstantLengths();
    ConstantsNulFree();
    NamesAre();
    deviceId := NewBuffer(PRODUCTKEY_MAXLEN + DEVICENAME_MAXLEN + 2);
    Append(deviceId, deviceName, []);
    assert [] + deviceName == deviceName;
    Append(deviceId, AMPERSAND, deviceName);
    Append(deviceId, productKey, deviceName + AMPERSAND);
  }

  method SetupMacSrc(productKey: seq<byte>, deviceName: seq<byte>, deviceId: seq<byte>) returns (macSrc: array<byte>)
    requires NulFree(productKey) && NulFree(deviceName) && NulFree(deviceId)
    requires |productKey| <= PRODUCTKEY_MAXLEN && |deviceName| <= DEVICENAME_MAXLEN
    requires deviceId == DeviceId(productKey, deviceName)
    ensures fresh(macSrc) && Filled(macSrc, SignSource(productKey, deviceName))
  {
    hide Filled;
    hide NulFree;
    hide DeviceId;
    hide Ascii;
    ConstantLengths();
    ConstantsNulFree();
    NamesAre();
    Fits(productKey, deviceName);
    ghost var held := CLIENT_ID;
    macSrc := NewBuffer(SIGN_SOURCE_MAXLEN);
    Append(macSrc, CLIENT_ID, []);
    assert [] + CLIENT_ID == CLIENT_ID;
    Append(macSrc, deviceId, held);
    held := held + deviceId;
    Append(macSrc, DEVICE_NAME, held);
    held := held + DEVICE_NAME;
    Append(macSrc, deviceName, held);
    held := held + deviceName;
    Append(macSrc, PRODUCT_KEY, held);
    held := held + PRODUCT_KEY;
    Append(macSrc, productKey, held);
    held := held + productKey;
    Append(macSrc, TIMESTAMP, held);
    held := held + TIMESTAMP;
    Append(macSrc, TIMESTAMP_VALUE, held);
  }

  method Hex2Str(input: array<Octet>, output: array<byte>)
    requires 2 * input.Length <= output.Length
    modifies output
    ensures output[..2 * input.Length] == LoraMessage.HexText(input[..], false)
    ensures forall i :: 2 * input.Length <= i < output.Length ==> output[i] == old(output[i])
  {
    hide LoraMessage.AsciiDigit;
    hide LoraMessage.HighHalf;
    hide LoraMessage.LowHalf;
    var i, j := 0, 0;
    while i < input.Length
      invariant 0 <= i <= input.Length && j == 2 * i
      invariant output[..j] == LoraMessage.HexText(input[..i], false)
      invariant forall k :: 2 * input.Length <= k < output.Length ==> output[k] == old(output[k])
    {
      assert input[..i + 1][..i] == input[..i];
      output[j] := LoraMessage.AsciiDigit(LoraMessage.HighHalf(input[i], false));
      j := j + 1;
      output[j] := LoraMessage.AsciiDigit(LoraMessage.LowHalf(input[i]));
      j := j + 1;
      assert output[..j] == output[..j - 2] + LoraMessage.HexPair(input[i], false);
      i := i + 1;
    }
    assert input[..input.Length] == input[..];
  }

  ghost predicate HoldsString(buffer: array<byte>, s: seq<byte>)
    reads buffer
  {
    |s| < buffer.Length && buffer[..|s| + 1] == s + [NUL]
  }

  /** `memcpy` to the start of a caller's buffer, and a terminator. */
  method CopyString(s: seq<byte>, buffer: array<byte>)
    requires |s| < buffer.Length
    modifies buffer
    ensures HoldsString(buffer, s)
  {
    forall i | 0 <= i < |s| {
      buffer[i] := s[i];
    }
    buffer[|s|] := NUL;
    assert buffer[..|s|] == s;
  }

  method AiotMqttSign(productKey: seq<byte>, deviceName: seq<byte>, deviceSecret: seq<byte>,
                      clientId: array<byte>, username: array<byte>, password: array<byte>) returns (ok: bool)
    requires NulFree(productKey) && NulFree(deviceName) && NulFree(deviceSecret)
    requires clientId.Length == CLIENTID_MAXLEN && username.Length >= USERNAME_MAXLEN
    requires password.Length == PASSWORD_MAXLEN && clientId != username && clientId != password && username != password
    modifies clientId, username, password
    ensures ok <==> |productKey| <= 20 && |deviceName| <= 32 && |deviceSecret| <= 64
    ensures !ok ==> clientId[..] == old(clientId[..]) && username[..] == old(username[..])
                    && password[..] == old(password[..])
    ensures ok ==>
              && HoldsString(clientId, ClientId(productKey, deviceName))
              && HoldsString(username, DeviceId(productKey, deviceName))
              && HoldsString(password, LoraMessage.HexText(Signature(productKey, deviceName, deviceSecret), false))
  {
    if |productKey| > PRODUCTKEY_MAXLEN || |deviceName| > DEVICENAME_MAXLEN || |deviceSecret| > DEVICESECRET_MAXLEN {
      return false;
    }
    hide Sha256Spec.Hmac;
    hide SignSource;
    hide DeviceId;
    hide NulFree;
    hide HoldsString;
    hide LoraMessage.HexText;
    hide Parameters;
    hide CLIENTID_KV;
    ParametersAre();
    ghost var id, source := DeviceId(productKey, deviceName), SignSource(productKey, deviceName);
    Fits(productKey, deviceName);
    var deviceId := SetupDeviceId(productKey, deviceName);
    var n := StrLen(deviceId, id);
    CopyString(deviceId[..n] + CLIENTID_KV, clientId);
    CopyString(deviceId[..n], username);
    var macSrc := SetupMacSrc(productKey, deviceName, deviceId[..n]);
    var length := StrLen(macSrc, source);
    var macRes := new Octet[32];
    Sha256.HmacSha256(Octets(macSrc[..length]), Octets(deviceSecret), macRes);
    WritePassword(macRes, password);
    ok := true;
  }

  method WritePassword(macRes: array<Octet>, password: array<byte>)
    requires macRes.Length == 32 && password.Length == PASSWORD_MAXLEN
    modifies password
    ensures HoldsString(password, LoraMessage.HexText(macRes[..], false))
  {
    hide LoraMessage.HexText;
    forall i | 0 <= i < PASSWORD_MAXLEN {
      password[i] := NUL;
    }
    Hex2Str(macRes, password);
    assert password[..65] == password[..64] + [password[64]];
  }

  /** The password reads back, as hexadecimal, as the signature. */
  lemma PasswordSigns(productKey: seq<byte>, deviceName: seq<byte>, deviceSecret: seq<byte>)
    requires |deviceSecret| <= DEVICESECRET_MAXLEN
    ensures LoraMessage.UnHex(LoraMessage.HexText(Signature(productKey, deviceName, deviceSecret), false)) ==
            Some(Sha256Spec.Hmac(Octets(deviceSecret), Octets(SignSource(productKey, deviceName))))
  {
    hide Sha256Spec.Hmac;
    hide SignSource;
    LoraMessage.HexBack(Signature(productKey, deviceName, deviceSecret), false);
  }
}
