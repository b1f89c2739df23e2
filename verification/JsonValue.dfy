/**
 JSON trees and the text cJSON prints for them.

 A finite number is kept as the decimal text `sprintf` renders for it: the double behind it, and its
 rounding, are not modelled.  A string is a C string, so it holds no NUL byte.
 */
module JsonValue {
  import opened Bytes

  datatype Member = Member(key: seq<byte>, value: Value)

  /** The doubles that have no decimal text. */
  datatype Irregular = NaN | PlusInfinity | MinusInfinity

  datatype Value =
    | Null
    | False
    | True
    | Number(lexeme: seq<byte>)
    | NonFinite(kind: Irregular)
    | String(text: seq<byte>)
    | Array(items: seq<Value>)
    | Object(members: seq<Member>)

  const NULL_TEXT: seq<byte> := [0x6E, 0x75, 0x6C, 0x6C]
  const TRUE_TEXT: seq<byte> := [0x74, 0x72, 0x75, 0x65]
  const FALSE_TEXT: seq<byte> := [0x66, 0x61, 0x6C, 0x73, 0x65]

  // ---------------------------------------------------------------- numbers

  predicate Digit(c: byte) {
    0x30 <= c <= 0x39
  }

  /** The characters `parse_number` copies for `strtod`. */
  predicate NumberChar(c: byte) {
    Digit(c) || c == PLUS || c == MINUS || c == DOT || c == 0x65 || c == 0x45
  }

  function DigitRun(s: seq<byte>, i: nat): (j: nat)
    requires i <= |s|
    ensures i <= j <= |s|
    ensures forall k :: i <= k < j ==> Digit(s[k])
    ensures j < |s| ==> !Digit(s[j])
    decreases |s| - i
  {
    if i < |s| && Digit(s[i]) then DigitRun(s, i + 1) else i
  }

  function SignEnd(s: seq<byte>, i: nat): (j: nat)
    requires i <= |s|
    ensures i <= j <= |s|
  {
    if i < |s| && (s[i] == PLUS || s[i] == MINUS) then i + 1 else i
  }

  /** End of the digits and the optional fraction that start at `i`; `i` itself when there is no digit. */
  function MantissaEnd(s: seq<byte>, i: nat): (j: nat)
    requires i <= |s|
    ensures i <= j <= |s|
  {
    var whole := DigitRun(s, i);
    if whole < |s| && s[whole] == DOT then
      var frac := DigitRun(s, whole + 1);
      if whole == i && frac == whole + 1 then i else frac
    else whole
  }

  /** End of an exponent starting at `i`; `i` itself when none is complete. */
  function ExponentEnd(s: seq<byte>, i: nat): (j: nat)
    requires i <= |s|
    ensures i <= j <= |s|
  {
    if i < |s| && (s[i] == 0x65 || s[i] == 0x45) then
      var start := SignEnd(s, i + 1);
      var end := DigitRun(s, start);
      if end == start then i else end
    else i
  }

  /** How much of `s` the C library's `strtod` consumes, for `s` over the number characters. */
  function StrtodLength(s: seq<byte>): (n: nat)
    ensures n <= |s|
  {
    var sign := SignEnd(s, 0);
    var mantissa := MantissaEnd(s, sign);
    if mantissa == sign then 0 else ExponentEnd(s, mantissa)
  }

  const NUMBER_BUFFER: nat := 26

  /** The renderings of finite doubles: what `strtod` reads back in full, and what fits the printer's buffer. */
  predicate IsLexeme(s: seq<byte>) {
    && 0 < |s| < NUMBER_BUFFER
    && (forall c :: c in s ==> NumberChar(c))
    && (s[0] == MINUS || Digit(s[0]))
    && StrtodLength(s) == |s|
  }

  // ---------------------------------------------------------------- trees

  predicate WellFormed(v: Value) {
    match v
    case Number(lexeme) => IsLexeme(lexeme)
    case String(text) => NulFree(text)
    case Array(items) => forall i :: 0 <= i < |items| ==> WellFormed(items[i])
    case Object(members) =>
      forall i :: 0 <= i < |members| ==> NulFree(members[i].key) && WellFormed(members[i].value)
    case _ => true
  }

  /** How many arrays and objects enclose the innermost array or object, itself included. */
  function Nesting(v: Value): nat {
    match v
    case Array(items) => 1 + ItemsNesting(items)
    case Object(members) => 1 + MembersNesting(members)
    case _ => 0
  }

  function ItemsNesting(items: seq<Value>): nat {
    if items == [] then 0 else Max(Nesting(items[0]), ItemsNesting(items[1..]))
  }

  function MembersNesting(members: seq<Member>): nat {
    if members == [] then 0 else Max(Nesting(members[0].value), MembersNesting(members[1..]))
  }

  function Max(a: nat, b: nat): nat {
    if a < b then b else a
  }

  /** The tree with every NaN and infinity replaced by null, which is what they print as. */
  function Finite(v: Value): Value {
    match v
    case NonFinite(_) => Null
    case Array(items) => Array(FiniteItems(items))
    case Object(members) => Object(FiniteMembers(members))
    case _ => v
  }

  function FiniteItems(items: seq<Value>): (r: seq<Value>)
    ensures |r| == |items|
  {
    if items == [] then [] else [Finite(items[0])] + FiniteItems(items[1..])
  }

  function FiniteMembers(members: seq<Member>): (r: seq<Member>)
    ensures |r| == |members|
  {
    if members == [] then []
    else [Member(members[0].key, Finite(members[0].value))] + FiniteMembers(members[1..])
  }

  // ---------------------------------------------------------------- printed text

  function HexDigit(n: nat): (c: byte)
    requires n < 16
  {
    if n < 10 then 0x30 + n else 0x57 + n
  }

  predicate Plain(c: byte) {
    c > 31 && c != QUOTE && c != BACKSLASH
  }

  /** The letter that follows the backslash in a two-character escape; 0 when there is none. */
  function ShortEscape(c: byte): byte {
    if c == QUOTE then QUOTE
    else if c == BACKSLASH then BACKSLASH
    else if c == 0x08 then 0x62
    else if c == 0x0C then 0x66
    else if c == NEWLINE then 0x6E
    else if c == RETURN then 0x72
    else if c == TAB then 0x74
    else NUL
  }

  function EscapeByte(c: byte): (r: seq<byte>)
    ensures 1 <= |r| <= 6
  {
    if Plain(c) then [c]
    else if ShortEscape(c) != NUL then [BACKSLASH, ShortEscape(c)]
    else [BACKSLASH, 0x75, 0x30, 0x30, HexDigit(c / 16), HexDigit(c % 16)]
  }

  function Escape(s: seq<byte>): seq<byte> {
    if s == [] then [] else EscapeByte(s[0]) + Escape(s[1..])
  }

  function Quoted(s: seq<byte>): seq<byte> {
    [QUOTE] + Escape(s) + [QUOTE]
  }

  function Tabs(n: nat): (r: seq<byte>)
    ensures |r| == n
    ensures forall i :: 0 <= i < n ==> r[i] == TAB
  {
    seq(n, i => TAB)
  }

  function Indent(fmt: bool, depth: nat): seq<byte> {
    if fmt then Tabs(depth) else []
  }

  function OnlyIf(fmt: bool, c: byte): seq<byte> {
    if fmt then [c] else []
  }

  /** The text printed for `v` when it is nested `depth` deep. */
  function Text(v: Value, fmt: bool, depth: nat): seq<byte>
    decreases v, 1
  {
    match v
    case Null => NULL_TEXT
    case False => FALSE_TEXT
    case True => TRUE_TEXT
    case Number(lexeme) => lexeme
    case NonFinite(_) => NULL_TEXT
    case String(text) => Quoted(text)
    case Array(items) => [LBRACKET] + ItemsText(items, fmt, depth + 1) + [RBRACKET]
    case Object(members) =>
      [LBRACE] + OnlyIf(fmt, NEWLINE) + MembersText(members, fmt, depth + 1)
      + Indent(fmt, depth) + [RBRACE]
  }

  function ItemsText(items: seq<Value>, fmt: bool, depth: nat): seq<byte>
    decreases items, 0
  {
    if items == [] then []
    else Text(items[0], fmt, depth) + ItemSeparator(|items| > 1, fmt) + ItemsText(items[1..], fmt, depth)
  }

  function ItemSeparator(more: bool, fmt: bool): seq<byte> {
    if more then [COMMA] + OnlyIf(fmt, SPACE) else []
  }

  function MembersText(members: seq<Member>, fmt: bool, depth: nat): seq<byte>
    decreases members, 0
  {
    if members == [] then []
    else
      Indent(fmt, depth) + Quoted(members[0].key) + [COLON] + OnlyIf(fmt, TAB)
      + Text(members[0].value, fmt, depth) + MemberSeparator(|members| > 1, fmt)
      + MembersText(members[1..], fmt, depth)
  }

  function MemberSeparator(more: bool, fmt: bool): seq<byte> {
    OnlyIf(more, COMMA) + OnlyIf(fmt, NEWLINE)
  }
}
