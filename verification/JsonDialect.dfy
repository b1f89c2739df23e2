/**
 The texts cJSON reads, as a grammar of its own: the values of RFC 8259 between gaps of any bytes up to the space, with
 control bytes and `\u` escapes of other than hexadecimal digits in strings, and with what `strtod` takes for a number.

 Nothing here follows the C code.
 */
module JsonDialect {
  import opened Bytes
  import opened JsonValue
  import JsonGrammar
  import Utf

  type Char = JsonGrammar.Char

  predicate Gap(s: seq<byte>) {
    forall i :: 0 <= i < |s| ==> 0 < s[i] <= 0x20
  }

  // ---------------------------------------------------------------- numbers

  ghost predicate Decimal(s: seq<byte>) {
    exists sign, whole, point, fraction, power :: DecimalOf(s, sign, whole, point, fraction, power)
  }

  /** A minus or nothing, digits with at most one point among them, and nothing or a letter, a sign and digits. */
  ghost predicate DecimalOf(s: seq<byte>, sign: seq<byte>, whole: seq<byte>, point: seq<byte>, fraction: seq<byte>,
                            power: seq<byte>)
  {
    && s == sign + (whole + point + fraction) + power
    && (sign == [] || sign == Ascii("-")) && (point == [] || point == Ascii("."))
    && DigitsOrNone(whole) && DigitsOrNone(fraction) && whole + fraction != []
    && (point == [] ==> fraction == []) && (sign == [] ==> whole != [])
    && Power(power)
  }

  predicate DigitsOrNone(s: seq<byte>) {
    forall i :: 0 <= i < |s| ==> 0x30 <= s[i] <= 0x39
  }

  ghost predicate Power(s: seq<byte>) {
    s == [] || exists letter, sign, digits :: PowerOf(s, letter, sign, digits)
  }

  predicate PowerOf(s: seq<byte>, letter: seq<byte>, sign: seq<byte>, digits: seq<byte>) {
    && s == letter + sign + digits && (letter == Ascii("e") || letter == Ascii("E"))
    && (sign == [] || sign == Ascii("+") || sign == Ascii("-")) && DigitsOrNone(digits) && digits != []
  }

  // ---------------------------------------------------------------- strings

  /** A `\u` takes any four bytes; when they are not four hexadecimal digits it stands for character 0. */
  predicate Readable(c: Char) {
    match c
    case Raw(b) => b != BACKSLASH
    case Short(letter) => JsonGrammar.Escaped(letter) != NUL
    case Unit(digits) => |digits| == 4 && !Utf.HighSurrogate(Utf.Hex4(digits)) && !Utf.LowSurrogate(Utf.Hex4(digits))
    case Surrogates(_, _) => JsonGrammar.ValidChar(c)
    case Half(_) => false
  }

  predicate AllReadable(chars: seq<Char>) {
    forall i :: 0 <= i < |chars| ==> Readable(chars[i])
  }

  function ReadBytes(c: Char): seq<byte>
    requires Readable(c)
  {
    match c
    case Raw(b) => [b]
    case Short(letter) => [JsonGrammar.Escaped(letter)]
    case Unit(digits) => Utf.Utf8(Utf.Hex4(digits))
    case Surrogates(high, low) => Utf.Utf8(JsonGrammar.Joined(Utf.Hex4(high), Utf.Hex4(low)))
  }

  function AllBytes(chars: seq<Char>): seq<byte>
    requires AllReadable(chars)
  {
    if chars == [] then [] else ReadBytes(chars[0]) + AllBytes(chars[1..])
  }

  /** No quote stands in the text but behind a backslash that is not itself behind one. */
  predicate QuoteFree(s: seq<byte>) {
    if s == [] then true
    else if s[0] == BACKSLASH then |s| > 1 && QuoteFree(s[2..])
    else s[0] != QUOTE && QuoteFree(s[1..])
  }

  /** Some `\u` lacks its digits. */
  predicate Misread(chars: seq<Char>) {
    exists i :: 0 <= i < |chars| && chars[i].Unit? && !Utf.FourDigits(chars[i].digits)
  }

  /** The last escape takes the closing quote; some `\u` before it took a backslash for a digit. */
  predicate Swallows(chars: seq<Char>) {
    chars != [] && chars[|chars| - 1].Short? && Misread(chars)
  }

  ghost predicate Literal(text: seq<byte>, s: seq<byte>) {
    exists body, chars :: LiteralOf(text, s, body, chars)
  }

  /**
   `text` is a literal for the C string `s`.  The bytes a `\u` takes for digits may leave a backslash that takes the
   closing quote for its letter; the string has ended before.
   */
  predicate LiteralOf(text: seq<byte>, s: seq<byte>, body: seq<byte>, chars: seq<Char>) {
    && text == [QUOTE] + body + [QUOTE] && QuoteFree(body) && AllReadable(chars)
    && (JsonGrammar.SpellChars(chars) == body || (JsonGrammar.SpellChars(chars) == body + [QUOTE] && Swallows(chars)))
    && s == CString(AllBytes(chars))
  }

  // ---------------------------------------------------------------- values

  /** A leaf is a word, a number or a string, with the value it stands for. */
  datatype Form =
    | Leaf(text: seq<byte>, value: Value)
    | List(gap: seq<byte>, items: seq<Item>)
    | Record(gap: seq<byte>, entries: seq<Entry>)

  datatype Item = Item(before: seq<byte>, form: Form, after: seq<byte>)

  datatype Entry = Entry(before: seq<byte>, key: seq<byte>, name: seq<byte>, after: seq<byte>, item: Item)

  ghost predicate StandsFor(text: seq<byte>, v: Value) {
    match v
    case Null => text == Ascii("null")
    case True => text == Ascii("true")
    case False => text == Ascii("false")
    case Number(lexeme) => text == lexeme && |text| <= 63 && Decimal(text)
    case String(s) => Literal(text, s)
    case _ => false
  }

  ghost predicate Allowed(f: Form) {
    match f
    case Leaf(text, value) => StandsFor(text, value)
    case List(gap, items) =>
      Gap(gap) && forall i :: 0 <= i < |items| ==> GapsAllowed(items[i]) && Allowed(items[i].form)
    case Record(gap, entries) =>
      Gap(gap) && forall i :: 0 <= i < |entries| ==> HeadAllowed(entries[i]) && Allowed(entries[i].item.form)
  }

  ghost predicate GapsAllowed(item: Item) {
    Gap(item.before) && Gap(item.after)
  }

  ghost predicate HeadAllowed(entry: Entry) {
    Gap(entry.before) && Literal(entry.key, entry.name) && Gap(entry.after) && GapsAllowed(entry.item)
  }

  ghost predicate AllowedItems(items: seq<Item>) {
    forall i :: 0 <= i < |items| ==> GapsAllowed(items[i]) && Allowed(items[i].form)
  }

  ghost predicate AllowedEntries(entries: seq<Entry>) {
    forall i :: 0 <= i < |entries| ==> HeadAllowed(entries[i]) && Allowed(entries[i].item.form)
  }

  function Spell(f: Form): seq<byte>
    decreases f
  {
    match f
    case Leaf(text, _) => text
    case List(gap, items) => Ascii("[") + (if items == [] then gap else SpellItems(items)) + Ascii("]")
    case Record(gap, entries) => Ascii("{") + (if entries == [] then gap else SpellEntries(entries)) + Ascii("}")
  }

  function SpellItem(item: Item): seq<byte>
    decreases item
  {
    item.before + Spell(item.form) + item.after
  }

  function SpellItems(items: seq<Item>): seq<byte>
    requires items != []
    decreases items
  {
    SpellItem(items[0]) + if |items| == 1 then [] else Ascii(",") + SpellItems(items[1..])
  }

  function SpellEntry(entry: Entry): seq<byte>
    decreases entry
  {
    entry.before + entry.key + entry.after + Ascii(":") + SpellItem(entry.item)
  }

  function SpellEntries(entries: seq<Entry>): seq<byte>
    requires entries != []
    decreases entries
  {
    SpellEntry(entries[0]) + if |entries| == 1 then [] else Ascii(",") + SpellEntries(entries[1..])
  }

  /** The tree the text stands for. */
  function Meaning(f: Form): Value
    decreases f
  {
    match f
    case Leaf(_, value) => value
    case List(_, items) => Array(ItemMeanings(items))
    case Record(_, entries) => Object(EntryMeanings(entries))
  }

  function ItemMeanings(items: seq<Item>): (r: seq<Value>)
    ensures |r| == |items|
    decreases items
  {
    if items == [] then [] else [Meaning(items[0].form)] + ItemMeanings(items[1..])
  }

  function EntryMeanings(entries: seq<Entry>): (r: seq<Member>)
    ensures |r| == |entries|
    decreases entries
  {
    if entries == [] then [] else [Member(entries[0].name, Meaning(entries[0].item.form))] + EntryMeanings(entries[1..])
  }
}
