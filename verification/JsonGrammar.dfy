/**
 The texts of RFC 8259, as derivations of its grammar: how each is spelled and what it means.

 Nothing here follows the C code.  The grammar lets through an escape for one half of a surrogate pair on its own,
 which names no character: such a text is derived here, but has no meaning.
 */
module JsonGrammar {
  import opened Bytes
  import opened JsonValue
  import Utf

  // ---------------------------------------------------------------- section 2: white space

  predicate Gap(s: seq<byte>) {
    forall i :: 0 <= i < |s| ==> s[i] == SPACE || s[i] == TAB || s[i] == NEWLINE || s[i] == RETURN
  }

  // ---------------------------------------------------------------- section 6: numbers

  /** `sign` is a minus or nothing, `exponent` nothing or a letter, a sign and digits. */
  datatype Numeral = Numeral(sign: seq<byte>, whole: seq<byte>, fraction: seq<byte>, exponent: Exponent)
  datatype Exponent = NoExponent | Exponent(letter: byte, sign: seq<byte>, digits: seq<byte>)

  predicate Digits(s: seq<byte>) {
    s != [] && forall i :: 0 <= i < |s| ==> Digit(s[i])
  }

  predicate ValidNumeral(n: Numeral) {
    && (n.sign == [] || n.sign == [MINUS])
    && Digits(n.whole) && (n.whole[0] == 0x30 ==> |n.whole| == 1)
    && (n.fraction == [] || Digits(n.fraction))
    && ValidExponent(n.exponent)
  }

  predicate ValidExponent(e: Exponent) {
    e.Exponent? ==>
      && (e.letter == 0x65 || e.letter == 0x45)
      && (e.sign == [] || e.sign == [PLUS] || e.sign == [MINUS])
      && Digits(e.digits)
  }

  function SpellFraction(fraction: seq<byte>): seq<byte> {
    if fraction == [] then [] else [DOT] + fraction
  }

  function SpellExponent(e: Exponent): seq<byte> {
    match e
    case NoExponent => []
    case Exponent(letter, sign, digits) => [letter] + sign + digits
  }

  function SpellNumeral(n: Numeral): seq<byte> {
    n.sign + n.whole + SpellFraction(n.fraction) + SpellExponent(n.exponent)
  }

  predicate NumberChars(s: seq<byte>) {
    forall i :: 0 <= i < |s| ==> NumberChar(s[i])
  }

  lemma NumeralChars(n: Numeral)
    requires ValidNumeral(n)
    ensures NumberChars(SpellNumeral(n))
  {
    assert NumberChars(n.sign) && NumberChars(n.whole) && NumberChars(SpellFraction(n.fraction));
    assert NumberChars(SpellExponent(n.exponent));
  }

  // ---------------------------------------------------------------- section 7: strings

  /** A byte of an unescaped character, a two-character escape, one or two `\u` escapes, or half of a pair. */
  datatype Char =
    | Raw(b: byte)
    | Short(letter: byte)
    | Unit(digits: seq<byte>)
    | Surrogates(high: seq<byte>, low: seq<byte>)
    | Half(digits: seq<byte>)

  /** The character a letter after a backslash stands for; 0 when it is no such letter. */
  function Escaped(letter: byte): byte {
    if letter == QUOTE || letter == BACKSLASH || letter == SLASH then letter
    else if letter == 0x62 then 0x08
    else if letter == 0x66 then 0x0C
    else if letter == 0x6E then NEWLINE
    else if letter == 0x72 then RETURN
    else if letter == 0x74 then TAB
    else NUL
  }

  predicate ValidChar(c: Char) {
    match c
    case Raw(b) => b >= 0x20 && b != QUOTE && b != BACKSLASH
    case Short(letter) => Escaped(letter) != NUL
    case Unit(digits) =>
      && Utf.FourDigits(digits)
      && !Utf.HighSurrogate(Utf.Hex4(digits)) && !Utf.LowSurrogate(Utf.Hex4(digits))
    case Surrogates(high, low) =>
      && Utf.FourDigits(high) && Utf.FourDigits(low)
      && Utf.HighSurrogate(Utf.Hex4(high)) && Utf.LowSurrogate(Utf.Hex4(low))
    case Half(digits) =>
      && Utf.FourDigits(digits)
      && (Utf.HighSurrogate(Utf.Hex4(digits)) || Utf.LowSurrogate(Utf.Hex4(digits)))
  }

  predicate HighHalf(c: Char) {
    c.Half? && |c.digits| == 4 && Utf.HighSurrogate(Utf.Hex4(c.digits))
  }

  predicate LowHalf(c: Char) {
    c.Half? && |c.digits| == 4 && Utf.LowSurrogate(Utf.Hex4(c.digits))
  }

  function SpellChar(c: Char): (r: seq<byte>)
    ensures r != []
  {
    match c
    case Raw(b) => [b]
    case Short(letter) => [BACKSLASH, letter]
    case Unit(digits) => [BACKSLASH, 0x75] + digits
    case Surrogates(high, low) => [BACKSLASH, 0x75] + high + ([BACKSLASH, 0x75] + low)
    case Half(digits) => [BACKSLASH, 0x75] + digits
  }

  /** The scalar value of a surrogate pair (section 2.2 of RFC 2781). */
  function Joined(high: nat, low: nat): nat
    requires Utf.HighSurrogate(high) && Utf.LowSurrogate(low)
  {
    0x10000 + (high - 0xD800) * 0x400 + (low - 0xDC00)
  }

  /** The character's UTF-8 bytes. */
  function CharBytes(c: Char): (r: seq<byte>)
    requires ValidChar(c) && !c.Half?
    ensures r != []
  {
    match c
    case Raw(b) => [b]
    case Short(letter) => [Escaped(letter)]
    case Unit(digits) => Utf.Utf8(Utf.Hex4(digits))
    case Surrogates(high, low) => Utf.Utf8(Joined(Utf.Hex4(high), Utf.Hex4(low)))
  }

  /** Two halves that make a pair are a pair. */
  predicate ValidChars(s: seq<Char>) {
    && (forall i :: 0 <= i < |s| ==> ValidChar(s[i]))
    && forall i :: 0 < i < |s| ==> !(HighHalf(s[i - 1]) && LowHalf(s[i]))
  }

  predicate HalfFree(s: seq<Char>) {
    forall i :: 0 <= i < |s| ==> !s[i].Half?
  }

  function SpellChars(s: seq<Char>): seq<byte> {
    if s == [] then [] else SpellChar(s[0]) + SpellChars(s[1..])
  }

  function CharsBytes(s: seq<Char>): seq<byte>
    requires ValidChars(s) && HalfFree(s)
  {
    if s == [] then [] else CharBytes(s[0]) + CharsBytes(s[1..])
  }

  function SpellString(s: seq<Char>): seq<byte> {
    [QUOTE] + SpellChars(s) + [QUOTE]
  }

  // ---------------------------------------------------------------- sections 3 to 5: values

  /** Brackets around nothing still enclose white space, `gap`. */
  datatype Syntax =
    | Nothing
    | Truth(holds: bool)
    | Numeric(numeral: Numeral)
    | Quotation(chars: seq<Char>)
    | List(gap: seq<byte>, items: seq<Item>)
    | Record(gap: seq<byte>, entries: seq<Entry>)

  /** A value and the white space around it; a whole text is one of these. */
  datatype Item = Item(before: seq<byte>, value: Syntax, after: seq<byte>)

  datatype Entry = Entry(before: seq<byte>, key: seq<Char>, after: seq<byte>, item: Item)

  predicate Valid(s: Syntax) {
    match s
    case Numeric(n) => ValidNumeral(n)
    case Quotation(chars) => ValidChars(chars)
    case List(gap, items) =>
      Gap(gap) && forall i :: 0 <= i < |items| ==> GapsValid(items[i]) && Valid(items[i].value)
    case Record(gap, entries) =>
      Gap(gap) && forall i :: 0 <= i < |entries| ==> HeadValid(entries[i]) && Valid(entries[i].item.value)
    case _ => true
  }

  predicate GapsValid(item: Item) {
    Gap(item.before) && Gap(item.after)
  }

  predicate HeadValid(entry: Entry) {
    Gap(entry.before) && ValidChars(entry.key) && Gap(entry.after) && GapsValid(entry.item)
  }

  predicate ValidItems(items: seq<Item>) {
    forall i :: 0 <= i < |items| ==> GapsValid(items[i]) && Valid(items[i].value)
  }

  predicate ValidEntries(entries: seq<Entry>) {
    forall i :: 0 <= i < |entries| ==> HeadValid(entries[i]) && Valid(entries[i].item.value)
  }

  /** No string and no key holds half of a pair. */
  predicate Whole(s: Syntax) {
    match s
    case Quotation(chars) => HalfFree(chars)
    case List(_, items) => forall i :: 0 <= i < |items| ==> Whole(items[i].value)
    case Record(_, entries) =>
      forall i :: 0 <= i < |entries| ==> HalfFree(entries[i].key) && Whole(entries[i].item.value)
    case _ => true
  }

  predicate ItemsWhole(items: seq<Item>) {
    forall i :: 0 <= i < |items| ==> Whole(items[i].value)
  }

  predicate EntriesWhole(entries: seq<Entry>) {
    forall i :: 0 <= i < |entries| ==> HalfFree(entries[i].key) && Whole(entries[i].item.value)
  }

  function Spell(s: Syntax): seq<byte>
    decreases s
  {
    match s
    case Nothing => NULL_TEXT
    case Truth(holds) => if holds then TRUE_TEXT else FALSE_TEXT
    case Numeric(n) => SpellNumeral(n)
    case Quotation(chars) => SpellString(chars)
    case List(gap, items) => [LBRACKET] + (if items == [] then gap else SpellItems(items)) + [RBRACKET]
    case Record(gap, entries) => [LBRACE] + (if entries == [] then gap else SpellEntries(entries)) + [RBRACE]
  }

  function SpellItem(item: Item): seq<byte>
    decreases item
  {
    item.before + Spell(item.value) + item.after
  }

  function SpellItems(items: seq<Item>): seq<byte>
    requires items != []
    decreases items
  {
    SpellItem(items[0]) + if |items| == 1 then [] else [COMMA] + SpellItems(items[1..])
  }

  function SpellEntry(entry: Entry): seq<byte>
    decreases entry
  {
    entry.before + SpellString(entry.key) + entry.after + [COLON] + SpellItem(entry.item)
  }

  function SpellEntries(entries: seq<Entry>): seq<byte>
    requires entries != []
    decreases entries
  {
    SpellEntry(entries[0]) + if |entries| == 1 then [] else [COMMA] + SpellEntries(entries[1..])
  }

  /** The tree a text stands for; a number stands for its numeral. */
  function Meaning(s: Syntax): Value
    requires Valid(s) && Whole(s)
    decreases s
  {
    match s
    case Nothing => Null
    case Truth(holds) => if holds then True else False
    case Numeric(n) => Number(SpellNumeral(n))
    case Quotation(chars) => String(CharsBytes(chars))
    case List(_, items) => Array(ItemMeanings(items))
    case Record(_, entries) => Object(EntryMeanings(entries))
  }

  function ItemMeanings(items: seq<Item>): (r: seq<Value>)
    requires ValidItems(items) && ItemsWhole(items)
    ensures |r| == |items|
    decreases items
  {
    if items == [] then [] else [Meaning(items[0].value)] + ItemMeanings(items[1..])
  }

  function EntryMeanings(entries: seq<Entry>): (r: seq<Member>)
    requires ValidEntries(entries) && EntriesWhole(entries)
    ensures |r| == |entries|
    decreases entries
  {
    if entries == [] then []
    else [Member(CharsBytes(entries[0].key), Meaning(entries[0].item.value))] + EntryMeanings(entries[1..])
  }
}
