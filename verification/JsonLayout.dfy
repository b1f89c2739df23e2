/** The layout of printed JSON, character by character. */
module JsonLayout {
  import opened Bytes
  import opened JsonValue

  /** Two characters escape a quote, a backslash and the control characters that have a letter. */
  lemma ShortEscapes()
    ensures EscapeByte(0x08) == Ascii("\\b") && EscapeByte(0x0C) == Ascii("\\f") && EscapeByte(0x0A) == Ascii("\\n")
    ensures EscapeByte(0x0D) == Ascii("\\r") && EscapeByte(0x09) == Ascii("\\t")
    ensures EscapeByte(0x22) == Ascii("\\\"") && EscapeByte(0x5C) == Ascii("\\\\")
  {
  }

  /** The other control characters take six characters, and every other character stands for itself. */
  lemma LongEscapes(c: byte)
    ensures c >= 0x20 && c != 0x22 && c != 0x5C ==> EscapeByte(c) == [c]
    ensures c < 0x20 && c !in {0x08, 0x09, 0x0A, 0x0C, 0x0D} ==>
              EscapeByte(c) == Ascii("\\u00") + [0x30 + c / 16, Ascii("0123456789abcdef")[c % 16]]
  {
    if c < 0x20 && c !in {0x08, 0x09, 0x0A, 0x0C, 0x0D} {
      HexDigitIs(c / 16);
      HexDigitIs(c % 16);
      SixCharacters(c);
    }
  }

  lemma SixCharacters(c: byte)
    requires !Plain(c) && ShortEscape(c) == NUL
    ensures EscapeByte(c) == Ascii("\\u00") + [HexDigit(c / 16), HexDigit(c % 16)]
  {
  }

  lemma HexDigitIs(n: nat)
    requires n < 16
    ensures HexDigit(n) == Ascii("0123456789abcdef")[n]
    ensures n < 10 ==> HexDigit(n) == 0x30 + n
  {
  }

  /** Text without quotes, backslashes and control characters is printed as it is. */
  lemma {:induction false} PlainQuoted(s: seq<byte>)
    requires forall i :: 0 <= i < |s| ==> s[i] >= 0x20 && s[i] != 0x22 && s[i] != 0x5C
    ensures Quoted(s) == Ascii("\"") + s + Ascii("\"")
  {
    PlainEscape(s);
  }

  lemma {:induction false} PlainEscape(s: seq<byte>)
    requires forall i :: 0 <= i < |s| ==> s[i] >= 0x20 && s[i] != 0x22 && s[i] != 0x5C
    ensures Escape(s) == s
  {
    if s != [] {
      PlainEscape(s[1..]);
    }
  }

  /** Elements stand on one line, with a comma between them and, when formatted, a space after it. */
  lemma ArrayLayout(a: Value, rest: seq<Value>, fmt: bool, depth: nat)
    ensures Text(Array(rest), fmt, depth) == Ascii("[") + ItemsText(rest, fmt, depth + 1) + Ascii("]")
    ensures ItemsText([], fmt, depth) == [] && ItemsText([a], fmt, depth) == Text(a, fmt, depth)
    ensures rest != [] ==> ItemsText([a] + rest, fmt, depth) ==
                           Text(a, fmt, depth) + Ascii(if fmt then ", " else ",") + ItemsText(rest, fmt, depth)
  {
    hide Text;
    assert ([a] + rest)[1..] == rest && [a][1..] == [];
    assert Text(Array(rest), fmt, depth) == Ascii("[") + ItemsText(rest, fmt, depth + 1) + Ascii("]") by {
      ArrayText(rest, fmt, depth);
    }
    NothingText(fmt, depth);
    Comma(fmt);
  }

  lemma ArrayText(items: seq<Value>, fmt: bool, depth: nat)
    ensures Text(Array(items), fmt, depth) == Ascii("[") + ItemsText(items, fmt, depth + 1) + Ascii("]")
  {
    hide ItemsText;
  }

  lemma NothingText(fmt: bool, depth: nat)
    ensures ItemsText([], fmt, depth) == [] && MembersText([], fmt, depth) == []
  {
  }

  lemma Comma(fmt: bool)
    ensures ItemSeparator(true, fmt) == Ascii(if fmt then ", " else ",") && ItemSeparator(false, fmt) == []
    ensures MemberSeparator(true, fmt) == Ascii(if fmt then ",\n" else ",")
    ensures MemberSeparator(false, fmt) == Ascii(if fmt then "\n" else "")
  {
  }

  /**
   Formatted members stand on lines of their own, indented by a tab for each level, with a tab after the colon; the
   closing brace stands under the line that opened the object.
   */
  lemma ObjectLayout(m: Member, rest: seq<Member>, depth: nat)
    ensures Text(Object(rest), true, depth) ==
            Ascii("{\n") + MembersText(rest, true, depth + 1) + Tabs(depth) + Ascii("}")
    ensures MembersText([], true, depth) == []
    ensures MembersText([m] + rest, true, depth) ==
            Tabs(depth) + Quoted(m.key) + Ascii(":\t") + Text(m.value, true, depth)
            + Ascii(if rest == [] then "\n" else ",\n") + MembersText(rest, true, depth)
  {
    hide *;
    MembersOnce(m, rest, true, depth);
    TabsOrNot(depth);
    ObjectText(rest, true, depth);
    NothingText(true, depth);
    Comma(true);
    Colon();
  }

  /** Unformatted members are separated by commas alone. */
  lemma CompactLayout(m: Member, rest: seq<Member>, depth: nat)
    ensures Text(Object(rest), false, depth) == Ascii("{") + MembersText(rest, false, depth + 1) + Ascii("}")
    ensures MembersText([], false, depth) == []
    ensures MembersText([m] + rest, false, depth) ==
            Quoted(m.key) + Ascii(":") + Text(m.value, false, depth)
            + Ascii(if rest == [] then "" else ",") + MembersText(rest, false, depth)
  {
    hide *;
    MembersOnce(m, rest, false, depth);
    TabsOrNot(depth);
    ObjectText(rest, false, depth);
    NothingText(false, depth);
    Comma(false);
    Colon();
  }

  lemma MembersOnce(m: Member, rest: seq<Member>, fmt: bool, depth: nat)
    ensures MembersText([m] + rest, fmt, depth) ==
            Indent(fmt, depth) + Quoted(m.key) + ([COLON] + OnlyIf(fmt, TAB)) + Text(m.value, fmt, depth)
            + MemberSeparator(rest != [], fmt) + MembersText(rest, fmt, depth)
  {
    hide Text;
    hide Quoted;
    hide Indent;
    hide OnlyIf;
    hide MemberSeparator;
    assert ([m] + rest)[1..] == rest;
  }

  lemma TabsOrNot(depth: nat)
    ensures Indent(true, depth) == Tabs(depth) && Indent(false, depth) == []
  {
  }

  lemma Colon()
    ensures [COLON] + OnlyIf(true, TAB) == Ascii(":\t") && [COLON] + OnlyIf(false, TAB) == Ascii(":")
  {
  }

  lemma ObjectText(members: seq<Member>, fmt: bool, depth: nat)
    ensures Text(Object(members), fmt, depth) ==
            Ascii(if fmt then "{\n" else "{") + MembersText(members, fmt, depth + 1)
            + Indent(fmt, depth) + Ascii("}")
  {
    hide MembersText;
  }

  /** The other values. */
  lemma AtomLayout(v: Value, fmt: bool, depth: nat)
    ensures Text(True, fmt, depth) == Ascii("true") && Text(False, fmt, depth) == Ascii("false")
    ensures Text(Null, fmt, depth) == Ascii("null")
    ensures v.NonFinite? ==> Text(v, fmt, depth) == Ascii("null")
    ensures v.Number? ==> Text(v, fmt, depth) == v.lexeme
  {
  }
}
