/**
 The parser reads exactly those texts of RFC 8259 whose numerals are at most 63 characters long, which nest at most
 1000 deep and in which every escaped surrogate has its other half, whatever their white space and escapes.  It gives
 each the meaning the standard gives it, except that a string ends at its first NUL.
 */
module JsonAcceptance {
  import opened Bytes
  import opened Wrappers
  import opened JsonValue
  import opened JsonReading
  import opened JsonGrammar
  import JsonRoundTrip
  import JsonTokens
  import Utf

  // ---------------------------------------------------------------- white space

  lemma {:induction false} SkipGap(t: seq<byte>, o: nat, gap: seq<byte>)
    requires Gap(gap) && At(t, o, gap) && o + |gap| < |t| && t[o + |gap|] > SPACE
    ensures SkipWhitespace(t, o) == o + |gap|
    decreases |gap|
  {
    if gap != [] {
      JsonRoundTrip.AtStart(t, o, gap);
      AtSplit(t, o, gap[..1], gap[1..]);
      assert gap == gap[..1] + gap[1..];
      SkipGap(t, o + 1, gap[1..]);
    }
  }

  /** What follows a value: white space, and then a character that cannot prolong a number. */
  predicate Closer(c: byte) {
    c == COMMA || c == RBRACKET || c == RBRACE || c == NUL
  }

  lemma GapDelimits(t: seq<byte>, o: nat, gap: seq<byte>)
    requires Gap(gap) && At(t, o, gap) && o + |gap| < |t| && Closer(t[o + |gap|])
    ensures o < |t| && !NumberChar(t[o])
  {
    if gap != [] {
      JsonRoundTrip.AtStart(t, o, gap);
    }
  }

  // ---------------------------------------------------------------- numerals

  lemma RunOfDigits(s: seq<byte>, i: nat, digits: seq<byte>)
    requires Digits(digits) && At(s, i, digits) && (i + |digits| < |s| ==> !Digit(s[i + |digits|]))
    ensures i < |s| && Digit(s[i]) && DigitRun(s, i) == i + |digits|
  {
    assert forall k :: i <= k < i + |digits| ==> s[k] == s[i..i + |digits|][k - i] == digits[k - i];
  }

  /** The character at `i`, if there is one, ends a run of digits and starts no fraction. */
  predicate NoMoreMantissa(s: seq<byte>, i: nat) {
    i < |s| ==> !Digit(s[i]) && s[i] != DOT
  }

  lemma ExponentRead(s: seq<byte>, i: nat, e: Exponent)
    requires ValidExponent(e) && At(s, i, SpellExponent(e)) && i + |SpellExponent(e)| == |s|
    ensures ExponentEnd(s, i) == |s| && NoMoreMantissa(s, i)
  {
    hide At;
    hide DigitRun;
    if e.Exponent? {
      AtSplit(s, i, [e.letter] + e.sign, e.digits);
      AtSplit(s, i, [e.letter], e.sign);
      JsonRoundTrip.AtStart(s, i, [e.letter]);
      if e.sign != [] {
        JsonRoundTrip.AtStart(s, i + 1, e.sign);
      }
      RunOfDigits(s, i + 1 + |e.sign|, e.digits);
    }
  }

  lemma MantissaRead(s: seq<byte>, i: nat, whole: seq<byte>, fraction: seq<byte>)
    requires Digits(whole) && (fraction == [] || Digits(fraction))
    requires At(s, i, whole) && At(s, i + |whole|, SpellFraction(fraction))
    requires NoMoreMantissa(s, i + |whole| + |SpellFraction(fraction)|)
    ensures MantissaEnd(s, i) == i + |whole| + |SpellFraction(fraction)| && i < |s| && Digit(s[i])
  {
    hide At;
    hide DigitRun;
    hide Digits;
    if fraction == [] {
      RunOfDigits(s, i, whole);
    } else {
      AtSplit(s, i + |whole|, [DOT], fraction);
      JsonRoundTrip.AtStart(s, i + |whole|, [DOT]);
      RunOfDigits(s, i, whole);
      RunOfDigits(s, i + |whole| + 1, fraction);
    }
    DigitsBound(s, i, whole);
  }

  lemma DigitsBound(s: seq<byte>, i: nat, whole: seq<byte>)
    requires Digits(whole) && At(s, i, whole)
    ensures i < |s|
  {
  }

  /** `strtod` consumes the whole of a numeral. */
  lemma NumeralConsumed(n: Numeral)
    requires ValidNumeral(n)
    ensures var s := SpellNumeral(n); s != [] && StrtodLength(s) == |s| && (s[0] == MINUS || Digit(s[0]))
  {
    hide At;
    hide MantissaEnd;
    hide ExponentEnd;
    hide SpellFraction;
    hide SpellExponent;
    hide Digits;
    var s := SpellNumeral(n);
    var fraction, exponent := SpellFraction(n.fraction), SpellExponent(n.exponent);
    var i := |n.sign|;
    JsonRoundTrip.AtWhole(s);
    AtSplit(s, 0, n.sign + n.whole + fraction, exponent);
    AtSplit(s, 0, n.sign + n.whole, fraction);
    AtSplit(s, 0, n.sign, n.whole);
    ExponentRead(s, i + |n.whole| + |fraction|, n.exponent);
    MantissaRead(s, i, n.whole, n.fraction);
    if n.sign != [] {
      JsonRoundTrip.AtStart(s, 0, n.sign);
    }
  }

  /** A numeral reads back whole when it has room; a longer one is cut inside its characters. */
  lemma NumeralRead(t: seq<byte>, o: nat, n: Numeral)
    requires ValidNumeral(n) && At(t, o, SpellNumeral(n))
    requires o + |SpellNumeral(n)| < |t| && !NumberChar(t[o + |SpellNumeral(n)|])
    ensures var s, r := SpellNumeral(n), ReadNumber(t, o);
            if |s| <= NUMBER_ROOM then r == Parsed(Number(s), o + |s|)
            else Stuck(t, r)
  {
    hide StrtodLength;
    hide NumberRun;
    hide SpellNumeral;
    hide NumberChar;
    var s := SpellNumeral(n);
    NumeralConsumed(n);
    NumeralChars(n);
    assert forall i :: o <= i < o + |s| ==> t[i] == t[o..o + |s|][i - o] == s[i - o];
    if |s| <= NUMBER_ROOM {
      JsonRoundTrip.NumberRunBack(t, o, |s|, o + NUMBER_ROOM);
      assert s[..|s|] == s;
    }
  }

  /** A reading that failed, or that stopped in front of a character no container expects there. */
  ghost predicate Stuck(t: seq<byte>, r: Result) {
    r.Failed? || (r.next < |t| && NumberChar(t[r.next]))
  }

  // ---------------------------------------------------------------- strings

  lemma DigitsPlain(s: seq<byte>)
    requires Utf.FourDigits(s)
    ensures forall i :: 0 <= i < 4 ==> s[i] != QUOTE && s[i] != BACKSLASH
  {
    forall i | 0 <= i < 4
      ensures s[i] != QUOTE && s[i] != BACKSLASH
    {
      assert Utf.HexValue(s[i]).Some?;
    }
  }

  lemma UnitAt(t: seq<byte>, p: nat, digits: seq<byte>)
    requires At(t, p, [BACKSLASH, 0x75] + digits) && Utf.FourDigits(digits)
    ensures p + 6 <= |t| && t[p] == BACKSLASH && t[p + 1] == 0x75 && t[p + 2..p + 6] == digits
    ensures ClosingQuote(t, p) == ClosingQuote(t, p + 6)
  {
    hide ClosingQuote;
    var s := [BACKSLASH, 0x75] + digits;
    assert forall i :: 0 <= i < 6 ==> t[p + i] == t[p..p + 6][i] == s[i];
    DigitsPlain(digits);
    assert forall i :: p + 2 <= i < p + 6 ==> t[i] == digits[i - p - 2];
    JsonRoundTrip.SixCharactersScanned(t, p);
  }

  /** The second scan writes a character's bytes, and the first scan passes its spelling. */
  lemma CharRead(t: seq<byte>, p: nat, end: nat, c: Char)
    requires ValidChar(c) && !c.Half? && At(t, p, SpellChar(c)) && p + |SpellChar(c)| <= end < |t|
    ensures PieceAt(t, p, end) == Piece(CharBytes(c), |SpellChar(c)|)
    ensures ClosingQuote(t, p) == ClosingQuote(t, p + |SpellChar(c)|)
  {
    match c
    case Raw(b) => JsonRoundTrip.AtStart(t, p, [b]);
    case Short(letter) =>
      assert t[p] == t[p..p + 2][0] && t[p + 1] == t[p..p + 2][1];
    case Unit(digits) => UnitAt(t, p, digits);
    case Surrogates(high, low) => PairRead(t, p, end, high, low);
  }

  lemma PairRead(t: seq<byte>, p: nat, end: nat, high: seq<byte>, low: seq<byte>)
    requires ValidChar(Surrogates(high, low)) && At(t, p, SpellChar(Surrogates(high, low))) && p + 12 <= end < |t|
    ensures PieceAt(t, p, end) == Piece(CharBytes(Surrogates(high, low)), 12)
    ensures ClosingQuote(t, p) == ClosingQuote(t, p + 12)
  {
    hide At;
    hide ClosingQuote;
    hide Utf.Hex4;
    hide Utf.Utf8;
    AtSplit(t, p, [BACKSLASH, 0x75] + high, [BACKSLASH, 0x75] + low);
    UnitAt(t, p, high);
    UnitAt(t, p + 6, low);
    assert t[p + 8..p + 12] == low;
    Pairing(Utf.Hex4(high), Utf.Hex4(low));
  }

  /** Half of a pair is refused whatever follows it, as long as that does not complete the pair. */
  lemma HalfRefused(t: seq<byte>, p: nat, s: seq<Char>)
    requires ValidChars(s) && s != [] && s[0].Half? && At(t, p, SpellChars(s)) && p + |SpellChars(s)| < |t|
    requires t[p + |SpellChars(s)|] == QUOTE
    ensures PieceAt(t, p, p + |SpellChars(s)|) == BadPiece
    ensures ClosingQuote(t, p) == ClosingQuote(t, p + 6)
  {
    hide At;
    hide SpellChars;
    hide ClosingQuote;
    hide Utf.DecodeLiteral;
    hide Utf.Hex4;
    var digits, rest, end := s[0].digits, SpellChars(s[1..]), p + |SpellChars(s)|;
    CharsOnce(s);
    AtSplit(t, p, [BACKSLASH, 0x75] + digits, rest);
    UnitAt(t, p, digits);
    if HighHalf(s[0]) && end - p >= 12 {
      if s[1..] == [] {
        CharsEmpty();
      } else {
        assert s[1..][0] == s[1];
        CharsOnce(s[1..]);
        AtSplit(t, p + 6, SpellChar(s[1]), SpellChars(s[1..][1..]));
        NoLowHalf(t, p + 6, s[1]);
      }
    }
    Undecoded(t, p, end);
  }

  /** A low half, or a high half without a low one. */
  lemma Undecoded(t: seq<byte>, p: nat, end: nat)
    requires p + 6 <= end < |t|
    requires var first := Utf.Hex4(t[p + 2..p + 6]);
             || Utf.LowSurrogate(first)
             || (Utf.HighSurrogate(first)
                 && (end - p >= 12 ==> t[p + 6] != BACKSLASH || t[p + 7] != 0x75
                                       || !Utf.LowSurrogate(Utf.Hex4(t[p + 8..p + 12]))))
    ensures Utf.DecodeLiteral(t, p, end).Rejected?
  {
    hide Utf.Hex4;
  }

  lemma CharsOnce(s: seq<Char>)
    requires s != []
    ensures SpellChars(s) == SpellChar(s[0]) + SpellChars(s[1..])
  {
    hide SpellChar;
  }

  lemma CharsEmpty()
    ensures SpellChars([]) == []
  {
  }

  /** A character that is no low half does not read as one. */
  lemma NoLowHalf(t: seq<byte>, p: nat, c: Char)
    requires ValidChar(c) && !LowHalf(c) && At(t, p, SpellChar(c)) && p + 6 <= |t|
    ensures t[p] != BACKSLASH || t[p + 1] != 0x75 || !Utf.LowSurrogate(Utf.Hex4(t[p + 2..p + 6]))
  {
    match c
    case Raw(b) => JsonRoundTrip.AtStart(t, p, [b]);
    case Short(letter) =>
      assert t[p] == t[p..p + 2][0] && t[p + 1] == t[p..p + 2][1];
    case Unit(digits) => UnitAt(t, p, digits);
    case Surrogates(high, low) =>
      AtSplit(t, p, [BACKSLASH, 0x75] + high, [BACKSLASH, 0x75] + low);
      UnitAt(t, p, high);
    case Half(digits) => UnitAt(t, p, digits);
  }

  /** The ten-bit arithmetic of the C code is the standard's. */
  lemma Pairing(high: nat, low: nat)
    requires Utf.HighSurrogate(high) && Utf.LowSurrogate(low)
    ensures Joined(high, low) == 0x10000 + high % 0x400 * 0x400 + low % 0x400
  {
    Utf.SurrogateBits(high - 0xD800, low - 0xDC00);
  }

  lemma {:induction false} CharsRead(t: seq<byte>, p: nat, s: seq<Char>)
    requires ValidChars(s) && At(t, p, SpellChars(s)) && p + |SpellChars(s)| < |t|
    requires t[p + |SpellChars(s)|] == QUOTE
    ensures ClosingQuote(t, p) == Some(p + |SpellChars(s)|)
    ensures var r := Unescape(t, p, p + |SpellChars(s)|);
            if HalfFree(s) then r == Written(CharsBytes(s)) else r.Broken?
    decreases |s|
  {
    hide At;
    hide PieceAt;
    hide SpellChar;
    hide CharBytes;
    hide ValidChar;
    hide HighHalf;
    hide LowHalf;
    if s != [] {
      var end := p + |SpellChars(s)|;
      AtSplit(t, p, SpellChar(s[0]), SpellChars(s[1..]));
      if s[0].Half? {
        HalfRefused(t, p, s);
        HalfSize(s[0]);
      } else {
        CharRead(t, p, end, s[0]);
      }
      CharsRead(t, p + |SpellChar(s[0])|, s[1..]);
    }
  }

  lemma HalfSize(c: Char)
    requires ValidChar(c) && c.Half?
    ensures |SpellChar(c)| == 6
  {
  }

  lemma StringRead(t: seq<byte>, o: nat, s: seq<Char>)
    requires ValidChars(s) && At(t, o, SpellString(s))
    ensures o < |t| && t[o] == QUOTE
    ensures if HalfFree(s) then ReadString(t, o) == Read(CString(CharsBytes(s)), o + |SpellString(s)|)
            else ReadString(t, o).Unread?
  {
    hide At;
    hide SpellChars;
    hide ClosingQuote;
    hide Unescape;
    hide CString;
    AtSplit(t, o, [QUOTE] + SpellChars(s), [QUOTE]);
    AtSplit(t, o, [QUOTE], SpellChars(s));
    JsonRoundTrip.AtStart(t, o, [QUOTE]);
    JsonRoundTrip.AtStart(t, o + 1 + |SpellChars(s)|, [QUOTE]);
    CharsRead(t, o + 1, s);
  }

  // ---------------------------------------------------------------- what the parser makes of a text

  /** Strings and keys end at their first NUL. */
  function Cut(v: Value): Value {
    match v
    case String(text) => String(CString(text))
    case Array(items) => Array(CutItems(items))
    case Object(members) => Object(CutMembers(members))
    case _ => v
  }

  function CutItems(items: seq<Value>): (r: seq<Value>)
    ensures |r| == |items|
  {
    if items == [] then [] else [Cut(items[0])] + CutItems(items[1..])
  }

  function CutMembers(members: seq<Member>): (r: seq<Member>)
    ensures |r| == |members|
  {
    if members == [] then []
    else [Member(CString(members[0].key), Cut(members[0].value))] + CutMembers(members[1..])
  }

  predicate NumeralsFit(s: Syntax) {
    match s
    case Numeric(n) => |SpellNumeral(n)| <= NUMBER_ROOM
    case List(_, items) => forall i :: 0 <= i < |items| ==> NumeralsFit(items[i].value)
    case Record(_, entries) => forall i :: 0 <= i < |entries| ==> NumeralsFit(entries[i].item.value)
    case _ => true
  }

  predicate ItemsNumeralsFit(items: seq<Item>) {
    forall i :: 0 <= i < |items| ==> NumeralsFit(items[i].value)
  }

  predicate EntriesNumeralsFit(entries: seq<Entry>) {
    forall i :: 0 <= i < |entries| ==> NumeralsFit(entries[i].item.value)
  }

  /** No half of a pair and the limits of the C code, for a text enclosed by `nest` arrays and objects. */
  predicate Fits(s: Syntax, nest: nat)
    requires Valid(s)
  {
    NumeralsFit(s) && Whole(s) && nest + Nesting(Meaning(s)) <= NESTING_LIMIT
  }

  predicate ItemsFit(items: seq<Item>, nest: nat)
    requires ValidItems(items)
  {
    && ItemsNumeralsFit(items) && ItemsWhole(items)
    && nest + ItemsNesting(ItemMeanings(items)) <= NESTING_LIMIT
  }

  predicate EntriesFit(entries: seq<Entry>, nest: nat)
    requires ValidEntries(entries)
  {
    && EntriesNumeralsFit(entries) && EntriesWhole(entries)
    && nest + MembersNesting(EntryMeanings(entries)) <= NESTING_LIMIT
  }

  ghost predicate ReadsAs(t: seq<byte>, r: Result, s: Syntax, end: nat, nest: nat)
    requires Valid(s)
  {
    if Fits(s, nest) then r == Parsed(Cut(Meaning(s)), end) else Stuck(t, r)
  }

  ghost predicate ItemsReadAs(r: ItemsResult, items: seq<Item>, close: nat, nest: nat)
    requires ValidItems(items)
  {
    if ItemsFit(items, nest) then r == ItemsParsed(CutItems(ItemMeanings(items)), close + 1) else r.ItemsFailed?
  }

  ghost predicate EntryReadsAs(t: seq<byte>, r: MemberResult, entry: Entry, end: nat, nest: nat)
    requires HeadValid(entry) && Valid(entry.item.value)
  {
    if HalfFree(entry.key) && Fits(entry.item.value, nest)
    then r == MemberParsed(Member(CString(CharsBytes(entry.key)), Cut(Meaning(entry.item.value))), end)
    else r.MemberFailed? || (r.next < |t| && NumberChar(t[r.next]))
  }

  ghost predicate EntriesReadAs(r: MembersResult, entries: seq<Entry>, close: nat, nest: nat)
    requires ValidEntries(entries)
  {
    if EntriesFit(entries, nest) then r == MembersParsed(CutMembers(EntryMeanings(entries)), close + 1)
    else r.MembersFailed?
  }

  // ---------------------------------------------------------------- layout

  lemma SpellStart(s: Syntax)
    requires Valid(s)
    ensures Spell(s) != [] && var c := Spell(s)[0]; SPACE < c < 0x80 && c != RBRACKET && c != RBRACE
    ensures s.Numeric? ==> Spell(s)[0] == MINUS || Digit(Spell(s)[0])
  {
    hide SpellNumeral;
    hide ValidNumeral;
    hide SpellChars;
    if s.Numeric? {
      NumeralConsumed(s.numeral);
    }
  }

  /** The parts of a value with its white space, in front of a character that closes it. */
  lemma ItemLayout(t: seq<byte>, o: nat, item: Item)
    requires GapsValid(item) && Valid(item.value) && At(t, o, SpellItem(item))
    requires o + |SpellItem(item)| < |t| && Closer(t[o + |SpellItem(item)|])
    ensures var first := o + |item.before|;
            var end := first + |Spell(item.value)|;
            && first < end < |t| && At(t, first, Spell(item.value)) && SkipWhitespace(t, o) == first
            && t[first] != RBRACKET && !NumberChar(t[end]) && At(t, end, item.after)
            && end + |item.after| == o + |SpellItem(item)|
            && (t[end + |item.after|] > SPACE ==> SkipWhitespace(t, end) == end + |item.after|)
  {
    hide At;
    hide Spell;
    hide SkipWhitespace;
    hide Gap;
    hide Valid;
    hide NumberChar;
    var text := Spell(item.value);
    AtSplit(t, o, item.before + text, item.after);
    AtSplit(t, o, item.before, text);
    SpellStart(item.value);
    JsonRoundTrip.AtStart(t, o + |item.before|, text);
    SkipGap(t, o, item.before);
    var end := o + |item.before| + |text|;
    GapDelimits(t, end, item.after);
    if t[end + |item.after|] > SPACE {
      SkipGap(t, end, item.after);
    }
  }

  /** The first of some elements, and what follows it. */
  lemma {:induction false} ItemsLayout(t: seq<byte>, o: nat, items: seq<Item>)
    requires items != [] && At(t, o, SpellItems(items)) && o + |SpellItems(items)| < |t|
    requires t[o + |SpellItems(items)|] == RBRACKET
    ensures At(t, o, SpellItem(items[0]))
    ensures var after := o + |SpellItem(items[0])|;
            if |items| == 1 then after == o + |SpellItems(items)|
            else
              && after + 1 < |t| && t[after] == COMMA && At(t, after + 1, SpellItems(items[1..]))
              && after + 1 + |SpellItems(items[1..])| == o + |SpellItems(items)|
  {
    hide At;
    hide SpellItem;
    var first := SpellItem(items[0]);
    if |items| > 1 {
      var rest := SpellItems(items[1..]);
      AtSplit(t, o, first, [COMMA] + rest);
      AtSplit(t, o + |first|, [COMMA], rest);
      JsonRoundTrip.AtStart(t, o + |first|, [COMMA]);
    } else {
      assert SpellItems(items) == first;
    }
  }

  lemma {:induction false} EntriesLayout(t: seq<byte>, o: nat, entries: seq<Entry>)
    requires entries != [] && At(t, o, SpellEntries(entries)) && o + |SpellEntries(entries)| < |t|
    requires t[o + |SpellEntries(entries)|] == RBRACE
    ensures At(t, o, SpellEntry(entries[0]))
    ensures var after := o + |SpellEntry(entries[0])|;
            if |entries| == 1 then after == o + |SpellEntries(entries)|
            else
              && after + 1 < |t| && t[after] == COMMA && At(t, after + 1, SpellEntries(entries[1..]))
              && after + 1 + |SpellEntries(entries[1..])| == o + |SpellEntries(entries)|
  {
    hide At;
    hide SpellEntry;
    var first := SpellEntry(entries[0]);
    if |entries| > 1 {
      var rest := SpellEntries(entries[1..]);
      AtSplit(t, o, first, [COMMA] + rest);
      AtSplit(t, o + |first|, [COMMA], rest);
      JsonRoundTrip.AtStart(t, o + |first|, [COMMA]);
    } else {
      assert SpellEntries(entries) == first;
    }
  }

  // ---------------------------------------------------------------- values

  lemma PlainRead(t: seq<byte>, o: nat, s: Syntax, nest: nat)
    requires Terminated(t) && Valid(s) && nest <= NESTING_LIMIT && !s.List? && !s.Record?
    requires At(t, o, Spell(s)) && o + |Spell(s)| < |t| && !NumberChar(t[o + |Spell(s)|])
    ensures o < |t| && ReadsAs(t, ReadValue(t, o, nest), s, o + |Spell(s)|, nest)
  {
    hide At;
    hide ReadValue;
    hide ReadArray;
    hide ReadObject;
    hide ReadString;
    hide ReadNumber;
    hide SpellNumeral;
    hide SpellString;
    hide ValidNumeral;
    hide ValidChars;
    hide NumberChar;
    hide CString;
    hide CharsBytes;
    SpellStart(s);
    JsonRoundTrip.AtStart(t, o, Spell(s));
    JsonRoundTrip.Dispatch(t, o, nest);
    match s
    case Nothing => JsonRoundTrip.WordBack(t, o, Null, nest);
    case Truth(holds) => JsonRoundTrip.WordBack(t, o, if holds then True else False, nest);
    case Numeric(n) => NumeralRead(t, o, n);
    case Quotation(chars) => StringRead(t, o, chars);
  }

  lemma {:induction false} ValueRead(t: seq<byte>, o: nat, s: Syntax, nest: nat)
    requires Terminated(t) && Valid(s) && nest <= NESTING_LIMIT
    requires At(t, o, Spell(s)) && o + |Spell(s)| < |t| && !NumberChar(t[o + |Spell(s)|])
    ensures o < |t| && ReadsAs(t, ReadValue(t, o, nest), s, o + |Spell(s)|, nest)
    decreases s, 1
  {
    hide At;
    hide ReadValue;
    hide ReadArray;
    hide ReadObject;
    hide Spell;
    hide ReadsAs;
    hide NumberChar;
    if s.List? {
      ListRead(t, o, s.gap, s.items, nest);
      JsonRoundTrip.Dispatch(t, o, nest);
    } else if s.Record? {
      RecordRead(t, o, s.gap, s.entries, nest);
      JsonRoundTrip.Dispatch(t, o, nest);
    } else {
      PlainRead(t, o, s, nest);
    }
  }

  lemma {:induction false} ListFits(gap: seq<byte>, items: seq<Item>, nest: nat)
    requires Valid(List(gap, items)) && nest <= NESTING_LIMIT
    ensures Fits(List(gap, items), nest) <==> nest < NESTING_LIMIT && ItemsFit(items, nest + 1)
    ensures Fits(List(gap, items), nest) ==> Cut(Meaning(List(gap, items))) == Array(CutItems(ItemMeanings(items)))
  {
    hide ItemsNesting;
    hide CutItems;
    hide ItemMeanings;
  }

  lemma {:induction false} RecordFits(gap: seq<byte>, entries: seq<Entry>, nest: nat)
    requires Valid(Record(gap, entries)) && nest <= NESTING_LIMIT
    ensures Fits(Record(gap, entries), nest) <==> nest < NESTING_LIMIT && EntriesFit(entries, nest + 1)
    ensures Fits(Record(gap, entries), nest) ==>
              Cut(Meaning(Record(gap, entries))) == Object(CutMembers(EntryMeanings(entries)))
  {
    hide MembersNesting;
    hide CutMembers;
    hide EntryMeanings;
  }

  lemma {:induction false} ListRead(t: seq<byte>, o: nat, gap: seq<byte>, items: seq<Item>, nest: nat)
    requires Terminated(t) && Gap(gap) && ValidItems(items) && nest <= NESTING_LIMIT
    requires At(t, o, Spell(List(gap, items))) && o + |Spell(List(gap, items))| < |t|
    ensures o < |t| - 1 && t[o] == LBRACKET
    ensures ReadsAs(t, ReadArray(t, o, nest), List(gap, items), o + |Spell(List(gap, items))|, nest)
    decreases items, 3
  {
    hide At;
    hide ReadItems;
    hide SkipWhitespace;
    hide SpellItems;
    hide ItemMeanings;
    hide CutItems;
    hide Cut;
    hide Meaning;
    hide Fits;
    hide NumeralsFit;
    hide Whole;
    hide HalfFree;
    ListFits(gap, items, nest);
    var inner := if items == [] then gap else SpellItems(items);
    AtSplit(t, o, [LBRACKET] + inner, [RBRACKET]);
    AtSplit(t, o, [LBRACKET], inner);
    JsonRoundTrip.AtStart(t, o, [LBRACKET]);
    JsonRoundTrip.AtStart(t, o + 1 + |inner|, [RBRACKET]);
    if items == [] {
      SkipGap(t, o + 1, gap);
      NothingCut();
    } else if nest < NESTING_LIMIT {
      ItemsRead(t, o + 1, items, nest + 1);
    }
  }

  lemma NothingCut()
    ensures ItemMeanings([]) == [] && CutItems([]) == [] && EntryMeanings([]) == [] && CutMembers([]) == []
  {
  }

  lemma {:induction false} ItemsRead(t: seq<byte>, o: nat, items: seq<Item>, nest: nat)
    requires Terminated(t) && ValidItems(items) && items != [] && nest <= NESTING_LIMIT
    requires At(t, o, SpellItems(items)) && o + |SpellItems(items)| < |t| && t[o + |SpellItems(items)|] == RBRACKET
    ensures var first := o + |items[0].before|;
            && first < |t| && SkipWhitespace(t, o) == first && t[first] != RBRACKET
            && ItemsReadAs(ReadItems(t, first, nest), items, o + |SpellItems(items)|, nest)
    decreases items, 2
  {
    hide *;
    ItemsTail(items);
    ItemsLayout(t, o, items);
    var after := o + |SpellItem(items[0])|;
    var first := o + |items[0].before|;
    var end := first + |Spell(items[0].value)|;
    Closers();
    ItemLayout(t, o, items[0]);
    ValueRead(t, first, items[0].value, nest);
    ItemsSplit(items, nest);
    if |items| > 1 {
      ItemsRead(t, after + 1, items[1..], nest);
      ItemsJoin(t, first, items, nest, end, after, o + |SpellItems(items)|);
    } else {
      ItemsEnd(t, first, items, nest, end, after);
    }
  }

  lemma {:induction false} ItemsSplit(items: seq<Item>, nest: nat)
    requires ValidItems(items) && items != [] && nest <= NESTING_LIMIT && ValidItems(items[1..])
    ensures ItemsFit(items, nest) <==> Fits(items[0].value, nest) && ItemsFit(items[1..], nest)
    ensures ItemsFit(items, nest) ==>
              CutItems(ItemMeanings(items)) == [Cut(Meaning(items[0].value))] + CutItems(ItemMeanings(items[1..]))
  {
    hide Nesting;
    hide Cut;
    hide Meaning;
    hide NumeralsFit;
    hide Whole;
    var rest := items[1..];
    assert forall i :: 0 <= i < |rest| ==> rest[i] == items[i + 1];
    assert forall i :: 1 <= i < |items| ==> items[i] == rest[i - 1];
    if ItemsWhole(items) {
      assert ItemMeanings(items)[1..] == ItemMeanings(rest);
    }
  }

  lemma {:induction false} ItemsJoin(t: seq<byte>, first: nat, items: seq<Item>, nest: nat, end: nat, after: nat,
                                     close: nat)
    requires Terminated(t) && items != [] && ValidItems(items) && ValidItems(items[1..]) && first < |t|
    requires ItemsFit(items, nest) <==> Fits(items[0].value, nest) && ItemsFit(items[1..], nest)
    requires ItemsFit(items, nest) ==>
               CutItems(ItemMeanings(items)) == [Cut(Meaning(items[0].value))] + CutItems(ItemMeanings(items[1..]))
    requires end < |t| && after + 1 < |t| && t[after] == COMMA && SkipWhitespace(t, end) == after
    requires ReadsAs(t, ReadValue(t, first, nest), items[0].value, end, nest)
    requires ItemsReadAs(ReadItems(t, SkipWhitespace(t, after + 1), nest), items[1..], close, nest)
    ensures ItemsReadAs(ReadItems(t, first, nest), items, close, nest)
  {
    hide ReadItems;
    hide ReadValue;
    hide Fits;
    hide ItemsFit;
    hide CutItems;
    hide ItemMeanings;
    hide Meaning;
    hide Cut;
    hide NumberChar;
    hide SkipWhitespace;
    JsonRoundTrip.ItemsUnfold(t, first, nest);
    if Stuck(t, ReadValue(t, first, nest)) && ReadValue(t, first, nest).Parsed? {
      StuckStops(t, ReadValue(t, first, nest).next);
    }
  }

  lemma {:induction false} ItemsEnd(t: seq<byte>, first: nat, items: seq<Item>, nest: nat, end: nat, close: nat)
    requires Terminated(t) && |items| == 1 && ValidItems(items) && ValidItems(items[1..]) && first < |t|
    requires nest <= NESTING_LIMIT
    requires ItemsFit(items, nest) <==> Fits(items[0].value, nest) && ItemsFit(items[1..], nest)
    requires ItemsFit(items, nest) ==>
               CutItems(ItemMeanings(items)) == [Cut(Meaning(items[0].value))] + CutItems(ItemMeanings(items[1..]))
    requires end < |t| && close < |t| && t[close] == RBRACKET && SkipWhitespace(t, end) == close
    requires ReadsAs(t, ReadValue(t, first, nest), items[0].value, end, nest)
    ensures ItemsReadAs(ReadItems(t, first, nest), items, close, nest)
  {
    hide ReadItems;
    hide ReadValue;
    hide Fits;
    hide Meaning;
    hide Cut;
    hide NumberChar;
    hide SkipWhitespace;
    assert items[1..] == [];
    JsonRoundTrip.ItemsUnfold(t, first, nest);
    if Stuck(t, ReadValue(t, first, nest)) && ReadValue(t, first, nest).Parsed? {
      StuckStops(t, ReadValue(t, first, nest).next);
    }
  }

  /** Where a reading stopped in front of a number character, there is no white space, comma or bracket. */
  lemma StuckStops(t: seq<byte>, next: nat)
    requires next < |t| && NumberChar(t[next])
    ensures SkipWhitespace(t, next) == next && !Closer(t[next])
  {
  }

  lemma {:induction false} ItemsTail(items: seq<Item>)
    requires ValidItems(items) && items != []
    ensures GapsValid(items[0]) && Valid(items[0].value) && ValidItems(items[1..])
  {
  }

  lemma Closers()
    ensures Closer(COMMA) && Closer(RBRACKET) && Closer(RBRACE) && COMMA > SPACE && RBRACKET > SPACE && RBRACE > SPACE
  {
  }

  lemma {:induction false} EntriesTail(entries: seq<Entry>)
    requires ValidEntries(entries) && entries != []
    ensures HeadValid(entries[0]) && Valid(entries[0].item.value) && ValidEntries(entries[1..])
  {
  }

  /** The parts of a member, in front of a character that closes it. */
  lemma EntryLayout(t: seq<byte>, o: nat, entry: Entry)
    requires HeadValid(entry) && Valid(entry.item.value) && At(t, o, SpellEntry(entry))
    requires o + |SpellEntry(entry)| < |t| && Closer(t[o + |SpellEntry(entry)|])
    ensures var key := o + |entry.before|;
            var colon := key + |SpellString(entry.key)| + |entry.after|;
            && key < |t| && SkipWhitespace(t, o) == key && At(t, key, SpellString(entry.key))
            && colon + 1 < |t| && t[colon] == COLON && SkipWhitespace(t, key + |SpellString(entry.key)|) == colon
            && At(t, colon + 1, SpellItem(entry.item))
            && colon + 1 + |SpellItem(entry.item)| == o + |SpellEntry(entry)|
  {
    hide At;
    hide SpellItem;
    hide SpellChars;
    hide SkipWhitespace;
    hide Gap;
    hide ValidChars;
    var quoted, item := SpellString(entry.key), SpellItem(entry.item);
    AtSplit(t, o, entry.before + quoted + entry.after + [COLON], item);
    AtSplit(t, o, entry.before + quoted + entry.after, [COLON]);
    AtSplit(t, o, entry.before + quoted, entry.after);
    AtSplit(t, o, entry.before, quoted);
    var key := o + |entry.before|;
    JsonRoundTrip.AtStart(t, key, quoted);
    JsonRoundTrip.AtStart(t, key + |quoted| + |entry.after|, [COLON]);
    SkipGap(t, o, entry.before);
    SkipGap(t, key + |quoted|, entry.after);
  }

  /** Where a member's value ends. */
  function EntryEnd(o: nat, entry: Entry): nat {
    o + |entry.before| + |SpellString(entry.key)| + |entry.after| + 1 + |entry.item.before| + |Spell(entry.item.value)|
  }

  lemma {:induction false} EntryRead(t: seq<byte>, o: nat, entry: Entry, nest: nat)
    requires Terminated(t) && HeadValid(entry) && Valid(entry.item.value) && nest <= NESTING_LIMIT
    requires At(t, o, SpellEntry(entry))
    requires o + |SpellEntry(entry)| < |t| && Closer(t[o + |SpellEntry(entry)|])
    ensures var key := o + |entry.before|;
            var end := EntryEnd(o, entry);
            && key < |t| && SkipWhitespace(t, o) == key && t[key] == QUOTE
            && EntryReadsAs(t, ReadMember(t, key, nest), entry, end, nest)
            && end < |t|
            && (t[o + |SpellEntry(entry)|] > SPACE ==> SkipWhitespace(t, end) == o + |SpellEntry(entry)|)
    decreases entry
  {
    hide *;
    EntryLayout(t, o, entry);
    var key := o + |entry.before|;
    var colon := key + |SpellString(entry.key)| + |entry.after|;
    GapsOfEntry(entry);
    StringRead(t, key, entry.key);
    ItemLayout(t, colon + 1, entry.item);
    ValueRead(t, colon + 1 + |entry.item.before|, entry.item.value, nest);
    EndOf(o, entry);
    EntryJoin(t, key, entry, nest, colon, EntryEnd(o, entry));
  }

  lemma GapsOfEntry(entry: Entry)
    requires HeadValid(entry)
    ensures ValidChars(entry.key) && GapsValid(entry.item)
  {
  }

  lemma EndOf(o: nat, entry: Entry)
    ensures EntryEnd(o, entry) == o + |entry.before| + |SpellString(entry.key)| + |entry.after| + 1
                                  + |entry.item.before| + |Spell(entry.item.value)|
  {
  }

  lemma EntryJoin(t: seq<byte>, key: nat, entry: Entry, nest: nat, colon: nat, end: nat)
    requires Terminated(t) && key < |t| && HeadValid(entry) && Valid(entry.item.value)
    requires if HalfFree(entry.key)
             then ReadString(t, key) == Read(CString(CharsBytes(entry.key)), key + |SpellString(entry.key)|)
             else ReadString(t, key).Unread?
    requires key + |SpellString(entry.key)| <= |t| && SkipWhitespace(t, key + |SpellString(entry.key)|) == colon
    requires colon + 1 < |t| && t[colon] == COLON && SkipWhitespace(t, colon + 1) < |t|
    requires ReadsAs(t, ReadValue(t, SkipWhitespace(t, colon + 1), nest), entry.item.value, end, nest)
    ensures EntryReadsAs(t, ReadMember(t, key, nest), entry, end, nest)
  {
    hide ReadString;
    hide ReadValue;
    hide SkipWhitespace;
    hide Fits;
    hide Meaning;
    hide Cut;
    hide CString;
    hide CharsBytes;
    hide SpellString;
    hide NumberChar;
  }

  lemma {:induction false} EntriesRead(t: seq<byte>, o: nat, entries: seq<Entry>, nest: nat)
    requires Terminated(t) && ValidEntries(entries) && entries != [] && nest <= NESTING_LIMIT
    requires At(t, o, SpellEntries(entries)) && o + |SpellEntries(entries)| < |t|
    requires t[o + |SpellEntries(entries)|] == RBRACE
    ensures var key := o + |entries[0].before|;
            && key < |t| && SkipWhitespace(t, o) == key && t[key] == QUOTE
            && EntriesReadAs(ReadMembers(t, key, nest), entries, o + |SpellEntries(entries)|, nest)
    decreases entries, 2
  {
    hide *;
    EntriesTail(entries);
    EntriesLayout(t, o, entries);
    var after := o + |SpellEntry(entries[0])|;
    var key := o + |entries[0].before|;
    var end := EntryEnd(o, entries[0]);
    Closers();
    EntryRead(t, o, entries[0], nest);
    EntriesSplit(entries, nest);
    if |entries| > 1 {
      EntriesRead(t, after + 1, entries[1..], nest);
      EntriesJoin(t, key, entries, nest, end, after, o + |SpellEntries(entries)|);
    } else {
      EntriesEnd(t, key, entries, nest, end, after);
    }
  }

  lemma {:induction false} EntriesSplit(entries: seq<Entry>, nest: nat)
    requires ValidEntries(entries) && entries != [] && nest <= NESTING_LIMIT && ValidEntries(entries[1..])
    ensures EntriesFit(entries, nest)
            <==> HalfFree(entries[0].key) && Fits(entries[0].item.value, nest) && EntriesFit(entries[1..], nest)
    ensures EntriesFit(entries, nest) ==>
              CutMembers(EntryMeanings(entries)) ==
              [Member(CString(CharsBytes(entries[0].key)), Cut(Meaning(entries[0].item.value)))]
              + CutMembers(EntryMeanings(entries[1..]))
  {
    hide Nesting;
    hide Cut;
    hide Meaning;
    hide NumeralsFit;
    hide CString;
    hide CharsBytes;
    hide Whole;
    hide HalfFree;
    var rest := entries[1..];
    assert forall i :: 0 <= i < |rest| ==> rest[i] == entries[i + 1];
    assert forall i :: 1 <= i < |entries| ==> entries[i] == rest[i - 1];
    if EntriesWhole(entries) {
      assert EntryMeanings(entries)[1..] == EntryMeanings(rest);
    }
  }

  lemma {:induction false} EntriesJoin(t: seq<byte>, key: nat, entries: seq<Entry>, nest: nat, end: nat, after: nat,
                                       close: nat)
    requires Terminated(t) && entries != [] && ValidEntries(entries) && ValidEntries(entries[1..]) && key < |t|
    requires EntriesFit(entries, nest)
             <==> HalfFree(entries[0].key) && Fits(entries[0].item.value, nest) && EntriesFit(entries[1..], nest)
    requires EntriesFit(entries, nest) ==>
               CutMembers(EntryMeanings(entries)) ==
               [Member(CString(CharsBytes(entries[0].key)), Cut(Meaning(entries[0].item.value)))]
               + CutMembers(EntryMeanings(entries[1..]))
    requires end < |t| && after + 1 < |t| && t[after] == COMMA && SkipWhitespace(t, end) == after
    requires EntryReadsAs(t, ReadMember(t, key, nest), entries[0], end, nest)
    requires EntriesReadAs(ReadMembers(t, SkipWhitespace(t, after + 1), nest), entries[1..], close, nest)
    ensures EntriesReadAs(ReadMembers(t, key, nest), entries, close, nest)
  {
    hide ReadMembers;
    hide ReadMember;
    hide Fits;
    hide EntriesFit;
    hide CutMembers;
    hide EntryMeanings;
    hide Meaning;
    hide Cut;
    hide CString;
    hide CharsBytes;
    hide NumberChar;
    hide SkipWhitespace;
    JsonRoundTrip.MembersUnfold(t, key, nest);
    var r := ReadMember(t, key, nest);
    if r.MemberParsed? && NumberChar(t[r.next]) {
      StuckStops(t, r.next);
    }
  }

  lemma {:induction false} EntriesEnd(t: seq<byte>, key: nat, entries: seq<Entry>, nest: nat, end: nat, close: nat)
    requires Terminated(t) && |entries| == 1 && ValidEntries(entries) && ValidEntries(entries[1..]) && key < |t|
    requires nest <= NESTING_LIMIT
    requires EntriesFit(entries, nest)
             <==> HalfFree(entries[0].key) && Fits(entries[0].item.value, nest) && EntriesFit(entries[1..], nest)
    requires EntriesFit(entries, nest) ==>
               CutMembers(EntryMeanings(entries)) ==
               [Member(CString(CharsBytes(entries[0].key)), Cut(Meaning(entries[0].item.value)))]
               + CutMembers(EntryMeanings(entries[1..]))
    requires end < |t| && close < |t| && t[close] == RBRACE && SkipWhitespace(t, end) == close
    requires EntryReadsAs(t, ReadMember(t, key, nest), entries[0], end, nest)
    ensures EntriesReadAs(ReadMembers(t, key, nest), entries, close, nest)
  {
    hide ReadMembers;
    hide ReadMember;
    hide Fits;
    hide Meaning;
    hide Cut;
    hide CString;
    hide CharsBytes;
    hide NumberChar;
    hide SkipWhitespace;
    assert entries[1..] == [];
    JsonRoundTrip.MembersUnfold(t, key, nest);
    var r := ReadMember(t, key, nest);
    if r.MemberParsed? && NumberChar(t[r.next]) {
      StuckStops(t, r.next);
    }
  }

  lemma {:induction false} RecordRead(t: seq<byte>, o: nat, gap: seq<byte>, entries: seq<Entry>, nest: nat)
    requires Terminated(t) && Gap(gap) && ValidEntries(entries) && nest <= NESTING_LIMIT
    requires At(t, o, Spell(Record(gap, entries))) && o + |Spell(Record(gap, entries))| < |t|
    ensures o < |t| - 1 && t[o] == LBRACE
    ensures ReadsAs(t, ReadObject(t, o, nest), Record(gap, entries), o + |Spell(Record(gap, entries))|, nest)
    decreases entries, 3
  {
    hide At;
    hide ReadMembers;
    hide SkipWhitespace;
    hide SpellEntries;
    hide EntryMeanings;
    hide CutMembers;
    hide Cut;
    hide Meaning;
    hide Fits;
    hide NumeralsFit;
    hide Whole;
    hide HalfFree;
    RecordFits(gap, entries, nest);
    var inner := if entries == [] then gap else SpellEntries(entries);
    AtSplit(t, o, [LBRACE] + inner, [RBRACE]);
    AtSplit(t, o, [LBRACE], inner);
    JsonRoundTrip.AtStart(t, o, [LBRACE]);
    JsonRoundTrip.AtStart(t, o + 1 + |inner|, [RBRACE]);
    if entries == [] {
      SkipGap(t, o + 1, gap);
      NothingCut();
    } else if nest < NESTING_LIMIT {
      EntriesRead(t, o + 1, entries, nest + 1);
    }
  }

  // ---------------------------------------------------------------- whole texts

  lemma {:induction false} SkipToEnd(t: seq<byte>, o: nat, gap: seq<byte>)
    requires Terminated(t) && Gap(gap) && At(t, o, gap) && o + |gap| == |t| - 1
    ensures SkipWhitespace(t, o) == |t| - 1
    decreases |gap|
  {
    if gap != [] {
      JsonRoundTrip.AtStart(t, o, gap);
      AtSplit(t, o, gap[..1], gap[1..]);
      assert gap == gap[..1] + gap[1..];
      SkipToEnd(t, o + 1, gap[1..]);
    }
  }

  lemma StartsPlain(item: Item, t: seq<byte>)
    requires GapsValid(item) && Valid(item.value) && t == SpellItem(item) + [NUL]
    ensures SkipByteOrderMark(t) == 0
  {
    hide Spell;
    hide Valid;
    SpellStart(item.value);
    assert t[0] < 0x80;
    if At(t, 0, BYTE_ORDER_MARK) {
      JsonRoundTrip.AtStart(t, 0, BYTE_ORDER_MARK);
    }
  }

  /** Where reading a text ends whose value ends at `end`, or is stuck. */
  lemma TextStops(t: seq<byte>, first: nat, end: nat, fits: bool, wholeText: bool)
    requires Terminated(t) && SkipByteOrderMark(t) == 0 && SkipWhitespace(t, 0) == first < |t|
    requires end < |t| && !NumberChar(t[end]) && SkipWhitespace(t, end) == |t| - 1
    requires var r := ReadValue(t, first, 0);
             if fits then r.Parsed? && r.next == end else Stuck(t, r)
    ensures var r := ReadText(t, wholeText);
            && (r.Parsed? && r.next == (if wholeText then |t| - 1 else end) <==> fits)
            && (fits ==> r.value == ReadValue(t, first, 0).value)
            && (wholeText && !fits ==> r.Failed?)
  {
    hide ReadValue;
    hide SkipWhitespace;
    hide SkipByteOrderMark;
    hide NumberChar;
    var r := ReadValue(t, first, 0);
    if r.Parsed? && NumberChar(t[r.next]) {
      StuckStops(t, r.next);
    }
  }

  /**
   Every text of RFC 8259: it is read to its end exactly when it nests at most 1000 deep, no numeral has more than
   63 characters and no string holds half of a surrogate pair; it is then read as what it means, with strings
   ending at their first NUL.  Otherwise a reading of the whole text fails.
   */
  lemma TextRead(text: Item, wholeText: bool)
    requires GapsValid(text) && Valid(text.value)
    ensures Terminated(SpellItem(text) + [NUL])
    ensures var s := SpellItem(text);
            var r := ReadText(s + [NUL], wholeText);
            var end := |s| - if wholeText then 0 else |text.after|;
            && (r.Parsed? && r.next == end <==> Fits(text.value, 0))
            && (Fits(text.value, 0) ==> r.value == Cut(Meaning(text.value)))
            && (wholeText && !Fits(text.value, 0) ==> r.Failed?)
  {
    hide At;
    hide Spell;
    hide Valid;
    hide Gap;
    hide Meaning;
    hide Cut;
    hide Fits;
    hide ReadValue;
    hide ReadText;
    hide SkipWhitespace;
    hide SkipByteOrderMark;
    hide NumberChar;
    var s := SpellItem(text);
    var t := s + [NUL];
    JsonTokens.ItemNulFree(text);
    JsonRoundTrip.AtWhole(t);
    AtSplit(t, 0, s, [NUL]);
    ItemLayout(t, 0, text);
    StartsPlain(text, t);
    var end := |text.before| + |Spell(text.value)|;
    ValueRead(t, |text.before|, text.value, 0);
    SkipToEnd(t, end, text.after);
    TextStops(t, |text.before|, end, Fits(text.value, 0), wholeText);
  }

  // ---------------------------------------------------------------- no character is lost

  lemma {:induction false} CutIsSame(v: Value)
    ensures Cut(v) == v <==> JsonRoundTrip.StringsNulFree(v)
    decreases v, 1
  {
    hide CString;
    match v
    case String(text) => CStringWhole(text);
    case Array(items) => CutItemsSame(items);
    case Object(members) => CutMembersSame(members);
    case _ =>
  }

  lemma {:induction false} CutItemsSame(items: seq<Value>)
    ensures CutItems(items) == items <==> forall i :: 0 <= i < |items| ==> JsonRoundTrip.StringsNulFree(items[i])
    decreases items, 0
  {
    hide Cut;
    if items != [] {
      CutIsSame(items[0]);
      CutItemsSame(items[1..]);
      assert items == [items[0]] + items[1..];
      assert forall i :: 1 <= i < |items| ==> items[i] == items[1..][i - 1];
    }
  }

  lemma {:induction false} CutMembersSame(members: seq<Member>)
    ensures CutMembers(members) == members <==>
            forall i :: 0 <= i < |members| ==>
              NulFree(members[i].key) && JsonRoundTrip.StringsNulFree(members[i].value)
    decreases members, 0
  {
    hide Cut;
    hide CString;
    if members != [] {
      CStringWhole(members[0].key);
      CutIsSame(members[0].value);
      CutMembersSame(members[1..]);
      assert members == [members[0]] + members[1..];
      assert forall i :: 1 <= i < |members| ==> members[i] == members[1..][i - 1];
    }
  }

  /**
   A text has a meaning and is read as exactly that when it fits the limits and no string in it holds half of a pair
   or the character 0.
   */
  lemma TextMeans(text: Item)
    requires GapsValid(text) && Valid(text.value)
    ensures Terminated(SpellItem(text) + [NUL])
    ensures Whole(text.value)
            && ReadText(SpellItem(text) + [NUL], true) == Parsed(Meaning(text.value), |SpellItem(text)|)
            <==> Fits(text.value, 0) && JsonRoundTrip.StringsNulFree(Meaning(text.value))
  {
    hide ReadText;
    hide SpellItem;
    hide Meaning;
    hide Cut;
    hide Nesting;
    hide NumeralsFit;
    TextRead(text, true);
    if Whole(text.value) {
      CutIsSame(Meaning(text.value));
    }
  }

  /** Half of a pair on its own: a text of the grammar that is refused. */
  lemma HalfOfPair()
    ensures var text := Item([], Quotation([Half([0x44, 0x38, 0x30, 0x30])]), []);
            && Valid(text.value) && !Fits(text.value, 0)
            && SpellItem(text) == [QUOTE, BACKSLASH, 0x75, 0x44, 0x38, 0x30, 0x30, QUOTE]
            && Terminated(SpellItem(text) + [NUL]) && ReadText(SpellItem(text) + [NUL], true).Failed?
  {
    hide ReadText;
    var digits: seq<byte> := [0x44, 0x38, 0x30, 0x30];
    assert Utf.Hex4(digits) == 0xD800;
    var chars := [Half(digits)];
    assert chars[0].Half?;
    assert SpellChars(chars) == SpellChar(chars[0]) + SpellChars(chars[1..]);
    var text := Item([], Quotation(chars), []);
    assert ValidChars(chars) && Valid(text.value);
    TextRead(text, true);
  }
}
