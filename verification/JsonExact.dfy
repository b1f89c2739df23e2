/**
 Every text of the dialect that nests at most 1000 deep is read as what it stands for.  With the converse in
 `JsonConverse` that settles what cJSON accepts.
 */
module JsonExact {
  import opened Bytes
  import opened JsonDialect
  import opened JsonReading
  import opened JsonValue
  import opened Wrappers
  import JsonAcceptance
  import JsonConverse
  import JsonGrammar
  import JsonRoundTrip
  import Utf

  // ---------------------------------------------------------------- gaps

  /** A gap is skipped up to a visible character or the terminator. */
  lemma {:induction false} GapRead(t: seq<byte>, o: nat, gap: seq<byte>)
    requires Terminated(t) && Gap(gap) && At(t, o, gap) && o + |gap| < |t|
    requires t[o + |gap|] > SPACE || o + |gap| == |t| - 1
    ensures SkipWhitespace(t, o) == o + |gap|
    decreases |gap|
  {
    if gap == [] {
      if o == |t| - 1 {
        assert SkipWhitespace(t, o + 1) == o;
      }
    } else {
      JsonRoundTrip.AtStart(t, o, gap);
      AtSplit(t, o, gap[..1], gap[1..]);
      assert gap == gap[..1] + gap[1..];
      GapRead(t, o + 1, gap[1..]);
    }
  }

  /** The character at `e` ends a number before it. */
  predicate Stops(t: seq<byte>, e: nat) {
    e < |t| && !NumberChar(t[e])
  }

  lemma GapStops(t: seq<byte>, o: nat, gap: seq<byte>)
    requires Gap(gap) && At(t, o, gap) && Stops(t, o + |gap|)
    ensures Stops(t, o)
  {
    if gap != [] {
      JsonRoundTrip.AtStart(t, o, gap);
    }
  }

  // ---------------------------------------------------------------- numbers

  lemma RunTo(s: seq<byte>, i: nat, digits: seq<byte>)
    requires DigitsOrNone(digits) && At(s, i, digits) && (i + |digits| < |s| ==> !Digit(s[i + |digits|]))
    ensures DigitRun(s, i) == i + |digits|
  {
    assert forall k :: i <= k < i + |digits| ==> s[k] == s[i..i + |digits|][k - i] == digits[k - i];
  }

  lemma PowerRead(s: seq<byte>, i: nat, power: seq<byte>)
    requires Power(power) && At(s, i, power) && i + |power| == |s|
    ensures ExponentEnd(s, i) == |s| && (i < |s| ==> s[i] == 0x65 || s[i] == 0x45)
  {
    hide DigitRun;
    if power != [] {
      var letter, sign, digits :| PowerOf(power, letter, sign, digits);
      AtSplit(s, i, letter + sign, digits);
      AtSplit(s, i, letter, sign);
      JsonRoundTrip.AtStart(s, i, letter);
      if sign != [] {
        JsonRoundTrip.AtStart(s, i + 1, sign);
      }
      JsonRoundTrip.AtStart(s, i + 1 + |sign|, digits);
      RunTo(s, i + 1 + |sign|, digits);
    }
  }

  lemma DigitsRead(s: seq<byte>, i: nat, whole: seq<byte>, point: seq<byte>, fraction: seq<byte>)
    requires DigitsOrNone(whole) && DigitsOrNone(fraction) && whole + fraction != []
    requires (point == [] || point == Ascii(".")) && (point == [] ==> fraction == [])
    requires At(s, i, whole + point + fraction)
    requires var m := i + |whole + point + fraction|; m < |s| ==> s[m] == 0x65 || s[m] == 0x45
    ensures i < MantissaEnd(s, i) == i + |whole + point + fraction|
  {
    hide DigitRun;
    AtSplit(s, i, whole + point, fraction);
    AtSplit(s, i, whole, point);
    if point != [] {
      JsonRoundTrip.AtStart(s, i + |whole|, point);
      RunTo(s, i + |whole| + 1, fraction);
    }
    RunTo(s, i, whole);
  }

  lemma DecimalParts(s: seq<byte>)
    returns (sign: seq<byte>, whole: seq<byte>, point: seq<byte>, fraction: seq<byte>, power: seq<byte>)
    requires Decimal(s)
    ensures s == sign + (whole + point + fraction) + power
    ensures (sign == [] || sign == Ascii("-")) && (point == [] || point == Ascii("."))
    ensures DigitsOrNone(whole) && DigitsOrNone(fraction) && whole + fraction != []
    ensures (point == [] ==> fraction == []) && (sign == [] ==> whole != []) && Power(power)
  {
    hide DigitsOrNone;
    hide Power;
    sign, whole, point, fraction, power :| DecimalOf(s, sign, whole, point, fraction, power);
  }

  /** `strtod` takes all of a decimal. */
  lemma DecimalRead(s: seq<byte>)
    requires Decimal(s)
    ensures s != [] && (s[0] == MINUS || Digit(s[0])) && StrtodLength(s) == |s|
  {
    hide *;
    var sign, whole, point, fraction, power := DecimalParts(s);
    var digits, i := whole + point + fraction, |sign|;
    JsonRoundTrip.AtWhole(s);
    AtSplit(s, 0, sign + digits, power);
    AtSplit(s, 0, sign, digits);
    PowerRead(s, i + |digits|, power);
    DigitsRead(s, i, whole, point, fraction);
    DecimalStart(sign, whole, point, fraction, power);
    Taken(s);
  }

  lemma Taken(s: seq<byte>)
    requires var i := SignEnd(s, 0);
             MantissaEnd(s, i) > i && ExponentEnd(s, MantissaEnd(s, i)) == |s|
    ensures StrtodLength(s) == |s|
  {
    hide MantissaEnd;
    hide ExponentEnd;
  }

  lemma DecimalStart(sign: seq<byte>, whole: seq<byte>, point: seq<byte>, fraction: seq<byte>, power: seq<byte>)
    requires DigitsOrNone(whole) && (sign == [] || sign == Ascii("-")) && (sign == [] ==> whole != [])
    ensures var s := sign + (whole + point + fraction) + power;
            s != [] && (s[0] == MINUS || Digit(s[0])) && SignEnd(s, 0) == |sign|
  {
    var s := sign + (whole + point + fraction) + power;
    assert s[0] == if sign == [] then whole[0] else sign[0];
  }

  lemma DecimalChars(s: seq<byte>)
    requires Decimal(s)
    ensures JsonGrammar.NumberChars(s)
  {
    hide Decimal;
    hide Power;
    var sign, whole, point, fraction, power := DecimalParts(s);
    PowerChars(power);
    assert JsonGrammar.NumberChars(sign) && JsonGrammar.NumberChars(point);
    assert JsonGrammar.NumberChars(whole) && JsonGrammar.NumberChars(fraction);
  }

  lemma PowerChars(power: seq<byte>)
    requires Power(power)
    ensures JsonGrammar.NumberChars(power)
  {
    if power != [] {
      var letter, sign, digits :| PowerOf(power, letter, sign, digits);
      assert forall i :: 0 <= i < |sign| ==> NumberChar(sign[i]);
    }
  }

  lemma NumberRead(t: seq<byte>, o: nat, text: seq<byte>)
    requires Decimal(text) && |text| <= 63 && At(t, o, text) && Stops(t, o + |text|)
    ensures o < |t| && (t[o] == MINUS || Digit(t[o]))
    ensures ReadNumber(t, o) == Parsed(Number(text), o + |text|)
  {
    hide Decimal;
    hide StrtodLength;
    hide NumberRun;
    hide NumberChar;
    DecimalRead(text);
    DecimalChars(text);
    JsonRoundTrip.AtStart(t, o, text);
    assert forall i :: o <= i < o + |text| ==> t[i] == t[o..o + |text|][i - o] == text[i - o];
    JsonRoundTrip.NumberRunBack(t, o, |text|, o + NUMBER_ROOM);
    assert text[..|text|] == text;
  }

  // ---------------------------------------------------------------- strings

  lemma {:induction false} QuoteFreeCloses(t: seq<byte>, i: nat, body: seq<byte>)
    requires QuoteFree(body) && At(t, i, body) && i + |body| < |t| && t[i + |body|] == QUOTE
    ensures ClosingQuote(t, i) == Some(i + |body|)
    decreases |body|
  {
    if body != [] {
      JsonRoundTrip.AtStart(t, i, body);
      var n := if body[0] == BACKSLASH then 2 else 1;
      assert body == body[..n] + body[n..];
      AtSplit(t, i, body[..n], body[n..]);
      QuoteFreeCloses(t, i + n, body[n..]);
    }
  }

  /** The second scan writes a character's bytes. */
  lemma PieceRead(t: seq<byte>, p: nat, end: nat, c: Char)
    requires Readable(c) && p < end < |t| && At(t, p, JsonGrammar.SpellChar(c))
    requires p + |JsonGrammar.SpellChar(c)| <= end || (c.Short? && p + 2 == end + 1)
    ensures PieceAt(t, p, end) == Piece(ReadBytes(c), |JsonGrammar.SpellChar(c)|)
  {
    match c {
      case Raw(b) => JsonRoundTrip.AtStart(t, p, [b]);
      case Short(letter) =>
        assert t[p] == t[p..p + 2][0] && t[p + 1] == t[p..p + 2][1];
      case Unit(digits) => UnitRead(t, p, end, digits);
      case Surrogates(high, low) => JsonAcceptance.PairRead(t, p, end, high, low);
    }
  }

  lemma UnitRead(t: seq<byte>, p: nat, end: nat, digits: seq<byte>)
    requires Readable(JsonGrammar.Unit(digits)) && p + 6 <= end < |t| && At(t, p, [BACKSLASH, 0x75] + digits)
    ensures PieceAt(t, p, end) == Piece(Utf.Utf8(Utf.Hex4(digits)), 6)
  {
    hide Utf.Hex4;
    hide Utf.Utf8;
    var s := [BACKSLASH, 0x75] + digits;
    assert t[p] == t[p..p + 6][0] == BACKSLASH && t[p + 1] == t[p..p + 6][1] == 0x75;
    assert t[p + 2..p + 6] == t[p..p + 6][2..] == s[2..] == digits;
  }

  lemma {:induction false} ShortSize(chars: seq<Char>)
    requires chars != [] && chars[|chars| - 1].Short?
    ensures |JsonGrammar.SpellChars(chars)| >= 2
  {
    if |chars| > 1 {
      assert chars[1..][|chars| - 2] == chars[|chars| - 1];
      ShortSize(chars[1..]);
    }
  }

  lemma CharsOnce(chars: seq<Char>)
    requires AllReadable(chars) && chars != []
    ensures Readable(chars[0]) && AllReadable(chars[1..])
    ensures JsonGrammar.SpellChars(chars) == JsonGrammar.SpellChar(chars[0]) + JsonGrammar.SpellChars(chars[1..])
    ensures AllBytes(chars) == ReadBytes(chars[0]) + AllBytes(chars[1..])
  {
    hide Readable;
    hide ReadBytes;
    hide JsonGrammar.SpellChar;
  }

  /** The spelling ends at the closing quote, or with it when that is the letter of the last escape. */
  predicate EndsAt(chars: seq<Char>, stop: nat, end: nat) {
    stop == end || (stop == end + 1 && (chars == [] || chars[|chars| - 1].Short?))
  }

  lemma {:induction false} CharsWritten(t: seq<byte>, p: nat, end: nat, chars: seq<Char>)
    requires AllReadable(chars) && end < |t| && At(t, p, JsonGrammar.SpellChars(chars))
    requires EndsAt(chars, p + |JsonGrammar.SpellChars(chars)|, end)
    ensures Unescape(t, p, end) == Written(AllBytes(chars))
    decreases |chars|
  {
    hide PieceAt;
    hide At;
    hide AllReadable;
    hide Readable;
    hide ReadBytes;
    hide AllBytes;
    hide JsonGrammar.SpellChar;
    hide JsonGrammar.SpellChars;
    JsonConverse.NoChars();
    if chars != [] {
      CharsOnce(chars);
      var c, rest := chars[0], chars[1..];
      AtSplit(t, p, JsonGrammar.SpellChar(c), JsonGrammar.SpellChars(rest));
      RestEnds(t, p, end, chars);
      PieceRead(t, p, end, c);
      CharsWritten(t, p + |JsonGrammar.SpellChar(c)|, end, rest);
    }
  }

  lemma RestEnds(t: seq<byte>, p: nat, end: nat, chars: seq<Char>)
    requires chars != [] && EndsAt(chars, p + |JsonGrammar.SpellChars(chars)|, end)
    ensures var n := |JsonGrammar.SpellChar(chars[0])|;
            && p < end && (p + n <= end || (chars[0].Short? && p + 2 == end + 1))
            && EndsAt(chars[1..], p + n + |JsonGrammar.SpellChars(chars[1..])|, end)
  {
    var c, rest := chars[0], chars[1..];
    if p + |JsonGrammar.SpellChars(chars)| == end + 1 {
      ShortSize(chars);
      if rest != [] {
        assert rest[|rest| - 1] == chars[|chars| - 1];
        ShortSize(rest);
      }
    }
  }

  lemma LiteralParts(text: seq<byte>, s: seq<byte>, body: seq<byte>, chars: seq<Char>)
    requires LiteralOf(text, s, body, chars)
    ensures text == [QUOTE] + body + [QUOTE] && QuoteFree(body) && AllReadable(chars) && s == CString(AllBytes(chars))
    ensures JsonGrammar.SpellChars(chars) == body || JsonGrammar.SpellChars(chars) == body + [QUOTE]
    ensures EndsAt(chars, |JsonGrammar.SpellChars(chars)|, |body|)
  {
    hide QuoteFree;
    hide AllBytes;
    hide AllReadable;
    hide Misread;
    hide CString;
    hide JsonGrammar.SpellChars;
  }

  lemma LiteralWitness(text: seq<byte>, s: seq<byte>) returns (body: seq<byte>, chars: seq<Char>)
    requires Literal(text, s)
    ensures LiteralOf(text, s, body, chars)
  {
    hide LiteralOf;
    body, chars :| LiteralOf(text, s, body, chars);
  }

  lemma EndsLater(chars: seq<Char>, stop: nat, end: nat, p: nat)
    requires EndsAt(chars, stop, end)
    ensures EndsAt(chars, p + stop, p + end)
  {
  }

  /** A literal is read as the string it is for. */
  lemma LiteralRead(t: seq<byte>, o: nat, text: seq<byte>, s: seq<byte>)
    requires Literal(text, s) && At(t, o, text)
    ensures o < |t| && t[o] == QUOTE && ReadString(t, o) == Read(s, o + |text|)
  {
    hide *;
    var body, chars := LiteralWitness(text, s);
    LiteralParts(text, s, body, chars);
    AtSplit(t, o, [QUOTE] + body, [QUOTE]);
    AtSplit(t, o, [QUOTE], body);
    JsonRoundTrip.AtStart(t, o, [QUOTE]);
    var end := o + 1 + |body|;
    JsonRoundTrip.AtStart(t, end, [QUOTE]);
    QuoteFreeCloses(t, o + 1, body);
    AtSplit(t, o + 1, body, [QUOTE]);
    EndsLater(chars, |JsonGrammar.SpellChars(chars)|, |body|, o + 1);
    CharsWritten(t, o + 1, end, chars);
    StringIs(t, o, end);
  }

  lemma StringIs(t: seq<byte>, o: nat, end: nat)
    requires o < |t| && t[o] == QUOTE && ClosingQuote(t, o + 1) == Some(end) && Unescape(t, o + 1, end).Written?
    ensures ReadString(t, o) == Read(CString(Unescape(t, o + 1, end).bytes), end + 1)
  {
    hide ClosingQuote;
    hide Unescape;
  }

  // ---------------------------------------------------------------- values

  /** A value starts with an ASCII character that is visible and does not close a list. */
  predicate Opens(c: byte) {
    SPACE < c < 0x80 && c != RBRACKET
  }

  lemma OpensVisible(c: byte)
    ensures Opens(c) ==> SPACE < c < 0x80 && c != RBRACKET
    ensures Opens(LBRACKET) && Opens(LBRACE)
    ensures QUOTE > SPACE && COLON > SPACE && RBRACKET > SPACE && RBRACE > SPACE && QUOTE != RBRACE
  {
  }

  lemma WordRead(t: seq<byte>, o: nat, text: seq<byte>, v: Value, depth: nat)
    requires Terminated(t) && At(t, o, text) && StandsFor(text, v) && (v.Null? || v.True? || v.False?)
    ensures o < |t| && ReadValue(t, o, depth) == Parsed(v, o + |text|) && Opens(t[o])
  {
    hide ReadArray;
    hide ReadObject;
    hide ReadString;
    hide ReadNumber;
    JsonConverse.WordsAre();
    JsonRoundTrip.AtStart(t, o, text);
    JsonConverse.FirstLetter(t, o);
  }

  /** A word, a number or a string. */
  lemma LeafRead(t: seq<byte>, o: nat, text: seq<byte>, v: Value, depth: nat)
    requires Terminated(t) && At(t, o, text) && StandsFor(text, v) && Stops(t, o + |text|)
    ensures o < |t| && ReadValue(t, o, depth) == Parsed(v, o + |text|) && Opens(t[o])
  {
    hide ReadArray;
    hide ReadObject;
    hide ReadString;
    hide ReadNumber;
    hide Decimal;
    hide Literal;
    hide At;
    match v {
      case Number(lexeme) =>
        NumberRead(t, o, text);
        JsonConverse.FirstLetter(t, o);
      case String(s) =>
        LiteralRead(t, o, text, s);
        JsonConverse.FirstLetter(t, o);
      case _ => WordRead(t, o, text, v, depth);
    }
  }

  /** The parts of an element and where they stand. */
  lemma ItemParts(t: seq<byte>, a: nat, item: Item)
    requires At(t, a, SpellItem(item))
    ensures At(t, a, item.before) && At(t, a + |item.before|, Spell(item.form))
    ensures At(t, a + |item.before| + |Spell(item.form)|, item.after)
    ensures |SpellItem(item)| == |item.before| + |Spell(item.form)| + |item.after|
  {
    hide At;
    hide Spell;
    AtSplit(t, a, item.before + Spell(item.form), item.after);
    AtSplit(t, a, item.before, Spell(item.form));
  }

  lemma ListParts(t: seq<byte>, o: nat, gap: seq<byte>, items: seq<Item>)
    requires At(t, o, Spell(List(gap, items)))
    ensures var inner := if items == [] then gap else SpellItems(items);
            && |Spell(List(gap, items))| == |inner| + 2 && o + |inner| + 1 < |t|
            && t[o] == LBRACKET && At(t, o + 1, inner) && t[o + 1 + |inner|] == RBRACKET
  {
    hide At;
    hide SpellItems;
    hide Ascii;
    JsonConverse.MarksAre();
    var inner := if items == [] then gap else SpellItems(items);
    AtSplit(t, o, [LBRACKET] + inner, [RBRACKET]);
    AtSplit(t, o, [LBRACKET], inner);
    JsonRoundTrip.AtStart(t, o, [LBRACKET]);
    JsonRoundTrip.AtStart(t, o + 1 + |inner|, [RBRACKET]);
  }

  lemma RecordParts(t: seq<byte>, o: nat, gap: seq<byte>, entries: seq<Entry>)
    requires At(t, o, Spell(Record(gap, entries)))
    ensures var inner := if entries == [] then gap else SpellEntries(entries);
            && |Spell(Record(gap, entries))| == |inner| + 2 && o + |inner| + 1 < |t|
            && t[o] == LBRACE && At(t, o + 1, inner) && t[o + 1 + |inner|] == RBRACE
  {
    hide At;
    hide SpellEntries;
    hide Ascii;
    JsonConverse.MarksAre();
    var inner := if entries == [] then gap else SpellEntries(entries);
    AtSplit(t, o, [LBRACE] + inner, [RBRACE]);
    AtSplit(t, o, [LBRACE], inner);
    JsonRoundTrip.AtStart(t, o, [LBRACE]);
    JsonRoundTrip.AtStart(t, o + 1 + |inner|, [RBRACE]);
  }

  /** The first of several elements, the comma behind it and the rest. */
  lemma ItemsParts(t: seq<byte>, a: nat, items: seq<Item>)
    requires items != [] && At(t, a, SpellItems(items))
    ensures At(t, a, SpellItem(items[0]))
    ensures |items| == 1 ==> |SpellItems(items)| == |SpellItem(items[0])|
    ensures |items| > 1 ==>
              var comma := a + |SpellItem(items[0])|;
              && comma < |t| && t[comma] == COMMA && At(t, comma + 1, SpellItems(items[1..]))
              && |SpellItems(items)| == |SpellItem(items[0])| + 1 + |SpellItems(items[1..])|
  {
    hide At;
    hide SpellItem;
    hide Ascii;
    JsonConverse.MarksAre();
    assert SpellItem(items[0]) + [] == SpellItem(items[0]);
    if |items| > 1 {
      AtSplit(t, a, SpellItem(items[0]), [COMMA] + SpellItems(items[1..]));
      AtSplit(t, a + |SpellItem(items[0])|, [COMMA], SpellItems(items[1..]));
      JsonRoundTrip.AtStart(t, a + |SpellItem(items[0])|, [COMMA]);
    }
  }

  lemma EntriesParts(t: seq<byte>, a: nat, entries: seq<Entry>)
    requires entries != [] && At(t, a, SpellEntries(entries))
    ensures At(t, a, SpellEntry(entries[0]))
    ensures |entries| == 1 ==> |SpellEntries(entries)| == |SpellEntry(entries[0])|
    ensures |entries| > 1 ==>
              var comma := a + |SpellEntry(entries[0])|;
              && comma < |t| && t[comma] == COMMA && At(t, comma + 1, SpellEntries(entries[1..]))
              && |SpellEntries(entries)| == |SpellEntry(entries[0])| + 1 + |SpellEntries(entries[1..])|
  {
    hide At;
    hide SpellEntry;
    hide Ascii;
    JsonConverse.MarksAre();
    assert SpellEntry(entries[0]) + [] == SpellEntry(entries[0]);
    if |entries| > 1 {
      AtSplit(t, a, SpellEntry(entries[0]), [COMMA] + SpellEntries(entries[1..]));
      AtSplit(t, a + |SpellEntry(entries[0])|, [COMMA], SpellEntries(entries[1..]));
      JsonRoundTrip.AtStart(t, a + |SpellEntry(entries[0])|, [COMMA]);
    }
  }

  lemma EntryParts(t: seq<byte>, a: nat, entry: Entry)
    requires At(t, a, SpellEntry(entry))
    ensures var o := a + |entry.before|;
            var key := o + |entry.key|;
            var colon := key + |entry.after|;
            && At(t, a, entry.before) && At(t, o, entry.key) && At(t, key, entry.after)
            && colon < |t| && t[colon] == COLON && At(t, colon + 1, SpellItem(entry.item))
            && a + |SpellEntry(entry)| == colon + 1 + |SpellItem(entry.item)|
  {
    hide At;
    hide SpellItem;
    hide Ascii;
    JsonConverse.MarksAre();
    AtSplit(t, a, entry.before + entry.key + entry.after + [COLON], SpellItem(entry.item));
    AtSplit(t, a, entry.before + entry.key + entry.after, [COLON]);
    AtSplit(t, a, entry.before + entry.key, entry.after);
    AtSplit(t, a, entry.before, entry.key);
    JsonRoundTrip.AtStart(t, a + |entry.before + entry.key + entry.after|, [COLON]);
  }

  /** A text of the dialect that nests within the limit is read to its end, as what it stands for. */
  lemma {:induction false} ValueExact(t: seq<byte>, o: nat, f: Form, depth: nat)
    requires Terminated(t) && Allowed(f) && At(t, o, Spell(f)) && Stops(t, o + |Spell(f)|)
    requires Nesting(Meaning(f)) + depth <= 1000
    ensures o < |t| && Opens(t[o])
    ensures ReadValue(t, o, depth) == Parsed(Meaning(f), o + |Spell(f)|)
    decreases f
  {
    hide *;
    OpensVisible(0);
    match f {
      case Leaf(text, v) =>
        LeafIs(text, v);
        LeafRead(t, o, text, v, depth);
      case List(gap, items) => ListExact(t, o, gap, items, depth);
      case Record(gap, entries) => RecordExact(t, o, gap, entries, depth);
    }
  }

  lemma LeafIs(text: seq<byte>, v: Value)
    requires Allowed(Leaf(text, v))
    ensures StandsFor(text, v) && Spell(Leaf(text, v)) == text && Meaning(Leaf(text, v)) == v
  {
    hide StandsFor;
  }

  lemma ListIs(gap: seq<byte>, items: seq<Item>)
    requires Allowed(List(gap, items))
    ensures Gap(gap) && AllowedItems(items) && Meaning(List(gap, items)) == Array(ItemMeanings(items))
    ensures Nesting(Meaning(List(gap, items))) == 1 + ItemsNesting(ItemMeanings(items))
  {
    hide GapsAllowed;
    hide ItemMeanings;
    hide ItemsNesting;
  }

  lemma RecordIs(gap: seq<byte>, entries: seq<Entry>)
    requires Allowed(Record(gap, entries))
    ensures Gap(gap) && AllowedEntries(entries) && Meaning(Record(gap, entries)) == Object(EntryMeanings(entries))
    ensures Nesting(Meaning(Record(gap, entries))) == 1 + MembersNesting(EntryMeanings(entries))
  {
    hide HeadAllowed;
    hide EntryMeanings;
    hide MembersNesting;
  }

  lemma {:induction false} ListExact(t: seq<byte>, o: nat, gap: seq<byte>, items: seq<Item>, depth: nat)
    requires var f := List(gap, items);
             && Terminated(t) && Allowed(f) && At(t, o, Spell(f)) && Nesting(Meaning(f)) + depth <= 1000
    ensures var f := List(gap, items);
            && o < |t| && t[o] == LBRACKET
            && ReadValue(t, o, depth) == Parsed(Meaning(f), o + |Spell(f)|)
    decreases items, 1
  {
    hide *;
    ListParts(t, o, gap, items);
    OpensVisible(0);
    ListIs(gap, items);
    JsonConverse.Brackets(t, o, depth);
    OnlyTerminator(t, o);
    if items == [] {
      GapRead(t, o + 1, gap);
      JsonConverse.NoItems();
      EmptyArray(t, o, depth);
    } else {
      ItemsExact(t, o + 1, items, depth + 1);
      OpensVisible(t[SkipWhitespace(t, o + 1)]);
      FullArray(t, o, depth);
    }
  }

  lemma EmptyArray(t: seq<byte>, o: nat, depth: nat)
    requires Terminated(t) && o < |t| - 1 && t[o] == LBRACKET && depth < 1000
    requires t[SkipWhitespace(t, o + 1)] == RBRACKET
    ensures ReadArray(t, o, depth) == Parsed(Array([]), SkipWhitespace(t, o + 1) + 1)
  {
  }

  lemma FullArray(t: seq<byte>, o: nat, depth: nat)
    requires Terminated(t) && o < |t| - 1 && t[o] == LBRACKET && depth < 1000
    requires var first := SkipWhitespace(t, o + 1);
             t[first] != RBRACKET && ReadItems(t, first, depth + 1).ItemsParsed?
    ensures var r := ReadItems(t, SkipWhitespace(t, o + 1), depth + 1);
            ReadArray(t, o, depth) == Parsed(Array(r.items), r.next)
  {
    hide ReadItems;
  }

  lemma ItemsHead(items: seq<Item>)
    requires items != [] && AllowedItems(items)
    ensures GapsAllowed(items[0]) && Allowed(items[0].form) && AllowedItems(items[1..])
    ensures Gap(items[0].before) && Gap(items[0].after)
    ensures ItemMeanings(items) == [Meaning(items[0].form)] + ItemMeanings(items[1..])
    ensures Nesting(Meaning(items[0].form)) <= ItemsNesting(ItemMeanings(items))
    ensures ItemsNesting(ItemMeanings(items[1..])) <= ItemsNesting(ItemMeanings(items))
  {
    hide Allowed;
    hide Meaning;
    hide Nesting;
    hide Gap;
  }

  /** An element with its gaps, up to the comma or bracket behind it. */
  lemma {:induction false} ItemExact(t: seq<byte>, a: nat, item: Item, depth: nat)
    requires Terminated(t) && GapsAllowed(item) && Allowed(item.form) && At(t, a, SpellItem(item))
    requires var e := a + |SpellItem(item)|; e < |t| && Stops(t, e) && (t[e] > SPACE || e == |t| - 1)
    requires Nesting(Meaning(item.form)) + depth <= 1000
    ensures a < |t|
    ensures var o := SkipWhitespace(t, a);
            && o < |t| && Opens(t[o])
            && ReadValue(t, o, depth).Parsed? && ReadValue(t, o, depth).value == Meaning(item.form)
            && SkipWhitespace(t, ReadValue(t, o, depth).next) == a + |SpellItem(item)|
            && (item.after == [] ==> ReadValue(t, o, depth).next == a + |SpellItem(item)|)
    decreases item
  {
    hide *;
    JsonConverse.BothGaps(item);
    ItemParts(t, a, item);
    var o := a + |item.before|;
    var next := o + |Spell(item.form)|;
    GapStops(t, next, item.after);
    ValueExact(t, o, item.form, depth);
    OpensVisible(t[o]);
    GapRead(t, a, item.before);
    GapRead(t, next, item.after);
  }

  lemma {:induction false} ItemsExact(t: seq<byte>, a: nat, items: seq<Item>, depth: nat)
    requires Terminated(t) && items != [] && AllowedItems(items) && At(t, a, SpellItems(items))
    requires var e := a + |SpellItems(items)|; e < |t| && t[e] == RBRACKET
    requires ItemsNesting(ItemMeanings(items)) + depth <= 1000
    ensures a < |t|
    ensures var o := SkipWhitespace(t, a);
            && o < |t| && Opens(t[o])
            && ReadItems(t, o, depth) == ItemsParsed(ItemMeanings(items), a + |SpellItems(items)| + 1)
    decreases items, 0
  {
    hide *;
    ItemsHead(items);
    ItemsParts(t, a, items);
    MarksStop(t, a + |SpellItem(items[0])|);
    ItemExact(t, a, items[0], depth);
    OnlyTerminator(t, a + |SpellItem(items[0])|);
    if |items| > 1 {
      ItemsExact(t, a + |SpellItem(items[0])| + 1, items[1..], depth);
    } else {
      JsonConverse.NoItems();
    }
    ItemsRead(t, SkipWhitespace(t, a), depth);
  }

  lemma MarksStop(t: seq<byte>, e: nat)
    requires e < |t| && t[e] in {COMMA, RBRACKET, RBRACE}
    ensures Stops(t, e) && t[e] > SPACE
  {
  }

  lemma ItemsRead(t: seq<byte>, o: nat, depth: nat)
    requires Terminated(t) && o < |t| && ReadValue(t, o, depth).Parsed?
    ensures var Parsed(v, next) := ReadValue(t, o, depth);
            var after := SkipWhitespace(t, next);
            && (t[after] == RBRACKET ==> ReadItems(t, o, depth) == ItemsParsed([v], after + 1))
            && (t[after] == COMMA ==>
                  var rest := ReadItems(t, SkipWhitespace(t, after + 1), depth);
                  rest.ItemsParsed? ==> ReadItems(t, o, depth) == ItemsParsed([v] + rest.items, rest.next))
  {
    hide ReadValue;
    hide SkipWhitespace;
  }

  lemma {:induction false} RecordExact(t: seq<byte>, o: nat, gap: seq<byte>, entries: seq<Entry>, depth: nat)
    requires var f := Record(gap, entries);
             && Terminated(t) && Allowed(f) && At(t, o, Spell(f)) && Nesting(Meaning(f)) + depth <= 1000
    ensures var f := Record(gap, entries);
            && o < |t| && t[o] == LBRACE
            && ReadValue(t, o, depth) == Parsed(Meaning(f), o + |Spell(f)|)
    decreases entries, 1
  {
    hide *;
    RecordParts(t, o, gap, entries);
    OpensVisible(0);
    RecordIs(gap, entries);
    JsonConverse.Brackets(t, o, depth);
    OnlyTerminator(t, o);
    if entries == [] {
      GapRead(t, o + 1, gap);
      JsonConverse.NoItems();
      EmptyObject(t, o, depth);
    } else {
      EntriesExact(t, o + 1, entries, depth + 1);
      FullObject(t, o, depth);
    }
  }

  lemma EmptyObject(t: seq<byte>, o: nat, depth: nat)
    requires Terminated(t) && o < |t| - 1 && t[o] == LBRACE && depth < 1000
    requires t[SkipWhitespace(t, o + 1)] == RBRACE
    ensures ReadObject(t, o, depth) == Parsed(Object([]), SkipWhitespace(t, o + 1) + 1)
  {
  }

  lemma FullObject(t: seq<byte>, o: nat, depth: nat)
    requires Terminated(t) && o < |t| - 1 && t[o] == LBRACE && depth < 1000
    requires var first := SkipWhitespace(t, o + 1);
             t[first] != RBRACE && ReadMembers(t, first, depth + 1).MembersParsed?
    ensures var r := ReadMembers(t, SkipWhitespace(t, o + 1), depth + 1);
            ReadObject(t, o, depth) == Parsed(Object(r.members), r.next)
  {
    hide ReadMembers;
  }

  lemma EntriesHead(entries: seq<Entry>)
    requires entries != [] && AllowedEntries(entries)
    ensures HeadAllowed(entries[0]) && Allowed(entries[0].item.form) && AllowedEntries(entries[1..])
    ensures EntryMeanings(entries) ==
            [Member(entries[0].name, Meaning(entries[0].item.form))] + EntryMeanings(entries[1..])
    ensures Nesting(Meaning(entries[0].item.form)) <= MembersNesting(EntryMeanings(entries))
    ensures MembersNesting(EntryMeanings(entries[1..])) <= MembersNesting(EntryMeanings(entries))
  {
    hide HeadAllowed;
    hide Allowed;
    hide Meaning;
    hide Nesting;
  }

  lemma HeadIs(entry: Entry)
    requires HeadAllowed(entry)
    ensures Gap(entry.before) && Literal(entry.key, entry.name) && Gap(entry.after) && GapsAllowed(entry.item)
  {
    hide Gap;
    hide Literal;
    hide GapsAllowed;
  }

  /** A key, a colon and a value with their gaps, up to the comma or brace behind them. */
  lemma {:induction false} EntryExact(t: seq<byte>, a: nat, entry: Entry, depth: nat)
    requires Terminated(t) && HeadAllowed(entry) && Allowed(entry.item.form) && At(t, a, SpellEntry(entry))
    requires var e := a + |SpellEntry(entry)|; e < |t| && Stops(t, e) && t[e] > SPACE
    requires Nesting(Meaning(entry.item.form)) + depth <= 1000
    ensures a < |t|
    ensures var o := SkipWhitespace(t, a);
            && o < |t| && t[o] == QUOTE && ReadMember(t, o, depth).MemberParsed?
            && ReadMember(t, o, depth).member == Member(entry.name, Meaning(entry.item.form))
            && SkipWhitespace(t, ReadMember(t, o, depth).next) == a + |SpellEntry(entry)|
    decreases entry
  {
    hide *;
    HeadIs(entry);
    EntryParts(t, a, entry);
    var o := a + |entry.before|;
    var key := o + |entry.key|;
    var colon := key + |entry.after|;
    LiteralRead(t, o, entry.key, entry.name);
    OpensVisible(t[o]);
    GapRead(t, a, entry.before);
    GapRead(t, key, entry.after);
    ItemExact(t, colon + 1, entry.item, depth);
    OnlyTerminator(t, colon);
    MemberRead(t, o, depth);
  }

  lemma MemberRead(t: seq<byte>, o: nat, depth: nat)
    requires Terminated(t) && o < |t| && ReadString(t, o).Read? && ReadString(t, o).next < |t|
    requires var colon := SkipWhitespace(t, ReadString(t, o).next);
             t[colon] == COLON && colon + 1 < |t| && ReadValue(t, SkipWhitespace(t, colon + 1), depth).Parsed?
    ensures var Read(key, next) := ReadString(t, o);
            var Parsed(v, end) := ReadValue(t, SkipWhitespace(t, SkipWhitespace(t, next) + 1), depth);
            ReadMember(t, o, depth) == MemberParsed(Member(key, v), end)
  {
    hide ReadString;
    hide ReadValue;
    hide SkipWhitespace;
  }

  lemma {:induction false} EntriesExact(t: seq<byte>, a: nat, entries: seq<Entry>, depth: nat)
    requires Terminated(t) && entries != [] && AllowedEntries(entries) && At(t, a, SpellEntries(entries))
    requires var e := a + |SpellEntries(entries)|; e < |t| && t[e] == RBRACE
    requires MembersNesting(EntryMeanings(entries)) + depth <= 1000
    ensures a < |t|
    ensures var o := SkipWhitespace(t, a);
            && o < |t| && t[o] == QUOTE
            && ReadMembers(t, o, depth) == MembersParsed(EntryMeanings(entries), a + |SpellEntries(entries)| + 1)
    decreases entries, 0
  {
    hide *;
    EntriesHead(entries);
    EntriesParts(t, a, entries);
    MarksStop(t, a + |SpellEntry(entries[0])|);
    EntryExact(t, a, entries[0], depth);
    OnlyTerminator(t, a + |SpellEntry(entries[0])|);
    if |entries| > 1 {
      EntriesExact(t, a + |SpellEntry(entries[0])| + 1, entries[1..], depth);
    } else {
      JsonConverse.NoItems();
    }
    MembersRead(t, SkipWhitespace(t, a), depth);
  }

  lemma MembersRead(t: seq<byte>, o: nat, depth: nat)
    requires Terminated(t) && o < |t| && ReadMember(t, o, depth).MemberParsed?
    ensures var MemberParsed(member, next) := ReadMember(t, o, depth);
            var after := SkipWhitespace(t, next);
            && (t[after] == RBRACE ==> ReadMembers(t, o, depth) == MembersParsed([member], after + 1))
            && (t[after] == COMMA ==>
                  var rest := ReadMembers(t, SkipWhitespace(t, after + 1), depth);
                  rest.MembersParsed? ==>
                    ReadMembers(t, o, depth) == MembersParsed([member] + rest.members, rest.next))
  {
    hide ReadMember;
    hide SkipWhitespace;
  }

  // ---------------------------------------------------------------- whole texts

  /** A text and its terminator, behind a byte order mark or nothing. */
  ghost predicate Derives(t: seq<byte>, mark: seq<byte>, text: Item) {
    && (mark == [] || mark == [0xEF, 0xBB, 0xBF])
    && GapsAllowed(text) && Allowed(text.form) && t == mark + SpellItem(text) + [NUL]
  }

  lemma MarkRead(t: seq<byte>, mark: seq<byte>, rest: seq<byte>)
    requires (mark == [] || mark == [0xEF, 0xBB, 0xBF]) && t == mark + rest
    requires |rest| >= 2 && rest[0] < 0x80
    ensures SkipByteOrderMark(t) == |mark|
  {
    if mark == [] {
      assert t[0] == rest[0];
      if |t| >= 3 {
        assert t[0..3][0] == t[0];
      }
    } else {
      assert t[0..3] == mark;
    }
  }

  lemma ItemOpens(t: seq<byte>, a: nat, item: Item)
    requires At(t, a, SpellItem(item)) && a < |t| && GapsAllowed(item) && Opens(t[SkipWhitespace(t, a)])
    requires t[|t| - 1] == NUL
    ensures t[a] < 0x80
  {
    hide SpellItem;
  }

  /** A text of the dialect is read whole, as what it stands for. */
  lemma DialectRead(t: seq<byte>, mark: seq<byte>, text: Item)
    requires Terminated(t) && Derives(t, mark, text) && Nesting(Meaning(text.form)) <= 1000
    ensures ReadText(t, true) == Parsed(Meaning(text.form), |t| - 1)
  {
    hide ReadValue;
    hide Allowed;
    hide Meaning;
    hide Nesting;
    hide SpellItem;
    hide SkipWhitespace;
    hide SkipByteOrderMark;
    hide At;
    var a := |mark|;
    JsonRoundTrip.AtWhole(t);
    AtSplit(t, 0, mark + SpellItem(text), [NUL]);
    AtSplit(t, 0, mark, SpellItem(text));
    assert |t| - 1 == a + |SpellItem(text)|;
    ItemExact(t, a, text, 0);
    ItemOpens(t, a, text);
    assert t == mark + (SpellItem(text) + [NUL]);
    assert t[a] == (SpellItem(text) + [NUL])[0];
    MarkRead(t, mark, SpellItem(text) + [NUL]);
  }

  /** Not asked for a whole text, the parser reads a value of the dialect in front of anything but more of a number. */
  lemma PrefixRead(t: seq<byte>, mark: seq<byte>, before: seq<byte>, f: Form, rest: seq<byte>)
    requires Terminated(t) && (mark == [] || mark == [0xEF, 0xBB, 0xBF]) && Gap(before) && Allowed(f)
    requires t == mark + (before + Spell(f)) + rest && Stops(t, |mark + before + Spell(f)|)
    requires Nesting(Meaning(f)) <= 1000
    ensures ReadText(t, false) == Parsed(Meaning(f), |mark + before + Spell(f)|)
  {
    hide *;
    var a := |mark|;
    var item := Item(before, f, []);
    JsonRoundTrip.AtWhole(t);
    AtSplit(t, 0, mark + (before + Spell(f)), rest);
    AtSplit(t, 0, mark, before + Spell(f));
    AtSplit(t, a, before, Spell(f));
    ValueExact(t, a + |before|, f, 0);
    OpensVisible(t[a + |before|]);
    GapRead(t, a, before);
    StartsAscii(t, a, before);
    assert t == mark + (before + Spell(f) + rest);
    assert t[a] == (before + Spell(f) + rest)[0];
    MarkRead(t, mark, before + Spell(f) + rest);
    PrefixIs(t);
  }

  lemma StartsAscii(t: seq<byte>, a: nat, before: seq<byte>)
    requires Gap(before) && At(t, a, before) && a + |before| < |t| && t[a + |before|] < 0x80
    ensures t[a] < 0x80
  {
    if before != [] {
      JsonRoundTrip.AtStart(t, a, before);
    }
  }

  lemma PrefixIs(t: seq<byte>)
    requires Terminated(t)
    ensures var r := ReadValue(t, SkipWhitespace(t, SkipByteOrderMark(t)), 0);
            r.Parsed? ==> ReadText(t, false) == r
  {
    hide ReadValue;
    hide SkipWhitespace;
    hide SkipByteOrderMark;
  }

  /** The text stands for the tree, which nests within the limit. */
  ghost predicate Denotes(t: seq<byte>, v: Value) {
    Nesting(v) <= 1000 && exists mark, text :: Derives(t, mark, text) && Meaning(text.form) == v
  }

  /**
   Exactly the texts of the dialect that nest at most 1000 deep are accepted whole, and the tree is what they stand
   for.
   */
  lemma AcceptedExactly(t: seq<byte>, v: Value)
    requires Terminated(t)
    ensures ReadText(t, true) == Parsed(v, |t| - 1) <==> Denotes(t, v)
  {
    hide ReadText;
    hide ReadValue;
    hide Derives;
    hide Meaning;
    hide Nesting;
    if ReadText(t, true) == Parsed(v, |t| - 1) {
      var mark, text := JsonConverse.AcceptedIsDialect(t, true);
      DerivesIs(t, mark, text);
      AcceptedNesting(t, v);
    }
    if Denotes(t, v) {
      var mark, text :| Derives(t, mark, text) && Meaning(text.form) == v;
      DialectRead(t, mark, text);
    }
  }

  /** So a text stands for one tree at most, and is refused when it stands for none. */
  lemma Settled(t: seq<byte>)
    requires Terminated(t)
    ensures match ReadText(t, true)
            case Parsed(v, _) => Denotes(t, v) && forall w :: Denotes(t, w) ==> w == v
            case Failed(_) => forall w :: !Denotes(t, w)
  {
    hide ReadText;
    hide Denotes;
    if ReadText(t, true).Parsed? {
      AcceptedExactly(t, ReadText(t, true).value);
    }
    forall w | Denotes(t, w)
      ensures ReadText(t, true) == Parsed(w, |t| - 1)
    {
      AcceptedExactly(t, w);
    }
  }

  lemma DerivesIs(t: seq<byte>, mark: seq<byte>, text: Item)
    requires (mark == [] || mark == [0xEF, 0xBB, 0xBF]) && GapsAllowed(text) && Allowed(text.form)
    requires t == mark + SpellItem(text) + [NUL]
    ensures Derives(t, mark, text)
  {
  }

  lemma AcceptedNesting(t: seq<byte>, v: Value)
    requires Terminated(t) && ReadText(t, true) == Parsed(v, |t| - 1)
    ensures Nesting(v) <= 1000
  {
    hide ReadValue;
    hide Nesting;
    var start := SkipWhitespace(t, SkipByteOrderMark(t));
    JsonRoundTrip.AcceptedAdmissible(t, start, 0);
  }
}
