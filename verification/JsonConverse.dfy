/**
 What cJSON accepts is in the dialect, and what it reads is what the text stands for: the converse of the readings in
 `JsonAcceptance`.
 */
module JsonConverse {
  import opened Bytes
  import opened JsonDialect
  import opened JsonReading
  import opened JsonValue
  import opened Wrappers
  import JsonGrammar
  import Utf

  // ---------------------------------------------------------------- slices

  lemma Glue(t: seq<byte>, a: nat, b: nat, c: nat)
    requires a <= b <= c <= |t|
    ensures t[a..b] + t[b..c] == t[a..c]
  {
  }

  // ---------------------------------------------------------------- numbers

  lemma RunIsDigits(s: seq<byte>, i: nat, j: nat)
    requires i <= j <= |s| && forall k :: i <= k < j ==> Digit(s[k])
    ensures DigitsOrNone(s[i..j])
  {
  }

  lemma ExponentDerived(s: seq<byte>, i: nat)
    requires i <= |s|
    ensures Power(s[i..ExponentEnd(s, i)])
  {
    var end := ExponentEnd(s, i);
    if end > i {
      var start := SignEnd(s, i + 1);
      RunIsDigits(s, start, end);
      var letter, sign, digits := s[i..i + 1], s[i + 1..start], s[start..end];
      Glue(s, i, i + 1, start);
      Glue(s, i, start, end);
      assert letter == Ascii("e") || letter == Ascii("E");
      assert sign == [] || sign == Ascii("+") || sign == Ascii("-");
      assert PowerOf(s[i..end], letter, sign, digits);
    }
  }

  lemma MantissaDerived(s: seq<byte>, i: nat) returns (whole: seq<byte>, point: seq<byte>, fraction: seq<byte>)
    requires i <= |s| && MantissaEnd(s, i) > i
    ensures s[i..MantissaEnd(s, i)] == whole + point + fraction
    ensures DigitsOrNone(whole) && DigitsOrNone(fraction) && whole + fraction != []
    ensures (point == [] || point == Ascii(".")) && (point == [] ==> fraction == [])
    ensures i < |s| && Digit(s[i]) ==> whole != []
  {
    var w, end := DigitRun(s, i), MantissaEnd(s, i);
    RunIsDigits(s, i, w);
    whole := s[i..w];
    if end == w {
      point, fraction := [], [];
    } else {
      point, fraction := s[w..w + 1], s[w + 1..end];
      RunIsDigits(s, w + 1, end);
      Glue(s, i, w, w + 1);
      Glue(s, i, w + 1, end);
    }
  }

  lemma SignDerived(s: seq<byte>)
    requires s != [] && (s[0] == MINUS || Digit(s[0]))
    ensures var i := SignEnd(s, 0);
            i <= 1 && (s[..i] == [] || s[..i] == Ascii("-")) && (i == 0 ==> Digit(s[0]))
  {
  }

  lemma ThreeParts(s: seq<byte>, i: nat, m: nat, n: nat)
    requires i <= m <= n <= |s|
    ensures s[..i] + s[i..m] + s[m..n] == s[..n]
  {
  }

  lemma StrtodEnds(s: seq<byte>)
    requires StrtodLength(s) > 0
    ensures var i := SignEnd(s, 0);
            MantissaEnd(s, i) > i && StrtodLength(s) == ExponentEnd(s, MantissaEnd(s, i))
  {
    hide MantissaEnd;
    hide ExponentEnd;
  }

  /** What `strtod` takes of the copied characters. */
  lemma StrtodDerived(s: seq<byte>)
    requires s != [] && (s[0] == MINUS || Digit(s[0])) && StrtodLength(s) > 0
    ensures Decimal(s[..StrtodLength(s)])
  {
    hide *;
    StrtodEnds(s);
    SignDerived(s);
    var i := SignEnd(s, 0);
    var m := MantissaEnd(s, i);
    var n := ExponentEnd(s, m);
    var whole, point, fraction := MantissaDerived(s, i);
    ExponentDerived(s, m);
    ThreeParts(s, i, m, n);
    DecimalIs(s[..i], whole, point, fraction, s[m..n]);
  }

  lemma DecimalIs(sign: seq<byte>, whole: seq<byte>, point: seq<byte>, fraction: seq<byte>, power: seq<byte>)
    requires (sign == [] || sign == Ascii("-")) && (point == [] || point == Ascii("."))
    requires DigitsOrNone(whole) && DigitsOrNone(fraction) && whole + fraction != []
    requires (point == [] ==> fraction == []) && (sign == [] ==> whole != []) && Power(power)
    ensures Decimal(sign + (whole + point + fraction) + power)
  {
    hide DigitsOrNone;
    hide Power;
    hide Ascii;
    assert DecimalOf(sign + (whole + point + fraction) + power, sign, whole, point, fraction, power);
  }

  lemma Prefix(t: seq<byte>, o: nat, end: nat, n: nat)
    requires o + n <= end <= |t|
    ensures t[o..end][..n] == t[o..o + n]
  {
  }

  lemma NumberDerived(t: seq<byte>, o: nat)
    requires o < |t| && (t[o] == MINUS || Digit(t[o])) && ReadNumber(t, o).Parsed?
    ensures var r := ReadNumber(t, o);
            r.value.Number? && t[o..r.next] == r.value.lexeme && StandsFor(t[o..r.next], r.value)
  {
    hide StrtodLength;
    hide Decimal;
    var copied := t[o..NumberRun(t, o, o + NUMBER_ROOM)];
    var n := StrtodLength(copied);
    assert copied[0] == t[o];
    StrtodDerived(copied);
    Prefix(t, o, o + |copied|, n);
  }

  // ---------------------------------------------------------------- strings

  lemma {:induction false} ClosedQuoteFree(t: seq<byte>, i: nat, end: nat)
    requires ClosingQuote(t, i) == Some(end)
    ensures i <= end < |t| && QuoteFree(t[i..end])
    decreases |t| - i
  {
    if i < end {
      var s := t[i..end];
      var next := if t[i] == BACKSLASH then i + 2 else i + 1;
      ClosedQuoteFree(t, next, end);
      assert s[next - i..] == t[next..end];
    }
  }

  /** The first scan passes hexadecimal digits one by one. */
  lemma DigitsPassed(t: seq<byte>, p: nat)
    requires p + 6 <= |t| && t[p] == BACKSLASH && Utf.FourDigits(t[p + 2..p + 6])
    ensures ClosingQuote(t, p) == ClosingQuote(t, p + 6)
  {
    var d := t[p + 2..p + 6];
    assert t[p + 2] == d[0] && t[p + 3] == d[1] && t[p + 4] == d[2] && t[p + 5] == d[3];
    assert ClosingQuote(t, p + 2) == ClosingQuote(t, p + 3);
    assert ClosingQuote(t, p + 4) == ClosingQuote(t, p + 5);
  }

  lemma NonzeroDigits(d: seq<byte>)
    requires |d| == 4 && Utf.Hex4(d) != 0
    ensures Utf.FourDigits(d)
  {
  }

  /** One `\u` escape and the scan over it. */
  lemma UnitDerived(t: seq<byte>, p: nat, end: nat)
    requires p + 6 <= end < |t| && t[p] == BACKSLASH && t[p + 1] == 0x75
    requires Utf.DecodeLiteral(t, p, end).Accepted? && Utf.DecodeLiteral(t, p, end).consumed == 6
    ensures var c, r := JsonGrammar.Unit(t[p + 2..p + 6]), PieceAt(t, p, end);
            && Readable(c) && ReadBytes(c) == r.bytes && JsonGrammar.SpellChar(c) == t[p..p + 6]
            && (!Utf.FourDigits(c.digits) || ClosingQuote(t, p) == ClosingQuote(t, p + 6))
  {
    hide Utf.Hex4;
    hide Utf.FourDigits;
    hide Utf.Utf8;
    hide ClosingQuote;
    if Utf.FourDigits(t[p + 2..p + 6]) {
      DigitsPassed(t, p);
    }
    assert t[p..p + 6] == [BACKSLASH, 0x75] + t[p + 2..p + 6];
  }

  /** Two of them, for the two halves of a pair. */
  lemma PairDerived(t: seq<byte>, p: nat, end: nat)
    requires p + 12 <= end < |t| && t[p] == BACKSLASH && t[p + 1] == 0x75
    requires Utf.DecodeLiteral(t, p, end).Accepted? && Utf.DecodeLiteral(t, p, end).consumed == 12
    ensures var c, r := JsonGrammar.Surrogates(t[p + 2..p + 6], t[p + 8..p + 12]), PieceAt(t, p, end);
            && Readable(c) && ReadBytes(c) == r.bytes && JsonGrammar.SpellChar(c) == t[p..p + 12]
            && ClosingQuote(t, p) == ClosingQuote(t, p + 12)
  {
    hide Utf.Hex4;
    hide Utf.FourDigits;
    hide Utf.Utf8;
    hide ClosingQuote;
    var first, second := t[p + 2..p + 6], t[p + 8..p + 12];
    NonzeroDigits(first);
    NonzeroDigits(second);
    DigitsPassed(t, p);
    DigitsPassed(t, p + 6);
    assert t[p..p + 12] == [BACKSLASH, 0x75] + first + ([BACKSLASH, 0x75] + second);
    PairJoined(Utf.Hex4(first), Utf.Hex4(second));
  }

  lemma PairJoined(high: nat, low: nat)
    requires Utf.HighSurrogate(high) && Utf.LowSurrogate(low)
    ensures JsonGrammar.Joined(high, low) == 0x10000 + high % 0x400 * 0x400 + low % 0x400
  {
  }

  /** Any other escape, and the scan over it: its letter may be the quote at `end`. */
  lemma ShortDerived(t: seq<byte>, p: nat, end: nat)
    requires p < end < |t| && t[p] == BACKSLASH && t[p + 1] != 0x75 && PieceAt(t, p, end).Piece?
    ensures var c, r := JsonGrammar.Short(t[p + 1]), PieceAt(t, p, end);
            && r.consumed == 2 && Readable(c) && ReadBytes(c) == r.bytes && JsonGrammar.SpellChar(c) == t[p..p + 2]
            && ClosingQuote(t, p) == ClosingQuote(t, p + 2)
  {
  }

  /** What the second scan makes of the character or escape at `p`, as a character of the dialect. */
  lemma PieceDerived(t: seq<byte>, p: nat, end: nat) returns (c: Char)
    requires p < end < |t| && PieceAt(t, p, end).Piece?
    ensures var r := PieceAt(t, p, end);
            && p + r.consumed <= end + 1
            && Readable(c) && ReadBytes(c) == r.bytes && JsonGrammar.SpellChar(c) == t[p..p + r.consumed]
            && (p + r.consumed == end + 1 ==> c.Short?)
            && ((c.Unit? && !Utf.FourDigits(c.digits))
                || ClosingQuote(t, p) == ClosingQuote(t, p + r.consumed)
                || ClosingQuote(t, p) == Some(p))
  {
    if t[p] != BACKSLASH {
      c := JsonGrammar.Raw(t[p]);
    } else if t[p + 1] == 0x75 {
      hide *;
      EscapeConsumes(t, p, end);
      if Utf.DecodeLiteral(t, p, end).consumed == 6 {
        c := JsonGrammar.Unit(t[p + 2..p + 6]);
        UnitDerived(t, p, end);
      } else {
        c := JsonGrammar.Surrogates(t[p + 2..p + 6], t[p + 8..p + 12]);
        PairDerived(t, p, end);
      }
    } else {
      hide *;
      c := JsonGrammar.Short(t[p + 1]);
      ShortDerived(t, p, end);
    }
  }

  lemma EscapeConsumes(t: seq<byte>, p: nat, end: nat)
    requires p < end < |t| && t[p] == BACKSLASH && t[p + 1] == 0x75 && PieceAt(t, p, end).Piece?
    ensures Utf.DecodeLiteral(t, p, end).Accepted?
    ensures PieceAt(t, p, end).consumed == Utf.DecodeLiteral(t, p, end).consumed
  {
  }

  lemma CharsMore(c: Char, rest: seq<Char>)
    requires Readable(c) && AllReadable(rest)
    ensures AllReadable([c] + rest) && AllBytes([c] + rest) == ReadBytes(c) + AllBytes(rest)
    ensures JsonGrammar.SpellChars([c] + rest) == JsonGrammar.SpellChar(c) + JsonGrammar.SpellChars(rest)
    ensures Misread([c] + rest) <==> (c.Unit? && !Utf.FourDigits(c.digits)) || Misread(rest)
  {
    hide Readable;
    hide ReadBytes;
    hide JsonGrammar.SpellChar;
    var all := [c] + rest;
    assert all[1..] == rest && all[0] == c;
    assert forall i :: 0 <= i < |rest| ==> rest[i] == all[i + 1];
    assert forall i :: 0 < i < |all| ==> all[i] == rest[i - 1];
  }

  lemma NoChars()
    ensures AllReadable([]) && AllBytes([]) == [] && JsonGrammar.SpellChars([]) == []
  {
  }

  /** The characters the second scan goes through; it passes the closing quote only after a misread escape. */
  lemma {:induction false} CharsDerived(t: seq<byte>, p: nat, end: nat) returns (chars: seq<Char>, stop: nat)
    requires p <= end + 1 <= |t| && Unescape(t, p, end).Written?
    ensures p <= stop <= end + 1 && end <= stop && AllReadable(chars)
    ensures JsonGrammar.SpellChars(chars) == t[p..stop] && AllBytes(chars) == Unescape(t, p, end).bytes
    ensures ClosingQuote(t, p) == Some(end) && stop == end + 1 ==> Misread(chars)
    ensures p >= end ==> chars == []
    ensures p <= end && stop == end + 1 ==> chars != [] && chars[|chars| - 1].Short?
    decreases end + 1 - p
  {
    hide PieceAt;
    hide AllBytes;
    hide AllReadable;
    hide Readable;
    hide ReadBytes;
    hide Misread;
    hide JsonGrammar.SpellChars;
    NoChars();
    if p >= end {
      chars, stop := [], p;
    } else {
      var consumed := PieceAt(t, p, end).consumed;
      var c := PieceDerived(t, p, end);
      var rest;
      rest, stop := CharsDerived(t, p + consumed, end);
      chars := [c] + rest;
      CharsMore(c, rest);
      Glue(t, p, p + consumed, stop);
    }
  }

  lemma StringDerived(t: seq<byte>, o: nat)
    requires o < |t| && ReadString(t, o).Read?
    ensures var r := ReadString(t, o); Literal(t[o..r.next], r.text)
  {
    hide QuoteFree;
    hide AllBytes;
    hide AllReadable;
    hide Misread;
    hide ClosingQuote;
    hide Unescape;
    hide CString;
    hide JsonGrammar.SpellChars;
    var end := ClosingQuote(t, o + 1).value;
    ClosedQuoteFree(t, o + 1, end);
    var chars, stop := CharsDerived(t, o + 1, end);
    var body := t[o + 1..end];
    assert t[o + 1..end + 1] == body + [QUOTE];
    assert t[o..end + 1] == [QUOTE] + body + [QUOTE];
    assert LiteralOf(t[o..end + 1], ReadString(t, o).text, body, chars);
  }

  // ---------------------------------------------------------------- values

  lemma GapSkipped(t: seq<byte>, o: nat)
    requires Terminated(t) && o < |t|
    ensures o <= SkipWhitespace(t, o) < |t| && Gap(t[o..SkipWhitespace(t, o)])
  {
    var r := SkipWhitespace(t, o);
    forall i | 0 <= i < r - o
      ensures 0 < t[o..r][i] <= 0x20
    {
      OnlyTerminator(t, o + i);
    }
  }

  lemma WordsAre()
    ensures NULL_TEXT == Ascii("null") && TRUE_TEXT == Ascii("true") && FALSE_TEXT == Ascii("false")
  {
  }

  lemma MarksAre()
    ensures Ascii("[") == [LBRACKET] && Ascii("]") == [RBRACKET] && Ascii("{") == [LBRACE] && Ascii("}") == [RBRACE]
    ensures Ascii(",") == [COMMA] && Ascii(":") == [COLON]
  {
  }

  lemma ItemsMore(item: Item, rest: seq<Item>)
    requires GapsAllowed(item) && Allowed(item.form) && AllowedItems(rest)
    ensures AllowedItems([item] + rest) && ItemMeanings([item] + rest) == [Meaning(item.form)] + ItemMeanings(rest)
    ensures SpellItems([item] + rest) == SpellItem(item) + if rest == [] then [] else Ascii(",") + SpellItems(rest)
  {
    hide Allowed;
    hide GapsAllowed;
    hide Meaning;
    hide SpellItem;
    hide Ascii;
    assert ([item] + rest)[1..] == rest;
    assert forall i :: 0 < i < |[item] + rest| ==> ([item] + rest)[i] == rest[i - 1];
  }

  lemma NoItems()
    ensures AllowedItems([]) && ItemMeanings([]) == [] && AllowedEntries([]) && EntryMeanings([]) == []
  {
  }

  lemma EntriesMore(entry: Entry, rest: seq<Entry>)
    requires HeadAllowed(entry) && Allowed(entry.item.form) && AllowedEntries(rest)
    ensures AllowedEntries([entry] + rest)
    ensures EntryMeanings([entry] + rest) == [Member(entry.name, Meaning(entry.item.form))] + EntryMeanings(rest)
    ensures SpellEntries([entry] + rest) ==
            SpellEntry(entry) + if rest == [] then [] else Ascii(",") + SpellEntries(rest)
  {
    hide Allowed;
    hide HeadAllowed;
    hide Meaning;
    hide SpellEntry;
    hide Ascii;
    assert ([entry] + rest)[1..] == rest;
    assert forall i :: 0 < i < |[entry] + rest| ==> ([entry] + rest)[i] == rest[i - 1];
  }

  lemma LeafDerived(text: seq<byte>, v: Value)
    requires StandsFor(text, v)
    ensures Allowed(Leaf(text, v)) && Meaning(Leaf(text, v)) == v && Spell(Leaf(text, v)) == text
  {
    hide StandsFor;
  }

  lemma ListDerived(gap: seq<byte>, items: seq<Item>)
    requires Gap(gap) && AllowedItems(items)
    ensures Allowed(List(gap, items)) && Meaning(List(gap, items)) == Array(ItemMeanings(items))
    ensures Spell(List(gap, items)) == Ascii("[") + (if items == [] then gap else SpellItems(items)) + Ascii("]")
  {
    hide GapsAllowed;
    hide SpellItems;
    hide ItemMeanings;
    hide Ascii;
  }

  lemma RecordDerived(gap: seq<byte>, entries: seq<Entry>)
    requires Gap(gap) && AllowedEntries(entries)
    ensures Allowed(Record(gap, entries)) && Meaning(Record(gap, entries)) == Object(EntryMeanings(entries))
    ensures Spell(Record(gap, entries)) ==
            Ascii("{") + (if entries == [] then gap else SpellEntries(entries)) + Ascii("}")
  {
    hide HeadAllowed;
    hide SpellEntries;
    hide EntryMeanings;
    hide Ascii;
  }

  /** Arrays and objects are told by their bracket and brace. */
  lemma Brackets(t: seq<byte>, o: nat, depth: nat)
    requires Terminated(t) && o < |t|
    ensures t[o] == LBRACKET ==> o < |t| - 1 && ReadValue(t, o, depth) == ReadArray(t, o, depth)
    ensures t[o] == LBRACE ==> o < |t| - 1 && ReadValue(t, o, depth) == ReadObject(t, o, depth)
  {
    hide ReadArray;
    hide ReadObject;
    hide ReadString;
    hide ReadNumber;
    OnlyTerminator(t, o);
    if At(t, o, NULL_TEXT) || At(t, o, TRUE_TEXT) || At(t, o, FALSE_TEXT) {
      FirstLetter(t, o);
    }
  }

  lemma FirstLetter(t: seq<byte>, o: nat)
    ensures At(t, o, NULL_TEXT) ==> t[o] == 0x6E
    ensures At(t, o, TRUE_TEXT) ==> t[o] == 0x74
    ensures At(t, o, FALSE_TEXT) ==> t[o] == 0x66
  {
    if o + 4 <= |t| {
      assert t[o..o + 4][0] == t[o];
    }
    if o + 5 <= |t| {
      assert t[o..o + 5][0] == t[o];
    }
  }

  lemma AtomDerived(t: seq<byte>, o: nat, depth: nat)
    requires Terminated(t) && o < |t| && t[o] != LBRACKET && t[o] != LBRACE && ReadValue(t, o, depth).Parsed?
    ensures var r := ReadValue(t, o, depth); StandsFor(t[o..r.next], r.value)
  {
    hide ReadArray;
    hide ReadObject;
    hide ReadString;
    hide ReadNumber;
    hide Decimal;
    hide Literal;
    hide Ascii;
    WordsAre();
    if t[o] == QUOTE && ReadString(t, o).Read? {
      StringDerived(t, o);
    }
    if (t[o] == MINUS || Digit(t[o])) && ReadNumber(t, o).Parsed? {
      NumberDerived(t, o);
    }
  }

  /** A value that is read is spelled by the text passed, and is what that text stands for. */
  lemma {:induction false} ValueDerived(t: seq<byte>, o: nat, depth: nat) returns (f: Form)
    requires Terminated(t) && o < |t| && ReadValue(t, o, depth).Parsed?
    ensures var r := ReadValue(t, o, depth);
            Allowed(f) && Meaning(f) == r.value && Spell(f) == t[o..r.next]
    decreases |t| - o, 1
  {
    hide *;
    var r := ReadValue(t, o, depth);
    Brackets(t, o, depth);
    if t[o] == LBRACKET {
      f := ArrayDerived(t, o, depth);
    } else if t[o] == LBRACE {
      f := ObjectDerived(t, o, depth);
    } else {
      AtomDerived(t, o, depth);
      f := Leaf(t[o..r.next], r.value);
      LeafDerived(t[o..r.next], r.value);
    }
  }

  lemma {:induction false} ArrayDerived(t: seq<byte>, o: nat, depth: nat) returns (f: Form)
    requires Terminated(t) && o < |t| - 1 && t[o] == LBRACKET && ReadArray(t, o, depth).Parsed?
    ensures var r := ReadArray(t, o, depth);
            Allowed(f) && Meaning(f) == r.value && Spell(f) == t[o..r.next]
    decreases |t| - o, 0
  {
    hide ReadItems;
    hide Allowed;
    hide Meaning;
    hide Spell;
    hide SpellItems;
    hide AllowedItems;
    hide ItemMeanings;
    hide Gap;
    hide Ascii;
    var r := ReadArray(t, o, depth);
    GapSkipped(t, o + 1);
    MarksAre();
    var first := SkipWhitespace(t, o + 1);
    var items := [];
    if t[first] == RBRACKET {
      NoItems();
      assert t[o..r.next] == [LBRACKET] + t[o + 1..first] + [RBRACKET];
    } else {
      items := ItemsDerived(t, o + 1, first, depth + 1);
      assert t[o..r.next] == [LBRACKET] + t[o + 1..r.next];
      assert [LBRACKET] + (SpellItems(items) + [RBRACKET]) == [LBRACKET] + SpellItems(items) + [RBRACKET];
    }
    f := List(if items == [] then t[o + 1..first] else [], items);
    NoGap();
    ListDerived(f.gap, items);
  }

  lemma NoGap()
    ensures Gap([])
  {
  }

  lemma Regroup(x: seq<byte>, c: byte, y: seq<byte>, z: seq<byte>)
    ensures x + ([c] + y) + z == x + [c] + (y + z) && x + [] == x
  {
  }

  lemma Comma(t: seq<byte>, a: nat, after: nat, end: nat)
    requires a <= after < end <= |t|
    ensures t[a..after] + [t[after]] + t[after + 1..end] == t[a..end]
    ensures t[a..after] + [t[after]] == t[a..after + 1]
  {
  }

  lemma ItemSpelled(t: seq<byte>, a: nat, o: nat, next: nat, after: nat, f: Form)
    requires a <= o <= next <= after <= |t| && Spell(f) == t[o..next]
    ensures SpellItem(Item(t[a..o], f, t[next..after])) == t[a..after]
  {
    hide Spell;
    Glue(t, a, o, next);
    Glue(t, a, next, after);
  }

  /** A value with the gap from `a` on before it, and up to `after` the gap behind it. */
  lemma {:induction false} ItemDerived(t: seq<byte>, a: nat, o: nat, depth: nat, after: nat) returns (item: Item)
    requires Terminated(t) && a <= o < |t| && Gap(t[a..o]) && ReadValue(t, o, depth).Parsed?
    requires var next := ReadValue(t, o, depth).next; next <= after <= |t| && Gap(t[next..after])
    ensures GapsAllowed(item) && Allowed(item.form) && SpellItem(item) == t[a..after]
    ensures Meaning(item.form) == ReadValue(t, o, depth).value
    ensures item.after == t[ReadValue(t, o, depth).next..after]
    decreases |t| - o, 2
  {
    hide *;
    var next := ReadValue(t, o, depth).next;
    var f := ValueDerived(t, o, depth);
    item := Item(t[a..o], f, t[next..after]);
    BothGaps(item);
    ItemSpelled(t, a, o, next, after, f);
  }

  lemma BothGaps(item: Item)
    ensures GapsAllowed(item) <==> Gap(item.before) && Gap(item.after)
  {
  }

  lemma ItemsOnce(t: seq<byte>, o: nat, depth: nat)
    requires Terminated(t) && o < |t| && ReadItems(t, o, depth).ItemsParsed?
    ensures ReadValue(t, o, depth).Parsed?
    ensures var Parsed(v, next) := ReadValue(t, o, depth);
            var after, r := SkipWhitespace(t, next), ReadItems(t, o, depth);
            && after < |t| - 1
            && if t[after] == COMMA
               then
                 var rest := ReadItems(t, SkipWhitespace(t, after + 1), depth);
                 rest.ItemsParsed? && r == ItemsParsed([v] + rest.items, rest.next)
               else t[after] == RBRACKET && r == ItemsParsed([v], after + 1)
  {
    hide ReadValue;
    hide SkipWhitespace;
    OnlyTerminator(t, SkipWhitespace(t, ReadValue(t, o, depth).next));
  }

  /** The elements, the first with the gap from `a` on before it, and the bracket that closes them. */
  lemma {:induction false} ItemsDerived(t: seq<byte>, a: nat, o: nat, depth: nat) returns (items: seq<Item>)
    requires Terminated(t) && a <= o < |t| && Gap(t[a..o]) && ReadItems(t, o, depth).ItemsParsed?
    ensures var r := ReadItems(t, o, depth);
            && items != [] && AllowedItems(items) && ItemMeanings(items) == r.items
            && SpellItems(items) + [RBRACKET] == t[a..r.next]
    decreases |t| - o, 3
  {
    hide *;
    ItemsOnce(t, o, depth);
    var next := ReadValue(t, o, depth).next;
    GapSkipped(t, next);
    var after := SkipWhitespace(t, next);
    var item := ItemDerived(t, a, o, depth, after);
    OnlyTerminator(t, after);
    MarksAre();
    NoItems();
    var rest := [];
    if t[after] == COMMA {
      GapSkipped(t, after + 1);
      rest := ItemsDerived(t, after + 1, SkipWhitespace(t, after + 1), depth);
    }
    ItemsMore(item, rest);
    items := [item] + rest;
    Regroup(SpellItem(item), COMMA, if rest == [] then [] else SpellItems(rest), [RBRACKET]);
    Comma(t, a, after, ReadItems(t, o, depth).next);
  }

  lemma {:induction false} ObjectDerived(t: seq<byte>, o: nat, depth: nat) returns (f: Form)
    requires Terminated(t) && o < |t| - 1 && t[o] == LBRACE && ReadObject(t, o, depth).Parsed?
    ensures var r := ReadObject(t, o, depth);
            Allowed(f) && Meaning(f) == r.value && Spell(f) == t[o..r.next]
    decreases |t| - o, 0
  {
    hide ReadMembers;
    hide Allowed;
    hide Meaning;
    hide Spell;
    hide SpellEntries;
    hide AllowedEntries;
    hide EntryMeanings;
    hide Gap;
    hide Ascii;
    var r := ReadObject(t, o, depth);
    GapSkipped(t, o + 1);
    MarksAre();
    var first := SkipWhitespace(t, o + 1);
    var entries := [];
    if t[first] == RBRACE {
      NoItems();
      assert t[o..r.next] == [LBRACE] + t[o + 1..first] + [RBRACE];
    } else {
      entries := EntriesDerived(t, o + 1, first, depth + 1);
      assert t[o..r.next] == [LBRACE] + t[o + 1..r.next];
      assert [LBRACE] + (SpellEntries(entries) + [RBRACE]) == [LBRACE] + SpellEntries(entries) + [RBRACE];
    }
    f := Record(if entries == [] then t[o + 1..first] else [], entries);
    NoGap();
    RecordDerived(f.gap, entries);
  }

  lemma EntrySpelled(t: seq<byte>, a: nat, o: nat, key: nat, colon: nat, end: nat, entry: Entry)
    requires a <= o <= key <= colon < end <= |t| && t[colon] == COLON
    requires entry.before == t[a..o] && entry.key == t[o..key] && entry.after == t[key..colon]
    requires SpellItem(entry.item) == t[colon + 1..end]
    ensures SpellEntry(entry) == t[a..end]
  {
    hide SpellItem;
    hide Ascii;
    MarksAre();
    Glue(t, a, o, key);
    Glue(t, a, key, colon);
    Comma(t, a, colon, end);
  }

  /** A key, a colon and a value, with the gap before the value, and up to `after` the gap behind it. */
  lemma {:induction false} EntryDerived(t: seq<byte>, a: nat, o: nat, depth: nat, after: nat) returns (entry: Entry)
    requires Terminated(t) && a <= o < |t| && Gap(t[a..o]) && ReadMember(t, o, depth).MemberParsed?
    requires var next := ReadMember(t, o, depth).next; next <= after <= |t| && Gap(t[next..after])
    ensures HeadAllowed(entry) && Allowed(entry.item.form) && SpellEntry(entry) == t[a..after]
    ensures Member(entry.name, Meaning(entry.item.form)) == ReadMember(t, o, depth).member
    decreases |t| - o, 2
  {
    hide ReadValue;
    hide ReadString;
    hide Literal;
    hide Allowed;
    hide Meaning;
    hide Spell;
    hide SpellItem;
    hide SpellEntry;
    hide Gap;
    hide Ascii;
    var Read(name, key) := ReadString(t, o);
    StringDerived(t, o);
    GapSkipped(t, key);
    var colon := SkipWhitespace(t, key);
    OnlyTerminator(t, colon);
    GapSkipped(t, colon + 1);
    var start := SkipWhitespace(t, colon + 1);
    var item := ItemDerived(t, colon + 1, start, depth, after);
    entry := Entry(t[a..o], t[o..key], name, t[key..colon], item);
    EntrySpelled(t, a, o, key, colon, after, entry);
  }

  lemma MembersOnce(t: seq<byte>, o: nat, depth: nat)
    requires Terminated(t) && o < |t| && ReadMembers(t, o, depth).MembersParsed?
    ensures ReadMember(t, o, depth).MemberParsed?
    ensures var MemberParsed(member, next) := ReadMember(t, o, depth);
            var after, r := SkipWhitespace(t, next), ReadMembers(t, o, depth);
            && after < |t| - 1
            && if t[after] == COMMA
               then
                 var rest := ReadMembers(t, SkipWhitespace(t, after + 1), depth);
                 rest.MembersParsed? && r == MembersParsed([member] + rest.members, rest.next)
               else t[after] == RBRACE && r == MembersParsed([member], after + 1)
  {
    hide ReadMember;
    hide SkipWhitespace;
    OnlyTerminator(t, SkipWhitespace(t, ReadMember(t, o, depth).next));
  }

  /** The members, the first with the gap from `a` on before it, and the brace that closes them. */
  lemma {:induction false} EntriesDerived(t: seq<byte>, a: nat, o: nat, depth: nat) returns (entries: seq<Entry>)
    requires Terminated(t) && a <= o < |t| && Gap(t[a..o]) && ReadMembers(t, o, depth).MembersParsed?
    ensures var r := ReadMembers(t, o, depth);
            && entries != [] && AllowedEntries(entries) && EntryMeanings(entries) == r.members
            && SpellEntries(entries) + [RBRACE] == t[a..r.next]
    decreases |t| - o, 3
  {
    hide *;
    MembersOnce(t, o, depth);
    var next := ReadMember(t, o, depth).next;
    GapSkipped(t, next);
    var after := SkipWhitespace(t, next);
    var entry := EntryDerived(t, a, o, depth, after);
    OnlyTerminator(t, after);
    MarksAre();
    NoItems();
    var rest := [];
    if t[after] == COMMA {
      GapSkipped(t, after + 1);
      rest := EntriesDerived(t, after + 1, SkipWhitespace(t, after + 1), depth);
    }
    EntriesMore(entry, rest);
    entries := [entry] + rest;
    Regroup(SpellEntry(entry), COMMA, if rest == [] then [] else SpellEntries(rest), [RBRACE]);
    Comma(t, a, after, ReadMembers(t, o, depth).next);
  }

  // ---------------------------------------------------------------- whole texts

  /**
   Whatever is accepted is, behind a byte order mark or nothing, a text of the dialect, and the tree is what it stands
   for; asked for a whole text, the parser leaves nothing of it out.
   */
  lemma AcceptedIsDialect(t: seq<byte>, wholeText: bool) returns (mark: seq<byte>, text: Item)
    requires Terminated(t) && ReadText(t, wholeText).Parsed?
    ensures var r := ReadText(t, wholeText);
            && (mark == [] || mark == [0xEF, 0xBB, 0xBF])
            && GapsAllowed(text) && Allowed(text.form) && Meaning(text.form) == r.value
            && mark + SpellItem(text) == t[..r.next] && (!wholeText ==> text.after == [])
            && (wholeText ==> t == mark + SpellItem(text) + [NUL])
  {
    hide ReadValue;
    hide Allowed;
    hide Meaning;
    hide Spell;
    hide SpellItem;
    hide Gap;
    var r := ReadText(t, wholeText);
    var skipped := SkipByteOrderMark(t);
    mark := t[..skipped];
    MarkSkipped(t);
    GapSkipped(t, skipped);
    var first := SkipWhitespace(t, skipped);
    var next := ReadValue(t, first, 0).next;
    GapSkipped(t, next);
    NoGap();
    assert t[next..next] == [];
    text := ItemDerived(t, skipped, first, 0, r.next);
    Glue(t, 0, skipped, r.next);
    if wholeText {
      OnlyTerminator(t, r.next);
      assert t == t[..r.next] + [NUL];
    }
  }

  lemma MarkSkipped(t: seq<byte>)
    requires t != []
    ensures var n := SkipByteOrderMark(t);
            n < |t| && (t[..n] == [] || t[..n] == [0xEF, 0xBB, 0xBF])
  {
    if SkipByteOrderMark(t) > 0 {
      assert t[..3] == t[0..3];
    }
  }
}
