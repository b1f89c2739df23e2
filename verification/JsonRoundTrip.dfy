/**
 Parsing inverts printing: what `cJSON_Parse` makes of the text `cJSON_Print` gives, formatted or not,
 for every well-formed tree.
 */
module JsonRoundTrip {
  import opened Bytes
  import opened Wrappers
  import opened JsonValue
  import opened JsonReading
  import Utf

  // ---------------------------------------------------------------- strings

  lemma EscapeByteAt(t: seq<byte>, p: nat, end: nat, c: byte)
    requires c != NUL && At(t, p, EscapeByte(c)) && p + |EscapeByte(c)| <= end < |t|
    ensures PieceAt(t, p, end) == Piece([c], |EscapeByte(c)|)
    ensures ClosingQuote(t, p) == ClosingQuote(t, p + |EscapeByte(c)|)
  {
    hide HexDigit;
    var e := EscapeByte(c);
    var here := t[p..p + |e|];
    assert t[p] == here[0] == e[0];
    if |e| == 6 {
      HexEscapeAt(t, p, end, c);
    } else if |e| == 2 {
      assert t[p + 1] == here[1] == e[1];
    }
  }

  lemma HexEscapeAt(t: seq<byte>, p: nat, end: nat, c: byte)
    requires NUL < c < 0x80 && p + 6 <= end < |t|
    requires At(t, p, [BACKSLASH, 0x75, 0x30, 0x30, HexDigit(c / 16), HexDigit(c % 16)])
    ensures PieceAt(t, p, end) == Piece([c], 6) && ClosingQuote(t, p) == ClosingQuote(t, p + 6)
  {
    hide ClosingQuote;
    var e := t[p..p + 6];
    assert t[p] == e[0] && t[p + 1] == e[1];
    assert t[p + 2] == e[2] && t[p + 3] == e[3] && t[p + 4] == e[4] && t[p + 5] == e[5];
    var digits := [0x30, 0x30, HexDigit(c / 16), HexDigit(c % 16)];
    assert t[p + 2..p + 6] == digits;
    assert Utf.Hex4(digits) == c;
    assert Utf.DecodeLiteral(t, p, end) == Utf.Accepted(c, 6);
    SixCharactersScanned(t, p);
  }

  lemma SixCharactersScanned(t: seq<byte>, p: nat)
    requires p + 6 <= |t| && t[p] == BACKSLASH
    requires forall i :: p + 2 <= i < p + 6 ==> t[i] != QUOTE && t[i] != BACKSLASH
    ensures ClosingQuote(t, p) == ClosingQuote(t, p + 6)
  {
    assert ClosingQuote(t, p) == ClosingQuote(t, p + 2);
    assert ClosingQuote(t, p + 2) == ClosingQuote(t, p + 3);
    assert ClosingQuote(t, p + 3) == ClosingQuote(t, p + 4);
    assert ClosingQuote(t, p + 4) == ClosingQuote(t, p + 5);
  }

  lemma {:induction false} EscapedBack(t: seq<byte>, p: nat, s: seq<byte>)
    requires NulFree(s) && At(t, p, Escape(s)) && p + |Escape(s)| < |t| && t[p + |Escape(s)|] == QUOTE
    ensures ClosingQuote(t, p) == Some(p + |Escape(s)|)
    ensures Unescape(t, p, p + |Escape(s)|) == Written(s)
    decreases |s|
  {
    hide At;
    hide PieceAt;
    hide Unescape;
    hide EscapeByte;
    if s == [] {
      NothingLeft(t, p);
    } else {
      var end := p + |Escape(s)|;
      var next := p + |EscapeByte(s[0])|;
      AtSplit(t, p, EscapeByte(s[0]), Escape(s[1..]));
      EscapeByteAt(t, p, end, s[0]);
      EscapedBack(t, next, s[1..]);
      UnescapeOne(t, p, end, s[0], next - p);
      assert [s[0]] + s[1..] == s;
    }
  }

  lemma NothingLeft(t: seq<byte>, p: nat)
    requires p < |t|
    ensures Unescape(t, p, p) == Written([])
  {
  }

  lemma UnescapeOne(t: seq<byte>, p: nat, end: nat, c: byte, consumed: nat)
    requires p < end < |t| && PieceAt(t, p, end) == Piece([c], consumed)
    ensures Unescape(t, p, end) == Prepend([c], Unescape(t, p + consumed, end))
  {
  }

  lemma NulFreeIsCString(s: seq<byte>)
    requires NulFree(s)
    ensures CString(s) == s
  {
  }

  /** A printed string reads back as itself, whatever follows it. */
  lemma StringBack(t: seq<byte>, o: nat, s: seq<byte>)
    requires NulFree(s) && At(t, o, Quoted(s))
    ensures ReadString(t, o) == Read(s, o + |Quoted(s)|)
  {
    hide At;
    hide Escape;
    hide ClosingQuote;
    hide Unescape;
    hide CString;
    AtSplit(t, o, [QUOTE] + Escape(s), [QUOTE]);
    AtSplit(t, o, [QUOTE], Escape(s));
    AtStart(t, o, [QUOTE]);
    AtStart(t, o + 1 + |Escape(s)|, [QUOTE]);
    EscapedBack(t, o + 1, s);
    NulFreeIsCString(s);
  }

  // ---------------------------------------------------------------- scalars

  lemma {:induction false} NumberRunBack(t: seq<byte>, o: nat, n: nat, stop: nat)
    requires o + n < |t| && o + n <= stop && !NumberChar(t[o + n])
    requires forall i :: o <= i < o + n ==> NumberChar(t[i])
    ensures NumberRun(t, o, stop) == o + n
    decreases n
  {
    if n > 0 {
      NumberRunBack(t, o + 1, n - 1, stop);
    }
  }

  lemma NumberBack(t: seq<byte>, o: nat, lexeme: seq<byte>)
    requires IsLexeme(lexeme) && At(t, o, lexeme) && o + |lexeme| < |t| && !NumberChar(t[o + |lexeme|])
    ensures ReadNumber(t, o) == Parsed(Number(lexeme), o + |lexeme|)
  {
    hide StrtodLength;
    hide NumberRun;
    hide NumberChar;
    forall i | o <= i < o + |lexeme|
      ensures NumberChar(t[i])
    {
      assert t[i] == lexeme[i - o];
    }
    NumberRunBack(t, o, |lexeme|, o + NUMBER_ROOM);
    assert lexeme[..|lexeme|] == lexeme;
  }

  /** No value's text starts with a character that is skipped or that closes its container. */
  lemma TextStart(v: Value, fmt: bool, depth: nat)
    requires WellFormed(v)
    ensures Text(v, fmt, depth) != []
    ensures var c := Text(v, fmt, depth)[0];
            c > SPACE && c != RBRACKET && c != RBRACE
  {
  }

  lemma AtStart(t: seq<byte>, o: nat, s: seq<byte>)
    requires At(t, o, s) && s != []
    ensures o + |s| <= |t| && t[o] == s[0]
  {
  }

  /** Nothing is skipped before a visible character, and one separator byte is skipped after it. */
  lemma SkipNothing(t: seq<byte>, o: nat)
    requires o < |t| && t[o] > SPACE
    ensures SkipWhitespace(t, o) == o
  {
  }

  lemma SkipOne(t: seq<byte>, o: nat, fmt: bool, c: byte)
    requires c <= SPACE && At(t, o, OnlyIf(fmt, c))
    requires o + |OnlyIf(fmt, c)| < |t| && t[o + |OnlyIf(fmt, c)|] > SPACE
    ensures SkipWhitespace(t, o) == o + |OnlyIf(fmt, c)|
  {
  }

  lemma {:induction false} SkipTabs(t: seq<byte>, o: nat, n: nat)
    requires At(t, o, Tabs(n)) && o + n < |t| && t[o + n] > SPACE
    ensures SkipWhitespace(t, o) == o + n
    decreases n
  {
    if n > 0 {
      AtStart(t, o, Tabs(n));
      assert Tabs(n) == [TAB] + Tabs(n - 1);
      AtSplit(t, o, [TAB], Tabs(n - 1));
      SkipTabs(t, o + 1, n - 1);
    }
  }

  /** The line break and the indentation before a member or a closing brace. */
  lemma SkipLine(t: seq<byte>, o: nat, fmt: bool, depth: nat)
    requires At(t, o, OnlyIf(fmt, NEWLINE)) && At(t, o + |OnlyIf(fmt, NEWLINE)|, Indent(fmt, depth))
    requires var end := o + |OnlyIf(fmt, NEWLINE)| + |Indent(fmt, depth)|;
             end < |t| && t[end] > SPACE
    ensures SkipWhitespace(t, o) == o + |OnlyIf(fmt, NEWLINE)| + |Indent(fmt, depth)|
  {
    if fmt {
      AtStart(t, o, [NEWLINE]);
      SkipTabs(t, o + 1, depth);
    }
  }

  // ---------------------------------------------------------------- trees

  /** What reading a value printed at `o` must give when `room` more levels are allowed. */
  ghost predicate ReadsBack(r: Result, v: Value, end: nat, nest: nat) {
    if nest + Nesting(v) <= NESTING_LIMIT then r == Parsed(Finite(v), end) else r.Failed?
  }

  /** The character after a value cannot prolong it. */
  predicate Delimited(t: seq<byte>, end: nat) {
    end < |t| && !NumberChar(t[end])
  }

  lemma {:induction false} ValueBack(t: seq<byte>, o: nat, v: Value, fmt: bool, depth: nat, nest: nat)
    requires Terminated(t) && WellFormed(v) && nest <= NESTING_LIMIT
    requires At(t, o, Text(v, fmt, depth)) && Delimited(t, o + |Text(v, fmt, depth)|)
    ensures o < |t| && ReadsBack(ReadValue(t, o, nest), v, o + |Text(v, fmt, depth)|, nest)
    decreases v, 1
  {
    hide At;
    hide ReadValue;
    hide ReadArray;
    hide ReadObject;
    hide ReadString;
    hide ReadNumber;
    hide Quoted;
    hide ItemsText;
    hide MembersText;
    var text := Text(v, fmt, depth);
    TextStart(v, fmt, depth);
    AtStart(t, o, text);
    Dispatch(t, o, nest);
    match v
    case String(s) =>
      QuotedStart(s);
      StringBack(t, o, s);
    case Number(lexeme) => NumberBack(t, o, lexeme);
    case Array(items) => ArrayBack(t, o, items, fmt, depth, nest);
    case Object(members) => ObjectBack(t, o, members, fmt, depth, nest);
    case _ => WordBack(t, o, v, nest);
  }

  /** Which reader the first character of a value selects. */
  lemma Dispatch(t: seq<byte>, o: nat, nest: nat)
    requires Terminated(t) && o < |t|
    ensures t[o] == LBRACKET ==> ReadValue(t, o, nest) == ReadArray(t, o, nest)
    ensures t[o] == LBRACE ==> ReadValue(t, o, nest) == ReadObject(t, o, nest)
    ensures t[o] == QUOTE && ReadString(t, o).Read? ==>
              ReadValue(t, o, nest) == Parsed(String(ReadString(t, o).text), ReadString(t, o).next)
    ensures t[o] == QUOTE && ReadString(t, o).Unread? ==> ReadValue(t, o, nest).Failed?
    ensures t[o] == MINUS || Digit(t[o]) ==> ReadValue(t, o, nest) == ReadNumber(t, o)
  {
    WordsDiffer(t, o);
  }

  lemma WordBack(t: seq<byte>, o: nat, v: Value, nest: nat)
    requires Terminated(t) && o < |t| && (v in {Null, False, True} || v.NonFinite?)
    requires At(t, o, Text(v, false, 0))
    ensures ReadValue(t, o, nest) == Parsed(Finite(v), o + |Text(v, false, 0)|)
  {
    WordsDiffer(t, o);
  }

  /** The three words start with different letters, none of which starts another kind of value. */
  lemma WordsDiffer(t: seq<byte>, o: nat)
    ensures At(t, o, NULL_TEXT) ==> t[o] == 0x6E
    ensures At(t, o, TRUE_TEXT) ==> t[o] == 0x74
    ensures At(t, o, FALSE_TEXT) ==> t[o] == 0x66
  {
    if At(t, o, NULL_TEXT) {
      AtStart(t, o, NULL_TEXT);
    }
    if At(t, o, TRUE_TEXT) {
      AtStart(t, o, TRUE_TEXT);
    }
    if At(t, o, FALSE_TEXT) {
      AtStart(t, o, FALSE_TEXT);
    }
  }

  lemma {:induction false} ArrayBack(t: seq<byte>, o: nat, items: seq<Value>, fmt: bool, depth: nat, nest: nat)
    requires Terminated(t) && WellFormed(Array(items)) && nest <= NESTING_LIMIT
    requires At(t, o, Text(Array(items), fmt, depth))
    requires o + |Text(Array(items), fmt, depth)| < |t|
    ensures o < |t| - 1 && t[o] == LBRACKET
    ensures ReadsBack(ReadArray(t, o, nest), Array(items), o + |Text(Array(items), fmt, depth)|, nest)
    decreases items, 1
  {
    hide At;
    hide ReadItems;
    hide ItemsText;
    hide SkipWhitespace;
    hide Text;
    hide WellFormed;
    ArrayLayout(t, o, items, fmt, depth);
    SkipNothing(t, o + 1);
    if items != [] && nest < NESTING_LIMIT {
      ItemsBack(t, o + 1, items, fmt, depth + 1, nest + 1);
    }
  }

  /** The brackets of a printed array and the elements between them. */
  lemma ArrayLayout(t: seq<byte>, o: nat, items: seq<Value>, fmt: bool, depth: nat)
    requires WellFormed(Array(items))
    requires At(t, o, Text(Array(items), fmt, depth)) && o + |Text(Array(items), fmt, depth)| < |t|
    ensures var inner := ItemsText(items, fmt, depth + 1);
            && o + 1 + |inner| + 1 == o + |Text(Array(items), fmt, depth)| < |t| && (items == [] ==> inner == [])
            && t[o] == LBRACKET && t[o + 1] > SPACE && (t[o + 1] == RBRACKET <==> items == [])
            && At(t, o + 1, inner + [RBRACKET])
  {
    hide At;
    hide ItemsText;
    var inner := ItemsText(items, fmt, depth + 1);
    AtSplit(t, o, [LBRACKET] + inner, [RBRACKET]);
    AtSplit(t, o, [LBRACKET], inner);
    AtSplit(t, o + 1, inner, [RBRACKET]);
    AtStart(t, o, [LBRACKET]);
    AtStart(t, o + 1, inner + [RBRACKET]);
    ItemsStart(items, fmt, depth + 1);
  }

  lemma {:induction false} ItemsStart(items: seq<Value>, fmt: bool, depth: nat)
    requires WellFormed(Array(items))
    ensures items == [] ==> ItemsText(items, fmt, depth) == []
    ensures items != [] ==>
              var text := ItemsText(items, fmt, depth);
              text != [] && text[0] > SPACE && text[0] != RBRACKET
  {
  }

  lemma ItemsParts(t: seq<byte>, o: nat, first: seq<byte>, separator: seq<byte>, rest: seq<byte>)
    requires At(t, o, first + separator + rest + [RBRACKET])
    ensures At(t, o, first) && At(t, o + |first|, separator)
    ensures At(t, o + |first| + |separator|, rest + [RBRACKET]) && At(t, o + |first| + |separator|, rest)
    ensures At(t, o + |first| + |separator| + |rest|, [RBRACKET])
  {
    hide At;
    AtSplit(t, o, first + separator + rest, [RBRACKET]);
    AtSplit(t, o, first + separator, rest);
    AtSplit(t, o, first, separator);
    AtSplit(t, o + |first| + |separator|, rest, [RBRACKET]);
  }

  lemma ItemsTextOnce(items: seq<Value>, fmt: bool, depth: nat)
    requires items != []
    ensures ItemsText(items, fmt, depth) ==
            Text(items[0], fmt, depth) + ItemSeparator(|items| > 1, fmt) + ItemsText(items[1..], fmt, depth)
  {
    hide Text;
    hide ItemSeparator;
  }

  /** Where the first element of printed elements is, and what follows it. */
  lemma ItemsLayout(t: seq<byte>, o: nat, items: seq<Value>, fmt: bool, depth: nat)
    requires WellFormed(Array(items)) && items != []
    requires At(t, o, ItemsText(items, fmt, depth) + [RBRACKET])
    ensures At(t, o, Text(items[0], fmt, depth))
    ensures var end := o + |Text(items[0], fmt, depth)|;
            if |items| == 1 then
              end + 1 == o + |ItemsText(items, fmt, depth)| + 1 <= |t| && t[end] == RBRACKET
            else
              var next := end + 1 + |OnlyIf(fmt, SPACE)|;
              && next + |ItemsText(items[1..], fmt, depth)| == o + |ItemsText(items, fmt, depth)| < |t|
              && t[end] == COMMA && t[next] > SPACE && SkipWhitespace(t, end + 1) == next
              && At(t, next, ItemsText(items[1..], fmt, depth) + [RBRACKET])
  {
    hide At;
    hide Text;
    hide ItemsText;
    hide SkipWhitespace;
    hide WellFormed;
    ItemsTail(items);
    ItemsTextOnce(items, fmt, depth);
    var first := Text(items[0], fmt, depth);
    var separator := ItemSeparator(|items| > 1, fmt);
    var rest := ItemsText(items[1..], fmt, depth);
    var end := o + |first|;
    ItemsParts(t, o, first, separator, rest);
    AtStart(t, end + |separator| + |rest|, [RBRACKET]);
    ItemsStart(items[1..], fmt, depth);
    if |items| > 1 {
      AtSplit(t, end, [COMMA], OnlyIf(fmt, SPACE));
      AtStart(t, end, [COMMA]);
      AtStart(t, end + |separator|, rest);
      SkipOne(t, end + 1, fmt, SPACE);
    }
  }

  /** What reading printed elements that close at `close` must give, `nest` deep. */
  ghost predicate ItemsRead(r: ItemsResult, items: seq<Value>, close: nat, nest: nat) {
    if nest + ItemsNesting(items) <= NESTING_LIMIT
    then r == ItemsParsed(FiniteItems(items), close + 1)
    else r.ItemsFailed?
  }

  lemma {:induction false} ItemsBack(t: seq<byte>, o: nat, items: seq<Value>, fmt: bool, depth: nat, nest: nat)
    requires Terminated(t) && WellFormed(Array(items)) && items != [] && nest <= NESTING_LIMIT
    requires At(t, o, ItemsText(items, fmt, depth) + [RBRACKET])
    requires o + |ItemsText(items, fmt, depth)| + 1 < |t|
    ensures ItemsRead(ReadItems(t, o, nest), items, o + |ItemsText(items, fmt, depth)|, nest)
    decreases items, 0
  {
    hide *;
    ItemsTail(items);
    ItemsLayout(t, o, items, fmt, depth);
    var end := o + |Text(items[0], fmt, depth)|;
    var close := o + |ItemsText(items, fmt, depth)|;
    EndsValue(t, end);
    ValueBack(t, o, items[0], fmt, depth, nest);
    if |items| > 1 {
      var next := end + 1 + |OnlyIf(fmt, SPACE)|;
      ItemsBack(t, next, items[1..], fmt, depth, nest);
      ItemsJoin(t, o, items, nest, end, next, close);
    } else {
      ItemsEnd(t, o, items, nest, end);
    }
  }

  lemma ItemsTail(items: seq<Value>)
    requires WellFormed(Array(items)) && items != []
    ensures WellFormed(items[0]) && WellFormed(Array(items[1..]))
  {
  }

  lemma EndsValue(t: seq<byte>, end: nat)
    requires end < |t| && (t[end] == COMMA || t[end] == RBRACKET)
    ensures Delimited(t, end) && SkipWhitespace(t, end) == end
  {
  }

  lemma ItemsJoin(t: seq<byte>, o: nat, items: seq<Value>, nest: nat, end: nat, next: nat, close: nat)
    requires Terminated(t) && items != [] && o < |t| && end + 1 < |t| && next < |t|
    requires ReadsBack(ReadValue(t, o, nest), items[0], end, nest)
    requires t[end] == COMMA && SkipWhitespace(t, end) == end && SkipWhitespace(t, end + 1) == next
    requires ItemsRead(ReadItems(t, next, nest), items[1..], close, nest)
    ensures ItemsRead(ReadItems(t, o, nest), items, close, nest)
  {
    hide ReadItems;
    hide ReadValue;
    hide SkipWhitespace;
    hide Nesting;
    hide Finite;
    ItemsUnfold(t, o, nest);
  }

  lemma ItemsEnd(t: seq<byte>, o: nat, items: seq<Value>, nest: nat, end: nat)
    requires Terminated(t) && |items| == 1 && o < |t| && end < |t|
    requires ReadsBack(ReadValue(t, o, nest), items[0], end, nest)
    requires t[end] == RBRACKET && SkipWhitespace(t, end) == end
    ensures ItemsRead(ReadItems(t, o, nest), items, end, nest)
  {
    hide ReadItems;
    hide ReadValue;
    hide SkipWhitespace;
    hide Nesting;
    hide Finite;
    ItemsUnfold(t, o, nest);
    assert items[1..] == [];
    assert FiniteItems(items) == [Finite(items[0])] && ItemsNesting(items) == Nesting(items[0]);
  }

  lemma ItemsUnfold(t: seq<byte>, o: nat, nest: nat)
    requires Terminated(t) && o < |t|
    ensures match ReadValue(t, o, nest)
            case Failed(at) => ReadItems(t, o, nest) == ItemsFailed(at)
            case Parsed(value, next) =>
              var after := SkipWhitespace(t, next);
              && (t[after] == RBRACKET ==> ReadItems(t, o, nest) == ItemsParsed([value], after + 1))
              && (t[after] != RBRACKET && t[after] != COMMA ==> ReadItems(t, o, nest) == ItemsFailed(after))
              && (t[after] == COMMA ==>
                    && after + 1 < |t|
                    && ReadItems(t, o, nest) ==
                       match ReadItems(t, SkipWhitespace(t, after + 1), nest)
                       case ItemsFailed(at) => ItemsFailed(at)
                       case ItemsParsed(items, end) => ItemsParsed([value] + items, end))
  {
    hide SkipWhitespace;
    hide ReadValue;
  }

  /** The brace, the line, the members and the closing brace of a printed object. */
  lemma ObjectLayout(t: seq<byte>, o: nat, members: seq<Member>, fmt: bool, depth: nat)
    requires At(t, o, Text(Object(members), fmt, depth))
    requires o + |Text(Object(members), fmt, depth)| < |t|
    ensures var start := o + 1 + |OnlyIf(fmt, NEWLINE)|;
            var close := start + |MembersText(members, fmt, depth + 1)| + |Indent(fmt, depth)|;
            && close + 1 == o + |Text(Object(members), fmt, depth)| < |t|
            && t[o] == LBRACE && At(t, o + 1, OnlyIf(fmt, NEWLINE))
            && At(t, start, MembersText(members, fmt, depth + 1))
            && At(t, start + |MembersText(members, fmt, depth + 1)|, Indent(fmt, depth))
            && t[close] == RBRACE
  {
    hide At;
    hide MembersText;
    hide Indent;
    hide OnlyIf;
    var line := OnlyIf(fmt, NEWLINE);
    var inner := MembersText(members, fmt, depth + 1);
    AtSplit(t, o, [LBRACE] + line + inner + Indent(fmt, depth), [RBRACE]);
    AtSplit(t, o, [LBRACE] + line + inner, Indent(fmt, depth));
    AtSplit(t, o, [LBRACE] + line, inner);
    AtSplit(t, o, [LBRACE], line);
    AtStart(t, o, [LBRACE]);
    AtStart(t, o + 1 + |line| + |inner| + |Indent(fmt, depth)|, [RBRACE]);
  }

  lemma NoMembersBack()
    ensures MembersNesting([]) == 0 && FiniteMembers([]) == []
  {
  }

  lemma {:induction false} ObjectBack(t: seq<byte>, o: nat, members: seq<Member>, fmt: bool, depth: nat, nest: nat)
    requires Terminated(t) && WellFormed(Object(members)) && nest <= NESTING_LIMIT
    requires At(t, o, Text(Object(members), fmt, depth))
    requires o + |Text(Object(members), fmt, depth)| < |t|
    ensures o < |t| - 1 && t[o] == LBRACE
    ensures ReadsBack(ReadObject(t, o, nest), Object(members), o + |Text(Object(members), fmt, depth)|, nest)
    decreases members, 3
  {
    hide At;
    hide ReadMembers;
    hide MembersText;
    hide SkipWhitespace;
    hide Indent;
    hide OnlyIf;
    hide Text;
    hide Quoted;
    hide MemberSeparator;
    hide MembersNesting;
    hide FiniteMembers;
    ObjectLayout(t, o, members, fmt, depth);
    if members == [] {
      NoMembers(fmt, depth + 1);
      NoMembersBack();
      SkipLine(t, o + 1, fmt, depth);
    } else {
      var start := o + 1 + |OnlyIf(fmt, NEWLINE)|;
      MembersLayout(t, start, members, fmt, depth + 1);
      SkipLine(t, o + 1, fmt, depth + 1);
      if nest < NESTING_LIMIT {
        MembersBack(t, start, members, fmt, depth + 1, nest + 1);
      }
    }
  }

  lemma NoMembers(fmt: bool, depth: nat)
    ensures MembersText([], fmt, depth) == []
  {
  }

  /** Where the parts of the first of some printed members are, and what follows it. */
  lemma MembersLayout(t: seq<byte>, o: nat, members: seq<Member>, fmt: bool, depth: nat)
    requires members != [] && WellFormed(members[0].value)
    requires At(t, o, MembersText(members, fmt, depth))
    ensures At(t, o, Indent(fmt, depth))
    ensures var key := o + |Indent(fmt, depth)|;
            var colon := key + |Quoted(members[0].key)|;
            var value := colon + 1 + |OnlyIf(fmt, TAB)|;
            var end := value + |Text(members[0].value, fmt, depth)|;
            var rest := end + |MemberSeparator(|members| > 1, fmt)|;
            && rest + |MembersText(members[1..], fmt, depth)| == o + |MembersText(members, fmt, depth)| <= |t|
            && At(t, key, Quoted(members[0].key)) && t[key] == QUOTE
            && t[colon] == COLON && SkipWhitespace(t, colon + 1) == value
            && At(t, value, Text(members[0].value, fmt, depth))
            && At(t, end, MemberSeparator(|members| > 1, fmt))
            && At(t, rest, MembersText(members[1..], fmt, depth))
  {
    hide At;
    hide Text;
    hide Quoted;
    hide MemberSeparator;
    hide SkipWhitespace;
    var indent := Indent(fmt, depth);
    var quoted := Quoted(members[0].key);
    var tab := OnlyIf(fmt, TAB);
    var text := Text(members[0].value, fmt, depth);
    var separator := MemberSeparator(|members| > 1, fmt);
    var rest := MembersText(members[1..], fmt, depth);
    AtSplit(t, o, indent + quoted + [COLON] + tab + text + separator, rest);
    AtSplit(t, o, indent + quoted + [COLON] + tab + text, separator);
    AtSplit(t, o, indent + quoted + [COLON] + tab, text);
    AtSplit(t, o, indent + quoted + [COLON], tab);
    AtSplit(t, o, indent + quoted, [COLON]);
    AtSplit(t, o, indent, quoted);
    QuotedStart(members[0].key);
    AtStart(t, o + |indent|, quoted);
    AtStart(t, o + |indent| + |quoted|, [COLON]);
    TextStart(members[0].value, fmt, depth);
    AtStart(t, o + |indent| + |quoted| + 1 + |tab|, text);
    SkipOne(t, o + |indent| + |quoted| + 1, fmt, TAB);
    AtBound(t, o, MembersText(members, fmt, depth));
  }

  lemma QuotedStart(s: seq<byte>)
    ensures Quoted(s) != [] && Quoted(s)[0] == QUOTE
  {
  }

  lemma AtBound(t: seq<byte>, o: nat, s: seq<byte>)
    requires At(t, o, s)
    ensures o + |s| <= |t|
  {
  }

  /** What follows a member: a comma and a line, or the line of the closing brace. */
  lemma SeparatorLayout(t: seq<byte>, o: nat, more: bool, fmt: bool)
    requires At(t, o, MemberSeparator(more, fmt))
    ensures |MemberSeparator(more, fmt)| == (if more then 1 else 0) + |OnlyIf(fmt, NEWLINE)|
    ensures more ==> o < |t| && t[o] == COMMA
    ensures At(t, o + (if more then 1 else 0), OnlyIf(fmt, NEWLINE))
  {
  }

  function MemberEnd(o: nat, member: Member, fmt: bool, depth: nat): nat {
    o + |Quoted(member.key)| + 1 + |OnlyIf(fmt, TAB)| + |Text(member.value, fmt, depth)|
  }

  /** A printed member, without its indentation, and a character after it that cannot prolong it. */
  ghost predicate MemberAt(t: seq<byte>, o: nat, member: Member, fmt: bool, depth: nat) {
    var colon := o + |Quoted(member.key)|;
    var value := colon + 1 + |OnlyIf(fmt, TAB)|;
    && At(t, o, Quoted(member.key)) && colon < |t| - 1 && t[colon] == COLON
    && SkipWhitespace(t, colon + 1) == value && At(t, value, Text(member.value, fmt, depth))
    && Delimited(t, MemberEnd(o, member, fmt, depth))
  }

  /** What reading a printed member that ends at `end` must give, `nest` deep. */
  ghost predicate MemberRead(r: MemberResult, member: Member, end: nat, nest: nat) {
    if nest + Nesting(member.value) <= NESTING_LIMIT
    then r == MemberParsed(Member(member.key, Finite(member.value)), end)
    else r.MemberFailed?
  }

  /** What reading printed members that close at `close` must give, `nest` deep. */
  ghost predicate MembersRead(r: MembersResult, members: seq<Member>, close: nat, nest: nat) {
    if nest + MembersNesting(members) <= NESTING_LIMIT
    then r == MembersParsed(FiniteMembers(members), close + 1)
    else r.MembersFailed?
  }

  lemma {:induction false} MemberBack(t: seq<byte>, o: nat, member: Member, fmt: bool, depth: nat, nest: nat)
    requires Terminated(t) && NulFree(member.key) && WellFormed(member.value) && nest <= NESTING_LIMIT
    requires o < |t| && MemberAt(t, o, member, fmt, depth)
    ensures MemberRead(ReadMember(t, o, nest), member, MemberEnd(o, member, fmt, depth), nest)
    decreases member, 0
  {
    hide At;
    hide ReadValue;
    hide ReadString;
    hide Text;
    hide Quoted;
    hide Nesting;
    hide Finite;
    StringBack(t, o, member.key);
    SkipNothing(t, o + |Quoted(member.key)|);
    ValueBack(t, o + |Quoted(member.key)| + 1 + |OnlyIf(fmt, TAB)|, member.value, fmt, depth, nest);
  }

  /** The first of several printed members. */
  lemma MembersMoreFirst(t: seq<byte>, o: nat, members: seq<Member>, fmt: bool, depth: nat)
    requires members != [] && WellFormed(members[0].value)
    requires At(t, o, MembersText(members, fmt, depth)) && |members| > 1
    ensures o + |Indent(fmt, depth)| < |t| && MemberAt(t, o + |Indent(fmt, depth)|, members[0], fmt, depth)
    ensures var end := MemberEnd(o + |Indent(fmt, depth)|, members[0], fmt, depth);
            end < |t| && t[end] == COMMA && At(t, end + 1, OnlyIf(fmt, NEWLINE))
    ensures var rest := MemberEnd(o + |Indent(fmt, depth)|, members[0], fmt, depth) + 1 + |OnlyIf(fmt, NEWLINE)|;
            && At(t, rest, MembersText(members[1..], fmt, depth))
            && rest + |MembersText(members[1..], fmt, depth)| == o + |MembersText(members, fmt, depth)|
  {
    hide SkipWhitespace;
    hide At;
    hide Text;
    hide Quoted;
    hide MembersText;
    hide MemberSeparator;
    hide Indent;
    hide OnlyIf;
    hide WellFormed;
    MembersLayout(t, o, members, fmt, depth);
    SeparatorLayout(t, MemberEnd(o + |Indent(fmt, depth)|, members[0], fmt, depth), true, fmt);
  }

  /** The comma after it and the next key. */
  lemma MembersMore(t: seq<byte>, o: nat, members: seq<Member>, fmt: bool, depth: nat)
    requires WellFormed(Object(members)) && |members| > 1
    requires At(t, o, MembersText(members, fmt, depth))
    ensures o + |Indent(fmt, depth)| < |t| && MemberAt(t, o + |Indent(fmt, depth)|, members[0], fmt, depth)
    ensures var end := MemberEnd(o + |Indent(fmt, depth)|, members[0], fmt, depth);
            var rest := end + 1 + |OnlyIf(fmt, NEWLINE)|;
            && end + 1 < |t| && t[end] == COMMA && SkipWhitespace(t, end) == end
            && SkipWhitespace(t, end + 1) == rest + |Indent(fmt, depth)| < |t|
            && At(t, rest, MembersText(members[1..], fmt, depth))
            && rest + |MembersText(members[1..], fmt, depth)| == o + |MembersText(members, fmt, depth)|
  {
    hide WellFormed;
    hide SkipWhitespace;
    hide At;
    hide Text;
    hide Quoted;
    hide MembersText;
    hide MemberSeparator;
    hide Indent;
    hide OnlyIf;
    hide MemberAt;
    hide MemberEnd;
    var end := MemberEnd(o + |Indent(fmt, depth)|, members[0], fmt, depth);
    MembersTail(members);
    MembersMoreFirst(t, o, members, fmt, depth);
    MembersLayout(t, end + 1 + |OnlyIf(fmt, NEWLINE)|, members[1..], fmt, depth);
    SkipLine(t, end + 1, fmt, depth);
    SkipNothing(t, end);
  }

  /** The last printed member and the line of the brace after it. */
  lemma {:induction false} MembersLast(t: seq<byte>, o: nat, members: seq<Member>, fmt: bool, depth: nat, outer: nat)
    requires WellFormed(Object(members)) && |members| == 1
    requires At(t, o, MembersText(members, fmt, depth))
    requires At(t, o + |MembersText(members, fmt, depth)|, Indent(fmt, outer))
    requires var close := o + |MembersText(members, fmt, depth)| + |Indent(fmt, outer)|;
             close < |t| - 1 && t[close] == RBRACE
    ensures o + |Indent(fmt, depth)| < |t| && MemberAt(t, o + |Indent(fmt, depth)|, members[0], fmt, depth)
    ensures MemberEnd(o + |Indent(fmt, depth)|, members[0], fmt, depth) < |t|
    ensures SkipWhitespace(t, MemberEnd(o + |Indent(fmt, depth)|, members[0], fmt, depth))
            == o + |MembersText(members, fmt, depth)| + |Indent(fmt, outer)|
  {
    hide SkipWhitespace;
    hide At;
    hide Text;
    hide Quoted;
    hide MembersText;
    hide MemberSeparator;
    hide Indent;
    hide OnlyIf;
    var end := MemberEnd(o + |Indent(fmt, depth)|, members[0], fmt, depth);
    MembersLayout(t, o, members, fmt, depth);
    assert members[1..] == [];
    NoMembers(fmt, depth);
    SeparatorLayout(t, end, false, fmt);
    SkipLine(t, end, fmt, outer);
    AfterLine(t, end, fmt, outer);
  }

  lemma MembersTail(members: seq<Member>)
    requires WellFormed(Object(members)) && members != []
    ensures NulFree(members[0].key) && WellFormed(members[0].value) && WellFormed(Object(members[1..]))
    ensures |members| > 1 ==> WellFormed(members[1..][0].value)
  {
  }

  lemma {:induction false} MembersBack(t: seq<byte>, o: nat, members: seq<Member>, fmt: bool, depth: nat, nest: nat)
    requires Terminated(t) && WellFormed(Object(members)) && members != [] && nest <= NESTING_LIMIT && depth > 0
    requires At(t, o, MembersText(members, fmt, depth))
    requires At(t, o + |MembersText(members, fmt, depth)|, Indent(fmt, depth - 1))
    requires var close := o + |MembersText(members, fmt, depth)| + |Indent(fmt, depth - 1)|;
             close < |t| - 1 && t[close] == RBRACE
    ensures var close := o + |MembersText(members, fmt, depth)| + |Indent(fmt, depth - 1)|;
            var key := o + |Indent(fmt, depth)|;
            key < |t| && MembersRead(ReadMembers(t, key, nest), members, close, nest)
    decreases members, 1
  {
    hide *;
    MembersTail(members);
    var close := o + |MembersText(members, fmt, depth)| + |Indent(fmt, depth - 1)|;
    var key := o + |Indent(fmt, depth)|;
    var end := MemberEnd(key, members[0], fmt, depth);
    if |members| > 1 {
      MembersMore(t, o, members, fmt, depth);
      var rest := end + 1 + |OnlyIf(fmt, NEWLINE)|;
      MemberBack(t, key, members[0], fmt, depth, nest);
      MembersBack(t, rest, members[1..], fmt, depth, nest);
      MembersJoin(t, key, members, nest, end, rest + |Indent(fmt, depth)|, close);
    } else {
      MembersLast(t, o, members, fmt, depth, depth - 1);
      MemberBack(t, key, members[0], fmt, depth, nest);
      MembersEnd(t, key, members, nest, end, close);
    }
  }

  lemma MembersJoin(t: seq<byte>, o: nat, members: seq<Member>, nest: nat, end: nat, next: nat, close: nat)
    requires Terminated(t) && members != [] && o < |t| && end + 1 < |t| && next < |t|
    requires MemberRead(ReadMember(t, o, nest), members[0], end, nest)
    requires t[end] == COMMA && SkipWhitespace(t, end) == end && SkipWhitespace(t, end + 1) == next
    requires MembersRead(ReadMembers(t, next, nest), members[1..], close, nest)
    ensures MembersRead(ReadMembers(t, o, nest), members, close, nest)
  {
    hide ReadMembers;
    hide ReadMember;
    hide SkipWhitespace;
    hide Nesting;
    hide Finite;
    MembersUnfold(t, o, nest);
  }

  lemma MembersEnd(t: seq<byte>, o: nat, members: seq<Member>, nest: nat, end: nat, close: nat)
    requires Terminated(t) && |members| == 1 && o < |t| && end < |t| && close < |t|
    requires MemberRead(ReadMember(t, o, nest), members[0], end, nest)
    requires t[close] == RBRACE && SkipWhitespace(t, end) == close
    ensures MembersRead(ReadMembers(t, o, nest), members, close, nest)
  {
    hide ReadMembers;
    hide ReadMember;
    hide SkipWhitespace;
    hide Nesting;
    hide Finite;
    MembersUnfold(t, o, nest);
    assert members[1..] == [];
    assert FiniteMembers(members) == [Member(members[0].key, Finite(members[0].value))];
    assert MembersNesting(members) == Nesting(members[0].value);
  }

  lemma MembersUnfold(t: seq<byte>, o: nat, nest: nat)
    requires Terminated(t) && o < |t|
    ensures match ReadMember(t, o, nest)
            case MemberFailed(at) => ReadMembers(t, o, nest) == MembersFailed(at)
            case MemberParsed(member, next) =>
              var after := SkipWhitespace(t, next);
              && (t[after] == RBRACE ==> ReadMembers(t, o, nest) == MembersParsed([member], after + 1))
              && (t[after] != RBRACE && t[after] != COMMA ==> ReadMembers(t, o, nest) == MembersFailed(after))
              && (t[after] == COMMA ==>
                    && after + 1 < |t|
                    && ReadMembers(t, o, nest) ==
                       match ReadMembers(t, SkipWhitespace(t, after + 1), nest)
                       case MembersFailed(at) => MembersFailed(at)
                       case MembersParsed(members, end) => MembersParsed([member] + members, end))
  {
    hide SkipWhitespace;
    hide ReadMember;
  }

  /** A line break and indentation start with no number character, and neither does the brace after them. */
  lemma AfterLine(t: seq<byte>, o: nat, fmt: bool, depth: nat)
    requires At(t, o, OnlyIf(fmt, NEWLINE))
    requires var close := o + |OnlyIf(fmt, NEWLINE)| + |Indent(fmt, depth)|;
             close < |t| && t[close] == RBRACE
    ensures Delimited(t, o)
  {
  }

  // ---------------------------------------------------------------- whole texts

  lemma NulFreeConcat(a: seq<byte>, b: seq<byte>)
    ensures NulFree(a + b) <==> NulFree(a) && NulFree(b)
  {
  }

  lemma {:induction false} EscapeNulFree(s: seq<byte>)
    requires NulFree(s)
    ensures NulFree(Escape(s))
  {
    if s != [] {
      EscapeNulFree(s[1..]);
      NulFreeConcat(EscapeByte(s[0]), Escape(s[1..]));
    }
  }

  lemma WrappedNulFree(a: seq<byte>, s: seq<byte>, b: seq<byte>)
    requires NulFree(a) && NulFree(s) && NulFree(b)
    ensures NulFree(a + s + b)
  {
  }

  lemma LexemeNulFree(s: seq<byte>)
    requires IsLexeme(s)
    ensures NulFree(s)
  {
  }

  lemma BracesNulFree(fmt: bool, depth: nat)
    ensures NulFree([LBRACE] + OnlyIf(fmt, NEWLINE)) && NulFree(Indent(fmt, depth) + [RBRACE])
  {
  }

  lemma {:induction false} TextNulFree(v: Value, fmt: bool, depth: nat)
    requires WellFormed(v)
    ensures NulFree(Text(v, fmt, depth))
    decreases v, 1
  {
    hide Escape;
    hide ItemsText;
    hide MembersText;
    hide Indent;
    hide OnlyIf;
    hide IsLexeme;
    match v
    case String(s) =>
      EscapeNulFree(s);
      WrappedNulFree([QUOTE], Escape(s), [QUOTE]);
    case Number(lexeme) => LexemeNulFree(lexeme);
    case Array(items) =>
      ItemsNulFree(items, fmt, depth + 1);
      WrappedNulFree([LBRACKET], ItemsText(items, fmt, depth + 1), [RBRACKET]);
    case Object(members) =>
      var inner := MembersText(members, fmt, depth + 1);
      MembersNulFree(members, fmt, depth + 1);
      BracesNulFree(fmt, depth);
      WrappedNulFree([LBRACE] + OnlyIf(fmt, NEWLINE), inner, Indent(fmt, depth) + [RBRACE]);
      assert Text(v, fmt, depth) ==
             [LBRACE] + OnlyIf(fmt, NEWLINE) + inner + (Indent(fmt, depth) + [RBRACE]);
    case _ =>
  }

  lemma {:induction false} ItemsNulFree(items: seq<Value>, fmt: bool, depth: nat)
    requires forall i :: 0 <= i < |items| ==> WellFormed(items[i])
    ensures NulFree(ItemsText(items, fmt, depth))
    decreases items, 0
  {
    hide Text;
    if items != [] {
      TextNulFree(items[0], fmt, depth);
      ItemsNulFree(items[1..], fmt, depth);
    }
  }

  lemma {:induction false} MembersNulFree(members: seq<Member>, fmt: bool, depth: nat)
    requires forall i :: 0 <= i < |members| ==> NulFree(members[i].key) && WellFormed(members[i].value)
    ensures NulFree(MembersText(members, fmt, depth))
    decreases members, 0
  {
    hide Text;
    if members != [] {
      EscapeNulFree(members[0].key);
      TextNulFree(members[0].value, fmt, depth);
      MembersNulFree(members[1..], fmt, depth);
    }
  }

  /**
   Printing then parsing: within the nesting limit the tree comes back, with every NaN and infinity turned
   into null, and the whole text is consumed; beyond the limit the parser refuses its own printer's text.
   */
  lemma ParsePrinted(v: Value, fmt: bool, wholeText: bool)
    requires WellFormed(v)
    ensures var text := Text(v, fmt, 0);
            && Terminated(text + [NUL])
            && var r := ReadText(text + [NUL], wholeText);
            if Nesting(v) <= NESTING_LIMIT then r == Parsed(Finite(v), |text|) else r.Failed?
  {
    hide At;
    hide ReadValue;
    hide Text;
    hide Nesting;
    hide Finite;
    var text := Text(v, fmt, 0);
    var t := text + [NUL];
    TextNulFree(v, fmt, 0);
    TextStart(v, fmt, 0);
    NoByteOrderMark(v, fmt, t);
    AtSplit(t, 0, text, [NUL]);
    AtWhole(t);
    SkipNothing(t, 0);
    ValueBack(t, 0, v, fmt, 0, 0);
    assert SkipWhitespace(t, |text|) == |text|;
  }

  lemma AtWhole(t: seq<byte>)
    ensures At(t, 0, t)
  {
  }

  lemma NoByteOrderMark(v: Value, fmt: bool, t: seq<byte>)
    requires WellFormed(v) && t == Text(v, fmt, 0) + [NUL]
    ensures SkipByteOrderMark(t) == 0
  {
    TextStart(v, fmt, 0);
    if At(t, 0, BYTE_ORDER_MARK) {
      AtStart(t, 0, BYTE_ORDER_MARK);
    }
  }

  /** No number in the tree is a NaN or an infinity. */
  predicate AllFinite(v: Value) {
    match v
    case NonFinite(_) => false
    case Array(items) => forall i :: 0 <= i < |items| ==> AllFinite(items[i])
    case Object(members) => forall i :: 0 <= i < |members| ==> AllFinite(members[i].value)
    case _ => true
  }

  lemma {:induction false} FiniteIsSame(v: Value)
    ensures Finite(v) == v <==> AllFinite(v)
    decreases v, 1
  {
    match v
    case Array(items) => FiniteItemsSame(items);
    case Object(members) => FiniteMembersSame(members);
    case _ =>
  }

  lemma {:induction false} FiniteItemsSame(items: seq<Value>)
    ensures FiniteItems(items) == items <==> forall i :: 0 <= i < |items| ==> AllFinite(items[i])
    decreases items, 0
  {
    if items != [] {
      FiniteIsSame(items[0]);
      FiniteItemsSame(items[1..]);
      assert items == [items[0]] + items[1..];
      assert forall i :: 1 <= i < |items| ==> items[i] == items[1..][i - 1];
    }
  }

  lemma {:induction false} FiniteMembersSame(members: seq<Member>)
    ensures FiniteMembers(members) == members <==> forall i :: 0 <= i < |members| ==> AllFinite(members[i].value)
    decreases members, 0
  {
    if members != [] {
      FiniteIsSame(members[0].value);
      FiniteMembersSame(members[1..]);
      assert members == [members[0]] + members[1..];
      assert forall i :: 1 <= i < |members| ==> members[i] == members[1..][i - 1];
    }
  }

  /** The round trip, exactly when it holds. */
  lemma RoundTrip(v: Value, fmt: bool, wholeText: bool)
    requires WellFormed(v)
    ensures Terminated(Text(v, fmt, 0) + [NUL])
    ensures ReadText(Text(v, fmt, 0) + [NUL], wholeText) == Parsed(v, |Text(v, fmt, 0)|)
            <==> AllFinite(v) && Nesting(v) <= NESTING_LIMIT
  {
    ParsePrinted(v, fmt, wholeText);
    FiniteIsSame(v);
  }

  // ---------------------------------------------------------------- what is accepted

  /** Every string and key is a C string, and the tree fits the levels left under `nest`. */
  predicate Admissible(v: Value, nest: nat) {
    StringsNulFree(v) && nest + Nesting(v) <= NESTING_LIMIT
  }

  predicate StringsNulFree(v: Value) {
    match v
    case String(text) => NulFree(text)
    case Array(items) => forall i :: 0 <= i < |items| ==> StringsNulFree(items[i])
    case Object(members) =>
      forall i :: 0 <= i < |members| ==> NulFree(members[i].key) && StringsNulFree(members[i].value)
    case _ => true
  }

  /** Whatever the text, an accepted tree nests at most 1000 deep and holds only C strings. */
  lemma {:induction false} AcceptedAdmissible(t: seq<byte>, o: nat, nest: nat)
    requires Terminated(t) && o < |t| && nest <= NESTING_LIMIT
    ensures var r := ReadValue(t, o, nest);
            r.Parsed? ==> Admissible(r.value, nest)
    decreases |t| - o, 1
  {
    hide At;
    hide ReadArray;
    hide ReadObject;
    hide ReadString;
    if t[o] == LBRACKET {
      ArrayAdmissible(t, o, nest);
    } else if t[o] == LBRACE {
      ObjectAdmissible(t, o, nest);
    }
  }

  lemma {:induction false} ArrayAdmissible(t: seq<byte>, o: nat, nest: nat)
    requires Terminated(t) && o < |t| - 1 && t[o] == LBRACKET && nest <= NESTING_LIMIT
    ensures var r := ReadArray(t, o, nest);
            r.Parsed? ==> Admissible(r.value, nest)
    decreases |t| - o, 0
  {
    hide ReadItems;
    if nest < NESTING_LIMIT && t[SkipWhitespace(t, o + 1)] != RBRACKET {
      ItemsAdmissible(t, SkipWhitespace(t, o + 1), nest + 1);
    }
  }

  lemma ItemsPrepended(v: Value, rest: seq<Value>, nest: nat)
    requires Admissible(v, nest) && nest + ItemsNesting(rest) <= NESTING_LIMIT
    requires forall i :: 0 <= i < |rest| ==> StringsNulFree(rest[i])
    ensures nest + ItemsNesting([v] + rest) <= NESTING_LIMIT
    ensures forall i :: 0 <= i < |[v] + rest| ==> StringsNulFree(([v] + rest)[i])
  {
    hide Nesting;
    hide StringsNulFree;
    assert ([v] + rest)[1..] == rest;
  }

  lemma {:induction false} ItemsAdmissible(t: seq<byte>, o: nat, nest: nat)
    requires Terminated(t) && o < |t| && nest <= NESTING_LIMIT
    ensures var r := ReadItems(t, o, nest);
            r.ItemsParsed? ==>
              && nest + ItemsNesting(r.items) <= NESTING_LIMIT
              && forall i :: 0 <= i < |r.items| ==> StringsNulFree(r.items[i])
    decreases |t| - o, 2
  {
    hide ReadValue;
    hide ReadItems;
    hide Admissible;
    hide StringsNulFree;
    hide SkipWhitespace;
    AcceptedAdmissible(t, o, nest);
    ItemsUnfold(t, o, nest);
    var r := ReadValue(t, o, nest);
    if r.Parsed? {
      ItemsPrepended(r.value, [], nest);
      var after := SkipWhitespace(t, r.next);
      assert [r.value] + [] == [r.value];
      if t[after] == COMMA {
        var next := SkipWhitespace(t, after + 1);
        ItemsAdmissible(t, next, nest);
        var rest := ReadItems(t, next, nest);
        if rest.ItemsParsed? {
          ItemsPrepended(r.value, rest.items, nest);
        }
      }
    }
  }

  lemma {:induction false} ObjectAdmissible(t: seq<byte>, o: nat, nest: nat)
    requires Terminated(t) && o < |t| - 1 && t[o] == LBRACE && nest <= NESTING_LIMIT
    ensures var r := ReadObject(t, o, nest);
            r.Parsed? ==> Admissible(r.value, nest)
    decreases |t| - o, 0
  {
    hide ReadMembers;
    if nest < NESTING_LIMIT && t[SkipWhitespace(t, o + 1)] != RBRACE {
      MembersAdmissible(t, SkipWhitespace(t, o + 1), nest + 1);
    }
  }

  lemma MembersPrepended(m: Member, rest: seq<Member>, nest: nat)
    requires NulFree(m.key) && Admissible(m.value, nest) && nest + MembersNesting(rest) <= NESTING_LIMIT
    requires forall i :: 0 <= i < |rest| ==> NulFree(rest[i].key) && StringsNulFree(rest[i].value)
    ensures nest + MembersNesting([m] + rest) <= NESTING_LIMIT
    ensures forall i :: 0 <= i < |[m] + rest| ==>
              NulFree(([m] + rest)[i].key) && StringsNulFree(([m] + rest)[i].value)
  {
    hide Nesting;
    hide StringsNulFree;
    assert ([m] + rest)[1..] == rest;
  }

  lemma {:induction false} MembersAdmissible(t: seq<byte>, o: nat, nest: nat)
    requires Terminated(t) && o < |t| && nest <= NESTING_LIMIT
    ensures var r := ReadMembers(t, o, nest);
            r.MembersParsed? ==>
              && nest + MembersNesting(r.members) <= NESTING_LIMIT
              && forall i :: 0 <= i < |r.members| ==>
                   NulFree(r.members[i].key) && StringsNulFree(r.members[i].value)
    decreases |t| - o, 3
  {
    hide ReadMember;
    hide ReadMembers;
    hide Admissible;
    hide StringsNulFree;
    hide SkipWhitespace;
    MemberAdmissible(t, o, nest);
    MembersUnfold(t, o, nest);
    var r := ReadMember(t, o, nest);
    if r.MemberParsed? {
      MembersPrepended(r.member, [], nest);
      var after := SkipWhitespace(t, r.next);
      assert [r.member] + [] == [r.member];
      if t[after] == COMMA {
        var next := SkipWhitespace(t, after + 1);
        MembersAdmissible(t, next, nest);
        var rest := ReadMembers(t, next, nest);
        if rest.MembersParsed? {
          MembersPrepended(r.member, rest.members, nest);
        }
      }
    }
  }

  lemma {:induction false} MemberAdmissible(t: seq<byte>, o: nat, nest: nat)
    requires Terminated(t) && o < |t| && nest <= NESTING_LIMIT
    ensures var r := ReadMember(t, o, nest);
            r.MemberParsed? ==> NulFree(r.member.key) && Admissible(r.member.value, nest)
    decreases |t| - o, 2
  {
    hide ReadValue;
    hide ReadString;
    var key := ReadString(t, o);
    if key.Read? {
      OnlyTerminator(t, key.next - 1);
      var colon := SkipWhitespace(t, key.next);
      if t[colon] == COLON {
        AcceptedAdmissible(t, SkipWhitespace(t, colon + 1), nest);
      }
    }
  }
}
