/**
 What cJSON reads at an offset of a NUL-terminated text, as functions of the text.

 These functions specify the methods of `JsonParser`; the laws that make them worth specifying
 against (progress, depth, failure positions, two-pass sizing) are stated here and in `JsonRoundTrip`.
 */
module JsonReading {
  import opened Bytes
  import opened Wrappers
  import opened JsonValue
  import Utf

  const NESTING_LIMIT: nat := 1000

  /** A C string together with its terminator. */
  predicate Terminated(t: seq<byte>) {
    |t| > 0 && t[|t| - 1] == NUL && forall i :: 0 <= i < |t| - 1 ==> t[i] != NUL
  }

  lemma OnlyTerminator(t: seq<byte>, i: nat)
    requires Terminated(t) && i < |t|
    ensures t[i] == NUL <==> i == |t| - 1
  {
  }

  /** Whitespace and every other control byte are skipped, but never past the last byte. */
  function SkipWhitespace(t: seq<byte>, o: nat): (r: nat)
    requires 0 < |t| && o <= |t|
    ensures o < |t| ==> o <= r < |t|
    ensures o < |t| && t[|t| - 1] <= SPACE ==> r == |t| - 1 || t[r] > SPACE
    ensures forall i :: o <= i < r && i < |t| ==> t[i] <= SPACE
    decreases |t| - o
  {
    if o == |t| then o - 1
    else if t[o] <= SPACE then SkipWhitespace(t, o + 1)
    else o
  }

  // ---------------------------------------------------------------- strings

  /** The first scan: where the literal opened before `i` closes, skipping escape pairs. */
  function ClosingQuote(t: seq<byte>, i: nat): (r: Option<nat>)
    ensures r.Some? ==> i <= r.value < |t| && t[r.value] == QUOTE
    decreases |t| - i
  {
    if i >= |t| then None
    else if t[i] == QUOTE then Some(i)
    else if t[i] == BACKSLASH then
      if i + 1 >= |t| then None else ClosingQuote(t, i + 2)
    else ClosingQuote(t, i + 1)
  }

  /** How many escape pairs the first scan, started at `i`, opens before `stop`. */
  function Pairs(t: seq<byte>, i: nat, stop: nat): nat
    requires stop <= |t|
    decreases |t| - i
  {
    if i >= stop then 0
    else if t[i] == BACKSLASH then 1 + Pairs(t, i + 2, stop)
    else Pairs(t, i + 1, stop)
  }

  function ShortUnescape(c: byte): Option<byte> {
    if c == 0x62 then Some(0x08)
    else if c == 0x66 then Some(0x0C)
    else if c == 0x6E then Some(NEWLINE)
    else if c == 0x72 then Some(RETURN)
    else if c == 0x74 then Some(TAB)
    else if c == QUOTE || c == BACKSLASH || c == SLASH then Some(c)
    else None
  }

  datatype Piece = BadPiece | Piece(bytes: seq<byte>, consumed: nat)

  /** What the second scan writes for the character or escape at `p`, and how many characters it passes. */
  function PieceAt(t: seq<byte>, p: nat, end: nat): (r: Piece)
    requires p < end < |t|
    ensures r.Piece? ==> 0 < r.consumed && 1 <= |r.bytes|
  {
    if t[p] != BACKSLASH then Piece([t[p]], 1)
    else if t[p + 1] == 0x75 then
      match Utf.DecodeLiteral(t, p, end)
      case Rejected => BadPiece
      case Accepted(codepoint, consumed) =>
        Utf.AcceptedIsUtf16(t, p, end);
        Piece(Utf.Utf8(codepoint), consumed)
    else
      match ShortUnescape(t[p + 1])
      case None => BadPiece
      case Some(c) => Piece([c], 2)
  }

  datatype Scan = Written(bytes: seq<byte>) | Broken(at: nat)

  function Prepend(s: seq<byte>, r: Scan): Scan {
    if r.Written? then Written(s + r.bytes) else r
  }

  /** The second scan: what it writes for the characters from `p` up to the closing quote at `end`. */
  function Unescape(t: seq<byte>, p: nat, end: nat): (r: Scan)
    requires end < |t|
    ensures r.Broken? ==> p <= r.at < end
    decreases end - p
  {
    if p >= end then Written([])
    else
      match PieceAt(t, p, end)
      case BadPiece => Broken(p)
      case Piece(bytes, consumed) => Prepend(bytes, Unescape(t, p + consumed, end))
  }

  datatype StringResult = Read(text: seq<byte>, next: nat) | Unread(at: nat)

  function ReadString(t: seq<byte>, o: nat): (r: StringResult)
    requires o < |t|
    ensures r.Read? ==> o + 1 < r.next <= |t| && NulFree(r.text)
    ensures r.Unread? ==> o < r.at <= |t|
  {
    if t[o] != QUOTE then Unread(o + 1)
    else
      match ClosingQuote(t, o + 1)
      case None => Unread(o + 1)
      case Some(end) =>
        match Unescape(t, o + 1, end)
        case Broken(at) => Unread(at)
        case Written(bytes) => Read(CString(bytes), end + 1)
  }

  // ---------------------------------------------------------------- numbers

  /** The end of the number characters at `o`, before `stop`. */
  function NumberRun(t: seq<byte>, o: nat, stop: nat): (r: nat)
    requires o <= stop && o <= |t|
    ensures o <= r <= |t| && r <= stop
    ensures forall i :: o <= i < r ==> NumberChar(t[i])
    decreases |t| - o
  {
    if o < stop && o < |t| && NumberChar(t[o]) then NumberRun(t, o + 1, stop) else o
  }

  const NUMBER_ROOM: nat := 63

  function ReadNumber(t: seq<byte>, o: nat): (r: Result)
    requires o < |t|
    ensures r.Parsed? ==> o < r.next <= |t| && NumberChar(t[r.next - 1])
    ensures r.Failed? ==> r.at == o
  {
    var copied := t[o..NumberRun(t, o, o + NUMBER_ROOM)];
    var n := StrtodLength(copied);
    if n == 0 then Failed(o) else Parsed(Number(copied[..n]), o + n)
  }

  // ---------------------------------------------------------------- values

  datatype Result = Parsed(value: Value, next: nat) | Failed(at: nat)
  datatype ItemsResult = ItemsParsed(items: seq<Value>, next: nat) | ItemsFailed(at: nat)
  datatype MemberResult = MemberParsed(member: Member, next: nat) | MemberFailed(at: nat)
  datatype MembersResult = MembersParsed(members: seq<Member>, next: nat) | MembersFailed(at: nat)

  /** The value at `o`, which is enclosed by `depth` arrays and objects. */
  function ReadValue(t: seq<byte>, o: nat, depth: nat): (r: Result)
    requires Terminated(t) && o < |t|
    ensures r.Parsed? ==> o < r.next < |t|
    ensures r.Failed? ==> r.at <= |t|
    decreases |t| - o, 1
  {
    OnlyTerminator(t, o);
    if At(t, o, NULL_TEXT) then Word(t, o, NULL_TEXT, Null)
    else if At(t, o, FALSE_TEXT) then Word(t, o, FALSE_TEXT, False)
    else if At(t, o, TRUE_TEXT) then Word(t, o, TRUE_TEXT, True)
    else if t[o] == QUOTE then
      match ReadString(t, o)
      case Unread(at) => Failed(at)
      case Read(text, next) => OnlyTerminator(t, next - 1); Parsed(String(text), next)
    else if t[o] == MINUS || Digit(t[o]) then
      var r := ReadNumber(t, o);
      if r.Parsed? then OnlyTerminator(t, r.next - 1); r else r
    else if t[o] == LBRACKET then ReadArray(t, o, depth)
    else if t[o] == LBRACE then ReadObject(t, o, depth)
    else Failed(o)
  }

  function Word(t: seq<byte>, o: nat, word: seq<byte>, v: Value): (r: Result)
    requires Terminated(t) && At(t, o, word) && word != [] && word[|word| - 1] != NUL
    ensures r == Parsed(v, o + |word|) && r.next < |t|
  {
    assert t[o..o + |word|][|word| - 1] == t[o + |word| - 1];
    OnlyTerminator(t, o + |word| - 1);
    Parsed(v, o + |word|)
  }

  function ReadArray(t: seq<byte>, o: nat, depth: nat): (r: Result)
    requires Terminated(t) && o < |t| - 1 && t[o] == LBRACKET
    ensures r.Parsed? ==> o < r.next < |t|
    ensures r.Failed? ==> r.at <= |t|
    decreases |t| - o, 0
  {
    if depth >= NESTING_LIMIT then Failed(o)
    else
      var first := SkipWhitespace(t, o + 1);
      if t[first] == RBRACKET then OnlyTerminator(t, first); Parsed(Array([]), first + 1)
      else
        match ReadItems(t, first, depth + 1)
        case ItemsFailed(at) => Failed(at)
        case ItemsParsed(items, next) => Parsed(Array(items), next)
  }

  /** The elements from `o` on, and the bracket that closes them. */
  function ReadItems(t: seq<byte>, o: nat, depth: nat): (r: ItemsResult)
    requires Terminated(t) && o < |t|
    ensures r.ItemsParsed? ==> o < r.next < |t| && r.items != []
    ensures r.ItemsFailed? ==> r.at <= |t|
    decreases |t| - o, 2
  {
    match ReadValue(t, o, depth)
    case Failed(at) => ItemsFailed(at)
    case Parsed(v, next) =>
      var after := SkipWhitespace(t, next);
      OnlyTerminator(t, after);
      if t[after] == COMMA then
        match ReadItems(t, SkipWhitespace(t, after + 1), depth)
        case ItemsFailed(at) => ItemsFailed(at)
        case ItemsParsed(items, end) => ItemsParsed([v] + items, end)
      else if t[after] == RBRACKET then ItemsParsed([v], after + 1)
      else ItemsFailed(after)
  }

  function ReadObject(t: seq<byte>, o: nat, depth: nat): (r: Result)
    requires Terminated(t) && o < |t| - 1 && t[o] == LBRACE
    ensures r.Parsed? ==> o < r.next < |t|
    ensures r.Failed? ==> r.at <= |t|
    decreases |t| - o, 0
  {
    if depth >= NESTING_LIMIT then Failed(o)
    else
      var first := SkipWhitespace(t, o + 1);
      if t[first] == RBRACE then OnlyTerminator(t, first); Parsed(Object([]), first + 1)
      else
        match ReadMembers(t, first, depth + 1)
        case MembersFailed(at) => Failed(at)
        case MembersParsed(members, next) => Parsed(Object(members), next)
  }

  /** The members from `o` on, and the brace that closes them. */
  function ReadMembers(t: seq<byte>, o: nat, depth: nat): (r: MembersResult)
    requires Terminated(t) && o < |t|
    ensures r.MembersParsed? ==> o < r.next < |t| && r.members != []
    ensures r.MembersFailed? ==> r.at <= |t|
    decreases |t| - o, 3
  {
    match ReadMember(t, o, depth)
    case MemberFailed(at) => MembersFailed(at)
    case MemberParsed(member, next) =>
      var after := SkipWhitespace(t, next);
      OnlyTerminator(t, after);
      if t[after] == COMMA then
        match ReadMembers(t, SkipWhitespace(t, after + 1), depth)
        case MembersFailed(at) => MembersFailed(at)
        case MembersParsed(members, end) => MembersParsed([member] + members, end)
      else if t[after] == RBRACE then MembersParsed([member], after + 1)
      else MembersFailed(after)
  }

  /** A key, a colon and a value. */
  function ReadMember(t: seq<byte>, o: nat, depth: nat): (r: MemberResult)
    requires Terminated(t) && o < |t|
    ensures r.MemberParsed? ==> o < r.next < |t|
    ensures r.MemberFailed? ==> r.at <= |t|
    decreases |t| - o, 2
  {
    match ReadString(t, o)
    case Unread(at) => MemberFailed(at)
    case Read(key, next) =>
      OnlyTerminator(t, next - 1);
      var colon := SkipWhitespace(t, next);
      OnlyTerminator(t, colon);
      if t[colon] != COLON then MemberFailed(colon)
      else
        match ReadValue(t, SkipWhitespace(t, colon + 1), depth)
        case Failed(at) => MemberFailed(at)
        case Parsed(v, end) => MemberParsed(Member(key, v), end)
  }

  // ---------------------------------------------------------------- whole texts

  const BYTE_ORDER_MARK: seq<byte> := [0xEF, 0xBB, 0xBF]

  function SkipByteOrderMark(t: seq<byte>): (o: nat)
    ensures t != [] ==> o < |t|
  {
    if 4 < |t| && At(t, 0, BYTE_ORDER_MARK) then 3 else 0
  }

  /** A failure offset, moved back onto the text when it ran past the terminator. */
  function ErrorPosition(t: seq<byte>, at: nat): nat
    requires t != []
  {
    if at < |t| then at else |t| - 1
  }

  /** `cJSON_ParseWithOpts`: the tree and the end of its text, or the error position. */
  function ReadText(t: seq<byte>, wholeText: bool): (r: Result)
    requires Terminated(t)
    ensures r.Parsed? ==> r.next < |t| && (wholeText ==> r.next == |t| - 1)
    ensures r.Failed? ==> r.at < |t|
  {
    match ReadValue(t, SkipWhitespace(t, SkipByteOrderMark(t)), 0)
    case Failed(at) => Failed(ErrorPosition(t, at))
    case Parsed(v, next) =>
      if !wholeText then Parsed(v, next)
      else
        var end := SkipWhitespace(t, next);
        OnlyTerminator(t, end);
        if t[end] == NUL then Parsed(v, end) else Failed(ErrorPosition(t, end))
  }

  // ---------------------------------------------------------------- two-pass sizing

  lemma {:induction false} PairsOne(t: seq<byte>, i: nat, stop: nat)
    requires stop < |t|
    ensures Pairs(t, i, stop) <= Pairs(t, i, stop + 1) <= Pairs(t, i, stop) + 1
    ensures t[stop] != BACKSLASH ==> Pairs(t, i, stop + 1) == Pairs(t, i, stop)
    decreases stop + 2 - i
  {
    if i < stop {
      PairsOne(t, if t[i] == BACKSLASH then i + 2 else i + 1, stop);
    }
  }

  /** Two neighbouring characters cannot both open a pair. */
  lemma {:induction false} PairsTwo(t: seq<byte>, i: nat, stop: nat)
    requires stop + 2 <= |t|
    ensures Pairs(t, i, stop) <= Pairs(t, i, stop + 2) <= Pairs(t, i, stop) + 1
    decreases stop + 2 - i
  {
    if i < stop {
      PairsTwo(t, if t[i] == BACKSLASH then i + 2 else i + 1, stop);
    } else if i == stop && t[i] != BACKSLASH {
      PairsOne(t, i + 1, stop + 1);
    }
  }

  lemma {:induction false} PairsMany(t: seq<byte>, i: nat, p: nat, twos: nat)
    requires p + 2 * twos <= |t|
    ensures Pairs(t, i, p) <= Pairs(t, i, p + 2 * twos) <= Pairs(t, i, p) + twos
  {
    if twos > 0 {
      PairsMany(t, i, p, twos - 1);
      PairsTwo(t, i, p + 2 * (twos - 1));
    }
  }

  /** The backslash before the closing quote, if there is one, opens no pair: it is the second half of one. */
  lemma {:induction false} NoPairAtEnd(t: seq<byte>, i: nat, end: nat)
    requires ClosingQuote(t, i) == Some(end) && i < end
    ensures t[end - 1] == BACKSLASH ==> Pairs(t, i, end) == Pairs(t, i, end - 1)
    decreases end - i
  {
    var next := if t[i] == BACKSLASH then i + 2 else i + 1;
    if next < end {
      NoPairAtEnd(t, next, end);
    }
  }

  function Min(a: nat, b: nat): (r: nat)
    ensures r <= a && r <= b
  {
    if a < b then a else b
  }

  /** One piece is no longer than the characters it passes before the quote, less the pairs opened there. */
  lemma PieceFits(t: seq<byte>, s: nat, p: nat, end: nat)
    requires s <= p < end && ClosingQuote(t, s) == Some(end)
    ensures match PieceAt(t, p, end)
            case BadPiece => true
            case Piece(bytes, n) =>
              var q := Min(p + n, end);
              p + n <= end + 1 && |bytes| + Pairs(t, s, q) <= Pairs(t, s, p) + q - p
  {
    hide Pairs;
    hide ClosingQuote;
    hide ShortUnescape;
    hide Utf.DecodeLiteral;
    hide Utf.Units;
    if t[p] != BACKSLASH {
      PairsOne(t, s, p);
    } else if t[p + 1] == 0x75 {
      if Utf.DecodeLiteral(t, p, end).Accepted? {
        Utf.AcceptedIsUtf16(t, p, end);
        PairsMany(t, s, p, Utf.DecodeLiteral(t, p, end).consumed / 2);
      }
    } else if p + 2 <= end {
      PairsTwo(t, s, p);
    } else {
      NoPairAtEnd(t, s, end);
    }
  }

  /** Passing a character opens at most one pair. */
  lemma {:induction false} RoomLeft(t: seq<byte>, s: nat, p: nat, end: nat)
    requires p <= end < |t|
    ensures Pairs(t, s, end) <= Pairs(t, s, p) + end - p
    decreases end - p
  {
    if p < end {
      PairsOne(t, s, p);
      RoomLeft(t, s, p + 1, end);
    }
  }

  /**
   The two scans may disagree about where escapes start, because a `\u` with bad digits still swallows six
   characters; whatever they disagree on, the second scan never writes more than the characters between the
   quotes less the pairs the first scan counted.
   */
  lemma {:induction false} UnescapeFits(t: seq<byte>, s: nat, p: nat, end: nat)
    requires s <= p && ClosingQuote(t, s) == Some(end)
    ensures var r := Unescape(t, p, end);
            r.Written? ==> |r.bytes| + Pairs(t, s, end) <= Pairs(t, s, Min(p, end)) + end - Min(p, end)
    decreases end - p
  {
    hide PieceAt;
    hide Pairs;
    hide ClosingQuote;
    if p < end && PieceAt(t, p, end).Piece? {
      PieceFits(t, s, p, end);
      UnescapeFits(t, s, p + PieceAt(t, p, end).consumed, end);
    }
  }

  // ---------------------------------------------------------------- escapes that end the string early

  /** An escape the second scan reads as character 0: `\u0000`, or `\u` with a bad digit. */
  predicate ZeroEscape(t: seq<byte>, p: nat, end: nat)
    requires p < end < |t|
  {
    t[p] == BACKSLASH && t[p + 1] == 0x75 && p + 6 <= end && Utf.ReadsAsZero(t[p + 2..p + 6])
  }

  /** The second scan, from `p` on, meets such an escape. */
  predicate MeetsZero(t: seq<byte>, p: nat, end: nat)
    requires end < |t|
    decreases end - p
  {
    p < end && PieceAt(t, p, end).Piece?
    && (ZeroEscape(t, p, end) || MeetsZero(t, p + PieceAt(t, p, end).consumed, end))
  }

  lemma Utf8Zero(c: nat)
    requires c <= 0x10FFFF
    ensures NulFree(Utf.Utf8(c)) <==> c != 0
  {
    if c == 0 {
      assert Utf.Utf8(c)[0] == NUL;
    } else {
      assert forall i :: 0 <= i < |Utf.Utf8(c)| ==> Utf.Utf8(c)[i] != NUL;
    }
  }

  lemma PieceZero(t: seq<byte>, p: nat, end: nat)
    requires p < end < |t| && t[p] != NUL && PieceAt(t, p, end).Piece?
    ensures NulFree(PieceAt(t, p, end).bytes) <==> !ZeroEscape(t, p, end)
  {
    hide Utf.ReadsAsZero;
    if t[p] == BACKSLASH && t[p + 1] == 0x75 {
      Utf.AcceptedIsUtf16(t, p, end);
      Utf.ZeroAccepted(t, p, end);
      Utf8Zero(Utf.DecodeLiteral(t, p, end).codepoint);
    }
  }

  lemma {:induction false} UnescapedZero(t: seq<byte>, p: nat, end: nat)
    requires end < |t| && (forall i :: p <= i < end ==> t[i] != NUL) && Unescape(t, p, end).Written?
    ensures NulFree(Unescape(t, p, end).bytes) <==> !MeetsZero(t, p, end)
    decreases end - p
  {
    hide PieceAt;
    hide ZeroEscape;
    if p < end {
      var Piece(bytes, consumed) := PieceAt(t, p, end);
      PieceZero(t, p, end);
      UnescapedZero(t, p + consumed, end);
      var rest := Unescape(t, p + consumed, end).bytes;
      assert Unescape(t, p, end).bytes == bytes + rest;
      assert NulFree(bytes + rest) <==> NulFree(bytes) && NulFree(rest);
    }
  }

  lemma CStringWhole(s: seq<byte>)
    ensures CString(s) == s <==> NulFree(s)
  {
  }

  /**
   A literal that scans and unescapes keeps its whole text exactly when the second scan meets no `\u0000` and no
   `\u` with a bad digit; otherwise the string ends before the first of them.
   */
  lemma WholeTextKept(t: seq<byte>, o: nat, end: nat)
    requires Terminated(t) && o < |t| && t[o] == QUOTE && ClosingQuote(t, o + 1) == Some(end)
    requires Unescape(t, o + 1, end).Written?
    ensures ReadString(t, o).Read? && ReadString(t, o).next == end + 1
    ensures ReadString(t, o).text == Unescape(t, o + 1, end).bytes <==> !MeetsZero(t, o + 1, end)
  {
    hide Unescape;
    hide MeetsZero;
    hide CString;
    OnlyTerminator(t, end);
    UnescapedZero(t, o + 1, end);
    CStringWhole(Unescape(t, o + 1, end).bytes);
  }

  /** `"\uZZZZa"` and `"\u0000a"` read as the empty string. */
  lemma BadDigitsEndString()
    ensures ReadString([QUOTE, BACKSLASH, 0x75, 0x5A, 0x5A, 0x5A, 0x5A, 0x61, QUOTE, NUL], 0) == Read([], 9)
    ensures ReadString([QUOTE, BACKSLASH, 0x75, 0x30, 0x30, 0x30, 0x30, 0x61, QUOTE, NUL], 0) == Read([], 9)
  {
    ZeroThenLetter(0x5A);
    ZeroThenLetter(0x30);
  }

  lemma ZeroThenLetter(d: byte)
    requires d == 0x5A || d == 0x30
    ensures ReadString([QUOTE, BACKSLASH, 0x75, d, d, d, d, 0x61, QUOTE, NUL], 0) == Read([], 9)
  {
    var t := [QUOTE, BACKSLASH, 0x75, d, d, d, d, 0x61, QUOTE, NUL];
    assert ClosingQuote(t, 7) == Some(8);
    assert ClosingQuote(t, 6) == Some(8);
    assert ClosingQuote(t, 5) == Some(8);
    assert ClosingQuote(t, 4) == Some(8);
    assert ClosingQuote(t, 3) == Some(8);
    assert ClosingQuote(t, 1) == Some(8);
    assert t[3..7] == [d, d, d, d];
    assert Utf.DecodeLiteral(t, 1, 8) == Utf.Accepted(0, 6);
    assert PieceAt(t, 1, 8) == Piece([0], 6);
    assert Unescape(t, 8, 8) == Written([]);
    assert Unescape(t, 7, 8) == Written([0x61]);
    assert Unescape(t, 1, 8) == Written([0, 0x61]);
    assert CString([0, 0x61]) == [];
  }
}
