/**
 The recursive-descent parser over an offset and a nesting counter, statement by statement.

 Every method is tied to a function of `JsonReading`: the same tree and the same end offset on success,
 the same failure offset otherwise.  Indexing `content` and `output` is what proves that nothing outside
 the text is read and nothing outside the string allocation is written.
 */
module JsonParser {
  import opened Bytes
  import opened Wrappers
  import opened JsonValue
  import opened JsonReading
  import JsonExact
  import Utf

  class ParseBuffer {
    const content: seq<byte>
    var offset: nat
    var depth: nat

    ghost predicate Valid()
      reads this
    {
      Terminated(content) && offset <= |content| && depth <= NESTING_LIMIT
    }

    constructor (text: seq<byte>)
      requires NulFree(text)
      ensures Valid() && content == text + [NUL] && offset == 0 && depth == 0
    {
      content := text + [NUL];
      offset := 0;
      depth := 0;
    }

    method BufferSkipWhitespace()
      requires Valid()
      modifies this`offset
      ensures Valid() && offset == SkipWhitespace(content, old(offset))
    {
      while offset < |content| && content[offset] <= SPACE
        invariant offset <= |content|
        invariant SkipWhitespace(content, offset) == SkipWhitespace(content, old(offset))
      {
        offset := offset + 1;
      }
      if offset == |content| {
        offset := offset - 1;
      }
    }

    method SkipUtf8Bom()
      requires Valid() && offset == 0
      modifies this`offset
      ensures Valid() && offset == SkipByteOrderMark(content)
    {
      if offset + 4 < |content| && content[offset..offset + 3] == BYTE_ORDER_MARK {
        offset := offset + 3;
      }
    }

    /** The copy that `strtod` is given. */
    method CopyNumber() returns (copied: seq<byte>)
      requires Valid() && offset < |content|
      ensures copied == content[offset..NumberRun(content, offset, offset + NUMBER_ROOM)]
    {
      copied := [];
      var i := 0;
      while i < NUMBER_ROOM && offset + i < |content| && NumberChar(content[offset + i])
        invariant 0 <= i <= NUMBER_ROOM && offset + i <= |content|
        invariant copied == content[offset..offset + i]
        invariant NumberRun(content, offset, offset + NUMBER_ROOM) ==
                  NumberRun(content, offset + i, offset + NUMBER_ROOM)
      {
        copied := copied + [content[offset + i]];
        i := i + 1;
      }
    }

    method ParseNumber() returns (ok: bool, value: Value)
      requires Valid() && offset < |content|
      modifies this`offset
      ensures Valid()
      ensures Agrees(ReadNumber(content, old(offset)), ok, value, offset)
    {
      var copied := CopyNumber();
      var consumed := StrtodLength(copied);
      if consumed == 0 {
        return false, Null;
      }
      ok, value := true, Number(copied[..consumed]);
      offset := offset + consumed;
    }

    /** The first scan: the closing quote and the escape pairs before it. */
    method ScanLiteral() returns (ok: bool, end: nat, skipped: nat)
      requires Valid() && offset < |content| && content[offset] == QUOTE
      ensures ok <==> ClosingQuote(content, offset + 1).Some?
      ensures ok ==> ClosingQuote(content, offset + 1) == Some(end)
      ensures ok ==> skipped == Pairs(content, offset + 1, end) && skipped <= end - (offset + 1)
    {
      end, skipped := offset + 1, 0;
      ghost var start := offset + 1;
      while end < |content| && content[end] != QUOTE
        invariant start <= end && skipped <= end - start
        invariant ClosingQuote(content, end) == ClosingQuote(content, start)
        invariant forall stop :: end <= stop <= |content| ==>
                    Pairs(content, start, stop) == skipped + Pairs(content, end, stop)
        decreases |content| - end
      {
        if content[end] == BACKSLASH {
          if end + 1 >= |content| {
            return false, end, skipped;
          }
          skipped := skipped + 1;
          end := end + 1;
        }
        end := end + 1;
      }
      if end >= |content| || content[end] != QUOTE {
        return false, end, skipped;
      }
      ok := true;
    }

    method ParseString() returns (ok: bool, text: seq<byte>)
      requires Valid() && offset < |content|
      modifies this`offset
      ensures Valid()
      ensures match ReadString(content, old(offset))
              case Read(expected, next) => ok && text == expected && offset == next
              case Unread(at) => !ok && offset == at
    {
      text := [];
      if content[offset] != QUOTE {
        offset := offset + 1;
        return false, text;
      }
      var closed, end, skipped := ScanLiteral();
      if !closed {
        offset := offset + 1;
        return false, text;
      }
      var scan := UnescapeLiteral(content, offset + 1, end, skipped);
      if scan.Broken? {
        offset := scan.at;
        return false, text;
      }
      ok, text := true, scan.bytes;
      offset := end + 1;
    }

    method ParseValue() returns (ok: bool, value: Value)
      requires Valid() && offset < |content|
      modifies this
      ensures Valid() && (ok ==> depth == old(depth))
      ensures Agrees(ReadValue(content, old(offset), old(depth)), ok, value, offset)
      decreases |content| - offset, 1
    {
      OnlyTerminator(content, offset);
      if offset + 4 <= |content| && content[offset..offset + 4] == NULL_TEXT {
        offset := offset + 4;
        return true, Null;
      }
      if offset + 5 <= |content| && content[offset..offset + 5] == FALSE_TEXT {
        offset := offset + 5;
        return true, False;
      }
      if offset + 4 <= |content| && content[offset..offset + 4] == TRUE_TEXT {
        offset := offset + 4;
        return true, True;
      }
      if content[offset] == QUOTE {
        var text;
        ok, text := ParseString();
        return ok, String(text);
      }
      if content[offset] == MINUS || 0x30 <= content[offset] <= 0x39 {
        ok, value := ParseNumber();
        return;
      }
      if content[offset] == LBRACKET {
        ok, value := ParseArray();
        return;
      }
      if content[offset] == LBRACE {
        ok, value := ParseObject();
        return;
      }
      return false, Null;
    }

    method ParseArray() returns (ok: bool, value: Value)
      requires Valid() && offset < |content| - 1 && content[offset] == LBRACKET
      modifies this
      ensures Valid() && (ok ==> depth == old(depth))
      ensures Agrees(ReadArray(content, old(offset), old(depth)), ok, value, offset)
      decreases |content| - offset, 0
    {
      value := Null;
      if depth >= NESTING_LIMIT {
        return false, value;
      }
      depth := depth + 1;
      offset := offset + 1;
      BufferSkipWhitespace();
      assert SkipWhitespace(content, offset) == offset;
      if content[offset] == RBRACKET {
        OnlyTerminator(content, offset);
        depth := depth - 1;
        offset := offset + 1;
        return true, Array([]);
      }
      hide ReadItems;
      var items;
      ok, items := ParseItems();
      if ok {
        depth := depth - 1;
        offset := offset + 1;
        value := Array(items);
      }
    }

    /** The comma-separated items from the first one on, up to the closing bracket. */
    method ParseItems() returns (ok: bool, items: seq<Value>)
      requires Valid() && 0 < offset < |content| && SkipWhitespace(content, offset) == offset
      modifies this
      ensures Valid() && (ok ==> depth == old(depth))
      ensures match ReadItems(content, old(offset), old(depth))
              case ItemsParsed(expected, next) => ok && items == expected && offset + 1 == next
              case ItemsFailed(at) => !ok && offset == at
      decreases |content| - offset, 2
    {
      hide AfterItems;
      hide ItemsEnd;
      hide ReadItems;
      hide ReadValue;
      hide SkipWhitespace;
      ghost var all := ReadItems(content, offset, depth);
      offset := offset - 1;
      items := [];
      ItemsStart(all);
      var more := true;
      while more
        invariant Valid() && depth == old(depth) && offset < |content|
        invariant old(offset) <= offset + 1 && (more ==> offset + 1 < |content|)
        invariant more ==> all == AfterItems(items, ReadItems(content, SkipWhitespace(content, offset + 1), depth))
        invariant !more ==> all == AfterItems(items, ItemsEnd(content, offset))
        decreases more, |content| - offset
      {
        offset := offset + 1;
        BufferSkipWhitespace();
        ItemsUnfold(content, offset, depth, items);
        var parsed, value := ParseValue();
        if !parsed {
          return false, items;
        }
        items := items + [value];
        BufferSkipWhitespace();
        more := content[offset] == COMMA;
      }
      ItemsStop(content, offset, items);
      ok := content[offset] == RBRACKET;
    }

    method ParseMember() returns (ok: bool, member: Member)
      requires Valid() && offset < |content|
      modifies this
      ensures Valid() && (ok ==> depth == old(depth))
      ensures match ReadMember(content, old(offset), old(depth))
              case MemberParsed(expected, next) => ok && member == expected && offset == next
              case MemberFailed(at) => !ok && offset == at
      decreases |content| - offset, 2
    {
      member := Member([], Null);
      var named, key := ParseString();
      if !named {
        return false, member;
      }
      OnlyTerminator(content, offset - 1);
      BufferSkipWhitespace();
      OnlyTerminator(content, offset);
      if content[offset] != COLON {
        return false, member;
      }
      offset := offset + 1;
      BufferSkipWhitespace();
      hide ReadValue;
      var value;
      ok, value := ParseValue();
      member := Member(key, value);
    }

    method ParseObject() returns (ok: bool, value: Value)
      requires Valid() && offset < |content| - 1 && content[offset] == LBRACE
      modifies this
      ensures Valid() && (ok ==> depth == old(depth))
      ensures Agrees(ReadObject(content, old(offset), old(depth)), ok, value, offset)
      decreases |content| - offset, 0
    {
      value := Null;
      if depth >= NESTING_LIMIT {
        return false, value;
      }
      depth := depth + 1;
      offset := offset + 1;
      BufferSkipWhitespace();
      assert SkipWhitespace(content, offset) == offset;
      if content[offset] == RBRACE {
        OnlyTerminator(content, offset);
        depth := depth - 1;
        offset := offset + 1;
        return true, Object([]);
      }
      hide ReadMembers;
      var members;
      ok, members := ParseMembers();
      if ok {
        depth := depth - 1;
        offset := offset + 1;
        value := Object(members);
      }
    }

    /** The comma-separated members from the first one on, up to the closing brace. */
    method ParseMembers() returns (ok: bool, members: seq<Member>)
      requires Valid() && 0 < offset < |content| && SkipWhitespace(content, offset) == offset
      modifies this
      ensures Valid() && (ok ==> depth == old(depth))
      ensures match ReadMembers(content, old(offset), old(depth))
              case MembersParsed(expected, next) => ok && members == expected && offset + 1 == next
              case MembersFailed(at) => !ok && offset == at
      decreases |content| - offset, 3
    {
      hide AfterMembers;
      hide MembersEnd;
      hide ReadMembers;
      hide ReadMember;
      hide SkipWhitespace;
      ghost var all := ReadMembers(content, offset, depth);
      offset := offset - 1;
      members := [];
      MembersStart(all);
      var more := true;
      while more
        invariant Valid() && depth == old(depth) && offset < |content|
        invariant old(offset) <= offset + 1 && (more ==> offset + 1 < |content|)
        invariant more ==>
                    all == AfterMembers(members, ReadMembers(content, SkipWhitespace(content, offset + 1), depth))
        invariant !more ==> all == AfterMembers(members, MembersEnd(content, offset))
        decreases more, |content| - offset
      {
        offset := offset + 1;
        BufferSkipWhitespace();
        MembersUnfold(content, offset, depth, members);
        var parsed, member := ParseMember();
        if !parsed {
          return false, members;
        }
        members := members + [member];
        BufferSkipWhitespace();
        more := content[offset] == COMMA;
      }
      MembersStop(content, offset, members);
      ok := content[offset] == RBRACE;
    }
  }

  /**
   `cJSON_ParseWithOpts`: `end` is where the tree's text ends, or the error position.  A whole text is accepted
   exactly when it stands for a tree, and that is the tree.
   */
  method ParseWithOpts(text: seq<byte>, requireNullTerminated: bool)
    returns (ok: bool, value: Value, end: nat)
    requires NulFree(text)
    ensures Agrees(ReadText(text + [NUL], requireNullTerminated), ok, value, end)
    ensures end <= |text|
    ensures requireNullTerminated ==>
              if ok then JsonExact.Denotes(text + [NUL], value)
              else forall v :: !JsonExact.Denotes(text + [NUL], v)
  {
    hide JsonExact.Denotes;
    var buffer := new ParseBuffer(text);
    buffer.SkipUtf8Bom();
    buffer.BufferSkipWhitespace();
    ok, value := buffer.ParseValue();
    if ok && requireNullTerminated {
      buffer.BufferSkipWhitespace();
      OnlyTerminator(buffer.content, buffer.offset);
      ok := buffer.content[buffer.offset] == NUL;
    }
    if ok {
      end := buffer.offset;
    } else {
      end := if buffer.offset < |buffer.content| then buffer.offset else |buffer.content| - 1;
    }
    JsonExact.Settled(text + [NUL]);
  }

  /** One escape sequence of the second scan; consuming 0 characters is failure. */
  method UnescapeSequence(content: seq<byte>, p: nat, end: nat, output: array<byte>, at: nat)
    returns (consumed: nat, length: nat)
    requires p < end < |content| && content[p] == BACKSLASH
    requires PieceAt(content, p, end).Piece? ==> at + |PieceAt(content, p, end).bytes| <= output.Length
    modifies output
    ensures match PieceAt(content, p, end)
            case BadPiece => consumed == 0
            case Piece(bytes, n) =>
              consumed == n && length == |bytes| && output[..at + length] == old(output[..at]) + bytes
  {
    if content[p + 1] == 0x75 {
      consumed, length := Utf.Utf16LiteralToUtf8(content, p, end, output, at);
    } else {
      var unescaped := ShortUnescape(content[p + 1]);
      if unescaped.None? {
        return 0, 0;
      }
      output[at] := unescaped.value;
      consumed, length := 2, 1;
      assert output[..at + 1] == output[..at] + [unescaped.value];
    }
  }

  /** The second scan, into an allocation of the size the first scan computed plus the terminator. */
  method UnescapeLiteral(content: seq<byte>, start: nat, end: nat, skipped: nat) returns (scan: Scan)
    requires start < |content| && ClosingQuote(content, start) == Some(end)
    requires skipped == Pairs(content, start, end) && skipped <= end - start
    ensures match Unescape(content, start, end)
            case Broken(at) => scan == Broken(at)
            case Written(bytes) => scan == Written(CString(bytes))
  {
    hide *;
    var pointer := start;
    var allocation := end - (start - 1) - skipped;
    var output := new byte[allocation + 1];
    var written := 0;
    NothingWritten(content, start, end);
    assert output[..0] == [];
    while pointer < end
      invariant start <= pointer <= end + 1
      invariant 0 <= written < allocation
      invariant written + Pairs(content, start, Min(pointer, end)) <= Min(pointer, end) - start
      invariant Unescape(content, start, end) == Prepend(output[..written], Unescape(content, pointer, end))
      decreases end + 1 - pointer
    {
      ghost var before := output[..written];
      ghost var p := pointer;
      UnescapeStep(content, start, p, end, before);
      if content[pointer] != BACKSLASH {
        output[written] := content[pointer];
        written, pointer := written + 1, pointer + 1;
        assert output[..written] == before + [content[p]];
      } else {
        var consumed, length := UnescapeSequence(content, pointer, end, output, written);
        if consumed == 0 {
          return Broken(pointer);
        }
        written, pointer := written + length, pointer + consumed;
      }
    }
    NothingLeft(content, pointer, end, output[..written]);
    output[written] := NUL;
    CStringStops(output[..], written);
    assert output[..][..written] == output[..written];
    scan := Written(CString(output[..]));
  }

  /** A parser method's outcome and final offset are what the text reads as. */
  ghost predicate Agrees(r: Result, ok: bool, value: Value, offset: nat) {
    match r
    case Parsed(v, next) => ok && value == v && offset == next
    case Failed(at) => !ok && offset == at
  }

  // ---------------------------------------------------------------- loop lemmas

  lemma UnescapeStep(t: seq<byte>, start: nat, p: nat, end: nat, before: seq<byte>)
    requires start <= p < end && ClosingQuote(t, start) == Some(end)
    requires |before| + Pairs(t, start, Min(p, end)) <= Min(p, end) - start
    ensures t[p] != BACKSLASH ==> PieceAt(t, p, end) == Piece([t[p]], 1)
    ensures match PieceAt(t, p, end)
            case BadPiece => Prepend(before, Unescape(t, p, end)) == Broken(p)
            case Piece(bytes, n) =>
              && p + n <= end + 1
              && |before| + |bytes| + Pairs(t, start, Min(p + n, end)) <= Min(p + n, end) - start
              && |before| + |bytes| <= end - start - Pairs(t, start, end)
              && Prepend(before, Unescape(t, p, end)) == Prepend(before + bytes, Unescape(t, p + n, end))
  {
    if PieceAt(t, p, end).Piece? {
      var Piece(bytes, n) := PieceAt(t, p, end);
      PieceFits(t, start, p, end);
      RoomLeft(t, start, Min(p + n, end), end);
      PrependTwice(before, bytes, Unescape(t, p + n, end));
    }
  }

  lemma NothingWritten(t: seq<byte>, start: nat, end: nat)
    requires start <= end < |t|
    ensures Prepend([], Unescape(t, start, end)) == Unescape(t, start, end)
    ensures Min(start, end) == start && Pairs(t, start, start) == 0
  {
  }

  lemma NothingLeft(t: seq<byte>, p: nat, end: nat, before: seq<byte>)
    requires end <= p && end < |t|
    ensures Prepend(before, Unescape(t, p, end)) == Written(before)
  {
  }

  lemma PrependTwice(a: seq<byte>, b: seq<byte>, r: Scan)
    ensures Prepend(a, Prepend(b, r)) == Prepend(a + b, r)
  {
  }

  lemma {:induction false} CStringStops(s: seq<byte>, n: nat)
    requires n < |s| && s[n] == NUL
    ensures CString(s) == CString(s[..n])
  {
    if n > 0 {
      CStringStops(s[1..], n - 1);
      assert s[..n][1..] == s[1..][..n - 1];
    }
  }

  ghost function AfterItems(items: seq<Value>, r: ItemsResult): ItemsResult {
    if r.ItemsParsed? then ItemsParsed(items + r.items, r.next) else r
  }

  ghost function ItemsEnd(t: seq<byte>, o: nat): ItemsResult
    requires o < |t|
  {
    if t[o] == RBRACKET then ItemsParsed([], o + 1) else ItemsFailed(o)
  }

  lemma ItemsStart(r: ItemsResult)
    ensures AfterItems([], r) == r
  {
  }

  lemma ItemsStop(t: seq<byte>, o: nat, items: seq<Value>)
    requires o < |t|
    ensures AfterItems(items, ItemsEnd(t, o)) == if t[o] == RBRACKET then ItemsParsed(items, o + 1) else ItemsFailed(o)
  {
  }

  /** One turn of the loop, entered at `o` with `items` already parsed. */
  lemma ItemsUnfold(t: seq<byte>, o: nat, depth: nat, items: seq<Value>)
    requires Terminated(t) && o < |t|
    ensures var all := AfterItems(items, ReadItems(t, o, depth));
            match ReadValue(t, o, depth)
            case Failed(at) => all == ItemsFailed(at)
            case Parsed(v, next) =>
              var after := SkipWhitespace(t, next);
              && (t[after] == COMMA ==>
                    && after + 1 < |t|
                    && all == AfterItems(items + [v], ReadItems(t, SkipWhitespace(t, after + 1), depth)))
              && (t[after] != COMMA ==> all == AfterItems(items + [v], ItemsEnd(t, after)))
  {
    hide ReadValue;
    hide SkipWhitespace;
    if ReadValue(t, o, depth).Parsed? {
      var Parsed(v, next) := ReadValue(t, o, depth);
      var after := SkipWhitespace(t, next);
      OnlyTerminator(t, after);
      if t[after] == COMMA {
        var rest := ReadItems(t, SkipWhitespace(t, after + 1), depth);
        if rest.ItemsParsed? {
          assert items + ([v] + rest.items) == items + [v] + rest.items;
        }
      }
    }
  }

  ghost function AfterMembers(members: seq<Member>, r: MembersResult): MembersResult {
    if r.MembersParsed? then MembersParsed(members + r.members, r.next) else r
  }

  ghost function MembersEnd(t: seq<byte>, o: nat): MembersResult
    requires o < |t|
  {
    if t[o] == RBRACE then MembersParsed([], o + 1) else MembersFailed(o)
  }

  lemma MembersStart(r: MembersResult)
    ensures AfterMembers([], r) == r
  {
  }

  lemma MembersStop(t: seq<byte>, o: nat, members: seq<Member>)
    requires o < |t|
    ensures AfterMembers(members, MembersEnd(t, o)) == if t[o] == RBRACE then MembersParsed(members, o + 1) else MembersFailed(o)
  {
  }

  /** One turn of the loop, entered at `o` with `members` already parsed. */
  lemma MembersUnfold(t: seq<byte>, o: nat, depth: nat, members: seq<Member>)
    requires Terminated(t) && o < |t|
    ensures var all := AfterMembers(members, ReadMembers(t, o, depth));
            match ReadMember(t, o, depth)
            case MemberFailed(at) => all == MembersFailed(at)
            case MemberParsed(v, next) =>
              var after := SkipWhitespace(t, next);
              && (t[after] == COMMA ==>
                    && after + 1 < |t|
                    && all == AfterMembers(members + [v], ReadMembers(t, SkipWhitespace(t, after + 1), depth)))
              && (t[after] != COMMA ==> all == AfterMembers(members + [v], MembersEnd(t, after)))
  {
    hide ReadMember;
    hide SkipWhitespace;
    if ReadMember(t, o, depth).MemberParsed? {
      var MemberParsed(v, next) := ReadMember(t, o, depth);
      var after := SkipWhitespace(t, next);
      OnlyTerminator(t, after);
      if t[after] == COMMA {
        var rest := ReadMembers(t, SkipWhitespace(t, after + 1), depth);
        if rest.MembersParsed? {
          assert members + ([v] + rest.members) == members + [v] + rest.members;
        }
      }
    }
  }
}
