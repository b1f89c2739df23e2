/**
 The printer, writing into a buffer that is either the caller's (and never grows) or reallocated on demand.

 One contract covers both: printing `v` at the current offset succeeds exactly when the text and two more
 bytes fit the capacity, and then the buffer holds that text, terminated, after an untouched prefix.
 */
module JsonPrinter {
  import opened Bytes
  import opened JsonValue
  import JsonRoundTrip

  const INT_MAX: nat := 0x7FFF_FFFF

  class PrintBuffer {
    var buffer: array<byte>
    var offset: nat
    var depth: nat
    const noalloc: bool
    const format: bool

    ghost predicate Valid()
      reads this
    {
      buffer.Length <= INT_MAX && (offset < buffer.Length || (offset == 0 && buffer.Length == 0))
    }

    /** The largest length the buffer can take. */
    ghost function Capacity(): nat
      reads this
    {
      if noalloc then buffer.Length else INT_MAX
    }

    /** Text of this length, printed from the current offset, fits with the two bytes the printer insists on. */
    ghost predicate Fits(length: nat)
      reads this
    {
      offset + length + 2 <= Capacity()
    }

    constructor (buffer: array<byte>, noalloc: bool, format: bool)
      requires buffer.Length <= INT_MAX
      ensures Valid() && this.buffer == buffer && offset == 0 && depth == 0
      ensures this.noalloc == noalloc && this.format == format
    {
      this.buffer := buffer;
      this.offset := 0;
      this.depth := 0;
      this.noalloc := noalloc;
      this.format := format;
    }

    /** Room for `needed` more bytes and a terminator. */
    method Ensure(needed: nat) returns (ok: bool)
      requires Valid()
      modifies this`buffer
      ensures Valid() && Capacity() == old(Capacity())
      ensures ok <==> offset + needed + 1 <= Capacity()
      ensures ok ==> offset + needed + 1 <= buffer.Length && offset < buffer.Length
      ensures buffer == old(buffer) || (fresh(buffer) && !noalloc && old(buffer.Length) <= buffer.Length)
      ensures offset <= buffer.Length && old(offset <= buffer.Length) && buffer[..offset] == old(buffer[..offset])
    {
      if buffer.Length > 0 && offset >= buffer.Length {
        return false;
      }
      if needed > INT_MAX {
        return false;
      }
      var total := needed + offset + 1;
      if total <= buffer.Length {
        return true;
      }
      if noalloc {
        return false;
      }
      var newSize;
      if total > INT_MAX / 2 {
        if total <= INT_MAX {
          newSize := INT_MAX;
        } else {
          return false;
        }
      } else {
        newSize := total * 2;
      }
      var grown := new byte[newSize];
      forall i | 0 <= i < buffer.Length {
        grown[i] := buffer[i];
      }
      assert grown[..offset] == buffer[..offset];
      buffer := grown;
      ok := true;
    }

    /** `strcpy` to the current offset. */
    method StrCpy(s: seq<byte>)
      requires offset + |s| < buffer.Length
      modifies buffer
      ensures buffer[..offset + |s|] == old(buffer[..offset]) + s && buffer[offset + |s|] == NUL
    {
      forall i | 0 <= i < |s| {
        buffer[offset + i] := s[i];
      }
      buffer[offset + |s|] := NUL;
      assert buffer[..offset] == old(buffer[..offset]);
      assert buffer[offset..offset + |s|] == s;
      assert buffer[..offset + |s|] == buffer[..offset] + buffer[offset..offset + |s|];
    }

    /** Move the offset to the terminator of the text that was printed from `start`. */
    method UpdateOffset(ghost start: nat, ghost text: seq<byte>)
      requires start <= offset <= start + |text| < buffer.Length
      requires buffer[start..start + |text|] == text && buffer[start + |text|] == NUL && NulFree(text)
      modifies this`offset
      ensures offset == start + |text|
    {
      assert forall i :: start <= i < start + |text| ==> buffer[i] == text[i - start] != NUL;
      var length := 0;
      while buffer[offset + length] != NUL
        invariant offset + length <= start + |text|
        decreases start + |text| - offset - length
      {
        length := length + 1;
      }
      offset := offset + length;
    }

    /** The contract shared by the methods that print a whole value or key. */
    twostate predicate Printed(text: seq<byte>)
      reads this, buffer
    {
      && Valid() && depth == old(depth)
      && old(offset) <= offset <= old(offset) + |text| < buffer.Length
      && old(offset <= buffer.Length)
      && buffer[..old(offset) + |text|] == old(buffer[..offset]) + text
      && buffer[old(offset) + |text|] == NUL
    }

    /** Nothing but this object and its buffer changes, and the caller's own buffer is never replaced. */
    twostate predicate Framed()
      reads this
    {
      && Capacity() == old(Capacity())
      && (buffer == old(buffer) || (fresh(buffer) && !noalloc))
    }

    method PrintNumber(lexeme: seq<byte>) returns (ok: bool)
      requires Valid() && |lexeme| < NUMBER_BUFFER
      modifies this`buffer, this`offset, buffer
      ensures Framed() && (ok <==> old(Fits(|lexeme|))) && (ok ==> Printed(lexeme))
    {
      ok := Ensure(|lexeme| + 1);
      if ok {
        StrCpy(lexeme);
        offset := offset + |lexeme|;
      }
    }

    method PrintWord(word: seq<byte>) returns (ok: bool)
      requires Valid()
      modifies this`buffer, buffer
      ensures Framed() && (ok <==> old(Fits(|word|))) && (ok ==> Printed(word))
    {
      ok := Ensure(|word| + 1);
      if ok {
        StrCpy(word);
      }
    }

    /** The additional characters escaping needs. */
    method CountEscapes(input: seq<byte>) returns (extra: nat)
      ensures |Escape(input)| == |input| + extra
    {
      extra := 0;
      var i := 0;
      while i < |input|
        invariant 0 <= i <= |input|
        invariant |Escape(input)| == i + extra + |Escape(input[i..])|
      {
        var c := input[i];
        assert input[i..][1..] == input[i + 1..];
        if c in {QUOTE, BACKSLASH, 0x08, 0x0C, NEWLINE, RETURN, TAB} {
          extra := extra + 1;
        } else if c < 32 {
          extra := extra + 5;
        }
        i := i + 1;
      }
    }

    method PrintStringPtr(input: seq<byte>) returns (ok: bool)
      requires Valid() && NulFree(input)
      modifies this`buffer, buffer
      ensures Framed() && (ok <==> old(Fits(|Quoted(input)|))) && (ok ==> Printed(Quoted(input)))
    {
      hide Escape;
      hide EscapeByte;
      var extra := CountEscapes(input);
      var length := |input| + extra;
      ok := Ensure(length + 3);
      if ok {
        WriteQuoted(input, extra);
      }
    }

    method WriteQuoted(input: seq<byte>, extra: nat)
      requires |Escape(input)| == |input| + extra
      requires offset + |Escape(input)| + 2 < buffer.Length
      modifies buffer
      ensures buffer[..offset + |Quoted(input)|] == old(buffer[..offset]) + Quoted(input)
      ensures buffer[offset + |Quoted(input)|] == NUL
    {
      hide *;
      ghost var prefix := buffer[..offset];
      var length := |input| + extra;
      QuotedParts(input, prefix);
      buffer[offset] := QUOTE;
      assert buffer[..offset + 1] == prefix + [QUOTE];
      if extra == 0 {
        NothingEscaped(input);
        forall i | 0 <= i < |input| {
          buffer[offset + 1 + i] := input[i];
        }
        assert buffer[..offset + 1 + length] == prefix + [QUOTE] + input;
      } else {
        WriteEscaped(input, length);
      }
      assert buffer[..offset + 1 + length] == prefix + [QUOTE] + Escape(input);
      buffer[offset + length + 1] := QUOTE;
      buffer[offset + length + 2] := NUL;
      assert buffer[..offset + 2 + length] == buffer[..offset + 1 + length] + [QUOTE];
    }

    /** One character of the escaping copy; `sprintf` leaves a terminator after a `\u` sequence. */
    method WriteEscape(c: byte, at: nat) returns (end: nat)
      requires at + |EscapeByte(c)| < buffer.Length
      modifies buffer
      ensures end == at + |EscapeByte(c)| && buffer[..end] == old(buffer[..at]) + EscapeByte(c)
    {
      end := at;
      if c > 31 && c != QUOTE && c != BACKSLASH {
        buffer[end] := c;
      } else {
        buffer[end] := BACKSLASH;
        end := end + 1;
        if ShortEscape(c) != NUL {
          buffer[end] := ShortEscape(c);
        } else {
          buffer[end], buffer[end + 1], buffer[end + 2] := 0x75, 0x30, 0x30;
          buffer[end + 3], buffer[end + 4] := HexDigit(c / 16), HexDigit(c % 16);
          buffer[end + 5] := NUL;
          end := end + 4;
        }
      }
      end := end + 1;
      assert buffer[at..end] == EscapeByte(c);
      assert buffer[..end] == buffer[..at] + buffer[at..end];
    }

    /** The escaping copy, one byte past the opening quote. */
    method WriteEscaped(input: seq<byte>, length: nat)
      requires length == |Escape(input)|
      requires offset + length + 2 < buffer.Length
      modifies buffer
      ensures buffer[..offset + 1 + length] == old(buffer[..offset + 1]) + Escape(input)
    {
      hide EscapeByte;
      ghost var before := buffer[..offset + 1];
      var i, p := 0, offset + 1;
      ghost var done: seq<byte> := [];
      while i < |input|
        invariant 0 <= i <= |input|
        invariant done + Escape(input[i..]) == Escape(input)
        invariant p == offset + 1 + |done| && p <= buffer.Length && buffer[..p] == before + done
      {
        EscapeFirst(input, i, done);
        p := WriteEscape(input[i], p);
        done := done + EscapeByte(input[i]);
        i := i + 1;
      }
    }

    method PrintValue(v: Value) returns (ok: bool)
      requires Valid() && WellFormed(v)
      modifies this, buffer
      ensures Framed() && (ok <==> old(Fits(|Text(v, format, depth)|)))
      ensures ok ==> Printed(Text(v, format, old(depth)))
      decreases v, 1
    {
      hide ItemsText;
      hide MembersText;
      hide Quoted;
      match v
      case Null => ok := PrintWord(NULL_TEXT);
      case False => ok := PrintWord(FALSE_TEXT);
      case True => ok := PrintWord(TRUE_TEXT);
      case Number(lexeme) => ok := PrintNumber(lexeme);
      case NonFinite(_) => ok := PrintNumber(NULL_TEXT);
      case String(text) => ok := PrintStringPtr(text);
      case Array(items) => ok := PrintArray(items);
      case Object(members) => ok := PrintObject(members);
    }

    /** Text has been appended and passed: the buffer holds what it held and then `s`. */
    twostate predicate Appended(s: seq<byte>)
      reads this, buffer
    {
      && Valid() && offset == old(offset) + |s| && offset <= buffer.Length && old(offset <= buffer.Length)
      && buffer[..offset] == old(buffer[..offset]) + s
    }

    /** `ensure`, then bytes written and passed: brackets, separators and indentation. */
    method Append(s: seq<byte>, needed: nat, terminate: bool) returns (ok: bool)
      requires Valid() && |s| <= needed && (terminate ==> |s| < needed)
      modifies this`offset, this`buffer, buffer
      ensures Framed() && (ok <==> old(offset) + needed + 1 <= Capacity())
      ensures ok ==> Appended(s)
    {
      ok := Ensure(needed);
      if !ok {
        return;
      }
      ghost var prefix := buffer[..offset];
      forall i | 0 <= i < |s| {
        buffer[offset + i] := s[i];
      }
      if terminate {
        buffer[offset + |s|] := NUL;
      }
      offset := offset + |s|;
      assert buffer[..offset] == prefix + s;
    }

    /** A child: `print_value` and then `update_offset`. */
    method PrintChild(v: Value) returns (ok: bool)
      requires Valid() && WellFormed(v)
      modifies this, buffer
      ensures Framed() && (ok <==> old(Fits(|Text(v, format, depth)|)))
      ensures ok ==> depth == old(depth) && Appended(Text(v, format, old(depth)))
      decreases v, 2
    {
      hide Text;
      ghost var start, text := offset, Text(v, format, depth);
      ok := PrintValue(v);
      if ok {
        JsonRoundTrip.TextNulFree(v, format, depth);
        assert buffer[start..start + |text|] == text;
        UpdateOffset(start, text);
      }
    }

    /** A key: `print_string_ptr` and then `update_offset`. */
    method PrintKey(key: seq<byte>) returns (ok: bool)
      requires Valid() && NulFree(key)
      modifies this`offset, this`buffer, buffer
      ensures Framed() && (ok <==> old(Fits(|Quoted(key)|)))
      ensures ok ==> depth == old(depth) && Appended(Quoted(key))
    {
      ghost var start, text := offset, Quoted(key);
      ok := PrintStringPtr(key);
      if ok {
        JsonRoundTrip.TextNulFree(String(key), format, depth);
        assert buffer[start..start + |text|] == text;
        UpdateOffset(start, text);
      }
    }

    /** One turn of the element loop. */
    method PrintElement(v: Value, more: bool) returns (ok: bool)
      requires Valid() && WellFormed(v)
      modifies this, buffer
      ensures var text := Text(v, format, old(depth)) + ItemSeparator(more, format);
              Framed() && (ok <==> old(Fits(|text|))) && (ok ==> depth == old(depth) && Appended(text))
      decreases v, 3
    {
      hide Text;
      ok := PrintChild(v);
      if ok && more {
        var length := if format then 2 else 1;
        ok := Append(ItemSeparator(true, format), length + 1, true);
      }
    }

    method PrintElements(items: seq<Value>) returns (ok: bool)
      requires Valid() && WellFormed(Array(items))
      modifies this, buffer
      ensures var text := ItemsText(items, format, old(depth));
              Framed() && (if ok then depth == old(depth) && Appended(text) else !old(Fits(|text|)))
      decreases items, 3
    {
      hide Text;
      hide ItemsText;
      hide ItemSeparator;
      ghost var prefix := buffer[..offset];
      ghost var all := ItemsText(items, format, depth);
      ghost var done: seq<byte> := [];
      ok := true;
      var i := 0;
      while i < |items|
        invariant 0 <= i <= |items|
        invariant Valid() && Framed() && depth == old(depth)
        invariant offset == old(offset) + |done| && buffer[..offset] == prefix + done
        invariant done + ItemsText(items[i..], format, depth) == all
      {
        ghost var text := Text(items[i], format, depth) + ItemSeparator(i + 1 < |items|, format);
        ItemsFirst(items, i, format, depth, done);
        ok := PrintElement(items[i], i + 1 < |items|);
        if !ok {
          return;
        }
        assert prefix + done + text == prefix + (done + text);
        done := done + text;
        i := i + 1;
      }
      NoItemsLeft(items, format, depth);
      assert done == all;
    }

    /** The last bytes of a container: written and terminated, but not passed. */
    method Close(s: seq<byte>) returns (ok: bool)
      requires Valid()
      modifies this`buffer, buffer
      ensures Framed() && (ok <==> offset + |s| + 2 <= Capacity())
      ensures ok ==>
                && Valid() && offset + |s| < buffer.Length && old(offset <= buffer.Length)
                && buffer[..offset + |s|] == old(buffer[..offset]) + s && buffer[offset + |s|] == NUL
    {
      ok := Ensure(|s| + 1);
      if ok {
        StrCpy(s);
      }
    }

    method PrintArray(items: seq<Value>) returns (ok: bool)
      requires Valid() && WellFormed(Array(items))
      modifies this, buffer
      ensures var text := Text(Array(items), format, old(depth));
              Framed() && (ok <==> old(Fits(|text|))) && (ok ==> Printed(text))
      decreases items, 4
    {
      hide Text;
      hide WellFormed;
      hide ItemsText;
      ghost var prefix := buffer[..offset];
      ghost var inner := ItemsText(items, format, depth + 1);
      ArrayText(items, format, depth, prefix);
      ok := Append([LBRACKET], 1, false);
      if !ok {
        return;
      }
      depth := depth + 1;
      ok := PrintElements(items);
      if !ok {
        return;
      }
      ok := Close([RBRACKET]);
      if ok {
        depth := depth - 1;
      }
    }

    /** The member loop up to the value: indentation, key and colon. */
    method PrintMemberHead(key: seq<byte>) returns (ok: bool)
      requires Valid() && NulFree(key)
      modifies this`offset, this`buffer, buffer
      ensures var text := MemberHead(key, format, depth);
              Framed() && depth == old(depth) && (if ok then Appended(text) else !old(Fits(|text|)))
    {
      hide Quoted;
      hide Indent;
      ghost var prefix := buffer[..offset];
      ghost var indent, quoted, colon := Indent(format, depth), Quoted(key), [COLON] + OnlyIf(format, TAB);
      assert prefix + MemberHead(key, format, depth) == prefix + indent + quoted + colon;
      if format {
        FormattedIndent(depth);
        ok := Append(Indent(true, depth), depth, false);
        if !ok {
          return;
        }
      } else {
        NoIndent(depth);
      }
      assert buffer[..offset] == prefix + indent;
      ok := PrintKey(key);
      if !ok {
        return;
      }
      var length := if format then 2 else 1;
      ok := Append([COLON] + OnlyIf(format, TAB), length, false);
    }

    /** One turn of the member loop. */
    method PrintMember(member: Member, more: bool) returns (ok: bool)
      requires Valid() && NulFree(member.key) && WellFormed(member.value)
      modifies this, buffer
      ensures var text := MemberText(member, more, format, old(depth));
              Framed() && (ok <==> old(Fits(|text|))) && (ok ==> depth == old(depth) && Appended(text))
      decreases member, 0
    {
      hide Text;
      hide MemberHead;
      ghost var prefix := buffer[..offset];
      ghost var head, text := MemberHead(member.key, format, depth), Text(member.value, format, depth);
      ghost var separator := MemberSeparator(more, format);
      assert prefix + MemberText(member, more, format, depth) == prefix + head + text + separator;
      ok := PrintMemberHead(member.key);
      if !ok {
        return;
      }
      ok := PrintChild(member.value);
      if !ok {
        return;
      }
      var length := (if format then 1 else 0) + if more then 1 else 0;
      ok := Append(MemberSeparator(more, format), length + 1, true);
    }

    method PrintMembers(members: seq<Member>) returns (ok: bool)
      requires Valid() && WellFormed(Object(members))
      modifies this, buffer
      ensures var text := MembersText(members, format, old(depth));
              Framed() && (if ok then depth == old(depth) && Appended(text) else !old(Fits(|text|)))
      decreases members, 3
    {
      hide Text;
      hide MembersText;
      hide MemberText;
      hide MemberSeparator;
      hide Quoted;
      hide Indent;
      ghost var prefix := buffer[..offset];
      ghost var all := MembersText(members, format, depth);
      ghost var done: seq<byte> := [];
      ok := true;
      var i := 0;
      while i < |members|
        invariant 0 <= i <= |members|
        invariant Valid() && Framed() && depth == old(depth)
        invariant offset == old(offset) + |done| && buffer[..offset] == prefix + done
        invariant done + MembersText(members[i..], format, depth) == all
      {
        ghost var text := MemberText(members[i], i + 1 < |members|, format, depth);
        MembersFirst(members, i, format, depth, done);
        ok := PrintMember(members[i], i + 1 < |members|);
        if !ok {
          return;
        }
        assert prefix + done + text == prefix + (done + text);
        done := done + text;
        i := i + 1;
      }
      NoMembersLeft(members, format, depth);
      assert done == all;
    }

    method PrintObject(members: seq<Member>) returns (ok: bool)
      requires Valid() && WellFormed(Object(members))
      modifies this, buffer
      ensures var text := Text(Object(members), format, old(depth));
              Framed() && (ok <==> old(Fits(|text|))) && (ok ==> Printed(text))
      decreases members, 4
    {
      hide Text;
      hide WellFormed;
      hide MembersText;
      hide Indent;
      hide OnlyIf;
      ghost var prefix := buffer[..offset];
      OneOrNone(format, NEWLINE);
      ghost var open := [LBRACE] + OnlyIf(format, NEWLINE);
      ghost var inner := MembersText(members, format, depth + 1);
      ObjectText(members, format, depth, prefix);
      var length := if format then 2 else 1;
      ok := Append([LBRACE] + OnlyIf(format, NEWLINE), length + 1, false);
      if !ok {
        return;
      }
      depth := depth + 1;
      ok := PrintMembers(members);
      if !ok {
        return;
      }
      assert offset == old(offset) + |open| + |inner| && buffer[..offset] == prefix + open + inner;
      ok := Close(Indent(format, depth - 1) + [RBRACE]);
      if ok {
        depth := depth - 1;
      }
    }
  }

  /**
   `cJSON_PrintPreallocated`: the caller's buffer must hold the text and two more bytes, no fewer and no
   more, and then it holds the text and its terminator.
   */
  method PrintPreallocated(v: Value, buf: array<byte>, fmt: bool) returns (ok: bool)
    requires WellFormed(v) && buf.Length <= INT_MAX
    modifies buf
    ensures ok <==> |Text(v, fmt, 0)| + 2 <= buf.Length
    ensures ok ==> buf[..|Text(v, fmt, 0)| + 1] == Text(v, fmt, 0) + [NUL]
  {
    hide Text;
    var p := new PrintBuffer(buf, true, fmt);
    assert p.buffer[..0] == [];
    ok := p.PrintValue(v);
    if ok {
      assert buf[..|Text(v, fmt, 0)| + 1] == buf[..|Text(v, fmt, 0)|] + [NUL];
    }
  }

  /** `cJSON_Print` and `cJSON_PrintUnformatted`: a fresh allocation of exactly the text and its terminator. */
  method Print(v: Value, fmt: bool) returns (printed: array?<byte>)
    requires WellFormed(v)
    ensures printed != null <==> |Text(v, fmt, 0)| + 2 <= INT_MAX
    ensures printed != null ==> fresh(printed) && printed[..] == Text(v, fmt, 0) + [NUL]
  {
    hide Text;
    var initial := new byte[256];
    var p := new PrintBuffer(initial, false, fmt);
    assert p.buffer[..0] == [];
    var ok := p.PrintChild(v);
    if !ok {
      return null;
    }
    var shrunk := new byte[p.offset + 1];
    forall i | 0 <= i < p.offset {
      shrunk[i] := p.buffer[i];
    }
    shrunk[p.offset] := NUL;
    assert shrunk[..p.offset] == p.buffer[..p.offset];
    assert shrunk[..] == shrunk[..p.offset] + [NUL];
    printed := shrunk;
  }

  /** `cJSON_PrintBuffered`: any non-negative guess gives the same text, in a buffer that may be larger. */
  method PrintBuffered(v: Value, prebuffer: int, fmt: bool) returns (printed: array?<byte>)
    requires WellFormed(v) && prebuffer <= INT_MAX
    ensures printed != null <==> 0 <= prebuffer && |Text(v, fmt, 0)| + 2 <= INT_MAX
    ensures printed != null ==>
              && fresh(printed) && |Text(v, fmt, 0)| < printed.Length
              && printed[..|Text(v, fmt, 0)| + 1] == Text(v, fmt, 0) + [NUL]
  {
    hide Text;
    if prebuffer < 0 {
      return null;
    }
    var initial := new byte[prebuffer];
    var p := new PrintBuffer(initial, false, fmt);
    assert p.buffer[..0] == [];
    var ok := p.PrintValue(v);
    if !ok {
      return null;
    }
    printed := p.buffer;
    assert printed[..|Text(v, fmt, 0)| + 1] == printed[..|Text(v, fmt, 0)|] + [NUL];
  }

  function MemberHead(key: seq<byte>, fmt: bool, depth: nat): seq<byte> {
    Indent(fmt, depth) + Quoted(key) + [COLON] + OnlyIf(fmt, TAB)
  }

  function MemberText(member: Member, more: bool, fmt: bool, depth: nat): seq<byte> {
    MemberHead(member.key, fmt, depth) + Text(member.value, fmt, depth) + MemberSeparator(more, fmt)
  }

  lemma FormattedIndent(depth: nat)
    ensures |Indent(true, depth)| == depth
  {
  }

  lemma NoIndent(depth: nat)
    ensures Indent(false, depth) == []
  {
  }

  lemma MembersFirst(members: seq<Member>, i: nat, fmt: bool, depth: nat, done: seq<byte>)
    requires i < |members|
    ensures done + MembersText(members[i..], fmt, depth) ==
            done + MemberText(members[i], i + 1 < |members|, fmt, depth) + MembersText(members[i + 1..], fmt, depth)
  {
    hide Text;
    hide Quoted;
    hide Indent;
    hide OnlyIf;
    hide MemberSeparator;
    var rest, first := MembersText(members[i + 1..], fmt, depth), MemberText(members[i], i + 1 < |members|, fmt, depth);
    assert members[i..][0] == members[i] && members[i..][1..] == members[i + 1..];
    assert MembersText(members[i..], fmt, depth) == first + rest;
    assert done + (first + rest) == done + first + rest;
  }

  lemma NoMembersLeft(members: seq<Member>, fmt: bool, depth: nat)
    ensures MembersText(members[|members|..], fmt, depth) == []
    ensures members[0..] == members
  {
  }

  lemma NoItemsLeft(items: seq<Value>, fmt: bool, depth: nat)
    ensures ItemsText(items[|items|..], fmt, depth) == []
  {
  }

  lemma OneOrNone(present: bool, c: byte)
    ensures |OnlyIf(present, c)| == if present then 1 else 0
  {
  }

  lemma ObjectText(members: seq<Member>, fmt: bool, depth: nat, prefix: seq<byte>)
    ensures var open, inner, close := [LBRACE] + OnlyIf(fmt, NEWLINE), MembersText(members, fmt, depth + 1),
                                      Indent(fmt, depth) + [RBRACE];
            && prefix + Text(Object(members), fmt, depth) == prefix + open + inner + close
            && |Text(Object(members), fmt, depth)| == |open| + |inner| + |close|
  {
    hide MembersText;
    hide Indent;
  }

  lemma ArrayText(items: seq<Value>, fmt: bool, depth: nat, prefix: seq<byte>)
    ensures var inner := ItemsText(items, fmt, depth + 1);
            && prefix + Text(Array(items), fmt, depth) == prefix + [LBRACKET] + inner + [RBRACKET]
            && |Text(Array(items), fmt, depth)| == |inner| + 2
  {
  }

  /** The text of the elements from `i` on, after what was printed before them. */
  lemma ItemsFirst(items: seq<Value>, i: nat, fmt: bool, depth: nat, done: seq<byte>)
    requires i < |items|
    ensures done + ItemsText(items[i..], fmt, depth) ==
            done + (Text(items[i], fmt, depth) + ItemSeparator(i + 1 < |items|, fmt))
            + ItemsText(items[i + 1..], fmt, depth)
  {
    hide Text;
    hide ItemSeparator;
    var first := Text(items[i], fmt, depth) + ItemSeparator(i + 1 < |items|, fmt);
    var rest := ItemsText(items[i + 1..], fmt, depth);
    assert items[i..][0] == items[i] && items[i..][1..] == items[i + 1..];
    assert ItemsText(items[i..], fmt, depth) == first + rest;
    assert done + (first + rest) == done + first + rest;
  }

  lemma EscapeFirst(s: seq<byte>, i: nat, done: seq<byte>)
    requires i < |s| && done + Escape(s[i..]) == Escape(s)
    ensures done + EscapeByte(s[i]) + Escape(s[i + 1..]) == Escape(s)
  {
  }

  lemma QuotedParts(s: seq<byte>, prefix: seq<byte>)
    ensures |Quoted(s)| == |Escape(s)| + 2
    ensures prefix + Quoted(s) == prefix + [QUOTE] + Escape(s) + [QUOTE]
  {
  }

  lemma {:induction false} NothingEscaped(s: seq<byte>)
    requires |Escape(s)| == |s|
    ensures Escape(s) == s
  {
    if s != [] {
      EscapeGrows(s[1..]);
      NothingEscaped(s[1..]);
    }
  }

  lemma {:induction false} EscapeGrows(s: seq<byte>)
    ensures |s| <= |Escape(s)|
  {
    if s != [] {
      EscapeGrows(s[1..]);
    }
  }
}
