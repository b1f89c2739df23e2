/**
 Minifying a formatted print gives the unformatted print, exactly when the minifier never loses track of
 where strings end in a way that shows.  It loses track after a string that ends in a backslash, because it
 takes the second backslash of the printed pair as escaping the closing quote.
 */
module JsonMinifyPrint {
  import opened Bytes
  import opened JsonValue
  import opened JsonMinify
  import opened JsonRoundTrip

  predicate EndsInBackslash(s: seq<byte>) {
    s != [] && s[|s| - 1] == BACKSLASH
  }

  /** Where the minifier believes it is after a printed value: it may also already have kept a blank. */
  datatype State = Outside | InString | Diverged

  function StateAfter(v: Value): State {
    match v
    case String(text) => if EndsInBackslash(text) then InString else Outside
    case Array(items) => StateAfterItems(items)
    case Object(members) => StateAfterMembers(members)
    case _ => Outside
  }

  function StateAfterItems(items: seq<Value>): State {
    if items == [] then Outside
    else if |items| == 1 then StateAfter(items[0])
    else if StateAfter(items[0]).Outside? then StateAfterItems(items[1..])
    else Diverged
  }

  function StateAfterMembers(members: seq<Member>): (r: State)
    ensures !r.InString?
  {
    if members == [] then Outside
    else if EndsInBackslash(members[0].key) || !StateAfter(members[0].value).Outside? then Diverged
    else StateAfterMembers(members[1..])
  }

  /** No string and no key ends in a backslash. */
  predicate NoFinalBackslash(v: Value) {
    match v
    case String(text) => !EndsInBackslash(text)
    case Array(items) => forall i :: 0 <= i < |items| ==> NoFinalBackslash(items[i])
    case Object(members) =>
      forall i :: 0 <= i < |members| ==> !EndsInBackslash(members[i].key) && NoFinalBackslash(members[i].value)
    case _ => true
  }

  /** Two texts agree up to a point where the first has a blank and the second has not. */
  ghost predicate Parted(a: seq<byte>, b: seq<byte>) {
    exists k: nat :: PartedAt(a, b, k)
  }

  predicate PartedAt(a: seq<byte>, b: seq<byte>, k: nat) {
    k < |a| && k < |b| && a[..k] == b[..k] && a[k] <= SPACE < b[k]
  }

  lemma PartedDiffer(a: seq<byte>, b: seq<byte>)
    requires Parted(a, b)
    ensures a != b
  {
  }

  lemma PartedPrefix(p: seq<byte>, a: seq<byte>, b: seq<byte>)
    requires Parted(a, b)
    ensures Parted(p + a, p + b)
  {
    var k: nat :| PartedAt(a, b, k);
    assert (p + a)[..|p| + k] == p + a[..k];
    assert (p + b)[..|p| + k] == p + b[..k];
    assert PartedAt(p + a, p + b, |p| + k);
  }

  lemma PartedSuffix(a: seq<byte>, b: seq<byte>, c: seq<byte>)
    requires Parted(a, b)
    ensures Parted(a, b + c)
  {
    var k: nat :| PartedAt(a, b, k);
    assert (b + c)[..k] == b[..k];
    assert PartedAt(a, b + c, k);
  }

  lemma PartedHere(p: seq<byte>, a: seq<byte>, b: seq<byte>)
    requires a != [] && b != [] && a[0] <= SPACE < b[0]
    ensures Parted(p + a, p + b)
  {
    assert (p + a)[..|p|] == p && (p + b)[..|p|] == p;
    assert PartedAt(p + a, p + b, |p|);
  }

  // ---------------------------------------------------------------- pieces

  lemma Cat(a: seq<byte>, b: seq<byte>, c: seq<byte>)
    ensures a + b + c == a + (b + c)
  {
  }

  lemma Assoc(a: seq<byte>, b: seq<byte>, c: seq<byte>, d: seq<byte>)
    ensures a + b + c + d == a + (b + (c + d))
  {
  }

  /** Characters that are copied wherever they stand outside a string. */
  predicate Kept(c: byte) {
    !Blank(c) && c != SLASH && c != QUOTE
  }

  lemma OneKept(c: byte, rest: seq<byte>)
    ensures Kept(c) ==> Minified([c] + rest) == [c] + Minified(rest)
    ensures Blank(c) ==> Minified([c] + rest) == Minified(rest)
    ensures c == QUOTE ==> Minified([c] + rest) == [c] + MinifiedString(rest)
  {
  }

  lemma OneInString(c: byte, rest: seq<byte>)
    requires c == BACKSLASH ==> rest == [] || rest[0] != QUOTE
    ensures MinifiedString([c] + rest) == [c] + if c == QUOTE then Minified(rest) else MinifiedString(rest)
  {
  }

  lemma {:induction false} MinifiedKept(p: seq<byte>, rest: seq<byte>)
    requires forall i :: 0 <= i < |p| ==> Kept(p[i])
    ensures Minified(p + rest) == p + Minified(rest)
    decreases |p|
  {
    hide Minified;
    if p == [] {
      assert p + rest == rest && p + Minified(rest) == Minified(rest);
    } else {
      assert p + rest == [p[0]] + (p[1..] + rest);
      OneKept(p[0], p[1..] + rest);
      MinifiedKept(p[1..], rest);
      assert p + Minified(rest) == [p[0]] + (p[1..] + Minified(rest));
    }
  }

  lemma {:induction false} MinifiedBlank(p: seq<byte>, rest: seq<byte>)
    requires forall i :: 0 <= i < |p| ==> Blank(p[i])
    ensures Minified(p + rest) == Minified(rest)
    decreases |p|
  {
    hide Minified;
    if p == [] {
      assert p + rest == rest;
    } else {
      assert p + rest == [p[0]] + (p[1..] + rest);
      OneKept(p[0], p[1..] + rest);
      MinifiedBlank(p[1..], rest);
    }
  }

  /** Inside a string everything but quotes and backslashes is copied, blanks included. */
  lemma {:induction false} StringKept(p: seq<byte>, rest: seq<byte>)
    requires forall i :: 0 <= i < |p| ==> p[i] != QUOTE && p[i] != BACKSLASH
    ensures MinifiedString(p + rest) == p + MinifiedString(rest)
    decreases |p|
  {
    hide MinifiedString;
    if p == [] {
      assert p + rest == rest && p + MinifiedString(rest) == MinifiedString(rest);
    } else {
      assert p + rest == [p[0]] + (p[1..] + rest);
      OneInString(p[0], p[1..] + rest);
      StringKept(p[1..], rest);
      assert p + MinifiedString(rest) == [p[0]] + (p[1..] + MinifiedString(rest));
    }
  }

  lemma HexDigitPlain(n: nat)
    requires n < 16
    ensures HexDigit(n) != QUOTE && HexDigit(n) != BACKSLASH
  {
  }

  /** A printed escape passes unharmed, except that a final pair of backslashes swallows the quote after it. */
  lemma EscapePasses(c: byte, rest: seq<byte>)
    requires c == BACKSLASH ==> rest != [] && rest[0] != QUOTE
    ensures MinifiedString(EscapeByte(c) + rest) == EscapeByte(c) + MinifiedString(rest)
  {
    hide MinifiedString;
    hide HexDigit;
    if Plain(c) {
      StringKept([c], rest);
    } else if c == QUOTE {
      EscapedQuote(rest);
    } else if ShortEscape(c) != NUL {
      ShortPasses(ShortEscape(c), rest);
    } else {
      HexPasses(c, rest);
    }
  }

  lemma HexPasses(c: byte, rest: seq<byte>)
    ensures var s := [BACKSLASH, 0x75, 0x30, 0x30, HexDigit(c / 16), HexDigit(c % 16)];
            MinifiedString(s + rest) == s + MinifiedString(rest)
  {
    hide MinifiedString;
    hide HexDigit;
    var digits := [0x75, 0x30, 0x30, HexDigit(c / 16), HexDigit(c % 16)];
    HexDigitPlain(c / 16);
    HexDigitPlain(c % 16);
    LongPasses(digits, rest);
    assert [BACKSLASH] + digits == [BACKSLASH, 0x75, 0x30, 0x30, HexDigit(c / 16), HexDigit(c % 16)];
  }

  lemma ShortPasses(x: byte, rest: seq<byte>)
    requires x != QUOTE && (x == BACKSLASH ==> rest != [] && rest[0] != QUOTE)
    ensures MinifiedString([BACKSLASH, x] + rest) == [BACKSLASH, x] + MinifiedString(rest)
  {
    hide MinifiedString;
    hide Minified;
    OneInString(BACKSLASH, [x] + rest);
    OneInString(x, rest);
    assert [BACKSLASH, x] == [BACKSLASH] + [x];
    Cat([BACKSLASH], [x], rest);
    Cat([BACKSLASH], [x], MinifiedString(rest));
  }

  lemma LongPasses(p: seq<byte>, rest: seq<byte>)
    requires p != [] && forall i :: 0 <= i < |p| ==> p[i] != QUOTE && p[i] != BACKSLASH
    ensures MinifiedString([BACKSLASH] + p + rest) == [BACKSLASH] + p + MinifiedString(rest)
  {
    hide MinifiedString;
    Cat([BACKSLASH], p, rest);
    OneInString(BACKSLASH, p + rest);
    StringKept(p, rest);
    Cat([BACKSLASH], p, MinifiedString(rest));
  }

  lemma EscapedQuote(rest: seq<byte>)
    ensures MinifiedString([BACKSLASH, QUOTE] + rest) == [BACKSLASH, QUOTE] + MinifiedString(rest)
  {
    var s := [BACKSLASH, QUOTE] + rest;
    assert s[0] == BACKSLASH && s[1] == QUOTE && s[2..] == rest;
  }

  lemma EscapeStart(s: seq<byte>)
    requires s != []
    ensures Escape(s) != [] && Escape(s)[0] != QUOTE
  {
  }

  function AfterString(s: seq<byte>, rest: seq<byte>): seq<byte> {
    if EndsInBackslash(s) then MinifiedString(rest) else Minified(rest)
  }

  /** A printed string, from just after its opening quote. */
  lemma {:induction false} MinifiedEscaped(s: seq<byte>, rest: seq<byte>)
    ensures MinifiedString(Escape(s) + ([QUOTE] + rest)) == Escape(s) + ([QUOTE] + AfterString(s, rest))
    decreases |s|
  {
    hide MinifiedString;
    hide Minified;
    hide EscapeByte;
    if s == [] {
      OneInString(QUOTE, rest);
      assert Escape(s) + ([QUOTE] + rest) == [QUOTE] + rest;
      assert Escape(s) + ([QUOTE] + Minified(rest)) == [QUOTE] + Minified(rest);
    } else if s == [BACKSLASH] {
      LastBackslash(rest);
    } else {
      var e, tail := EscapeByte(s[0]), Escape(s[1..]);
      FinalByte(s);
      if s[1..] != [] {
        EscapeStart(s[1..]);
      }
      assert Escape(s) + ([QUOTE] + rest) == e + (tail + ([QUOTE] + rest));
      EscapePasses(s[0], tail + ([QUOTE] + rest));
      MinifiedEscaped(s[1..], rest);
      assert Escape(s) + ([QUOTE] + AfterString(s, rest)) == e + (tail + ([QUOTE] + AfterString(s, rest)));
    }
  }

  lemma FinalByte(s: seq<byte>)
    requires s != [] && s != [BACKSLASH]
    ensures EndsInBackslash(s[1..]) == EndsInBackslash(s)
    ensures s[1..] == [] ==> s[0] != BACKSLASH
  {
  }

  /** The pair of backslashes, the closing quote it hides, and the string that goes on. */
  lemma LastBackslash(rest: seq<byte>)
    ensures MinifiedString(Escape([BACKSLASH]) + ([QUOTE] + rest)) ==
            Escape([BACKSLASH]) + ([QUOTE] + MinifiedString(rest))
  {
    hide MinifiedString;
    assert [BACKSLASH][1..] == [];
    assert Escape([BACKSLASH]) == [BACKSLASH, BACKSLASH];
    assert [BACKSLASH, BACKSLASH] + ([QUOTE] + rest) == [BACKSLASH] + ([BACKSLASH, QUOTE] + rest);
    OneInString(BACKSLASH, [BACKSLASH, QUOTE] + rest);
    EscapedQuote(rest);
    assert [BACKSLASH, BACKSLASH] + ([QUOTE] + MinifiedString(rest))
        == [BACKSLASH] + ([BACKSLASH, QUOTE] + MinifiedString(rest));
  }

  /** A printed string or key. */
  lemma MinifiedQuoted(s: seq<byte>, rest: seq<byte>)
    ensures Minified(Quoted(s) + rest) == Quoted(s) + AfterString(s, rest)
  {
    hide MinifiedString;
    hide Minified;
    hide Escape;
    assert Quoted(s) + rest == [QUOTE] + (Escape(s) + ([QUOTE] + rest));
    OneKept(QUOTE, Escape(s) + ([QUOTE] + rest));
    MinifiedEscaped(s, rest);
    assert Quoted(s) + AfterString(s, rest) == [QUOTE] + (Escape(s) + ([QUOTE] + AfterString(s, rest)));
  }

  // ---------------------------------------------------------------- trees

  /** What minifying formatted text followed by `rest` must give, `plain` being its unformatted print. */
  ghost predicate Follows(r: seq<byte>, plain: seq<byte>, state: State, rest: seq<byte>) {
    match state
    case Outside => r == plain + Minified(rest)
    case InString => r == plain + MinifiedString(rest)
    case Diverged => Parted(r, plain)
  }

  lemma MinifiedNumber(lexeme: seq<byte>, rest: seq<byte>)
    requires IsLexeme(lexeme)
    ensures Minified(lexeme + rest) == lexeme + Minified(rest)
  {
    hide Minified;
    assert forall i :: 0 <= i < |lexeme| ==> lexeme[i] in lexeme && NumberChar(lexeme[i]) && Kept(lexeme[i]);
    MinifiedKept(lexeme, rest);
  }

  lemma {:induction false} MinifiedValue(v: Value, depth: nat, rest: seq<byte>)
    requires WellFormed(v)
    ensures Follows(Minified(Text(v, true, depth) + rest), Text(v, false, depth), StateAfter(v), rest)
    decreases v, 1
  {
    hide Minified;
    hide MinifiedString;
    hide ItemsText;
    hide MembersText;
    hide Quoted;
    hide StateAfterItems;
    hide StateAfterMembers;
    match v
    case Null => MinifiedKept(NULL_TEXT, rest);
    case NonFinite(_) => MinifiedKept(NULL_TEXT, rest);
    case True => MinifiedKept(TRUE_TEXT, rest);
    case False => MinifiedKept(FALSE_TEXT, rest);
    case Number(lexeme) => MinifiedNumber(lexeme, rest);
    case String(text) => MinifiedQuoted(text, rest);
    case Array(items) => MinifiedArray(items, depth, rest);
    case Object(members) => MinifiedObject(members, depth, rest);
  }

  lemma {:induction false} MinifiedArray(items: seq<Value>, depth: nat, rest: seq<byte>)
    requires WellFormed(Array(items))
    ensures Follows(Minified(Text(Array(items), true, depth) + rest), Text(Array(items), false, depth),
                    StateAfterItems(items), rest)
    decreases items, 1
  {
    hide Minified;
    hide MinifiedString;
    var pretty, plain := ItemsText(items, true, depth + 1), ItemsText(items, false, depth + 1);
    var after := [RBRACKET] + rest;
    assert Text(Array(items), true, depth) + rest == [LBRACKET] + (pretty + after);
    assert Text(Array(items), false, depth) == [LBRACKET] + (plain + [RBRACKET]);
    MinifiedKept([LBRACKET], pretty + after);
    MinifiedItems(items, depth + 1, after);
    FollowsClosed(Minified(pretty + after), plain, StateAfterItems(items), rest);
    FollowsPrefix([LBRACKET], Minified(pretty + after), plain + [RBRACKET], StateAfterItems(items), rest);
  }

  lemma FollowsClosed(r: seq<byte>, plain: seq<byte>, state: State, rest: seq<byte>)
    requires Follows(r, plain, state, [RBRACKET] + rest)
    ensures Follows(r, plain + [RBRACKET], state, rest)
  {
    hide Minified;
    hide MinifiedString;
    match state
    case Outside =>
      OneKept(RBRACKET, rest);
      Cat(plain, [RBRACKET], Minified(rest));
    case InString =>
      StringKept([RBRACKET], rest);
      Cat(plain, [RBRACKET], MinifiedString(rest));
    case Diverged =>
      PartedSuffix(r, plain, [RBRACKET]);
  }

  lemma NoItemsText(depth: nat)
    ensures ItemsText([], true, depth) == ItemsText([], false, depth) == []
  {
  }

  lemma OneItemText(items: seq<Value>, depth: nat)
    requires |items| == 1
    ensures ItemsText(items, true, depth) == Text(items[0], true, depth)
    ensures ItemsText(items, false, depth) == Text(items[0], false, depth)
  {
    hide Text;
    assert items[1..] == [];
  }

  lemma MoreItemsText(items: seq<Value>, depth: nat, rest: seq<byte>)
    requires |items| > 1
    ensures ItemsText(items, true, depth) + rest ==
            Text(items[0], true, depth) + ([COMMA, SPACE] + (ItemsText(items[1..], true, depth) + rest))
    ensures ItemsText(items, false, depth) ==
            Text(items[0], false, depth) + ([COMMA] + ItemsText(items[1..], false, depth))
  {
    hide Text;
  }

  lemma ItemsTextStart(items: seq<Value>, depth: nat)
    requires items != [] && WellFormed(items[0])
    ensures ItemsText(items, false, depth) != [] && ItemsText(items, false, depth)[0] > SPACE
  {
    hide Text;
    TextStart(items[0], false, depth);
  }

  lemma {:induction false} MinifiedItems(items: seq<Value>, depth: nat, rest: seq<byte>)
    requires WellFormed(Array(items))
    ensures Follows(Minified(ItemsText(items, true, depth) + rest), ItemsText(items, false, depth),
                    StateAfterItems(items), rest)
    decreases items, 0
  {
    hide Minified;
    hide MinifiedString;
    hide Text;
    hide ItemsText;
    if items == [] {
      NoItemsText(depth);
      assert ItemsText(items, true, depth) + rest == rest;
      assert ItemsText(items, false, depth) + Minified(rest) == Minified(rest);
    } else if |items| == 1 {
      OneItemText(items, depth);
      MinifiedValue(items[0], depth, rest);
    } else {
      var first, plain := Text(items[0], true, depth), Text(items[0], false, depth);
      var next, nextPlain := ItemsText(items[1..], true, depth) + rest, ItemsText(items[1..], false, depth);
      MoreItemsText(items, depth, rest);
      MinifiedValue(items[0], depth, [COMMA, SPACE] + next);
      var r := Minified(first + ([COMMA, SPACE] + next));
      match StateAfter(items[0])
      case Outside =>
        CommaSpace(next);
        MinifiedItems(items[1..], depth, rest);
        FollowsPrefix(plain + [COMMA], Minified(next), nextPlain, StateAfterItems(items[1..]), rest);
        Cat(plain, [COMMA], Minified(next));
        Cat(plain, [COMMA], nextPlain);
      case InString =>
        StringKept([COMMA, SPACE], next);
        ItemsTextStart(items[1..], depth);
        PartedHere(plain + [COMMA], [SPACE] + MinifiedString(next), nextPlain);
        assert r == plain + [COMMA] + ([SPACE] + MinifiedString(next));
        Cat(plain, [COMMA], nextPlain);
      case Diverged =>
        PartedSuffix(r, plain, [COMMA] + nextPlain);
    }
  }

  lemma {:induction false} MinifiedObject(members: seq<Member>, depth: nat, rest: seq<byte>)
    requires WellFormed(Object(members))
    ensures Follows(Minified(Text(Object(members), true, depth) + rest), Text(Object(members), false, depth),
                    StateAfterMembers(members), rest)
    decreases members, 2
  {
    hide Minified;
    hide MinifiedString;
    hide MembersText;
    var pretty, plain := PrettyTail(members, depth), PlainTail(members, depth);
    assert Text(Object(members), true, depth) + rest == [LBRACE] + ([NEWLINE] + (pretty + rest));
    assert Text(Object(members), false, depth) == [LBRACE] + plain;
    MinifiedKept([LBRACE], [NEWLINE] + (pretty + rest));
    MinifiedBlank([NEWLINE], pretty + rest);
    MinifiedMembers(members, depth, rest);
    FollowsPrefix([LBRACE], Minified(pretty + rest), plain, StateAfterMembers(members), rest);
  }

  /** Members and the closing brace, as printed inside an object `depth` deep. */
  function PrettyTail(members: seq<Member>, depth: nat): seq<byte> {
    MembersText(members, true, depth + 1) + Tabs(depth) + [RBRACE]
  }

  function PlainTail(members: seq<Member>, depth: nat): seq<byte> {
    MembersText(members, false, depth + 1) + [RBRACE]
  }

  lemma {:induction false} MinifiedMembers(members: seq<Member>, depth: nat, rest: seq<byte>)
    requires WellFormed(Object(members))
    ensures Follows(Minified(PrettyTail(members, depth) + rest), PlainTail(members, depth),
                    StateAfterMembers(members), rest)
    decreases members, 1
  {
    hide Minified;
    hide MinifiedString;
    hide Text;
    hide Quoted;
    if members == [] {
      assert PrettyTail(members, depth) + rest == Tabs(depth) + ([RBRACE] + rest);
      MinifiedBlank(Tabs(depth), [RBRACE] + rest);
      MinifiedKept([RBRACE], rest);
      assert PlainTail(members, depth) == [RBRACE];
    } else {
      var more := |members| > 1;
      var key, value := Quoted(members[0].key), Text(members[0].value, false, depth + 1);
      var next, nextPlain := PrettyTail(members[1..], depth) + rest, PlainTail(members[1..], depth);
      var afterValue := MemberSeparator(more, true) + next;
      var afterKey := [COLON, TAB] + (Text(members[0].value, true, depth + 1) + afterValue);
      var plainAfterValue := OnlyIf(more, COMMA) + nextPlain;
      MembersTailText(members, depth, rest);
      MinifiedBlank(Tabs(depth + 1), key + afterKey);
      MinifiedQuoted(members[0].key, afterKey);
      TextStart(members[0].value, false, depth + 1);
      if EndsInBackslash(members[0].key) {
        KeyDiverges(key, Text(members[0].value, true, depth + 1) + afterValue, value + plainAfterValue);
      } else {
        ColonTab(Text(members[0].value, true, depth + 1) + afterValue);
        MinifiedValue(members[0].value, depth + 1, afterValue);
        MinifiedMembers(members[1..], depth, rest);
        MemberFollows(members, depth, rest, Minified(Text(members[0].value, true, depth + 1) + afterValue));
      }
    }
  }

  /** How the tails of a non-empty member list start. */
  lemma MembersTailText(members: seq<Member>, depth: nat, rest: seq<byte>)
    requires members != []
    ensures PrettyTail(members, depth) + rest ==
            Tabs(depth + 1) + (Quoted(members[0].key) + ([COLON, TAB] + (Text(members[0].value, true, depth + 1)
            + (MemberSeparator(|members| > 1, true) + (PrettyTail(members[1..], depth) + rest)))))
    ensures PlainTail(members, depth) ==
            Quoted(members[0].key) + [COLON] + (Text(members[0].value, false, depth + 1)
            + (OnlyIf(|members| > 1, COMMA) + PlainTail(members[1..], depth)))
  {
    hide *;
    var more := |members| > 1;
    var key, tail := Quoted(members[0].key), members[1..];
    var pretty, plain := MembersText(tail, true, depth + 1), MembersText(tail, false, depth + 1);
    MembersTextUnfold(members, true, depth + 1);
    MembersTextUnfold(members, false, depth + 1);
    Layout(depth, more);
    TailsUnfold(members, depth);
    TailsUnfold(tail, depth);
    Regroup(Tabs(depth + 1), key, [TAB], Text(members[0].value, true, depth + 1), MemberSeparator(more, true),
            pretty, Tabs(depth) + [RBRACE], rest);
    Regroup([], key, [], Text(members[0].value, false, depth + 1), OnlyIf(more, COMMA), plain, [], [RBRACE]);
  }

  lemma TailsUnfold(members: seq<Member>, depth: nat)
    ensures PrettyTail(members, depth) == MembersText(members, true, depth + 1) + (Tabs(depth) + [RBRACE])
    ensures PlainTail(members, depth) == MembersText(members, false, depth + 1) + ([] + [RBRACE])
  {
  }

  lemma MembersTextUnfold(members: seq<Member>, fmt: bool, depth: nat)
    requires members != []
    ensures MembersText(members, fmt, depth) ==
            Indent(fmt, depth) + Quoted(members[0].key) + [COLON] + OnlyIf(fmt, TAB)
            + Text(members[0].value, fmt, depth) + MemberSeparator(|members| > 1, fmt)
            + MembersText(members[1..], fmt, depth)
  {
  }

  lemma Layout(depth: nat, more: bool)
    ensures Indent(true, depth + 1) == Tabs(depth + 1) && Indent(false, depth + 1) == []
    ensures OnlyIf(true, TAB) == [TAB] && OnlyIf(false, TAB) == []
    ensures MemberSeparator(more, false) == OnlyIf(more, COMMA)
    ensures [COLON] + [TAB] == [COLON, TAB] && [COLON] + [] == [COLON]
  {
  }

  /** Reassociation of a printed member and what follows it. */
  lemma Regroup(i: seq<byte>, k: seq<byte>, t: seq<byte>, v: seq<byte>, s: seq<byte>, m: seq<byte>, c: seq<byte>,
                r: seq<byte>)
    ensures i + k + [COLON] + t + v + s + m + c + r == i + (k + (([COLON] + t) + (v + (s + (m + c + r)))))
    ensures i == [] ==> i + k + [COLON] + t + v + s + m + c + r == k + ([COLON] + t) + (v + (s + (m + c + r)))
  {
  }

  lemma KeyDiverges(key: seq<byte>, tail: seq<byte>, plainTail: seq<byte>)
    requires plainTail != [] && plainTail[0] > SPACE
    ensures Parted(key + MinifiedString([COLON, TAB] + tail), key + [COLON] + plainTail)
  {
    StringKept([COLON, TAB], tail);
    assert key + ([COLON, TAB] + MinifiedString(tail)) == key + [COLON] + ([TAB] + MinifiedString(tail));
    PartedHere(key + [COLON], [TAB] + MinifiedString(tail), plainTail);
  }

  lemma ColonTab(tail: seq<byte>)
    ensures Minified([COLON, TAB] + tail) == [COLON] + Minified(tail)
  {
  }

  /** From the value of the first member on; `r` is the minified text from there. */
  lemma MemberFollows(members: seq<Member>, depth: nat, rest: seq<byte>, r: seq<byte>)
    requires members != [] && WellFormed(Object(members)) && !EndsInBackslash(members[0].key)
    requires var afterValue := MemberSeparator(|members| > 1, true) + (PrettyTail(members[1..], depth) + rest);
             Follows(r, Text(members[0].value, false, depth + 1), StateAfter(members[0].value), afterValue)
    requires Follows(Minified(PrettyTail(members[1..], depth) + rest), PlainTail(members[1..], depth),
                     StateAfterMembers(members[1..]), rest)
    ensures Follows(Quoted(members[0].key) + ([COLON] + r), PlainTail(members, depth), StateAfterMembers(members), rest)
  {
    hide Minified;
    hide MinifiedString;
    hide Text;
    hide Quoted;
    hide PrettyTail;
    hide PlainTail;
    var more := |members| > 1;
    var head := Quoted(members[0].key) + [COLON];
    var value := Text(members[0].value, false, depth + 1);
    var next, nextPlain := PrettyTail(members[1..], depth) + rest, PlainTail(members[1..], depth);
    MembersTailText(members, depth, rest);
    Cat(Quoted(members[0].key), [COLON], r);
    SeparatorMinified(more, next);
    match StateAfter(members[0].value)
    case Outside =>
      var comma := OnlyIf(more, COMMA);
      FollowsPrefix(head + value + comma, Minified(next), nextPlain, StateAfterMembers(members[1..]), rest);
      Assoc(head, value, comma, Minified(next));
      Assoc(head, value, comma, nextPlain);
    case InString =>
      var comma := OnlyIf(more, COMMA);
      PlainTailStart(members, depth);
      PartedHere(head + value + comma, [NEWLINE] + MinifiedString(next), nextPlain);
      Assoc(head, value, comma, [NEWLINE] + MinifiedString(next));
      Assoc(head, value, comma, nextPlain);
    case Diverged =>
      PartedSuffix(r, value, OnlyIf(more, COMMA) + nextPlain);
      PartedPrefix(head, r, value + (OnlyIf(more, COMMA) + nextPlain));
  }

  lemma SeparatorMinified(more: bool, next: seq<byte>)
    ensures Minified(MemberSeparator(more, true) + next) == OnlyIf(more, COMMA) + Minified(next)
    ensures MinifiedString(MemberSeparator(more, true) + next) ==
            OnlyIf(more, COMMA) + ([NEWLINE] + MinifiedString(next))
  {
  }

  lemma PlainTailStart(members: seq<Member>, depth: nat)
    requires members != []
    ensures PlainTail(members[1..], depth) != [] && PlainTail(members[1..], depth)[0] > SPACE
  {
  }

  lemma CommaSpace(next: seq<byte>)
    ensures Minified([COMMA, SPACE] + next) == [COMMA] + Minified(next)
  {
  }

  lemma FollowsPrefix(p: seq<byte>, r: seq<byte>, plain: seq<byte>, state: State, rest: seq<byte>)
    requires Follows(r, plain, state, rest)
    ensures Follows(p + r, p + plain, state, rest)
  {
    match state
    case Outside => Cat(p, plain, Minified(rest));
    case InString => Cat(p, plain, MinifiedString(rest));
    case Diverged => PartedPrefix(p, r, plain);
  }

  // ---------------------------------------------------------------- the law

  /** Minifying the formatted print of a tree, exactly when that gives its unformatted print. */
  lemma MinifyFormatted(v: Value)
    requires WellFormed(v)
    ensures Minified(Text(v, true, 0)) == Text(v, false, 0) <==> !StateAfter(v).Diverged?
  {
    hide Minified;
    hide MinifiedString;
    hide Text;
    MinifiedValue(v, 0, []);
    NothingMinified();
    assert Text(v, true, 0) + [] == Text(v, true, 0) && Text(v, false, 0) + [] == Text(v, false, 0);
    if StateAfter(v).Diverged? {
      PartedDiffer(Minified(Text(v, true, 0)), Text(v, false, 0));
    }
  }

  lemma NothingMinified()
    ensures Minified([]) == [] && MinifiedString([]) == []
  {
  }

  /** In particular it does whenever no string and no key ends in a backslash. */
  lemma {:induction false} NoFinalBackslashSuffices(v: Value)
    requires NoFinalBackslash(v)
    ensures StateAfter(v) == Outside
    decreases v, 1
  {
    match v
    case Array(items) => NoFinalBackslashItems(items);
    case Object(members) => NoFinalBackslashMembers(members);
    case _ =>
  }

  lemma {:induction false} NoFinalBackslashItems(items: seq<Value>)
    requires NoFinalBackslash(Array(items))
    ensures StateAfterItems(items) == Outside
    decreases items, 0
  {
    if items != [] {
      NoFinalBackslashSuffices(items[0]);
      NoFinalBackslashItems(items[1..]);
    }
  }

  lemma {:induction false} NoFinalBackslashMembers(members: seq<Member>)
    requires NoFinalBackslash(Object(members))
    ensures StateAfterMembers(members) == Outside
    decreases members, 0
  {
    if members != [] {
      NoFinalBackslashSuffices(members[0].value);
      NoFinalBackslashMembers(members[1..]);
    }
  }

  /** The shortest kind of tree the law fails on: two elements, the first a lone backslash. */
  lemma BackslashThenElement()
    ensures WellFormed(Array([String([BACKSLASH]), Null]))
    ensures Minified(Text(Array([String([BACKSLASH]), Null]), true, 0))
            != Text(Array([String([BACKSLASH]), Null]), false, 0)
  {
    var items := [String([BACKSLASH]), Null];
    assert StateAfter(items[0]) == InString;
    assert StateAfterItems(items) == Diverged;
    MinifyFormatted(Array(items));
  }
}
