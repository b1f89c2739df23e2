/**
 What the minifier makes of a text of RFC 8259.

 A literal that ends in an escaped backslash puts it out of step: it takes strings for the outside and the outside
 for strings, until a literal with an escaped quote puts it back.  Out of step it keeps white space, and drops
 spaces and slashes of literals.
 */
module JsonMinifyMeaning {
  import opened Bytes
  import opened JsonValue
  import opened JsonGrammar
  import opened JsonTokens
  import opened JsonMinify
  import opened JsonMinifyPrint
  import JsonAcceptance
  import JsonReading
  import Utf

  // ---------------------------------------------------------------- in and out of step

  /** `Everywhere` is not the C code's: a minifier that drops all white space and nothing else. */
  datatype Pace = Everywhere | InStep | OutOfStep

  /** The literal's last character is an escaped backslash, which the minifier takes for an escaped quote. */
  predicate EndsEscaped(chars: seq<Char>) {
    chars != [] && chars[|chars| - 1] == Short(BACKSLASH)
  }

  /** The pace after a literal.  An escaped quote opens a string for a minifier that believes itself outside. */
  function AfterLiteral(chars: seq<Char>, pace: Pace): Pace {
    match pace
    case Everywhere => Everywhere
    case InStep => if EndsEscaped(chars) then OutOfStep else InStep
    case OutOfStep => if Short(QUOTE) in chars && !EndsEscaped(chars) then InStep else OutOfStep
  }

  function AfterToken(token: Token, pace: Pace): Pace {
    if token.Literal? then AfterLiteral(token.chars, pace) else pace
  }

  function AfterTokens(tokens: seq<Token>, pace: Pace): Pace {
    if tokens == [] then pace else AfterTokens(tokens[1..], AfterToken(tokens[0], pace))
  }

  /** Out of step, a space or a slash is lost. */
  predicate Lost(c: Char) {
    c == Raw(SPACE) || c == Raw(SLASH) || c == Short(SLASH)
  }

  /** None comes before the first escaped quote of the literal. */
  predicate Untouched(chars: seq<Char>) {
    chars != [] && chars[0] != Short(QUOTE) ==> !Lost(chars[0]) && Untouched(chars[1..])
  }

  /** The minifier drops no character of a literal. */
  predicate Harmless(tokens: seq<Token>, pace: Pace) {
    tokens != [] ==>
      && (pace.OutOfStep? && tokens[0].Literal? ==> Untouched(tokens[0].chars))
      && Harmless(tokens[1..], AfterToken(tokens[0], pace))
  }

  /** And there is no white space for it to keep. */
  predicate Exact(tokens: seq<Token>, pace: Pace) {
    tokens != [] ==>
      && (pace.OutOfStep? && tokens[0].Literal? ==> Untouched(tokens[0].chars))
      && (pace.OutOfStep? && tokens[0].Spaces? ==> tokens[0].gap == [])
      && Exact(tokens[1..], AfterToken(tokens[0], pace))
  }

  // ---------------------------------------------------------------- what is left of the white space

  function Left(gap: seq<byte>, pace: Pace): seq<byte> {
    if pace.OutOfStep? then gap else []
  }

  function Thinned(tokens: seq<Token>, pace: Pace): (r: seq<Token>)
    ensures |r| == |tokens|
  {
    if tokens == [] then []
    else
      [if tokens[0].Spaces? then Spaces(Left(tokens[0].gap, pace)) else tokens[0]]
      + Thinned(tokens[1..], AfterToken(tokens[0], pace))
  }

  function Thin(s: Syntax, pace: Pace): Syntax
    decreases s, 1
  {
    match s
    case List(gap, items) => List(Left(gap, pace), ThinItems(items, pace))
    case Record(gap, entries) => Record(Left(gap, pace), ThinEntries(entries, pace))
    case _ => s
  }

  function ThinItem(item: Item, pace: Pace): Item
    decreases item, 0
  {
    Item(Left(item.before, pace), Thin(item.value, pace), Left(item.after, AfterTokens(Tokens(item.value), pace)))
  }

  function ThinItems(items: seq<Item>, pace: Pace): (r: seq<Item>)
    ensures |r| == |items|
    decreases items, 0
  {
    if items == [] then []
    else [ThinItem(items[0], pace)] + ThinItems(items[1..], AfterTokens(ItemTokens(items[0]), pace))
  }

  function ThinEntry(entry: Entry, pace: Pace): Entry
    decreases entry, 0
  {
    var next := AfterLiteral(entry.key, pace);
    Entry(Left(entry.before, pace), entry.key, Left(entry.after, next), ThinItem(entry.item, next))
  }

  function ThinEntries(entries: seq<Entry>, pace: Pace): (r: seq<Entry>)
    ensures |r| == |entries|
    decreases entries, 0
  {
    if entries == [] then []
    else [ThinEntry(entries[0], pace)] + ThinEntries(entries[1..], AfterTokens(EntryTokens(entries[0]), pace))
  }

  /** The text without its white space. */
  function Compact(s: Syntax): Syntax {
    Thin(s, Everywhere)
  }

  // ---------------------------------------------------------------- thinning a text thins its tokens

  lemma {:induction false} ThinnedConcat(a: seq<Token>, b: seq<Token>, pace: Pace)
    ensures AfterTokens(a + b, pace) == AfterTokens(b, AfterTokens(a, pace))
    ensures Thinned(a + b, pace) == Thinned(a, pace) + Thinned(b, AfterTokens(a, pace))
  {
    hide AfterToken;
    hide Left;
    if a == [] {
      assert a + b == b;
    } else {
      assert (a + b)[0] == a[0] && (a + b)[1..] == a[1..] + b;
      ThinnedConcat(a[1..], b, AfterToken(a[0], pace));
    }
  }

  lemma ThinnedOne(token: Token, pace: Pace)
    ensures AfterTokens([token], pace) == AfterToken(token, pace)
    ensures Thinned([token], pace) == [if token.Spaces? then Spaces(Left(token.gap, pace)) else token]
  {
    hide AfterLiteral;
    hide Left;
    assert [token][1..] == [];
  }

  /** Plain characters around tokens. */
  lemma ThinnedAround(open: Token, inner: seq<Token>, close: Token, pace: Pace)
    requires open.Plain? && close.Plain?
    ensures var all := [open] + inner + [close];
            && AfterTokens(all, pace) == AfterTokens(inner, pace)
            && Thinned(all, pace) == [open] + Thinned(inner, pace) + [close]
  {
    hide AfterTokens;
    hide Thinned;
    hide AfterLiteral;
    ThinnedConcat([open] + inner, [close], pace);
    ThinnedConcat([open], inner, pace);
    ThinnedOne(open, pace);
    ThinnedOne(close, AfterTokens(inner, pace));
  }

  lemma {:induction false} ThinTokens(s: Syntax, pace: Pace)
    ensures Tokens(Thin(s, pace)) == Thinned(Tokens(s), pace)
    decreases s, 1
  {
    hide Thinned;
    hide AfterTokens;
    hide AfterToken;
    hide Left;
    hide ThinItems;
    hide ThinEntries;
    hide ItemsTokens;
    hide EntriesTokens;
    hide Spell;
    match s
    case List(gap, items) =>
      if items == [] {
        ThinnedOne(Spaces(gap), pace);
        ThinnedAround(Plain([LBRACKET]), [Spaces(gap)], Plain([RBRACKET]), pace);
      } else {
        ThinItemsTokens(items, pace);
        ThinnedAround(Plain([LBRACKET]), ItemsTokens(items), Plain([RBRACKET]), pace);
      }
    case Record(gap, entries) =>
      if entries == [] {
        ThinnedOne(Spaces(gap), pace);
        ThinnedAround(Plain([LBRACE]), [Spaces(gap)], Plain([RBRACE]), pace);
      } else {
        ThinEntriesTokens(entries, pace);
        ThinnedAround(Plain([LBRACE]), EntriesTokens(entries), Plain([RBRACE]), pace);
      }
    case Quotation(chars) => ThinnedOne(Literal(chars), pace);
    case _ => ThinnedOne(Tokens(s)[0], pace);
  }

  lemma {:induction false} ThinItemTokens(item: Item, pace: Pace)
    ensures ItemTokens(ThinItem(item, pace)) == Thinned(ItemTokens(item), pace)
    decreases item, 0
  {
    hide Thinned;
    hide AfterTokens;
    hide Left;
    hide Thin;
    hide Tokens;
    var value := Tokens(item.value);
    ThinTokens(item.value, pace);
    ThinnedConcat([Spaces(item.before)] + value, [Spaces(item.after)], pace);
    ThinnedConcat([Spaces(item.before)], value, pace);
    ThinnedOne(Spaces(item.before), pace);
    ThinnedOne(Spaces(item.after), AfterTokens(value, pace));
  }

  /** A comma between tokens. */
  lemma ThinnedBetween(first: seq<Token>, rest: seq<Token>, pace: Pace)
    ensures Thinned(first + [Plain([COMMA])] + rest, pace) ==
            Thinned(first, pace) + [Plain([COMMA])] + Thinned(rest, AfterTokens(first, pace))
  {
    hide AfterTokens;
    hide Thinned;
    hide AfterLiteral;
    ThinnedConcat(first + [Plain([COMMA])], rest, pace);
    ThinnedConcat(first, [Plain([COMMA])], pace);
    ThinnedOne(Plain([COMMA]), AfterTokens(first, pace));
  }

  lemma {:induction false} ThinItemsOnce(items: seq<Item>, pace: Pace)
    requires items != []
    ensures var r, next := ThinItems(items, pace), AfterTokens(ItemTokens(items[0]), pace);
            r[0] == ThinItem(items[0], pace) && r[1..] == ThinItems(items[1..], next)
  {
    hide ThinItem;
    hide AfterTokens;
    hide ItemTokens;
  }

  lemma {:induction false} ThinEntriesOnce(entries: seq<Entry>, pace: Pace)
    requires entries != []
    ensures var r, next := ThinEntries(entries, pace), AfterTokens(EntryTokens(entries[0]), pace);
            r[0] == ThinEntry(entries[0], pace) && r[1..] == ThinEntries(entries[1..], next)
  {
    hide ThinEntry;
    hide AfterTokens;
    hide EntryTokens;
  }

  lemma {:induction false} ThinItemsTokens(items: seq<Item>, pace: Pace)
    requires items != []
    ensures ItemsTokens(ThinItems(items, pace)) == Thinned(ItemsTokens(items), pace)
    decreases items, 0
  {
    hide Thinned;
    hide ThinItem;
    hide ThinItems;
    hide AfterTokens;
    hide ItemTokens;
    ThinItemsOnce(items, pace);
    ThinItemTokens(items[0], pace);
    if |items| > 1 {
      var next := AfterTokens(ItemTokens(items[0]), pace);
      ThinItemsTokens(items[1..], next);
      ThinnedBetween(ItemTokens(items[0]), ItemsTokens(items[1..]), pace);
    }
  }

  lemma ThinHeadTokens(entry: Entry, pace: Pace)
    ensures AfterTokens(HeadTokens(entry), pace) == AfterLiteral(entry.key, pace)
    ensures HeadTokens(ThinEntry(entry, pace)) == Thinned(HeadTokens(entry), pace)
  {
    hide AfterTokens;
    hide Thinned;
    hide AfterLiteral;
    hide Left;
    hide ThinItem;
    var before, key, after := Spaces(entry.before), Literal(entry.key), Spaces(entry.after);
    assert HeadTokens(entry) == [before] + ([key] + ([after] + [Plain([COLON])]));
    var next := AfterLiteral(entry.key, pace);
    ThinnedConcat([before], [key] + ([after] + [Plain([COLON])]), pace);
    ThinnedOne(before, pace);
    ThinnedConcat([key], [after] + [Plain([COLON])], pace);
    ThinnedOne(key, pace);
    ThinnedConcat([after], [Plain([COLON])], next);
    ThinnedOne(after, next);
    ThinnedOne(Plain([COLON]), next);
  }

  lemma {:induction false} ThinEntryTokens(entry: Entry, pace: Pace)
    ensures EntryTokens(ThinEntry(entry, pace)) == Thinned(EntryTokens(entry), pace)
    decreases entry, 0
  {
    hide Thinned;
    hide AfterTokens;
    hide AfterLiteral;
    hide ThinItem;
    hide ItemTokens;
    hide HeadTokens;
    var next := AfterLiteral(entry.key, pace);
    ThinHeadTokens(entry, pace);
    ThinItemTokens(entry.item, next);
    ThinnedConcat(HeadTokens(entry), ItemTokens(entry.item), pace);
  }

  lemma {:induction false} ThinEntriesTokens(entries: seq<Entry>, pace: Pace)
    requires entries != []
    ensures EntriesTokens(ThinEntries(entries, pace)) == Thinned(EntriesTokens(entries), pace)
    decreases entries, 0
  {
    hide Thinned;
    hide ThinEntry;
    hide ThinEntries;
    hide AfterTokens;
    hide EntryTokens;
    ThinEntriesOnce(entries, pace);
    ThinEntryTokens(entries[0], pace);
    if |entries| > 1 {
      var next := AfterTokens(EntryTokens(entries[0]), pace);
      ThinEntriesTokens(entries[1..], next);
      ThinnedBetween(EntryTokens(entries[0]), EntriesTokens(entries[1..]), pace);
    }
  }

  // ---------------------------------------------------------------- and keeps what it means

  lemma {:induction false} ItemsOnce(items: seq<Item>)
    requires items != []
    ensures ValidItems(items) <==> GapsValid(items[0]) && Valid(items[0].value) && ValidItems(items[1..])
    ensures ItemsWhole(items) <==> Whole(items[0].value) && ItemsWhole(items[1..])
    ensures JsonAcceptance.ItemsNumeralsFit(items)
            <==> JsonAcceptance.NumeralsFit(items[0].value) && JsonAcceptance.ItemsNumeralsFit(items[1..])
  {
    hide JsonAcceptance.NumeralsFit;
    hide Valid;
    hide Whole;
    hide GapsValid;
    assert forall i :: 1 <= i < |items| ==> items[i] == items[1..][i - 1];
    assert forall i :: 0 <= i < |items[1..]| ==> items[1..][i] == items[i + 1];
  }

  lemma {:induction false} EntriesOnce(entries: seq<Entry>)
    requires entries != []
    ensures ValidEntries(entries)
            <==> HeadValid(entries[0]) && Valid(entries[0].item.value) && ValidEntries(entries[1..])
    ensures EntriesWhole(entries)
            <==> HalfFree(entries[0].key) && Whole(entries[0].item.value) && EntriesWhole(entries[1..])
    ensures JsonAcceptance.EntriesNumeralsFit(entries)
            <==> JsonAcceptance.NumeralsFit(entries[0].item.value)
                 && JsonAcceptance.EntriesNumeralsFit(entries[1..])
  {
    hide JsonAcceptance.NumeralsFit;
    hide Valid;
    hide Whole;
    hide HeadValid;
    hide HalfFree;
    assert forall i :: 1 <= i < |entries| ==> entries[i] == entries[1..][i - 1];
    assert forall i :: 0 <= i < |entries[1..]| ==> entries[1..][i] == entries[i + 1];
  }

  /** The two derivations are alike in all that reading depends on. */
  ghost predicate Alike(s: Syntax, r: Syntax) {
    && Valid(s) && Valid(r) && (Whole(r) <==> Whole(s))
    && (JsonAcceptance.NumeralsFit(r) <==> JsonAcceptance.NumeralsFit(s))
    && (Whole(s) ==> Meaning(r) == Meaning(s))
  }

  ghost predicate ItemsAlike(s: seq<Item>, r: seq<Item>) {
    && ValidItems(s) && ValidItems(r) && (ItemsWhole(r) <==> ItemsWhole(s))
    && (JsonAcceptance.ItemsNumeralsFit(r) <==> JsonAcceptance.ItemsNumeralsFit(s))
    && (ItemsWhole(s) ==> ItemMeanings(r) == ItemMeanings(s))
  }

  ghost predicate EntriesAlike(s: seq<Entry>, r: seq<Entry>) {
    && ValidEntries(s) && ValidEntries(r) && (EntriesWhole(r) <==> EntriesWhole(s))
    && (JsonAcceptance.EntriesNumeralsFit(r) <==> JsonAcceptance.EntriesNumeralsFit(s))
    && (EntriesWhole(s) ==> EntryMeanings(r) == EntryMeanings(s))
  }

  lemma ListAlike(gap: seq<byte>, items: seq<Item>, left: seq<byte>, thin: seq<Item>)
    requires Gap(gap) && Gap(left) && ItemsAlike(items, thin)
    ensures Alike(List(gap, items), List(left, thin))
  {
    hide ItemMeanings;
  }

  lemma RecordAlike(gap: seq<byte>, entries: seq<Entry>, left: seq<byte>, thin: seq<Entry>)
    requires Gap(gap) && Gap(left) && EntriesAlike(entries, thin)
    ensures Alike(Record(gap, entries), Record(left, thin))
  {
    hide EntryMeanings;
  }

  lemma {:induction false} ThinMeans(s: Syntax, pace: Pace)
    requires Valid(s)
    ensures Alike(s, Thin(s, pace))
    decreases s, 1
  {
    match s
    case List(gap, items) =>
      ThinItemsMean(items, pace);
      ListAlike(gap, items, Left(gap, pace), ThinItems(items, pace));
    case Record(gap, entries) =>
      ThinEntriesMean(entries, pace);
      RecordAlike(gap, entries, Left(gap, pace), ThinEntries(entries, pace));
    case _ =>
  }

  lemma {:induction false} ItemsAlikeMore(s: seq<Item>, r: seq<Item>)
    requires s != [] && r != [] && GapsValid(s[0]) && GapsValid(r[0])
    requires Alike(s[0].value, r[0].value) && ItemsAlike(s[1..], r[1..])
    ensures ItemsAlike(s, r)
  {
    hide Meaning;
    hide Valid;
    hide Whole;
    hide JsonAcceptance.NumeralsFit;
    hide ValidItems;
    hide ItemsWhole;
    hide JsonAcceptance.ItemsNumeralsFit;
    ItemsOnce(s);
    ItemsOnce(r);
  }

  lemma {:induction false} EntriesAlikeMore(s: seq<Entry>, r: seq<Entry>)
    requires s != [] && r != [] && HeadValid(s[0]) && HeadValid(r[0]) && s[0].key == r[0].key
    requires Alike(s[0].item.value, r[0].item.value) && EntriesAlike(s[1..], r[1..])
    ensures EntriesAlike(s, r)
  {
    hide Meaning;
    hide Valid;
    hide Whole;
    hide HalfFree;
    hide CharsBytes;
    hide JsonAcceptance.NumeralsFit;
    hide ValidEntries;
    hide EntriesWhole;
    hide JsonAcceptance.EntriesNumeralsFit;
    EntriesOnce(s);
    EntriesOnce(r);
  }

  lemma {:induction false} ThinItemsMean(items: seq<Item>, pace: Pace)
    requires ValidItems(items)
    ensures ItemsAlike(items, ThinItems(items, pace))
    decreases items, 0
  {
    hide Thin;
    hide Alike;
    hide Valid;
    hide ThinItems;
    hide AfterTokens;
    if items == [] {
      assert ThinItems(items, pace) == [];
    } else {
      ItemsOnce(items);
      ThinItemsOnce(items, pace);
      ThinMeans(items[0].value, pace);
      ThinItemsMean(items[1..], AfterTokens(ItemTokens(items[0]), pace));
      ItemsAlikeMore(items, ThinItems(items, pace));
    }
  }

  lemma {:induction false} ThinEntriesMean(entries: seq<Entry>, pace: Pace)
    requires ValidEntries(entries)
    ensures EntriesAlike(entries, ThinEntries(entries, pace))
    decreases entries, 0
  {
    hide Thin;
    hide Alike;
    hide Valid;
    hide ThinEntries;
    hide AfterTokens;
    hide AfterLiteral;
    hide ValidChars;
    if entries == [] {
      assert ThinEntries(entries, pace) == [];
    } else {
      EntriesOnce(entries);
      ThinEntriesOnce(entries, pace);
      ThinMeans(entries[0].item.value, AfterLiteral(entries[0].key, pace));
      ThinEntriesMean(entries[1..], AfterTokens(EntryTokens(entries[0]), pace));
      EntriesAlikeMore(entries, ThinEntries(entries, pace));
    }
  }

  // ---------------------------------------------------------------- literals

  lemma UnitPasses(digits: seq<byte>, rest: seq<byte>)
    requires Utf.FourDigits(digits)
    ensures MinifiedString([BACKSLASH, 0x75] + digits + rest) == [BACKSLASH, 0x75] + digits + MinifiedString(rest)
  {
    hide MinifiedString;
    JsonAcceptance.DigitsPlain(digits);
    assert [BACKSLASH, 0x75] + digits == [BACKSLASH] + ([0x75] + digits);
    LongPasses([0x75] + digits, rest);
  }

  /** In step a character passes, except that an escaped backslash must not be followed by a quote. */
  lemma CharPasses(c: Char, rest: seq<byte>)
    requires ValidChar(c) && (c == Short(BACKSLASH) ==> rest != [] && rest[0] != QUOTE)
    ensures MinifiedString(SpellChar(c) + rest) == SpellChar(c) + MinifiedString(rest)
  {
    hide MinifiedString;
    match c
    case Raw(b) => StringKept([b], rest);
    case Short(letter) =>
      if letter == QUOTE {
        EscapedQuote(rest);
      } else {
        ShortPasses(letter, rest);
      }
    case Unit(digits) => UnitPasses(digits, rest);
    case Surrogates(high, low) =>
      var one, two := [BACKSLASH, 0x75] + high, [BACKSLASH, 0x75] + low;
      UnitPasses(high, two + rest);
      UnitPasses(low, rest);
      Cat(one, two, rest);
      Cat(one, two, MinifiedString(rest));
    case Half(digits) => UnitPasses(digits, rest);
  }

  lemma {:induction false} CharsStart(s: seq<Char>)
    requires ValidChars(s) && s != []
    ensures SpellChars(s) != [] && SpellChars(s)[0] != QUOTE
  {
  }

  /** What the minifier makes of what follows. */
  function MinifiedFrom(pace: Pace, s: seq<byte>): seq<byte> {
    if pace.OutOfStep? then MinifiedString(s) else Minified(s)
  }

  /** The escaped backslash at the end takes the quote with it. */
  lemma EscapedEnd(rest: seq<byte>)
    ensures MinifiedString([BACKSLASH, BACKSLASH] + ([QUOTE] + rest)) ==
            [BACKSLASH, BACKSLASH] + ([QUOTE] + MinifiedString(rest))
  {
    hide MinifiedString;
    hide Minified;
    var two := [BACKSLASH, QUOTE] + rest;
    assert [BACKSLASH, BACKSLASH] + ([QUOTE] + rest) == [BACKSLASH] + two;
    OneInString(BACKSLASH, two);
    EscapedQuote(rest);
    assert [BACKSLASH, BACKSLASH] + ([QUOTE] + MinifiedString(rest)) ==
           [BACKSLASH] + ([BACKSLASH, QUOTE] + MinifiedString(rest));
  }

  lemma {:induction false} CharsPass(s: seq<Char>, rest: seq<byte>)
    requires ValidChars(s)
    ensures MinifiedString(SpellChars(s) + ([QUOTE] + rest)) ==
            SpellChars(s) + ([QUOTE] + MinifiedFrom(AfterLiteral(s, InStep), rest))
    decreases |s|
  {
    hide MinifiedString;
    hide Minified;
    hide SpellChar;
    hide ValidChar;
    hide HighHalf;
    hide LowHalf;
    if s == [] {
      OneInString(QUOTE, rest);
      assert SpellChars(s) + ([QUOTE] + rest) == [QUOTE] + rest;
      assert SpellChars(s) + ([QUOTE] + Minified(rest)) == [QUOTE] + Minified(rest);
    } else if s == [Short(BACKSLASH)] {
      EscapedEnd(rest);
      BackslashSpelled();
    } else {
      var first, others, tail := SpellChar(s[0]), SpellChars(s[1..]), [QUOTE] + rest;
      if s[0] == Short(BACKSLASH) {
        CharsStart(s[1..]);
      }
      Cat(first, others, tail);
      CharPasses(s[0], others + tail);
      CharsPass(s[1..], rest);
      Cat(first, others, [QUOTE] + MinifiedFrom(AfterLiteral(s, InStep), rest));
    }
  }

  lemma BackslashSpelled()
    ensures SpellChars([Short(BACKSLASH)]) == [BACKSLASH, BACKSLASH]
  {
    assert [Short(BACKSLASH)][1..] == [];
  }

  lemma Cancel(a: seq<byte>, b: seq<byte>, c: seq<byte>)
    ensures a + b == a + c <==> b == c
  {
    assert (a + b)[|a|..] == b && (a + c)[|a|..] == c;
  }

  /** A minified text starts neither with white space nor with a slash. */
  lemma {:induction false} StartKept(s: seq<byte>)
    ensures Minified(s) != [] ==> !Blank(Minified(s)[0]) && Minified(s)[0] != SLASH
    decreases |s|
  {
    if s != [] {
      if Blank(s[0]) {
        StartKept(s[1..]);
      } else if s[0] == SLASH {
        if |s| > 1 && s[1] == SLASH {
          StartKept(AfterLine(s[2..]));
        } else if |s| > 1 && s[1] == STAR {
          StartKept(AfterBlock(s[2..]));
        } else {
          StartKept(s[1..]);
        }
      }
    }
  }

  lemma CharLost(c: Char, rest: seq<byte>, tail: seq<byte>)
    requires Lost(c)
    ensures Minified(SpellChar(c) + rest) != SpellChar(c) + tail
  {
    hide Minified;
    if c == Short(SLASH) {
      assert SpellChar(c) + rest == [BACKSLASH] + ([SLASH] + rest);
      OneKept(BACKSLASH, [SLASH] + rest);
      StartKept([SLASH] + rest);
      assert (SpellChar(c) + tail)[1] == SLASH;
    } else {
      StartKept(SpellChar(c) + rest);
      assert (SpellChar(c) + tail)[0] == SpellChar(c)[0];
    }
  }

  lemma DigitsKept(digits: seq<byte>)
    requires Utf.FourDigits(digits)
    ensures forall i :: 0 <= i < 4 ==> Kept(digits[i])
  {
    forall i | 0 <= i < 4
      ensures Kept(digits[i])
    {
      assert Utf.HexValue(digits[i]).Some?;
    }
  }

  lemma CharKept(c: Char, rest: seq<byte>)
    requires ValidChar(c) && !Lost(c) && c != Short(QUOTE)
    ensures Minified(SpellChar(c) + rest) == SpellChar(c) + Minified(rest)
  {
    hide Minified;
    match c {
      case Unit(digits) => DigitsKept(digits);
      case Surrogates(high, low) =>
        DigitsKept(high);
        DigitsKept(low);
      case Half(digits) => DigitsKept(digits);
      case _ =>
    }
    MinifiedKept(SpellChar(c), rest);
  }

  lemma QuoteReopens(rest: seq<byte>)
    ensures Minified([BACKSLASH, QUOTE] + rest) == [BACKSLASH, QUOTE] + MinifiedString(rest)
  {
    hide Minified;
    hide MinifiedString;
    assert [BACKSLASH, QUOTE] + rest == [BACKSLASH] + ([QUOTE] + rest);
    OneKept(BACKSLASH, [QUOTE] + rest);
    OneKept(QUOTE, rest);
    assert [BACKSLASH, QUOTE] + MinifiedString(rest) == [BACKSLASH] + ([QUOTE] + MinifiedString(rest));
  }

  /** What a literal must be followed by for its minified text to be what it should. */
  lemma {:induction false} CharsOut(s: seq<Char>, rest: seq<byte>, tail: seq<byte>)
    requires ValidChars(s)
    ensures Minified(SpellChars(s) + ([QUOTE] + rest)) == SpellChars(s) + ([QUOTE] + tail)
            <==> Untouched(s) && MinifiedFrom(AfterLiteral(s, OutOfStep), rest) == tail
    decreases |s|
  {
    hide MinifiedString;
    hide Minified;
    hide SpellChar;
    hide ValidChar;
    hide HighHalf;
    hide LowHalf;
    hide Lost;
    if s == [] {
      OneKept(QUOTE, rest);
      assert SpellChars(s) + ([QUOTE] + rest) == [QUOTE] + rest;
      assert SpellChars(s) + ([QUOTE] + tail) == [QUOTE] + tail;
      Cancel([QUOTE], MinifiedString(rest), tail);
    } else {
      var first, others, more, due := SpellChar(s[0]), SpellChars(s[1..]), [QUOTE] + rest, [QUOTE] + tail;
      Cat(first, others, more);
      Cat(first, others, due);
      LaterQuote(s);
      if s[0] == Short(QUOTE) {
        QuoteSpelled();
        QuoteReopens(others + more);
        CharsPass(s[1..], rest);
        var after := MinifiedFrom(AfterLiteral(s[1..], InStep), rest);
        Cancel(first, others + ([QUOTE] + after), others + due);
        Cancel(others, [QUOTE] + after, due);
        Cancel([QUOTE], after, tail);
      } else if Lost(s[0]) {
        CharLost(s[0], others + more, others + due);
      } else {
        CharKept(s[0], others + more);
        Cancel(first, Minified(others + more), others + due);
        CharsOut(s[1..], rest, tail);
      }
    }
  }

  lemma QuoteSpelled()
    ensures SpellChar(Short(QUOTE)) == [BACKSLASH, QUOTE]
  {
  }

  /** The pace after a literal, from its first character and the others. */
  lemma LaterQuote(s: seq<Char>)
    requires s != []
    ensures s[0] == Short(QUOTE) ==> AfterLiteral(s, OutOfStep) == AfterLiteral(s[1..], InStep)
    ensures s[0] != Short(QUOTE) ==> AfterLiteral(s, OutOfStep) == AfterLiteral(s[1..], OutOfStep)
  {
    assert s == [s[0]] + s[1..];
  }

  /** A literal at either pace. */
  lemma LiteralLaw(chars: seq<Char>, pace: Pace, rest: seq<byte>, tail: seq<byte>)
    requires ValidChars(chars) && !pace.Everywhere?
    ensures MinifiedFrom(pace, SpellString(chars) + rest) == SpellString(chars) + tail
            <==> (pace.OutOfStep? ==> Untouched(chars)) && MinifiedFrom(AfterLiteral(chars, pace), rest) == tail
  {
    hide MinifiedString;
    hide Minified;
    hide SpellChars;
    hide ValidChars;
    hide AfterLiteral;
    hide Untouched;
    var text, more, due := SpellChars(chars), [QUOTE] + rest, [QUOTE] + tail;
    assert SpellString(chars) + rest == [QUOTE] + (text + more);
    assert SpellString(chars) + tail == [QUOTE] + (text + due);
    if pace.InStep? {
      OneKept(QUOTE, text + more);
      CharsPass(chars, rest);
      var after := MinifiedFrom(AfterLiteral(chars, InStep), rest);
      Cancel([QUOTE], text + ([QUOTE] + after), text + due);
      Cancel(text, [QUOTE] + after, due);
      Cancel([QUOTE], after, tail);
    } else {
      OneInString(QUOTE, text + more);
      Cancel([QUOTE], Minified(text + more), text + due);
      CharsOut(chars, rest, tail);
    }
  }

  // ---------------------------------------------------------------- white space and plain characters

  lemma GapLaw(gap: seq<byte>, pace: Pace, rest: seq<byte>)
    requires Gap(gap) && !pace.Everywhere?
    ensures MinifiedFrom(pace, gap + rest) == Left(gap, pace) + MinifiedFrom(pace, rest)
  {
    hide MinifiedString;
    hide Minified;
    if pace.InStep? {
      MinifiedBlank(gap, rest);
      assert [] + Minified(rest) == Minified(rest);
    } else {
      StringKept(gap, rest);
    }
  }

  lemma PlainLaw(text: seq<byte>, pace: Pace, rest: seq<byte>)
    requires PlainText(text) && !pace.Everywhere?
    ensures MinifiedFrom(pace, text + rest) == text + MinifiedFrom(pace, rest)
  {
    hide MinifiedString;
    hide Minified;
    if pace.InStep? {
      MinifiedKept(text, rest);
    } else {
      StringKept(text, rest);
    }
  }

  lemma ThinnedFirst(tokens: seq<Token>, pace: Pace)
    requires tokens != []
    ensures var first := if tokens[0].Spaces? then Spaces(Left(tokens[0].gap, pace)) else tokens[0];
            SpellTokens(Thinned(tokens, pace)) ==
            SpellToken(first) + SpellTokens(Thinned(tokens[1..], AfterToken(tokens[0], pace)))
  {
    hide SpellToken;
    hide AfterToken;
    hide Left;
    assert Thinned(tokens, pace)[1..] == Thinned(tokens[1..], AfterToken(tokens[0], pace));
  }

  /** A text without white space does not start with any. */
  lemma {:induction false} CompactStart(tokens: seq<Token>)
    requires ValidTokens(tokens)
    ensures var r := SpellTokens(Thinned(tokens, Everywhere)); r != [] ==> r[0] > SPACE
  {
    hide SpellTokens;
    hide Thinned;
    hide SpellChars;
    if tokens == [] {
      assert Thinned(tokens, Everywhere) == [];
      NothingSpelled();
    } else {
      ThinnedFirst(tokens, Everywhere);
      CompactStart(tokens[1..]);
    }
  }

  lemma NothingSpelled()
    ensures SpellTokens([]) == []
  {
  }

  // ---------------------------------------------------------------- the law, token by token

  /** At either pace the minified text is the text without its white space exactly when `Exact` says so. */
  lemma {:induction false} MinifiedExactly(tokens: seq<Token>, pace: Pace)
    requires ValidTokens(tokens) && !pace.Everywhere?
    ensures MinifiedFrom(pace, SpellTokens(tokens)) == SpellTokens(Thinned(tokens, Everywhere))
            <==> Exact(tokens, pace)
  {
    hide SpellTokens;
    hide Thinned;
    hide MinifiedFrom;
    hide SpellString;
    hide ValidChars;
    hide Untouched;
    hide AfterLiteral;
    hide PlainText;
    if tokens == [] {
      NothingLeftOver(pace);
    } else {
      var rest, compact := SpellTokens(tokens[1..]), SpellTokens(Thinned(tokens[1..], Everywhere));
      SpellFirst(tokens);
      ThinnedFirst(tokens, Everywhere);
      PaceEverywhere(tokens[0]);
      MinifiedExactly(tokens[1..], AfterToken(tokens[0], pace));
      match tokens[0]
      case Spaces(gap) =>
        GapLaw(gap, pace, rest);
        assert [] + compact == compact;
        if Left(gap, pace) == [] {
          assert [] + MinifiedFrom(pace, rest) == MinifiedFrom(pace, rest);
        } else {
          CompactStart(tokens[1..]);
          assert (gap + MinifiedFrom(pace, rest))[0] <= SPACE;
        }
      case Plain(text) =>
        PlainLaw(text, pace, rest);
        Cancel(text, MinifiedFrom(pace, rest), compact);
      case Literal(chars) =>
        LiteralLaw(chars, pace, rest, compact);
    }
  }

  lemma NothingLeftOver(pace: Pace)
    ensures SpellTokens([]) == MinifiedFrom(pace, []) == [] && Thinned([], Everywhere) == []
  {
  }

  lemma SpellFirst(tokens: seq<Token>)
    requires tokens != []
    ensures SpellTokens(tokens) == SpellToken(tokens[0]) + SpellTokens(tokens[1..])
  {
    hide SpellToken;
  }

  lemma PaceEverywhere(token: Token)
    ensures AfterToken(token, Everywhere) == Everywhere
    ensures forall pace: Pace :: !pace.Everywhere? ==> !AfterToken(token, pace).Everywhere?
  {
  }

  /** When no character of a literal is dropped, the minified text is the text thinned at the minifier's pace. */
  lemma {:induction false} MinifiedThins(tokens: seq<Token>, pace: Pace)
    requires ValidTokens(tokens) && !pace.Everywhere? && Harmless(tokens, pace)
    ensures MinifiedFrom(pace, SpellTokens(tokens)) == SpellTokens(Thinned(tokens, pace))
  {
    hide SpellTokens;
    hide Thinned;
    hide MinifiedFrom;
    hide SpellString;
    hide ValidChars;
    hide Untouched;
    hide AfterLiteral;
    hide PlainText;
    hide Left;
    if tokens == [] {
      NothingLeftOver(pace);
      assert Thinned(tokens, pace) == [];
    } else {
      var next := AfterToken(tokens[0], pace);
      var rest := SpellTokens(tokens[1..]);
      SpellFirst(tokens);
      ThinnedFirst(tokens, pace);
      PaceEverywhere(tokens[0]);
      MinifiedThins(tokens[1..], next);
      match tokens[0]
      case Spaces(gap) => GapLaw(gap, pace, rest);
      case Plain(text) => PlainLaw(text, pace, rest);
      case Literal(chars) => LiteralLaw(chars, pace, rest, MinifiedFrom(next, rest));
    }
  }

  // ---------------------------------------------------------------- the laws

  lemma CompactTokens(text: Item)
    requires GapsValid(text) && Valid(text.value)
    ensures SpellTokens(Thinned(ItemTokens(text), Everywhere)) == Spell(Compact(text.value))
  {
    hide Thinned;
    hide ItemTokens;
    hide SpellTokens;
    hide AfterTokens;
    hide Valid;
    hide Spell;
    hide Thin;
    var thin := ThinItem(text, Everywhere);
    ThinItemTokens(text, Everywhere);
    ThinMeans(text.value, Everywhere);
    AlwaysEverywhere(Tokens(text.value));
    ItemTokensSpell(thin);
    assert SpellItem(thin) == Spell(thin.value);
  }

  lemma {:induction false} AlwaysEverywhere(tokens: seq<Token>)
    ensures AfterTokens(tokens, Everywhere) == Everywhere
  {
    if tokens != [] {
      AlwaysEverywhere(tokens[1..]);
    }
  }

  /** What is left is the text without its white space, exactly when the scan of its tokens finds nothing amiss. */
  lemma MinifiedIsCompact(text: Item)
    requires GapsValid(text) && Valid(text.value)
    ensures Minified(SpellItem(text)) == Spell(Compact(text.value)) <==> Exact(ItemTokens(text), InStep)
  {
    hide Minified;
    hide SpellItem;
    hide Compact;
    hide Spell;
    hide Exact;
    hide ItemTokens;
    hide SpellTokens;
    hide Valid;
    hide ValidToken;
    ItemTokensSpell(text);
    CompactTokens(text);
    MinifiedExactly(ItemTokens(text), InStep);
  }

  /** No string and no key ends in an escaped backslash. */
  predicate Unmistaken(tokens: seq<Token>) {
    forall i :: 0 <= i < |tokens| && tokens[i].Literal? ==> !EndsEscaped(tokens[i].chars)
  }

  lemma {:induction false} UnmistakenExact(tokens: seq<Token>)
    requires Unmistaken(tokens)
    ensures Exact(tokens, InStep) && Harmless(tokens, InStep)
  {
    hide EndsEscaped;
    if tokens != [] {
      UnmistakenExact(tokens[1..]);
    }
  }

  /** In particular when no literal ends in an escaped backslash. */
  lemma UnmistakenIsCompact(text: Item)
    requires GapsValid(text) && Valid(text.value) && Unmistaken(ItemTokens(text))
    ensures Minified(SpellItem(text)) == Spell(Compact(text.value))
  {
    hide *;
    UnmistakenExact(ItemTokens(text));
    MinifiedIsCompact(text);
  }

  /**
   When no character of a literal is dropped, a reading of the whole text gives the same tree before and after
   minifying, or fails both times: white space that is kept does no harm.
   */
  lemma MinifyingKeepsReading(text: Item)
    requires GapsValid(text) && Valid(text.value) && Harmless(ItemTokens(text), InStep)
    ensures var s := SpellItem(text);
            && JsonReading.Terminated(s + [NUL]) && JsonReading.Terminated(Minified(s) + [NUL])
            && var before := JsonReading.ReadText(s + [NUL], true);
            var after := JsonReading.ReadText(Minified(s) + [NUL], true);
            if before.Parsed? then after.Parsed? && after.value == before.value else after.Failed?
  {
    hide Minified;
    hide SpellItem;
    hide SpellTokens;
    hide Spell;
    hide Thin;
    hide Thinned;
    hide ItemTokens;
    hide AfterTokens;
    hide Valid;
    hide ValidToken;
    hide Meaning;
    hide Harmless;
    hide JsonReading.ReadText;
    hide JsonAcceptance.Cut;
    hide JsonAcceptance.NumeralsFit;
    hide Nesting;
    var thin := ThinItem(text, InStep);
    ItemTokensSpell(text);
    MinifiedThins(ItemTokens(text), InStep);
    ThinItemTokens(text, InStep);
    ThinMeans(text.value, InStep);
    ItemTokensSpell(thin);
    JsonAcceptance.TextRead(text, true);
    JsonAcceptance.TextRead(thin, true);
  }

  // ---------------------------------------------------------------- texts that are out of step

  function Word(chars: seq<Char>): Item {
    Item([], Quotation(chars), [])
  }

  /** `["\\","..."]`: the second string is read out of step. */
  function Pair(chars: seq<Char>): Item {
    Item([], List([], [Word([Short(BACKSLASH)]), Word(chars)]), [])
  }

  lemma WordSpelled(chars: seq<Char>)
    ensures SpellItem(Word(chars)) == SpellString(chars)
  {
    hide SpellString;
  }

  lemma TwoSpelled(items: seq<Item>)
    requires |items| == 2
    ensures SpellItems(items) == SpellItem(items[0]) + [COMMA] + SpellItem(items[1])
  {
    hide SpellItem;
    assert items[1..] == [items[1]];
  }

  lemma PairSpelled(chars: seq<Char>)
    ensures SpellItem(Pair(chars)) ==
            [LBRACKET] + ([QUOTE, BACKSLASH, BACKSLASH, QUOTE]
                          + ([COMMA, QUOTE] + (SpellChars(chars) + [QUOTE, RBRACKET])))
  {
    hide SpellChars;
    hide SpellItems;
    hide SpellItem;
    var items := Pair(chars).value.items;
    var first, second := SpellString([Short(BACKSLASH)]), SpellString(chars);
    BackslashSpelled();
    TwoSpelled(items);
    WordSpelled([Short(BACKSLASH)]);
    WordSpelled(chars);
    BareSpelled(Pair(chars));
    assert first == [QUOTE, BACKSLASH, BACKSLASH, QUOTE];
    assert [LBRACKET] + (first + [COMMA] + second) + [RBRACKET]
        == [LBRACKET] + (first + ([COMMA, QUOTE] + (SpellChars(chars) + [QUOTE, RBRACKET])));
  }

  lemma BareSpelled(item: Item)
    requires item.before == item.after == []
    ensures SpellItem(item) == Spell(item.value)
  {
    hide Spell;
  }

  lemma PairMinified(chars: seq<Char>)
    ensures Minified(SpellItem(Pair(chars))) ==
            [LBRACKET] + ([QUOTE, BACKSLASH, BACKSLASH, QUOTE]
                          + ([COMMA, QUOTE] + Minified(SpellChars(chars) + [QUOTE, RBRACKET])))
  {
    hide Minified;
    hide MinifiedString;
    hide SpellChars;
    hide SpellItem;
    var inner := SpellChars(chars) + [QUOTE, RBRACKET];
    var second := [COMMA, QUOTE] + inner;
    PairSpelled(chars);
    OneKept(LBRACKET, [QUOTE, BACKSLASH, BACKSLASH, QUOTE] + second);
    CharsPass([Short(BACKSLASH)], second);
    BackslashSpelled();
    OneKept(QUOTE, [BACKSLASH, BACKSLASH] + ([QUOTE] + second));
    assert [QUOTE, BACKSLASH, BACKSLASH, QUOTE] + second == [QUOTE] + ([BACKSLASH, BACKSLASH] + ([QUOTE] + second));
    assert [QUOTE, BACKSLASH, BACKSLASH, QUOTE] + MinifiedString(second)
        == [QUOTE] + ([BACKSLASH, BACKSLASH] + ([QUOTE] + MinifiedString(second)));
    assert second == [COMMA] + ([QUOTE] + inner);
    OneInString(COMMA, [QUOTE] + inner);
    OneInString(QUOTE, inner);
    assert [COMMA, QUOTE] + Minified(inner) == [COMMA] + ([QUOTE] + Minified(inner));
  }

  lemma {:induction false} CharsKept(s: seq<Char>, rest: seq<byte>)
    requires forall i :: 0 <= i < |s| ==> ValidChar(s[i]) && !Lost(s[i]) && s[i] != Short(QUOTE)
    ensures Minified(SpellChars(s) + rest) == SpellChars(s) + Minified(rest)
  {
    hide Minified;
    hide SpellChar;
    hide ValidChar;
    hide Lost;
    if s == [] {
      assert SpellChars(s) + rest == rest && SpellChars(s) + Minified(rest) == Minified(rest);
    } else {
      var first, others := SpellChar(s[0]), SpellChars(s[1..]);
      Cat(first, others, rest);
      CharKept(s[0], others + rest);
      CharsKept(s[1..], rest);
      Cat(first, others, Minified(rest));
    }
  }

  lemma {:induction false} CharsConcat(a: seq<Char>, b: seq<Char>)
    ensures SpellChars(a + b) == SpellChars(a) + SpellChars(b)
  {
    hide SpellChar;
    if a == [] {
      assert a + b == b;
    } else {
      assert (a + b)[0] == a[0] && (a + b)[1..] == a[1..] + b;
      CharsConcat(a[1..], b);
    }
  }

  /** A space in the second string is gone. */
  lemma SpaceGone(a: seq<Char>, b: seq<Char>)
    requires forall i :: 0 <= i < |a| ==> ValidChar(a[i]) && !Lost(a[i]) && a[i] != Short(QUOTE)
    requires forall i :: 0 <= i < |b| ==> ValidChar(b[i]) && !Lost(b[i]) && b[i] != Short(QUOTE)
    ensures Minified(SpellItem(Pair(a + [Raw(SPACE)] + b))) == SpellItem(Pair(a + b))
  {
    hide Minified;
    hide MinifiedString;
    hide SpellChars;
    hide SpellItem;
    hide ValidChar;
    hide Lost;
    var before, after, close := SpellChars(a), SpellChars(b), [QUOTE, RBRACKET];
    PairMinified(a + [Raw(SPACE)] + b);
    PairSpelled(a + b);
    CharsConcat(a + [Raw(SPACE)], b);
    CharsConcat(a, [Raw(SPACE)]);
    CharsConcat(a, b);
    SpaceSpelled();
    assert before + [SPACE] + after + close == before + ([SPACE] + (after + close));
    CharsKept(a, [SPACE] + (after + close));
    OneKept(SPACE, after + close);
    CharsKept(b, close);
    CloseKept();
    Cat(before, after, close);
  }

  lemma SpaceSpelled()
    ensures SpellChars([Raw(SPACE)]) == [SPACE]
  {
    assert [Raw(SPACE)][1..] == [];
  }

  lemma CloseKept()
    ensures Minified([QUOTE, RBRACKET]) == [QUOTE, RBRACKET]
  {
    assert [QUOTE, RBRACKET] == [QUOTE] + [RBRACKET];
    OneKept(QUOTE, [RBRACKET]);
    assert [RBRACKET] + [] == [RBRACKET];
    OneInString(RBRACKET, []);
  }

  lemma PairMeans(chars: seq<Char>)
    requires ValidChars(chars) && HalfFree(chars)
    ensures Valid(Pair(chars).value) && Whole(Pair(chars).value) && JsonAcceptance.NumeralsFit(Pair(chars).value)
    ensures Meaning(Pair(chars).value) == Array([String([BACKSLASH]), String(CharsBytes(chars))])
  {
    hide CharsBytes;
    hide ValidChars;
    hide HalfFree;
    BackslashMeans();
    var items := Pair(chars).value.items;
    assert Meaning(items[0].value) == String([BACKSLASH]);
    assert Meaning(items[1].value) == String(CharsBytes(chars));
    assert items == [items[0], items[1]];
    TwoMeanings(items);
  }

  lemma {:induction false} TwoMeanings(items: seq<Item>)
    requires |items| == 2 && ValidItems(items) && ItemsWhole(items)
    ensures ItemMeanings(items) == [Meaning(items[0].value), Meaning(items[1].value)]
  {
    hide Meaning;
    hide Valid;
    hide Whole;
    assert items[1..][0] == items[1] && items[1..][1..] == [];
    assert ItemMeanings(items[1..]) == [Meaning(items[1].value)] + ItemMeanings(items[1..][1..]);
  }

  lemma TwoCut(first: Value, second: Value)
    ensures JsonAcceptance.CutItems([first, second]) == [JsonAcceptance.Cut(first), JsonAcceptance.Cut(second)]
  {
    hide CString;
    assert [first, second][1..] == [second] && [second][1..] == [];
    assert JsonAcceptance.CutItems([second]) == [JsonAcceptance.Cut(second)];
  }

  lemma TwoFlat(first: Value, second: Value)
    requires first.String? && second.String?
    ensures Nesting(Array([first, second])) == 1
  {
    assert [first, second][1..] == [second] && [second][1..] == [];
    assert ItemsNesting([second]) == 0;
    assert ItemsNesting([first, second]) == 0;
  }

  lemma PairReads(chars: seq<Char>)
    requires ValidChars(chars) && HalfFree(chars)
    ensures GapsValid(Pair(chars)) && Valid(Pair(chars).value)
    ensures var t := SpellItem(Pair(chars)) + [NUL];
            && JsonReading.Terminated(t)
            && JsonReading.ReadText(t, true) ==
               JsonReading.Parsed(Array([String([BACKSLASH]), String(CString(CharsBytes(chars)))]), |t| - 1)
  {
    hide JsonReading.ReadText;
    hide CString;
    hide CharsBytes;
    hide SpellItem;
    hide Meaning;
    hide Valid;
    hide Whole;
    hide JsonAcceptance.NumeralsFit;
    PairMeans(chars);
    BackslashMeans();
    var first, second := String([BACKSLASH]), String(CharsBytes(chars));
    TwoFlat(first, second);
    TwoCut(first, second);
    JsonAcceptance.TextRead(Pair(chars), true);
  }

  lemma BackslashMeans()
    ensures ValidChars([Short(BACKSLASH)]) && HalfFree([Short(BACKSLASH)])
    ensures CharsBytes([Short(BACKSLASH)]) == [BACKSLASH] && CString([BACKSLASH]) == [BACKSLASH]
  {
    assert [Short(BACKSLASH)][1..] == [];
    assert [BACKSLASH][1..] == [];
  }

  /** `["\\","a b"]` loses the space of its second string, and so reads as another tree. */
  lemma StringJoined()
    ensures var s := SpellItem(Pair([Raw(0x61), Raw(SPACE), Raw(0x62)]));
            && JsonReading.Terminated(s + [NUL]) && JsonReading.Terminated(Minified(s) + [NUL])
            && var before := JsonReading.ReadText(s + [NUL], true);
            var after := JsonReading.ReadText(Minified(s) + [NUL], true);
            && before.Parsed? && before.value == Array([String([BACKSLASH]), String([0x61, SPACE, 0x62])])
            && after.Parsed? && after.value == Array([String([BACKSLASH]), String([0x61, 0x62])])
  {
    hide Minified;
    hide SpellItem;
    hide JsonReading.ReadText;
    hide CString;
    hide CharsBytes;
    hide Pair;
    hide ValidChars;
    hide HalfFree;
    var a, b := Raw(0x61), Raw(0x62);
    SpaceGone([a], [b]);
    assert [a] + [Raw(SPACE)] + [b] == [a, Raw(SPACE), b] && [a] + [b] == [a, b];
    LettersMean();
    PairReads([a, Raw(SPACE), b]);
    PairReads([a, b]);
  }

  lemma LettersMean()
    ensures var s := [Raw(0x61), Raw(SPACE), Raw(0x62)];
            ValidChars(s) && HalfFree(s) && CString(CharsBytes(s)) == [0x61, SPACE, 0x62]
    ensures var s := [Raw(0x61), Raw(0x62)];
            ValidChars(s) && HalfFree(s) && CString(CharsBytes(s)) == [0x61, 0x62]
  {
    hide CharsBytes;
    hide CString;
    NoCharsMean();
    RawBytes(0x62, []);
    RawBytes(SPACE, [Raw(0x62)]);
    RawBytes(0x61, [Raw(SPACE), Raw(0x62)]);
    RawBytes(0x61, [Raw(0x62)]);
    assert [Raw(0x62)] + [] == [Raw(0x62)];
    assert [Raw(SPACE)] + [Raw(0x62)] == [Raw(SPACE), Raw(0x62)];
    assert [Raw(0x61)] + [Raw(SPACE), Raw(0x62)] == [Raw(0x61), Raw(SPACE), Raw(0x62)];
    assert [Raw(0x61)] + [Raw(0x62)] == [Raw(0x61), Raw(0x62)];
    JsonReading.CStringWhole([0x61, SPACE, 0x62]);
    JsonReading.CStringWhole([0x61, 0x62]);
  }

  lemma NoCharsMean()
    ensures ValidChars([]) && HalfFree([]) && CharsBytes([]) == []
  {
  }

  lemma RawBytes(b: byte, rest: seq<Char>)
    requires ValidChar(Raw(b)) && ValidChars(rest) && HalfFree(rest)
    ensures ValidChars([Raw(b)] + rest) && HalfFree([Raw(b)] + rest)
    ensures CharsBytes([Raw(b)] + rest) == [b] + CharsBytes(rest)
  {
    var all := [Raw(b)] + rest;
    assert all[1..] == rest;
  }

  /** `["\\" ]` with this white space after the string. */
  function Alone(gap: seq<byte>): Item {
    Item([], List([], [Item([], Quotation([Short(BACKSLASH)]), gap)]), [])
  }

  lemma AloneTokens(gap: seq<byte>)
    ensures ItemTokens(Alone(gap)) ==
            [Spaces([])] + ([Plain([LBRACKET])] + ([Spaces([])] + ([Literal([Short(BACKSLASH)])]
            + ([Spaces(gap)] + ([Plain([RBRACKET])] + ([Spaces([])] + []))))))
  {
    var word := Item([], Quotation([Short(BACKSLASH)]), gap);
    assert ItemTokens(word) == [Spaces([]), Literal([Short(BACKSLASH)]), Spaces(gap)];
    assert ItemsTokens([word]) == ItemTokens(word);
    assert Tokens(Alone(gap).value) == [Plain([LBRACKET])] + ItemTokens(word) + [Plain([RBRACKET])];
  }

  lemma ScanMore(token: Token, rest: seq<Token>, pace: Pace)
    ensures Exact([token] + rest, pace)
            <==> && (pace.OutOfStep? && token.Literal? ==> Untouched(token.chars))
                 && (pace.OutOfStep? && token.Spaces? ==> token.gap == [])
                 && Exact(rest, AfterToken(token, pace))
    ensures Harmless([token] + rest, pace)
            <==> && (pace.OutOfStep? && token.Literal? ==> Untouched(token.chars))
                 && Harmless(rest, AfterToken(token, pace))
  {
    hide Untouched;
    hide AfterToken;
    assert ([token] + rest)[1..] == rest;
  }

  lemma ScanQuiet(text: seq<byte>, rest: seq<Token>, pace: Pace)
    ensures Exact([Spaces([])] + ([Plain(text)] + rest), pace) <==> Exact(rest, pace)
    ensures Harmless([Spaces([])] + ([Plain(text)] + rest), pace) <==> Harmless(rest, pace)
  {
    hide Exact;
    hide Harmless;
    ScanMore(Spaces([]), [Plain(text)] + rest, pace);
    ScanMore(Plain(text), rest, pace);
  }

  lemma AloneScanned(gap: seq<byte>)
    requires Gap(gap)
    ensures GapsValid(Alone(gap)) && Valid(Alone(gap).value)
    ensures Exact(ItemTokens(Alone(gap)), InStep) <==> gap == []
    ensures Harmless(ItemTokens(Alone(gap)), InStep) && !Unmistaken(ItemTokens(Alone(gap)))
  {
    hide Exact;
    hide Harmless;
    hide ItemTokens;
    var chars := [Short(BACKSLASH)];
    var last := [Plain([RBRACKET])] + ([Spaces([])] + []);
    var middle := [Literal(chars)] + ([Spaces(gap)] + last);
    AloneTokens(gap);
    ScanQuiet([LBRACKET], [Spaces([])] + middle, InStep);
    ScanMore(Spaces([]), middle, InStep);
    ScanMore(Literal(chars), [Spaces(gap)] + last, InStep);
    ScanMore(Spaces(gap), last, OutOfStep);
    ScanMore(Plain([RBRACKET]), [Spaces([])] + [], OutOfStep);
    ScanMore(Spaces([]), [], OutOfStep);
    ScanEnd();
    assert ItemTokens(Alone(gap))[3] == Literal(chars);
  }

  lemma ScanEnd()
    ensures forall pace :: Exact([], pace) && Harmless([], pace)
  {
  }

  /** `["\\"]` ends out of step, yet nothing goes wrong: an escaped backslash alone does not break the law. */
  lemma BackslashAlone()
    ensures !Unmistaken(ItemTokens(Alone([]))) && Minified(SpellItem(Alone([]))) == Spell(Compact(Alone([]).value))
  {
    hide Minified;
    hide SpellItem;
    hide Compact;
    hide Alone;
    AloneScanned([]);
    MinifiedIsCompact(Alone([]));
  }

  /** `["\\" ]` keeps its space, which the parser then skips. */
  lemma SpaceKept()
    ensures Minified(SpellItem(Alone([SPACE]))) != Spell(Compact(Alone([SPACE]).value))
    ensures Harmless(ItemTokens(Alone([SPACE])), InStep)
  {
    hide Minified;
    hide SpellItem;
    hide Compact;
    hide Alone;
    AloneScanned([SPACE]);
    MinifiedIsCompact(Alone([SPACE]));
  }

  lemma PairTokens(chars: seq<Char>)
    ensures ItemTokens(Pair(chars)) ==
            [Spaces([])] + ([Plain([LBRACKET])] + ([Spaces([])] + ([Literal([Short(BACKSLASH)])] + ([Spaces([])]
            + ([Plain([COMMA])] + ([Spaces([])] + ([Literal(chars)] + ([Spaces([])] + ([Plain([RBRACKET])]
            + ([Spaces([])] + []))))))))))
  {
    var items := Pair(chars).value.items;
    assert ItemTokens(items[0]) == [Spaces([]), Literal([Short(BACKSLASH)]), Spaces([])];
    assert ItemTokens(items[1]) == [Spaces([]), Literal(chars), Spaces([])];
    assert items[1..] == [items[1]];
    assert ItemsTokens(items[1..]) == ItemTokens(items[1]);
    assert ItemsTokens(items) == ItemTokens(items[0]) + [Plain([COMMA])] + ItemTokens(items[1]);
  }

  lemma PairScanned(chars: seq<Char>)
    ensures Harmless(ItemTokens(Pair(chars)), InStep) <==> Untouched(chars)
  {
    hide Harmless;
    hide ItemTokens;
    hide Untouched;
    hide Exact;
    hide Pair;
    var close := [Plain([RBRACKET])] + ([Spaces([])] + []);
    var second := [Literal(chars)] + ([Spaces([])] + close);
    var comma := [Plain([COMMA])] + ([Spaces([])] + second);
    var first := [Literal([Short(BACKSLASH)])] + ([Spaces([])] + comma);
    var next := AfterLiteral(chars, OutOfStep);
    PairTokens(chars);
    ScanQuiet([LBRACKET], [Spaces([])] + first, InStep);
    ScanMore(Spaces([]), first, InStep);
    ScanMore(Literal([Short(BACKSLASH)]), [Spaces([])] + comma, InStep);
    ScanQuiet([COMMA], [Spaces([])] + second, OutOfStep);
    ScanMore(Spaces([]), second, OutOfStep);
    ScanMore(Literal(chars), [Spaces([])] + close, OutOfStep);
    ScanQuiet([RBRACKET], [Spaces([])] + [], next);
    ScanMore(Spaces([]), [], next);
    ScanEnd();
  }

  /** `["\\","\u0000 "]` loses a space the parser never reads, so the condition for reading is not necessary. */
  lemma HiddenLoss()
    ensures var chars := [Unit([0x30, 0x30, 0x30, 0x30]), Raw(SPACE)];
            var s := SpellItem(Pair(chars));
            && !Harmless(ItemTokens(Pair(chars)), InStep) && Minified(s) == SpellItem(Pair(chars[..1]))
            && JsonReading.Terminated(s + [NUL]) && JsonReading.Terminated(Minified(s) + [NUL])
            && var before := JsonReading.ReadText(s + [NUL], true);
            var after := JsonReading.ReadText(Minified(s) + [NUL], true);
            before.Parsed? && after.Parsed? && after.value == before.value
  {
    hide Minified;
    hide SpellItem;
    hide JsonReading.ReadText;
    hide Harmless;
    hide ItemTokens;
    hide CString;
    hide CharsBytes;
    hide ValidChars;
    var zero := Unit([0x30, 0x30, 0x30, 0x30]);
    SpaceGone([zero], []);
    PairScanned([zero, Raw(SPACE)]);
    assert [zero, Raw(SPACE)][1..] == [Raw(SPACE)];
    NoCharsMean();
    assert [Raw(SPACE)] + [] == [Raw(SPACE)] && [zero] + [Raw(SPACE)] == [zero, Raw(SPACE)];
    assert [zero] + [Raw(SPACE)] + [] == [zero, Raw(SPACE)] && [zero] + [] == [zero];
    assert [zero, Raw(SPACE)][..1] == [zero];
    RawBytes(SPACE, []);
    ZeroBytes([Raw(SPACE)]);
    ZeroBytes([]);
    PairReads([zero, Raw(SPACE)]);
    PairReads([zero]);
  }

  lemma ZeroBytes(rest: seq<Char>)
    requires ValidChars(rest) && HalfFree(rest)
    ensures var all := [Unit([0x30, 0x30, 0x30, 0x30])] + rest;
            ValidChars(all) && HalfFree(all) && CString(CharsBytes(all)) == []
  {
    var all := [Unit([0x30, 0x30, 0x30, 0x30])] + rest;
    assert all[1..] == rest;
    assert Utf.Hex4([0x30, 0x30, 0x30, 0x30]) == 0;
    assert CharBytes(all[0]) == [NUL];
  }
}
