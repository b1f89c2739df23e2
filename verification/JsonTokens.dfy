/**
 A text of RFC 8259 cut into tokens: white space, literals, and everything else, which is plain characters.

 What the minifier and the terminator make of a text depends on its tokens only, not on how they nest.
 */
module JsonTokens {
  import opened Bytes
  import opened JsonGrammar
  import JsonRoundTrip
  import Utf

  datatype Token = Spaces(gap: seq<byte>) | Plain(text: seq<byte>) | Literal(chars: seq<Char>)

  predicate PlainText(s: seq<byte>) {
    forall i :: 0 <= i < |s| ==> s[i] > SPACE && s[i] != QUOTE && s[i] != BACKSLASH && s[i] != SLASH
  }

  predicate ValidToken(token: Token) {
    match token
    case Spaces(gap) => Gap(gap)
    case Plain(text) => PlainText(text)
    case Literal(chars) => ValidChars(chars)
  }

  predicate ValidTokens(tokens: seq<Token>) {
    forall i :: 0 <= i < |tokens| ==> ValidToken(tokens[i])
  }

  function SpellToken(token: Token): seq<byte> {
    match token
    case Spaces(gap) => gap
    case Plain(text) => text
    case Literal(chars) => SpellString(chars)
  }

  function SpellTokens(tokens: seq<Token>): seq<byte> {
    if tokens == [] then [] else SpellToken(tokens[0]) + SpellTokens(tokens[1..])
  }

  // ---------------------------------------------------------------- the tokens of a text

  function Tokens(s: Syntax): seq<Token>
    decreases s
  {
    match s
    case Numeric(n) => [Plain(SpellNumeral(n))]
    case Quotation(chars) => [Literal(chars)]
    case List(gap, items) =>
      [Plain([LBRACKET])] + (if items == [] then [Spaces(gap)] else ItemsTokens(items)) + [Plain([RBRACKET])]
    case Record(gap, entries) =>
      [Plain([LBRACE])] + (if entries == [] then [Spaces(gap)] else EntriesTokens(entries)) + [Plain([RBRACE])]
    case _ => [Plain(Spell(s))]
  }

  function ItemTokens(item: Item): seq<Token>
    decreases item
  {
    [Spaces(item.before)] + Tokens(item.value) + [Spaces(item.after)]
  }

  function ItemsTokens(items: seq<Item>): seq<Token>
    requires items != []
    decreases items
  {
    if |items| == 1 then ItemTokens(items[0])
    else ItemTokens(items[0]) + [Plain([COMMA])] + ItemsTokens(items[1..])
  }

  function HeadTokens(entry: Entry): seq<Token> {
    [Spaces(entry.before), Literal(entry.key), Spaces(entry.after), Plain([COLON])]
  }

  function EntryTokens(entry: Entry): seq<Token>
    decreases entry
  {
    HeadTokens(entry) + ItemTokens(entry.item)
  }

  function EntriesTokens(entries: seq<Entry>): seq<Token>
    requires entries != []
    decreases entries
  {
    if |entries| == 1 then EntryTokens(entries[0])
    else EntryTokens(entries[0]) + [Plain([COMMA])] + EntriesTokens(entries[1..])
  }

  // ---------------------------------------------------------------- they spell the text

  lemma {:induction false} SpellConcat(a: seq<Token>, b: seq<Token>)
    ensures SpellTokens(a + b) == SpellTokens(a) + SpellTokens(b)
  {
    hide SpellToken;
    if a == [] {
      assert a + b == b;
    } else {
      assert (a + b)[0] == a[0] && (a + b)[1..] == a[1..] + b;
      SpellConcat(a[1..], b);
    }
  }

  lemma SpellOne(token: Token)
    ensures SpellTokens([token]) == SpellToken(token)
  {
    hide SpellToken;
    assert [token][1..] == [];
  }

  /** Tokens around others, and what they spell. */
  lemma Around(first: Token, inner: seq<Token>, last: Token)
    requires ValidToken(first) && ValidTokens(inner) && ValidToken(last)
    ensures var all := [first] + inner + [last];
            ValidTokens(all) && SpellTokens(all) == SpellToken(first) + SpellTokens(inner) + SpellToken(last)
  {
    hide SpellToken;
    hide SpellTokens;
    hide ValidToken;
    SpellConcat([first] + inner, [last]);
    SpellConcat([first], inner);
    SpellOne(first);
    SpellOne(last);
  }

  lemma {:induction false} TokensSpell(s: Syntax)
    requires Valid(s)
    ensures ValidTokens(Tokens(s)) && SpellTokens(Tokens(s)) == Spell(s)
    decreases s, 1
  {
    hide SpellTokens;
    hide SpellNumeral;
    hide SpellString;
    hide SpellItems;
    hide SpellEntries;
    hide ItemsTokens;
    hide EntriesTokens;
    hide ValidChars;
    hide ValidNumeral;
    match s
    case Numeric(n) =>
      NumeralChars(n);
      NumbersPlain(SpellNumeral(n));
      SpellOne(Plain(SpellNumeral(n)));
    case Quotation(chars) => SpellOne(Literal(chars));
    case List(gap, items) =>
      if items == [] {
        SpellOne(Spaces(gap));
        Around(Plain([LBRACKET]), [Spaces(gap)], Plain([RBRACKET]));
      } else {
        ItemsTokensSpell(items);
        Around(Plain([LBRACKET]), ItemsTokens(items), Plain([RBRACKET]));
      }
    case Record(gap, entries) =>
      if entries == [] {
        SpellOne(Spaces(gap));
        Around(Plain([LBRACE]), [Spaces(gap)], Plain([RBRACE]));
      } else {
        EntriesTokensSpell(entries);
        Around(Plain([LBRACE]), EntriesTokens(entries), Plain([RBRACE]));
      }
    case _ => SpellOne(Plain(Spell(s)));
  }

  lemma NumbersPlain(s: seq<byte>)
    requires NumberChars(s)
    ensures PlainText(s)
  {
  }

  lemma {:induction false} ItemTokensSpell(item: Item)
    requires GapsValid(item) && Valid(item.value)
    ensures ValidTokens(ItemTokens(item)) && SpellTokens(ItemTokens(item)) == SpellItem(item)
    decreases item
  {
    hide Spell;
    hide Tokens;
    hide Valid;
    hide Gap;
    TokensSpell(item.value);
    Around(Spaces(item.before), Tokens(item.value), Spaces(item.after));
  }

  /** A comma between tokens. */
  lemma Between(first: seq<Token>, rest: seq<Token>)
    requires ValidTokens(first) && ValidTokens(rest)
    ensures var all := first + [Plain([COMMA])] + rest;
            ValidTokens(all) && SpellTokens(all) == SpellTokens(first) + [COMMA] + SpellTokens(rest)
  {
    hide SpellTokens;
    assert ValidToken(Plain([COMMA]));
    hide ValidToken;
    SpellConcat(first + [Plain([COMMA])], rest);
    SpellConcat(first, [Plain([COMMA])]);
    SpellOne(Plain([COMMA]));
  }

  lemma {:induction false} ItemsTokensSpell(items: seq<Item>)
    requires ValidItems(items) && items != []
    ensures ValidTokens(ItemsTokens(items)) && SpellTokens(ItemsTokens(items)) == SpellItems(items)
    decreases items
  {
    hide SpellTokens;
    hide SpellItem;
    hide ItemTokens;
    hide Valid;
    hide GapsValid;
    hide ValidToken;
    ItemTokensSpell(items[0]);
    SpellItemsOnce(items);
    if |items| > 1 {
      ItemsTokensSpell(items[1..]);
      Between(ItemTokens(items[0]), ItemsTokens(items[1..]));
    }
  }

  lemma {:induction false} SpellItemsOnce(items: seq<Item>)
    requires items != []
    ensures SpellItems(items) ==
            if |items| == 1 then SpellItem(items[0]) else SpellItem(items[0]) + [COMMA] + SpellItems(items[1..])
  {
    hide SpellItem;
  }

  lemma {:induction false} SpellEntriesOnce(entries: seq<Entry>)
    requires entries != []
    ensures SpellEntries(entries) ==
            if |entries| == 1 then SpellEntry(entries[0])
            else SpellEntry(entries[0]) + [COMMA] + SpellEntries(entries[1..])
  {
    hide SpellEntry;
  }

  lemma HeadTokensSpell(entry: Entry)
    requires HeadValid(entry)
    ensures ValidTokens(HeadTokens(entry))
    ensures SpellTokens(HeadTokens(entry)) == entry.before + SpellString(entry.key) + entry.after + [COLON]
  {
    hide SpellTokens;
    hide SpellString;
    hide ValidChars;
    hide Gap;
    var before, key, after := Spaces(entry.before), Literal(entry.key), Spaces(entry.after);
    SpellOne(key);
    Around(before, [key], after);
    SpellConcat([before] + [key] + [after], [Plain([COLON])]);
    SpellOne(Plain([COLON]));
    assert HeadTokens(entry) == [before] + [key] + [after] + [Plain([COLON])];
  }

  lemma {:induction false} EntryTokensSpell(entry: Entry)
    requires HeadValid(entry) && Valid(entry.item.value)
    ensures ValidTokens(EntryTokens(entry)) && SpellTokens(EntryTokens(entry)) == SpellEntry(entry)
    decreases entry
  {
    hide SpellTokens;
    hide SpellItem;
    hide SpellString;
    hide ItemTokens;
    hide HeadTokens;
    hide Valid;
    hide ValidToken;
    HeadTokensSpell(entry);
    ItemTokensSpell(entry.item);
    SpellConcat(HeadTokens(entry), ItemTokens(entry.item));
  }

  lemma {:induction false} EntriesTokensSpell(entries: seq<Entry>)
    requires ValidEntries(entries) && entries != []
    ensures ValidTokens(EntriesTokens(entries)) && SpellTokens(EntriesTokens(entries)) == SpellEntries(entries)
    decreases entries
  {
    hide SpellTokens;
    hide SpellEntry;
    hide EntryTokens;
    hide Valid;
    hide HeadValid;
    hide ValidToken;
    EntryTokensSpell(entries[0]);
    SpellEntriesOnce(entries);
    if |entries| > 1 {
      EntriesTokensSpell(entries[1..]);
      Between(EntryTokens(entries[0]), EntriesTokens(entries[1..]));
    }
  }

  // ---------------------------------------------------------------- no token holds a NUL

  lemma HexNulFree(digits: seq<byte>)
    requires Utf.FourDigits(digits)
    ensures NulFree(digits)
  {
    assert Utf.HexValue(NUL).None?;
  }

  lemma CharNulFree(c: Char)
    requires ValidChar(c)
    ensures NulFree(SpellChar(c))
  {
    match c
    case Unit(digits) => HexNulFree(digits);
    case Surrogates(high, low) =>
      HexNulFree(high);
      HexNulFree(low);
    case Half(digits) => HexNulFree(digits);
    case _ =>
  }

  lemma {:induction false} CharsNulFree(s: seq<Char>)
    requires forall i :: 0 <= i < |s| ==> ValidChar(s[i])
    ensures NulFree(SpellChars(s))
  {
    hide SpellChar;
    hide ValidChar;
    if s != [] {
      CharNulFree(s[0]);
      CharsNulFree(s[1..]);
      JsonRoundTrip.NulFreeConcat(SpellChar(s[0]), SpellChars(s[1..]));
    }
  }

  lemma TokenNulFree(token: Token)
    requires ValidToken(token)
    ensures NulFree(SpellToken(token))
  {
    hide SpellChars;
    match token
    case Literal(chars) =>
      CharsNulFree(chars);
      JsonRoundTrip.WrappedNulFree([QUOTE], SpellChars(chars), [QUOTE]);
    case _ =>
  }

  lemma {:induction false} TokensNulFree(tokens: seq<Token>)
    requires ValidTokens(tokens)
    ensures NulFree(SpellTokens(tokens))
  {
    hide SpellToken;
    hide ValidToken;
    if tokens != [] {
      TokenNulFree(tokens[0]);
      TokensNulFree(tokens[1..]);
      JsonRoundTrip.NulFreeConcat(SpellToken(tokens[0]), SpellTokens(tokens[1..]));
    }
  }

  lemma ItemNulFree(item: Item)
    requires GapsValid(item) && Valid(item.value)
    ensures NulFree(SpellItem(item))
  {
    hide SpellItem;
    hide ItemTokens;
    hide Valid;
    hide ValidToken;
    ItemTokensSpell(item);
    TokensNulFree(ItemTokens(item));
  }
}
