/** The minifier drops comments, wherever they stand between the tokens of a text. */
module JsonMinifyComments {
  import opened Bytes
  import opened JsonTokens
  import opened JsonMinify
  import opened JsonMinifyMeaning
  import JsonGrammar

  /** A comment to the end of its line, a comment between two marks, or a token. */
  datatype Piece = Line(text: seq<byte>) | Block(text: seq<byte>) | Proper(token: Token)

  /** No star stands before a slash. */
  predicate Unclosed(text: seq<byte>) {
    forall i :: 0 < i < |text| ==> !(text[i - 1] == 0x2A && text[i] == 0x2F)
  }

  predicate ValidPiece(piece: Piece) {
    match piece
    case Line(text) => 0x0A !in text
    case Block(text) => Unclosed(text)
    case Proper(token) => ValidToken(token)
  }

  predicate ValidPieces(pieces: seq<Piece>) {
    forall i :: 0 <= i < |pieces| ==> ValidPiece(pieces[i])
  }

  function SpellPiece(piece: Piece): seq<byte> {
    match piece
    case Line(text) => Ascii("//") + text + Ascii("\n")
    case Block(text) => Ascii("/*") + text + Ascii("*/")
    case Proper(token) => SpellToken(token)
  }

  function SpellPieces(pieces: seq<Piece>): seq<byte> {
    if pieces == [] then [] else SpellPiece(pieces[0]) + SpellPieces(pieces[1..])
  }

  /** The text without its comments. */
  function ProperTokens(pieces: seq<Piece>): seq<Token> {
    if pieces == [] then []
    else (if pieces[0].Proper? then [pieces[0].token] else []) + ProperTokens(pieces[1..])
  }

  // ---------------------------------------------------------------- one comment

  lemma {:induction false} LinePassed(text: seq<byte>, rest: seq<byte>)
    requires NEWLINE !in text
    ensures AfterLine(text + [NEWLINE] + rest) == rest
  {
    var s := text + [NEWLINE] + rest;
    if text == [] {
      assert s[1..] == rest;
    } else {
      assert s[0] == text[0] && s[1..] == text[1..] + [NEWLINE] + rest;
      LinePassed(text[1..], rest);
    }
  }

  lemma {:induction false} BlockPassed(text: seq<byte>, rest: seq<byte>)
    requires Unclosed(text)
    ensures AfterBlock(text + [STAR, SLASH] + rest) == rest
  {
    var s := text + [STAR, SLASH] + rest;
    if text == [] {
      assert s[2..] == rest;
    } else {
      assert s[0] == text[0] && s[1..] == text[1..] + [STAR, SLASH] + rest;
      assert s[1] == if |text| > 1 then text[1] else STAR;
      assert forall i :: 0 <= i < |text[1..]| ==> text[1..][i] == text[i + 1];
      BlockPassed(text[1..], rest);
    }
  }

  lemma MarksAre()
    ensures Ascii("//") == [SLASH, SLASH] && Ascii("/*") == [SLASH, STAR] && Ascii("*/") == [STAR, SLASH]
    ensures Ascii("\n") == [NEWLINE]
  {
  }

  lemma LineDropped(text: seq<byte>, rest: seq<byte>)
    requires NEWLINE !in text
    ensures Minified([SLASH, SLASH] + text + [NEWLINE] + rest) == Minified(rest)
  {
    hide AfterLine;
    var s := [SLASH, SLASH] + text + [NEWLINE] + rest;
    assert s[2..] == text + [NEWLINE] + rest;
    LinePassed(text, rest);
  }

  lemma BlockDropped(text: seq<byte>, rest: seq<byte>)
    requires Unclosed(text)
    ensures Minified([SLASH, STAR] + text + [STAR, SLASH] + rest) == Minified(rest)
  {
    hide AfterBlock;
    hide Unclosed;
    var s := [SLASH, STAR] + text + [STAR, SLASH] + rest;
    assert s[2..] == text + [STAR, SLASH] + rest;
    BlockPassed(text, rest);
  }

  /** A comment is dropped with its marks, and nothing behind it. */
  lemma CommentDropped(piece: Piece, rest: seq<byte>)
    requires ValidPiece(piece) && !piece.Proper?
    ensures Minified(SpellPiece(piece) + rest) == Minified(rest)
  {
    hide Minified;
    hide Unclosed;
    hide Ascii;
    MarksAre();
    match piece {
      case Line(text) => LineDropped(text, rest);
      case Block(text) => BlockDropped(text, rest);
    }
  }

  /** A comment that is not closed takes the rest of the text with it. */
  lemma {:induction false} UnclosedDropsAll(text: seq<byte>)
    ensures 0x0A !in text ==> Minified(Ascii("//") + text) == []
    ensures Unclosed(text) ==> Minified(Ascii("/*") + text) == []
  {
    hide AfterLine;
    hide AfterBlock;
    hide Ascii;
    MarksAre();
    var line, block := [SLASH, SLASH] + text, [SLASH, STAR] + text;
    assert line[2..] == text && block[2..] == text;
    if NEWLINE !in text {
      LineUnclosed(text);
    }
    if Unclosed(text) {
      BlockUnclosed(text);
    }
  }

  lemma {:induction false} LineUnclosed(text: seq<byte>)
    requires NEWLINE !in text
    ensures AfterLine(text) == []
  {
    if text != [] {
      LineUnclosed(text[1..]);
    }
  }

  lemma {:induction false} BlockUnclosed(text: seq<byte>)
    requires Unclosed(text)
    ensures AfterBlock(text) == []
  {
    if text != [] {
      assert forall i :: 0 <= i < |text[1..]| ==> text[1..][i] == text[i + 1];
      BlockUnclosed(text[1..]);
    }
  }

  // ---------------------------------------------------------------- a whole text

  lemma TokenLaw(token: Token, rest: seq<byte>, rest': seq<byte>)
    requires ValidToken(token) && (token.Literal? ==> !EndsEscaped(token.chars)) && Minified(rest) == Minified(rest')
    ensures Minified(SpellToken(token) + rest) == Minified(SpellToken(token) + rest')
  {
    hide Minified;
    hide JsonGrammar.SpellString;
    hide JsonGrammar.ValidChars;
    hide EndsEscaped;
    hide PlainText;
    match token {
      case Spaces(gap) =>
        GapLaw(gap, InStep, rest);
        GapLaw(gap, InStep, rest');
      case Plain(text) =>
        PlainLaw(text, InStep, rest);
        PlainLaw(text, InStep, rest');
      case Literal(chars) =>
        LiteralLaw(chars, InStep, rest, Minified(rest));
        LiteralLaw(chars, InStep, rest', Minified(rest));
    }
  }

  /** Minifying a text is minifying it without its comments, when no literal ends in an escaped backslash. */
  lemma {:induction false} CommentsDropped(pieces: seq<Piece>)
    requires ValidPieces(pieces) && Unmistaken(ProperTokens(pieces))
    ensures Minified(SpellPieces(pieces)) == Minified(SpellTokens(ProperTokens(pieces)))
  {
    hide Minified;
    hide SpellPiece;
    hide ValidPiece;
    hide EndsEscaped;
    hide SpellToken;
    if pieces != [] {
      var rest, tokens := pieces[1..], ProperTokens(pieces[1..]);
      if pieces[0].Proper? {
        var token := pieces[0].token;
        assert ProperTokens(pieces) == [token] + tokens && ([token] + tokens)[0] == token;
        assert ([token] + tokens)[1..] == tokens;
        assert forall i :: 0 <= i < |tokens| ==> ([token] + tokens)[i + 1] == tokens[i];
        CommentsDropped(rest);
        ProperIs(pieces[0]);
        TokenLaw(token, SpellPieces(rest), SpellTokens(tokens));
      } else {
        assert [] + tokens == tokens;
        CommentsDropped(rest);
        CommentDropped(pieces[0], SpellPieces(rest));
      }
    }
  }

  lemma ProperIs(piece: Piece)
    requires piece.Proper? && ValidPiece(piece)
    ensures SpellPiece(piece) == SpellToken(piece.token) && ValidToken(piece.token)
  {
    hide SpellToken;
    hide ValidToken;
  }

  /** A text of RFC 8259 with comments minifies to the text without white space. */
  lemma CommentedIsCompact(text: JsonGrammar.Item, pieces: seq<Piece>)
    requires JsonGrammar.GapsValid(text) && JsonGrammar.Valid(text.value) && Unmistaken(ItemTokens(text))
    requires ValidPieces(pieces) && Unmistaken(ProperTokens(pieces))
    requires SpellTokens(ProperTokens(pieces)) == JsonGrammar.SpellItem(text)
    ensures Minified(SpellPieces(pieces)) == JsonGrammar.Spell(Compact(text.value))
  {
    hide *;
    CommentsDropped(pieces);
    UnmistakenIsCompact(text);
  }
}
