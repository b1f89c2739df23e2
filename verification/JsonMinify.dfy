/**
 The in-place minifier.

 `Minified` is the result as a function of the text, idempotent and never longer than its argument on every
 text.
 */
module JsonMinify {
  import opened Bytes

  const STAR: byte := 0x2A

  predicate Blank(c: byte) {
    c == SPACE || c == TAB || c == RETURN || c == NEWLINE
  }

  // ---------------------------------------------------------------- the result, as a function

  function AfterLine(s: seq<byte>): (r: seq<byte>)
    ensures |r| <= |s|
  {
    if s == [] then []
    else if s[0] == NEWLINE then s[1..]
    else AfterLine(s[1..])
  }

  function AfterBlock(s: seq<byte>): (r: seq<byte>)
    ensures |r| <= |s|
  {
    if s == [] then []
    else if s[0] == STAR && |s| > 1 && s[1] == SLASH then s[2..]
    else AfterBlock(s[1..])
  }

  function Minified(s: seq<byte>): (r: seq<byte>)
    ensures |r| <= |s|
    decreases |s|
  {
    if s == [] then []
    else if Blank(s[0]) then Minified(s[1..])
    else if s[0] == SLASH then
      if |s| > 1 && s[1] == SLASH then Minified(AfterLine(s[2..]))
      else if |s| > 1 && s[1] == STAR then Minified(AfterBlock(s[2..]))
      else Minified(s[1..])
    else if s[0] == QUOTE then [QUOTE] + MinifiedString(s[1..])
    else [s[0]] + Minified(s[1..])
  }

  /** After an opening quote.  Only a backslash directly before a quote is recognised as an escape. */
  function MinifiedString(s: seq<byte>): (r: seq<byte>)
    ensures |r| <= |s|
    ensures s != [] ==> r != [] && r[0] == s[0]
    decreases |s|
  {
    if s == [] then []
    else if s[0] == QUOTE then [QUOTE] + Minified(s[1..])
    else if s[0] == BACKSLASH && |s| > 1 && s[1] == QUOTE then [BACKSLASH, QUOTE] + MinifiedString(s[2..])
    else [s[0]] + MinifiedString(s[1..])
  }

  /** Minifying twice is minifying once, on every text. */
  lemma {:induction false} MinifiedIdempotent(s: seq<byte>)
    ensures Minified(Minified(s)) == Minified(s)
    decreases |s|
  {
    if s == [] {
    } else if Blank(s[0]) {
      MinifiedIdempotent(s[1..]);
    } else if s[0] == SLASH {
      if |s| > 1 && s[1] == SLASH {
        MinifiedIdempotent(AfterLine(s[2..]));
      } else if |s| > 1 && s[1] == STAR {
        MinifiedIdempotent(AfterBlock(s[2..]));
      } else {
        MinifiedIdempotent(s[1..]);
      }
    } else if s[0] == QUOTE {
      MinifiedStringIdempotent(s[1..]);
      assert Minified(s)[1..] == MinifiedString(s[1..]);
    } else {
      MinifiedIdempotent(s[1..]);
      assert Minified(s)[1..] == Minified(s[1..]);
    }
  }

  lemma {:induction false} MinifiedStringIdempotent(s: seq<byte>)
    ensures MinifiedString(MinifiedString(s)) == MinifiedString(s)
    decreases |s|
  {
    var r := MinifiedString(s);
    if s == [] {
    } else if s[0] == QUOTE {
      MinifiedIdempotent(s[1..]);
      assert r[1..] == Minified(s[1..]);
    } else if s[0] == BACKSLASH && |s| > 1 && s[1] == QUOTE {
      MinifiedStringIdempotent(s[2..]);
      assert r[2..] == MinifiedString(s[2..]);
    } else {
      MinifiedStringIdempotent(s[1..]);
      assert r[1..] == MinifiedString(s[1..]);
    }
  }

  // ---------------------------------------------------------------- the minifier in place

  /** The text still to be read: `n` is where the terminator is. */
  ghost predicate Pending(json: array<byte>, j: nat, n: nat, text: seq<byte>)
    reads json
  {
    && j <= n == |text| && n < json.Length
    && json[j..n + 1] == text[j..] + [NUL] && NulFree(text)
  }

  lemma PendingAt(json: array<byte>, j: nat, n: nat, text: seq<byte>)
    requires Pending(json, j, n, text)
    ensures n == |text| && n < json.Length && j <= n
    ensures json[j] == if j < n then text[j] else NUL
    ensures j < n ==> json[j] != NUL && json[j + 1] == if j + 1 < n then text[j + 1] else NUL
    ensures j < n ==> Pending(json, j + 1, n, text) && text[j..][1..] == text[j + 1..]
  {
  }

  method SkipOnelineComment(json: array<byte>, input: nat, ghost n: nat, ghost text: seq<byte>) returns (j: nat)
    requires Pending(json, input, n, text) && input + 2 <= n
    ensures input < j && Pending(json, j, n, text)
    ensures AfterLine(text[input + 2..]) == text[j..]
  {
    PendingAt(json, input, n, text);
    PendingAt(json, input + 1, n, text);
    j := input + 2;
    while json[j] != NUL
      invariant input + 2 <= j && Pending(json, j, n, text)
      invariant AfterLine(text[input + 2..]) == AfterLine(text[j..])
      decreases n - j
    {
      PendingAt(json, j, n, text);
      if json[j] == NEWLINE {
        j := j + 1;
        return;
      }
      j := j + 1;
    }
    PendingAt(json, j, n, text);
  }

  lemma BlockStep(text: seq<byte>, j: nat)
    requires j < |text|
    ensures AfterBlock(text[j..]) ==
            if text[j] == STAR && j + 1 < |text| && text[j + 1] == SLASH then text[j + 2..]
            else AfterBlock(text[j + 1..])
  {
    var rest := text[j..];
    assert rest[1..] == text[j + 1..];
    if |rest| > 1 {
      assert rest[2..] == text[j + 2..];
    }
  }

  lemma BlockEnd()
    ensures AfterBlock([]) == []
  {
  }

  method SkipMultilineComment(json: array<byte>, input: nat, ghost n: nat, ghost text: seq<byte>) returns (j: nat)
    requires Pending(json, input, n, text) && input + 2 <= n
    ensures input < j && Pending(json, j, n, text)
    ensures AfterBlock(text[input + 2..]) == text[j..]
  {
    hide AfterBlock;
    PendingAt(json, input, n, text);
    PendingAt(json, input + 1, n, text);
    j := input + 2;
    while json[j] != NUL
      invariant input + 2 <= j && Pending(json, j, n, text)
      invariant AfterBlock(text[input + 2..]) == AfterBlock(text[j..])
      decreases n - j
    {
      PendingAt(json, j, n, text);
      BlockStep(text, j);
      if json[j] == STAR && json[j + 1] == SLASH {
        PendingAt(json, j + 1, n, text);
        j := j + 2;
        return;
      }
      j := j + 1;
    }
    PendingAt(json, j, n, text);
    BlockEnd();
  }

  /** Copies one character down; what is still to be read stays where it is. */
  method CopyDown(json: array<byte>, from: nat, to: nat, ghost n: nat, ghost text: seq<byte>)
    requires Pending(json, from, n, text) && to <= from < n
    modifies json
    ensures to < json.Length && from < |text|
    ensures Pending(json, from + 1, n, text)
    ensures json[..to + 1] == old(json[..to]) + [text[from]]
    ensures forall i :: n < i < json.Length ==> json[i] == old(json[i])
  {
    PendingAt(json, from, n, text);
    ghost var rest := json[from + 1..n + 1];
    json[to] := json[from];
    assert json[from + 1..n + 1] == rest;
    assert json[..to + 1] == json[..to] + [json[to]];
  }

  /** One turn of the string loop, on anything but the closing quote. */
  method CopyInString(json: array<byte>, input: nat, output: nat, ghost n: nat, ghost text: seq<byte>)
    returns (j: nat, into: nat)
    requires n == |text| < json.Length && output <= input < n && text[input] != QUOTE
    requires Pending(json, input, n, text)
    modifies json
    ensures input < j <= n && into <= j && Pending(json, j, n, text)
    ensures json[..into] + MinifiedString(text[j..]) == old(json[..output]) + MinifiedString(text[input..])
    ensures forall i :: n < i < json.Length ==> json[i] == old(json[i])
  {
    hide *;
    PendingAt(json, input, n, text);
    StringStep(text, input, json[..output]);
    j, into := input, output;
    if json[j] == BACKSLASH && json[j + 1] == QUOTE {
      NulIsNoQuote();
      CopyDown(json, j, into, n, text);
      j, into := j + 1, into + 1;
    }
    CopyDown(json, j, into, n, text);
    j, into := j + 1, into + 1;
  }

  lemma NulIsNoQuote()
    ensures NUL != QUOTE
  {
  }

  method MinifyString(json: array<byte>, input: nat, output: nat, ghost n: nat, ghost text: seq<byte>)
    returns (j: nat, into: nat)
    requires n == |text| < json.Length && output <= input < n && text[input] == QUOTE
    requires Pending(json, input, n, text)
    modifies json
    ensures input < j <= n && into <= j && Pending(json, j, n, text)
    ensures json[..into] + Minified(text[j..]) == old(json[..output]) + Minified(text[input..])
    ensures forall i :: n < i < json.Length ==> json[i] == old(json[i])
  {
    hide Minified;
    hide MinifiedString;
    hide Pending;
    ghost var goal := json[..output] + Minified(text[input..]);
    QuoteOpens(text, input, json[..output]);
    CopyDown(json, input, output, n, text);
    j, into := input + 1, output + 1;
    while json[j] != NUL
      invariant input < j <= n && into <= j && Pending(json, j, n, text)
      invariant json[..into] + MinifiedString(text[j..]) == goal
      invariant forall i :: n < i < json.Length ==> json[i] == old(json[i])
      decreases n - j
    {
      PendingAt(json, j, n, text);
      if json[j] == QUOTE {
        StringStep(text, j, json[..into]);
        CopyDown(json, j, into, n, text);
        j, into := j + 1, into + 1;
        return;
      }
      j, into := CopyInString(json, j, into, n, text);
    }
    PendingAt(json, j, n, text);
    NothingLeft(text, json[..into]);
  }

  /** The whole minifier: the write position never passes the read position. */
  method Minify(json: array<byte>, ghost n: nat) returns (into: nat)
    requires n < json.Length && json[n] == NUL && NulFree(json[..n])
    modifies json
    ensures into <= n && json[into] == NUL
    ensures json[..into] == Minified(old(json[..n]))
    ensures forall i :: n < i < json.Length ==> json[i] == old(json[i])
  {
    hide Minified;
    hide MinifiedString;
    ghost var text := json[..n];
    var j := 0;
    into := 0;
    assert json[0..n + 1] == text[0..] + [NUL];
    assert json[..0] + Minified(text[0..]) == Minified(text);
    while json[j] != NUL
      invariant into <= j && Pending(json, j, n, text)
      invariant json[..into] + Minified(text[j..]) == Minified(text)
      invariant forall i :: n < i < json.Length ==> json[i] == old(json[i])
      decreases n - j
    {
      PendingAt(json, j, n, text);
      OutsideStep(text, j, json[..into]);
      var c := json[j];
      if Blank(c) {
        j := j + 1;
      } else if c == SLASH {
        if json[j + 1] == SLASH {
          j := SkipOnelineComment(json, j, n, text);
        } else if json[j + 1] == STAR {
          j := SkipMultilineComment(json, j, n, text);
        } else {
          j := j + 1;
        }
      } else if c == QUOTE {
        j, into := MinifyString(json, j, into, n, text);
      } else {
        CopyDown(json, j, into, n, text);
        j, into := j + 1, into + 1;
      }
    }
    PendingAt(json, j, n, text);
    NothingLeft(text, json[..into]);
    json[into] := NUL;
  }

  lemma NothingLeft(text: seq<byte>, before: seq<byte>)
    ensures before + Minified(text[|text|..]) == before
    ensures before + MinifiedString(text[|text|..]) == before
  {
  }

  lemma QuoteOpens(text: seq<byte>, j: nat, before: seq<byte>)
    requires j < |text| && text[j] == QUOTE
    ensures before + Minified(text[j..]) == before + [QUOTE] + MinifiedString(text[j + 1..])
  {
  }

  /** One turn of the loop inside a string. */
  lemma StringStep(text: seq<byte>, j: nat, before: seq<byte>)
    requires j < |text|
    ensures var c := text[j];
            before + MinifiedString(text[j..]) ==
            if c == QUOTE then before + [c] + Minified(text[j + 1..])
            else if c == BACKSLASH && j + 1 < |text| && text[j + 1] == QUOTE
            then before + [c] + [QUOTE] + MinifiedString(text[j + 2..])
            else before + [c] + MinifiedString(text[j + 1..])
  {
  }

  /** One turn of the loop outside strings. */
  lemma OutsideStep(text: seq<byte>, j: nat, before: seq<byte>)
    requires j < |text|
    ensures var c := text[j];
            && (Blank(c) ==> Minified(text[j..]) == Minified(text[j + 1..]))
            && (c == SLASH ==>
                  Minified(text[j..]) ==
                  if j + 1 < |text| && text[j + 1] == SLASH then Minified(AfterLine(text[j + 2..]))
                  else if j + 1 < |text| && text[j + 1] == STAR then Minified(AfterBlock(text[j + 2..]))
                  else Minified(text[j + 1..]))
            && (!Blank(c) && c != SLASH && c != QUOTE ==>
                  before + Minified(text[j..]) == before + [c] + Minified(text[j + 1..]))
  {
  }
}
