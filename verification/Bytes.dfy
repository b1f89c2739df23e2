/** Bytes, the ASCII characters the gateway's C code names, and C strings. */
module Bytes {

  type byte = b: int | 0 <= b < 256

  const NUL: byte := 0x00
  const TAB: byte := 0x09
  const NEWLINE: byte := 0x0A
  const RETURN: byte := 0x0D
  const SPACE: byte := 0x20
  const QUOTE: byte := 0x22
  const PLUS: byte := 0x2B
  const COMMA: byte := 0x2C
  const MINUS: byte := 0x2D
  const DOT: byte := 0x2E
  const SLASH: byte := 0x2F
  const COLON: byte := 0x3A
  const LBRACKET: byte := 0x5B
  const BACKSLASH: byte := 0x5C
  const RBRACKET: byte := 0x5D
  const LBRACE: byte := 0x7B
  const RBRACE: byte := 0x7D

  /** The bytes of a text of ASCII characters; there are none above 0x7F. */
  function Ascii(s: string): (r: seq<byte>)
    ensures |r| == |s| && forall i :: 0 <= i < |s| ==> r[i] == s[i] as int % 0x80
  {
    seq(|s|, i requires 0 <= i < |s| => s[i] as int % 0x80)
  }

  /** A C string is the bytes before its terminator; it cannot hold a NUL itself. */
  predicate NulFree(s: seq<byte>) {
    NUL !in s
  }

  /** What `strlen` and `strcmp` see of a NUL-terminated byte run. */
  function CString(s: seq<byte>): (r: seq<byte>)
    ensures NulFree(r)
    ensures r <= s && (r == s || s[|r|] == NUL)
  {
    if s == [] || s[0] == NUL then [] else [s[0]] + CString(s[1..])
  }

  /** `s` occurs in `t` at offset `o`. */
  predicate At(t: seq<byte>, o: nat, s: seq<byte>) {
    o + |s| <= |t| && t[o..o + |s|] == s
  }

  lemma AtSplit(t: seq<byte>, o: nat, a: seq<byte>, b: seq<byte>)
    ensures At(t, o, a + b) <==> At(t, o, a) && At(t, o + |a|, b)
  {
    if o + |a| + |b| <= |t| {
      var whole := t[o..o + |a + b|];
      assert whole[..|a|] == t[o..o + |a|];
      assert whole[|a|..] == t[o + |a|..o + |a| + |b|];
      assert whole == whole[..|a|] + whole[|a|..];
      assert (a + b)[..|a|] == a && (a + b)[|a|..] == b;
    }
  }
}
