/**
 `\uXXXX` literals: from UTF-16 code units written in hexadecimal to UTF-8 bytes.

 `DecodeLiteral`, `Utf8` and the two methods follow the C code; `EncodeUtf16` (section 2.1 of RFC 2781) and
 `DecodeUtf8` (section 3 of RFC 3629) are written from the standards and only used to judge them.
 */
module Utf {
  import opened Bytes
  import opened Wrappers

  // ---------------------------------------------------------------- hexadecimal

  function HexValue(c: byte): (r: Option<nat>)
    ensures r.Some? ==> r.value < 16
  {
    if 0x30 <= c <= 0x39 then Some(c - 0x30)
    else if 0x41 <= c <= 0x46 then Some(10 + c - 0x41)
    else if 0x61 <= c <= 0x66 then Some(10 + c - 0x61)
    else None
  }

  predicate FourDigits(s: seq<byte>) {
    |s| == 4 && forall i :: 0 <= i < 4 ==> HexValue(s[i]).Some?
  }

  /** Four hexadecimal digits as a number, and 0 for anything else. */
  function Hex4(s: seq<byte>): (r: nat)
    requires |s| == 4
    ensures r < 0x10000
  {
    if FourDigits(s) then
      0x1000 * HexValue(s[0]).value + 0x100 * HexValue(s[1]).value
      + 0x10 * HexValue(s[2]).value + HexValue(s[3]).value
    else 0
  }

  method ParseHex4(t: seq<byte>, p: nat) returns (h: nat)
    requires p + 4 <= |t|
    ensures h == Hex4(t[p..p + 4])
  {
    ghost var s := t[p..p + 4];
    h := 0;
    var i := 0;
    while i < 4
      invariant 0 <= i <= 4
      invariant forall j :: 0 <= j < i ==> HexValue(s[j]).Some?
      invariant i == 0 ==> h == 0
      invariant i == 1 ==> h == 0x10 * HexValue(s[0]).value
      invariant i == 2 ==> h == 0x100 * HexValue(s[0]).value + 0x10 * HexValue(s[1]).value
      invariant i == 3 ==>
                  h == 0x1000 * HexValue(s[0]).value + 0x100 * HexValue(s[1]).value + 0x10 * HexValue(s[2]).value
      invariant i == 4 ==> h == Hex4(s)
    {
      assert s[i] == t[p + i];
      var c := t[p + i];
      if 0x30 <= c <= 0x39 {
        h := h + (c - 0x30);
      } else if 0x41 <= c <= 0x46 {
        h := h + (10 + c - 0x41);
      } else if 0x61 <= c <= 0x66 {
        h := h + (10 + c - 0x61);
      } else {
        return 0;
      }
      if i < 3 {
        h := h * 0x10;
      }
      i := i + 1;
    }
  }

  // ---------------------------------------------------------------- UTF-16

  predicate HighSurrogate(u: nat) {
    0xD800 <= u <= 0xDBFF
  }

  predicate LowSurrogate(u: nat) {
    0xDC00 <= u <= 0xDFFF
  }

  /** The Unicode scalar values. */
  predicate Scalar(c: nat) {
    c <= 0x10FFFF && !HighSurrogate(c) && !LowSurrogate(c)
  }

  /** Section 2.1 of RFC 2781. */
  function EncodeUtf16(c: nat): (units: seq<nat>)
    requires Scalar(c)
    ensures 1 <= |units| <= 2
  {
    if c < 0x10000 then [c]
    else [0xD800 + (c - 0x10000) / 0x400, 0xDC00 + (c - 0x10000) % 0x400]
  }

  datatype Literal = Rejected | Accepted(codepoint: nat, consumed: nat)

  /** Reads the literal at `p`; nothing at or after `end` belongs to it. */
  function DecodeLiteral(t: seq<byte>, p: nat, end: nat): (r: Literal)
    requires p <= end <= |t|
    ensures r.Accepted? ==> p + r.consumed <= end && r.consumed in {6, 12}
  {
    if end - p < 6 then Rejected
    else
      var first := Hex4(t[p + 2..p + 6]);
      if LowSurrogate(first) then Rejected
      else if HighSurrogate(first) then
        if end - p < 12 || t[p + 6] != BACKSLASH || t[p + 7] != 0x75 then Rejected
        else
          var second := Hex4(t[p + 8..p + 12]);
          if !LowSurrogate(second) then Rejected
          else Accepted(0x10000 + first % 0x400 * 0x400 + second % 0x400, 12)
      else Accepted(first, 6)
  }

  /** The code units spelled by `n` consecutive `\uXXXX` sequences at `p`. */
  function Units(t: seq<byte>, p: nat, n: nat): seq<nat>
    requires 1 <= n <= 2 && p + 6 * n <= |t|
  {
    if n == 1 then [Hex4(t[p + 2..p + 6])]
    else [Hex4(t[p + 2..p + 6]), Hex4(t[p + 8..p + 12])]
  }

  /** An accepted literal spells the UTF-16 form of the scalar value it yields. */
  lemma AcceptedIsUtf16(t: seq<byte>, p: nat, end: nat)
    requires p <= end <= |t|
    requires DecodeLiteral(t, p, end).Accepted?
    ensures var r := DecodeLiteral(t, p, end);
            && Scalar(r.codepoint)
            && r.consumed == 6 * |EncodeUtf16(r.codepoint)|
            && Units(t, p, r.consumed / 6) == EncodeUtf16(r.codepoint)
  {
    hide Hex4;
    var first := Hex4(t[p + 2..p + 6]);
    if HighSurrogate(first) {
      var second := Hex4(t[p + 8..p + 12]);
      assert first == 0xD800 + first % 0x400;
      assert second == 0xDC00 + second % 0x400;
    }
  }

  /** Every spelling of the UTF-16 form of a scalar value is accepted, so only broken surrogates are rejected. */
  lemma Utf16IsAccepted(t: seq<byte>, p: nat, end: nat, c: nat)
    requires p <= end <= |t| && Scalar(c)
    requires p + 6 * |EncodeUtf16(c)| <= end
    requires Units(t, p, |EncodeUtf16(c)|) == EncodeUtf16(c)
    requires |EncodeUtf16(c)| == 2 ==> t[p + 6] == BACKSLASH && t[p + 7] == 0x75
    ensures DecodeLiteral(t, p, end) == Accepted(c, 6 * |EncodeUtf16(c)|)
  {
    if c >= 0x10000 {
      var high, low := (c - 0x10000) / 0x400, (c - 0x10000) % 0x400;
      SurrogateBits(high, low);
      assert Units(t, p, 2)[0] == 0xD800 + high && Units(t, p, 2)[1] == 0xDC00 + low;
    } else {
      assert Units(t, p, 1)[0] == c;
    }
  }

  /** The number 0, and every text that is not four hexadecimal digits, reads as 0. */
  predicate ReadsAsZero(s: seq<byte>)
    requires |s| == 4
  {
    !FourDigits(s) || s == [0x30, 0x30, 0x30, 0x30]
  }

  lemma Hex4Zero(s: seq<byte>)
    requires |s| == 4
    ensures Hex4(s) == 0 <==> ReadsAsZero(s)
  {
    if FourDigits(s) && Hex4(s) == 0 {
      forall i | 0 <= i < 4
        ensures s[i] == 0x30
      {
        assert HexValue(s[i]) == Some(0);
      }
    }
  }

  /** With six characters there, exactly `\u0000` and the literals with a bad digit give character 0. */
  lemma ZeroAccepted(t: seq<byte>, p: nat, end: nat)
    requires p + 6 <= end <= |t|
    ensures DecodeLiteral(t, p, end) == Accepted(0, 6) <==> ReadsAsZero(t[p + 2..p + 6])
    ensures DecodeLiteral(t, p, end).Accepted? ==>
              (DecodeLiteral(t, p, end).codepoint == 0 <==> DecodeLiteral(t, p, end) == Accepted(0, 6))
  {
    hide Hex4;
    hide ReadsAsZero;
    Hex4Zero(t[p + 2..p + 6]);
  }

  /** A literal that gives any other character is spelled in hexadecimal digits throughout. */
  lemma NonzeroSpelled(t: seq<byte>, p: nat, end: nat)
    requires p <= end <= |t|
    requires DecodeLiteral(t, p, end).Accepted? && DecodeLiteral(t, p, end).codepoint != 0
    ensures FourDigits(t[p + 2..p + 6])
    ensures DecodeLiteral(t, p, end).consumed == 12 ==> FourDigits(t[p + 8..p + 12])
  {
  }

  lemma SurrogateBits(high: nat, low: nat)
    requires high < 0x400 && low < 0x400
    ensures (0xD800 + high) % 0x400 == high && (0xDC00 + low) % 0x400 == low
  {
  }

  // ---------------------------------------------------------------- UTF-8

  function Utf8Length(c: nat): nat {
    if c < 0x80 then 1 else if c < 0x800 then 2 else if c < 0x10000 then 3 else 4
  }

  function Utf8(c: nat): (r: seq<byte>)
    requires c <= 0x10FFFF
    ensures |r| == Utf8Length(c)
  {
    if c < 0x80 then [c]
    else if c < 0x800 then [0xC0 + c / 0x40, 0x80 + c % 0x40]
    else if c < 0x10000 then [0xE0 + c / 0x1000, 0x80 + c / 0x40 % 0x40, 0x80 + c % 0x40]
    else [0xF0 + c / 0x40000, 0x80 + c / 0x1000 % 0x40, 0x80 + c / 0x40 % 0x40, 0x80 + c % 0x40]
  }

  predicate Continuation(c: byte) {
    0x80 <= c <= 0xBF
  }

  /** The number a byte sequence of one of the four UTF-8 shapes carries, shortest or not. */
  function Payload(s: seq<byte>): Option<nat> {
    if |s| == 1 && s[0] < 0x80 then Carried(s[0], 0, 0, 0)
    else if |s| == 2 && 0xC0 <= s[0] < 0xE0 && Continuation(s[1]) then
      Carried(s[1] - 0x80, s[0] - 0xC0, 0, 0)
    else if |s| == 3 && 0xE0 <= s[0] < 0xF0 && Continuation(s[1]) && Continuation(s[2]) then
      Carried(s[2] - 0x80, s[1] - 0x80, s[0] - 0xE0, 0)
    else if |s| == 4 && 0xF0 <= s[0] < 0xF8 && Continuation(s[1]) && Continuation(s[2]) && Continuation(s[3]) then
      Carried(s[3] - 0x80, s[2] - 0x80, s[1] - 0x80, s[0] - 0xF0)
    else None
  }

  function Carried(a: nat, b: nat, c: nat, d: nat): Option<nat> {
    Some(a + 0x40 * b + 0x1000 * c + 0x40000 * d)
  }

  /** The bytes written carry the code point, and nothing that carries it is shorter or equally short. */
  lemma Utf8IsShortest(c: nat, s: seq<byte>)
    requires c <= 0x10FFFF
    ensures Payload(Utf8(c)) == Some(c)
    ensures Payload(s) == Some(c) ==> |s| > |Utf8(c)| || s == Utf8(c)
  {
    Utf8Carries(c);
    if Payload(s) == Some(c) && |s| <= |Utf8(c)| {
      PayloadBound(s);
      Utf8Unique(s, Utf8(c));
    }
  }

  /** A number's lowest six bits and the rest. */
  lemma Peeled(c: nat)
    ensures c == c % 0x40 + 0x40 * (c / 0x40)
    ensures c / 0x1000 == c / 0x40 / 0x40 && c / 0x40000 == c / 0x1000 / 0x40
  {
  }

  lemma Utf8Carries(c: nat)
    requires c <= 0x10FFFF
    ensures Payload(Utf8(c)) == Some(c)
  {
    var a, b := c / 0x40, c / 0x1000;
    Peeled(c);
    Peeled(a);
    Peeled(b);
    if c < 0x80 {
      assert Payload(Utf8(c)) == Carried(c, 0, 0, 0);
    } else if c < 0x800 {
      assert Payload(Utf8(c)) == Carried(c % 0x40, a, 0, 0);
    } else if c < 0x10000 {
      assert Payload(Utf8(c)) == Carried(c % 0x40, a % 0x40, b, 0);
    } else {
      assert Payload(Utf8(c)) == Carried(c % 0x40, a % 0x40, b % 0x40, c / 0x40000);
    }
  }

  lemma PayloadBound(s: seq<byte>)
    requires Payload(s).Some?
    ensures Utf8Length(Payload(s).value) <= |s|
  {
  }

  lemma Utf8Unique(s: seq<byte>, r: seq<byte>)
    requires Payload(s).Some? && Payload(s) == Payload(r) && |s| == |r|
    ensures s == r
  {
    if |s| == 3 {
      SextetsUnique(s[2] - 0x80, s[1] - 0x80, s[0] - 0xE0, 0, r[2] - 0x80, r[1] - 0x80, r[0] - 0xE0, 0);
    } else if |s| == 4 {
      SextetsUnique(s[3] - 0x80, s[2] - 0x80, s[1] - 0x80, s[0] - 0xF0,
                    r[3] - 0x80, r[2] - 0x80, r[1] - 0x80, r[0] - 0xF0);
    }
  }

  lemma SextetsUnique(a: nat, b: nat, c: nat, d: nat, a': nat, b': nat, c': nat, d': nat)
    requires a < 0x40 && b < 0x40 && c < 0x40 && a' < 0x40 && b' < 0x40 && c' < 0x40
    requires Carried(a, b, c, d) == Carried(a', b', c', d')
    ensures a == a' && b == b' && c == c' && d == d'
  {
    LowestUnique(a, b + (c + d * 0x40) * 0x40, a', b' + (c' + d' * 0x40) * 0x40);
    LowestUnique(b, c + d * 0x40, b', c' + d' * 0x40);
    LowestUnique(c, d, c', d');
  }

  /** The lowest six bits of a number, and what is above them. */
  lemma LowestUnique(low: nat, high: nat, low': nat, high': nat)
    requires low < 0x40 && low' < 0x40 && low + high * 0x40 == low' + high' * 0x40
    ensures low == low' && high == high'
  {
  }

  // ---------------------------------------------------------------- the conversion in place

  function Shifted(c: nat, sextets: nat): nat {
    if sextets == 0 then c else Shifted(c, sextets - 1) / 0x40
  }

  lemma NothingShifted(c: nat)
    ensures Shifted(c, 0) == c
  {
  }

  lemma ShiftedMore(c: nat, sextets: nat)
    ensures Shifted(c, sextets + 1) == Shifted(c, sextets) / 0x40
  {
  }

  lemma Utf8At(c: nat, k: nat)
    requires c <= 0x10FFFF && k < Utf8Length(c)
    ensures var shifted := Shifted(c, Utf8Length(c) - 1 - k);
            if k > 0 then Utf8(c)[k] == 0x80 + shifted % 0x40
            else if c < 0x80 then Utf8(c)[0] == shifted
            else if c < 0x800 then Utf8(c)[0] == 0xC0 + shifted
            else if c < 0x10000 then Utf8(c)[0] == 0xE0 + shifted
            else Utf8(c)[0] == 0xF0 + shifted
  {
    assert Shifted(c, 1) == c / 0x40;
    assert Shifted(c, 2) == c / 0x1000;
    assert Shifted(c, 3) == Shifted(c, 2) / 0x40 == c / 0x40000;
  }

  /** The encoding loop: low bits first, from the last byte back. */
  method WriteUtf8(c: nat, output: array<byte>, at: nat) returns (written: nat)
    requires c <= 0x10FFFF && at + Utf8Length(c) <= output.Length
    modifies output
    ensures written == |Utf8(c)|
    ensures output[..at + written] == old(output[..at]) + Utf8(c)
  {
    hide Utf8;
    hide Shifted;
    NothingShifted(c);
    ghost var prefix := output[..at];
    var codepoint := c;
    var mark: byte;
    if codepoint < 0x80 {
      written, mark := 1, 0;
    } else if codepoint < 0x800 {
      written, mark := 2, 0xC0;
    } else if codepoint < 0x10000 {
      written, mark := 3, 0xE0;
    } else {
      written, mark := 4, 0xF0;
    }
    var position := written - 1;
    while position > 0
      invariant 0 <= position < written
      invariant codepoint == Shifted(c, written - 1 - position)
      invariant forall k :: position < k < written ==> output[at + k] == Utf8(c)[k]
      invariant output[..at] == old(output[..at])
    {
      Utf8At(c, position);
      ShiftedMore(c, written - 1 - position);
      output[at + position] := 0x80 + codepoint % 0x40;
      codepoint := codepoint / 0x40;
      position := position - 1;
    }
    Utf8At(c, 0);
    if written > 1 {
      output[at] := mark + codepoint;
    } else {
      output[at] := codepoint;
    }
    assert forall k :: 0 <= k < written ==> output[at + k] == Utf8(c)[k];
    assert output[..at] == prefix;
    assert output[..at + written] == prefix + Utf8(c);
  }

  /** Writes the UTF-8 form of the literal at `p` into `output` from `at`; consuming 0 characters is failure. */
  method Utf16LiteralToUtf8(t: seq<byte>, p: nat, end: nat, output: array<byte>, at: nat)
    returns (consumed: nat, written: nat)
    requires p <= end <= |t|
    requires DecodeLiteral(t, p, end).Accepted? ==>
               at + Utf8Length(DecodeLiteral(t, p, end).codepoint) <= output.Length
    modifies output
    ensures consumed == 0 <==> DecodeLiteral(t, p, end).Rejected?
    ensures consumed == 0 ==> output[..] == old(output[..])
    ensures match DecodeLiteral(t, p, end)
            case Rejected => true
            case Accepted(c, n) =>
              && c <= 0x10FFFF && consumed == n && written == |Utf8(c)|
              && output[..at + written] == old(output[..at]) + Utf8(c)
  {
    hide Hex4;
    hide Utf8;
    hide Utf8Length;
    consumed, written := 0, 0;
    if end - p < 6 {
      return;
    }
    var first := ParseHex4(t, p + 2);
    if 0xDC00 <= first <= 0xDFFF {
      return;
    }
    var codepoint: nat;
    if 0xD800 <= first <= 0xDBFF {
      if end - (p + 6) < 6 {
        return;
      }
      if t[p + 6] != BACKSLASH || t[p + 7] != 0x75 {
        return;
      }
      var second := ParseHex4(t, p + 8);
      if second < 0xDC00 || second > 0xDFFF {
        return;
      }
      consumed := 12;
      codepoint := 0x10000 + first % 0x400 * 0x400 + second % 0x400;
    } else {
      consumed := 6;
      codepoint := first;
    }
    written := WriteUtf8(codepoint, output, at);
  }
}
