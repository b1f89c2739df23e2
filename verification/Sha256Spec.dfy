/**
 SHA-256 as FIPS 180-4 defines it, and HMAC as section 2 of RFC 2104 does: functions of the whole message.
 Nothing here follows the C code.
 */
module Sha256Spec {

  type Byte = bv8
  type Word = bv32

  // ---------------------------------------------------------------- section 4.1.2

  /** Addition modulo 2^32. */
  function Add(x: Word, y: Word): Word {
    x + y
  }

  function Shr(x: Word, n: nat): Word
    requires n <= 32
  {
    x >> n
  }

  function RotR(x: Word, n: nat): Word
    requires 0 < n < 32
  {
    (x >> n) | (x << (32 - n))
  }

  function Ch(x: Word, y: Word, z: Word): Word {
    (x & y) ^ (!x & z)
  }

  function Maj(x: Word, y: Word, z: Word): Word {
    (x & y) ^ (x & z) ^ (y & z)
  }

  function BigSigma0(x: Word): Word {
    RotR(x, 2) ^ RotR(x, 13) ^ RotR(x, 22)
  }

  function BigSigma1(x: Word): Word {
    RotR(x, 6) ^ RotR(x, 11) ^ RotR(x, 25)
  }

  function SmallSigma0(x: Word): Word {
    RotR(x, 7) ^ RotR(x, 18) ^ Shr(x, 3)
  }

  function SmallSigma1(x: Word): Word {
    RotR(x, 17) ^ RotR(x, 19) ^ Shr(x, 10)
  }

  // ---------------------------------------------------------------- sections 4.2.2 and 5.3.3

  const K: seq<Word> :=
    [0x428A2F98, 0x71374491, 0xB5C0FBCF, 0xE9B5DBA5, 0x3956C25B, 0x59F111F1, 0x923F82A4, 0xAB1C5ED5]
    + [0xD807AA98, 0x12835B01, 0x243185BE, 0x550C7DC3, 0x72BE5D74, 0x80DEB1FE, 0x9BDC06A7, 0xC19BF174]
    + [0xE49B69C1, 0xEFBE4786, 0x0FC19DC6, 0x240CA1CC, 0x2DE92C6F, 0x4A7484AA, 0x5CB0A9DC, 0x76F988DA]
    + [0x983E5152, 0xA831C66D, 0xB00327C8, 0xBF597FC7, 0xC6E00BF3, 0xD5A79147, 0x06CA6351, 0x14292967]
    + [0x27B70A85, 0x2E1B2138, 0x4D2C6DFC, 0x53380D13, 0x650A7354, 0x766A0ABB, 0x81C2C92E, 0x92722C85]
    + [0xA2BFE8A1, 0xA81A664B, 0xC24B8B70, 0xC76C51A3, 0xD192E819, 0xD6990624, 0xF40E3585, 0x106AA070]
    + [0x19A4C116, 0x1E376C08, 0x2748774C, 0x34B0BCB5, 0x391C0CB3, 0x4ED8AA4A, 0x5B9CCA4F, 0x682E6FF3]
    + [0x748F82EE, 0x78A5636F, 0x84C87814, 0x8CC70208, 0x90BEFFFA, 0xA4506CEB, 0xBEF9A3F7, 0xC67178F2]

  const H0: seq<Word> := [
    0x6A09E667, 0xBB67AE85, 0x3C6EF372, 0xA54FF53A, 0x510E527F, 0x9B05688C, 0x1F83D9AB, 0x5BE0CD19]

  lemma Sizes()
    ensures |K| == 64 && |H0| == 8
  {
  }

  // ---------------------------------------------------------------- section 6.2.2

  const BLOCK: nat := 64

  function WordAt(block: seq<Byte>, t: nat): Word
    requires 4 * t + 4 <= |block|
  {
    ((block[4 * t] as Word) << 24) | ((block[4 * t + 1] as Word) << 16)
    | ((block[4 * t + 2] as Word) << 8) | (block[4 * t + 3] as Word)
  }

  /** The message schedule: W_t. */
  function Schedule(block: seq<Byte>, t: nat): Word
    requires |block| == BLOCK
  {
    if t < 16 then WordAt(block, t)
    else Add(Add(Add(SmallSigma1(Schedule(block, t - 2)), Schedule(block, t - 7)),
                 SmallSigma0(Schedule(block, t - 15))), Schedule(block, t - 16))
  }

  /** The eight working variables a to h. */
  datatype Vars = Vars(a: Word, b: Word, c: Word, d: Word, e: Word, f: Word, g: Word, h: Word)

  function Round(v: Vars, k: Word, w: Word): Vars {
    var t1 := Add(Add(Add(Add(v.h, BigSigma1(v.e)), Ch(v.e, v.f, v.g)), k), w);
    var t2 := Add(BigSigma0(v.a), Maj(v.a, v.b, v.c));
    Vars(Add(t1, t2), v.a, v.b, v.c, Add(v.d, t1), v.e, v.f, v.g)
  }

  function VarsOf(h: seq<Word>): Vars
    requires |h| == 8
  {
    Vars(h[0], h[1], h[2], h[3], h[4], h[5], h[6], h[7])
  }

  function Rounds(h: seq<Word>, block: seq<Byte>, t: nat): Vars
    requires |h| == 8 && |block| == BLOCK && t <= |K|
  {
    if t == 0 then VarsOf(h) else Round(Rounds(h, block, t - 1), K[t - 1], Schedule(block, t - 1))
  }

  function Compress(h: seq<Word>, block: seq<Byte>): (r: seq<Word>)
    requires |h| == 8 && |block| == BLOCK
    ensures |r| == 8
  {
    var v := Rounds(h, block, |K|);
    [Add(h[0], v.a), Add(h[1], v.b), Add(h[2], v.c), Add(h[3], v.d),
     Add(h[4], v.e), Add(h[5], v.f), Add(h[6], v.g), Add(h[7], v.h)]
  }

  /** The hash value after the first `n` blocks of `m`. */
  function HashBlocks(m: seq<Byte>, n: nat): (r: seq<Word>)
    requires n * BLOCK <= |m|
    ensures |r| == 8
  {
    if n == 0 then H0 else Compress(HashBlocks(m, n - 1), m[(n - 1) * BLOCK..n * BLOCK])
  }

  // ---------------------------------------------------------------- section 5.1.1

  function Zeros(n: nat): (r: seq<Byte>)
    ensures |r| == n
  {
    seq(n, i => 0)
  }

  /** The smallest number of zero bytes that brings a message of `n` bytes and the marker to 56 modulo 64. */
  function ZeroPadding(n: nat): (z: nat)
    ensures (n + 1 + z) % BLOCK == 56 && z < BLOCK
  {
    (119 - n % BLOCK) % BLOCK
  }

  function LowByte(n: nat): Byte {
    (n % 0x100) as Byte
  }

  function BigEndian32(n: nat): (r: seq<Byte>)
    ensures |r| == 4
  {
    [LowByte(n / 0x100_0000), LowByte(n / 0x1_0000), LowByte(n / 0x100), LowByte(n)]
  }

  /** The length in bits as a 64-bit big-endian number. */
  function BigEndian64(n: nat): (r: seq<Byte>)
    ensures |r| == 8
  {
    BigEndian32(n / 0x1_0000_0000) + BigEndian32(n % 0x1_0000_0000)
  }

  function Pad(m: seq<Byte>): (r: seq<Byte>) {
    m + [0x80] + Zeros(ZeroPadding(|m|)) + BigEndian64(8 * |m|)
  }

  lemma PadWhole(m: seq<Byte>)
    ensures |Pad(m)| % BLOCK == 0
  {
    hide BigEndian64;
    hide ZeroPadding;
    assert |Pad(m)| == |m| + 1 + ZeroPadding(|m|) + 8;
  }

  // ---------------------------------------------------------------- the digest

  /** The byte of `w` whose lowest bit is bit `shift`. */
  function Octet(w: Word, shift: nat): Byte
    requires shift <= 24
  {
    ((w >> shift) & 0xFF) as Byte
  }

  function WordBytes(w: Word): (r: seq<Byte>)
    ensures |r| == 4
  {
    [Octet(w, 24), Octet(w, 16), Octet(w, 8), Octet(w, 0)]
  }

  function WordsBytes(h: seq<Word>): (r: seq<Byte>)
    ensures |r| == 4 * |h|
  {
    if h == [] then [] else WordBytes(h[0]) + WordsBytes(h[1..])
  }

  function Digest(m: seq<Byte>): (r: seq<Byte>)
    ensures |r| == 32
  {
    WordsBytes(HashBlocks(Pad(m), |Pad(m)| / BLOCK))
  }

  // ---------------------------------------------------------------- section 2 of RFC 2104

  function Xor(x: Byte, c: Byte): Byte {
    x ^ c
  }

  function Xored(s: seq<Byte>, c: Byte): (r: seq<Byte>)
    ensures |r| == |s|
  {
    seq(|s|, i requires 0 <= i < |s| => Xor(s[i], c))
  }

  /** A key brought to the length of a block: hashed first when it is longer, then filled with zeros. */
  function BlockKey(key: seq<Byte>): (r: seq<Byte>)
    ensures |r| == BLOCK
  {
    var short := if |key| > BLOCK then Digest(key) else key;
    short + Zeros(BLOCK - |short|)
  }

  function Hmac(key: seq<Byte>, text: seq<Byte>): seq<Byte> {
    var padded := BlockKey(key);
    Digest(Xored(padded, 0x5C) + Digest(Xored(padded, 0x36) + text))
  }
}
