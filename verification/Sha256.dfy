/** The shortcuts the macros take for the choice and majority functions, as identities of 32-bit words. */
module WordIdentities {

  lemma Majority(x: bv32, y: bv32, z: bv32)
    ensures (x & y) | (z & (x | y)) == (x & y) ^ (x & z) ^ (y & z)
  {
  }

  lemma Choice(x: bv32, y: bv32, z: bv32)
    ensures z ^ (x & (y ^ z)) == (x & y) ^ (!x & z)
  {
  }
}

/**
 The streaming SHA-256 and HMAC of the C code: a context updated in place, chunk by chunk.

 The context's invariant ties its registers, its partial block and its two-word byte count to the bytes it
 has been given, so that any way of cutting a message into chunks gives the digest of the whole.
 */
module Sha256 {
  import opened Sha256Spec
  import WordIdentities

  const WORD: nat := 0x1_0000_0000

  // ---------------------------------------------------------------- the macros

  function S0(x: Word): Word { RotR(x, 7) ^ RotR(x, 18) ^ Shr(x, 3) }

  function S1(x: Word): Word { RotR(x, 17) ^ RotR(x, 19) ^ Shr(x, 10) }

  function S2(x: Word): Word { RotR(x, 2) ^ RotR(x, 13) ^ RotR(x, 22) }

  function S3(x: Word): Word { RotR(x, 6) ^ RotR(x, 11) ^ RotR(x, 25) }

  function F0(x: Word, y: Word, z: Word): Word { (x & y) | (z & (x | y)) }

  function F1(x: Word, y: Word, z: Word): Word { z ^ (x & (y ^ z)) }

  lemma MajorityShortcut(x: Word, y: Word, z: Word)
    ensures F0(x, y, z) == Maj(x, y, z)
  {
    WordIdentities.Majority(x, y, z);
  }

  lemma ChoiceShortcut(x: Word, y: Word, z: Word)
    ensures F1(x, y, z) == Ch(x, y, z)
  {
    WordIdentities.Choice(x, y, z);
  }

  lemma SameSigmas(x: Word)
    ensures S0(x) == SmallSigma0(x) && S1(x) == SmallSigma1(x)
    ensures S2(x) == BigSigma0(x) && S3(x) == BigSigma1(x)
  {
  }

  // ---------------------------------------------------------------- one block

  /** The P macro and the rotation of the register array. */
  method Step(A: array<Word>, k: Word, w: Word)
    requires A.Length == 8
    modifies A
    ensures VarsOf(A[..]) == Round(old(VarsOf(A[..])), k, w)
  {
    hide Add;
    hide S2;
    hide S3;
    hide F0;
    hide F1;
    hide Ch;
    hide Maj;
    hide BigSigma0;
    hide BigSigma1;
    ChoiceShortcut(A[4], A[5], A[6]);
    MajorityShortcut(A[0], A[1], A[2]);
    SameSigmas(A[4]);
    SameSigmas(A[0]);
    ghost var v := VarsOf(A[..]);
    var temp1 := Add(Add(Add(Add(A[7], S3(A[4])), F1(A[4], A[5], A[6])), k), w);
    var temp2 := Add(S2(A[0]), F0(A[0], A[1], A[2]));
    A[3] := Add(A[3], temp1);
    A[7] := Add(temp1, temp2);
    temp1 := A[7];
    A[7] := A[6];
    A[6] := A[5];
    A[5] := A[4];
    A[4] := A[3];
    A[3] := A[2];
    A[2] := A[1];
    A[1] := A[0];
    A[0] := temp1;
    assert VarsOf(A[..]) == Vars(temp1, v.a, v.b, v.c, A[4], v.e, v.f, v.g);
  }

  /** The 64 rounds, with the message schedule computed as it is needed. */
  method RunRounds(A: array<Word>, data: seq<Byte>)
    requires A.Length == 8 && |data| == BLOCK
    modifies A
    ensures VarsOf(A[..]) == Rounds(old(A[..]), data, |K|)
  {
    hide Add;
    hide Round;
    hide K;
    hide WordAt;
    hide VarsOf;
    hide Rounds;
    hide Schedule;
    Sizes();
    ghost var h := A[..];
    var W := new Word[64];
    var i := 0;
    RoundsStart(h, data);
    while i < 64
      invariant 0 <= i <= 64 && VarsOf(A[..]) == Rounds(h, data, i)
      invariant forall j :: 0 <= j < i ==> W[j] == Schedule(data, j)
    {
      ScheduleStep(data, i);
      if i < 16 {
        W[i] := WordAt(data, i);
      } else {
        W[i] := Add(Add(Add(S1(W[i - 2]), W[i - 7]), S0(W[i - 15])), W[i - 16]);
      }
      RoundsStep(h, data, i);
      Step(A, K[i], W[i]);
      i := i + 1;
    }
  }

  lemma RoundsStart(h: seq<Word>, data: seq<Byte>)
    requires |h| == 8 && |data| == BLOCK
    ensures VarsOf(h) == Rounds(h, data, 0)
  {
  }

  lemma RoundsStep(h: seq<Word>, data: seq<Byte>, t: nat)
    requires |h| == 8 && |data| == BLOCK && t < |K|
    ensures Rounds(h, data, t + 1) == Round(Rounds(h, data, t), K[t], Schedule(data, t))
  {
  }

  lemma ScheduleStep(data: seq<Byte>, t: nat)
    requires |data| == BLOCK
    ensures t < 16 ==> Schedule(data, t) == WordAt(data, t)
    ensures t >= 16 ==>
              Schedule(data, t) ==
              Add(Add(Add(S1(Schedule(data, t - 2)), Schedule(data, t - 7)), S0(Schedule(data, t - 15))),
                  Schedule(data, t - 16))
  {
    hide WordAt;
    hide Add;
    hide RotR;
    hide Shr;
  }

  lemma FeedForward(h: seq<Word>, data: seq<Byte>, a: seq<Word>, r: seq<Word>)
    requires |h| == 8 && |data| == BLOCK && |a| == 8 && |r| == 8
    requires VarsOf(a) == Rounds(h, data, |K|)
    requires forall j :: 0 <= j < 8 ==> r[j] == Add(h[j], a[j])
    ensures r == Compress(h, data)
  {
    hide Add;
    hide Rounds;
    hide K;
  }

  class Context {
    var total0: nat
    var total1: nat
    const state: array<Word>
    const buffer: array<Byte>
    /** The bytes given to the context so far. */
    ghost var consumed: seq<Byte>

    ghost predicate Valid()
      reads this, state, buffer
    {
      var n := |consumed|;
      && state.Length == 8 && buffer.Length == BLOCK
      && total0 == n % WORD && total1 == n / WORD % WORD
      && state[..] == HashBlocks(consumed, n / BLOCK)
      && buffer[..n % BLOCK] == consumed[n / BLOCK * BLOCK..]
    }

    /** `utils_sha256_init` and `utils_sha256_starts`. */
    constructor ()
      ensures Valid() && fresh(state) && fresh(buffer) && consumed == []
    {
      total0, total1 := 0, 0;
      state := new Word[8];
      buffer := new Byte[64](_ => 0);
      consumed := [];
      new;
      state[0], state[1], state[2], state[3] := 0x6A09E667, 0xBB67AE85, 0x3C6EF372, 0xA54FF53A;
      state[4], state[5], state[6], state[7] := 0x510E527F, 0x9B05688C, 0x1F83D9AB, 0x5BE0CD19;
      assert state[..] == H0;
    }

    /** `utils_sha256_process`. */
    method Process(data: seq<Byte>)
      requires state.Length == 8 && |data| == BLOCK
      modifies state
      ensures state[..] == Compress(old(state[..]), data)
    {
      hide *;
      ghost var h := state[..];
      var A := new Word[8];
      var i := 0;
      while i < 8
        invariant 0 <= i <= 8 && state[..] == h
        invariant forall j :: 0 <= j < i ==> A[j] == h[j]
      {
        A[i] := state[i];
        i := i + 1;
      }
      assert A[..] == h;
      RunRounds(A, data);
      AddRegisters(A);
      FeedForward(h, data, A[..], state[..]);
    }

    method AddRegisters(A: array<Word>)
      requires state.Length == 8 && A.Length == 8 && A != state
      modifies state
      ensures forall j :: 0 <= j < 8 ==> state[j] == Add(old(state[j]), A[j])
    {
      hide Add;
      var i := 0;
      while i < 8
        invariant 0 <= i <= 8
        invariant forall j :: 0 <= j < 8 ==> state[j] == if j < i then Add(old(state[j]), A[j]) else old(state[j])
      {
        state[i] := Add(state[i], A[i]);
        i := i + 1;
      }
    }

    /** Part of a block is in place: `left` bytes of block `n` of `m`, after `n` whole blocks. */
    ghost predicate Partial(m: seq<Byte>, n: nat, left: nat)
      reads state, buffer
    {
      && buffer.Length == BLOCK && left < BLOCK && n * BLOCK + left <= |m|
      && state.Length == 8 && state[..] == HashBlocks(m, n)
      && buffer[..left] == m[n * BLOCK..n * BLOCK + left]
    }

    /** `memcpy` into the partial block. */
    method CopyIn(left: nat, bytes: seq<Byte>)
      requires left + |bytes| <= buffer.Length
      modifies buffer
      ensures buffer[..left + |bytes|] == old(buffer[..left]) + bytes
    {
      forall i | 0 <= i < |bytes| {
        buffer[left + i] := bytes[i];
      }
      assert buffer[..left] == old(buffer[..left]);
      assert buffer[left..left + |bytes|] == bytes;
      assert buffer[..left + |bytes|] == buffer[..left] + buffer[left..left + |bytes|];
    }

    method FillBlock(rest: seq<Byte>, left: nat, ghost m: seq<Byte>, ghost n: nat)
      requires Partial(m, n, left) && rest == m[n * BLOCK + left..] && left + |rest| >= BLOCK
      requires state != buffer as object
      modifies state, buffer
      ensures Partial(m, n + 1, 0)
    {
      hide HashBlocks;
      NextBlock(m, n * BLOCK, left, rest);
      CopyIn(left, rest[..64 - left]);
      assert buffer[..64] == m[n * BLOCK..(n + 1) * BLOCK];
      HashStep(m, n);
      Process(buffer[..]);
      assert buffer[..] == buffer[..64];
    }

    method WholeBlock(rest: seq<Byte>, ghost m: seq<Byte>, ghost n: nat)
      requires Partial(m, n, 0) && rest == m[n * BLOCK..] && |rest| >= BLOCK
      modifies state
      ensures Partial(m, n + 1, 0)
    {
      hide HashBlocks;
      hide Compress;
      NextBlock(m, n * BLOCK, 0, rest);
      assert m[n * BLOCK..n * BLOCK] + rest[..64] == rest[..64];
      HashStep(m, n);
      Process(rest[..64]);
    }

    /** The counter of bytes, in two words with an explicit carry. */
    method CountBytes(length: nat)
      requires length < WORD
      requires total0 == |consumed| % WORD && total1 == |consumed| / WORD % WORD
      modifies this`total0, this`total1
      ensures total0 == (|consumed| + length) % WORD && total1 == (|consumed| + length) / WORD % WORD
    {
      Carry(|consumed|, length);
      total0 := (total0 + length) % WORD;
      if total0 < length {
        total1 := (total1 + 1) % WORD;
      }
    }

    /** The whole blocks of the input, and then what is left of it. */
    method Drain(input: seq<Byte>, left: nat, ghost m: seq<Byte>, ghost start: nat)
      requires Partial(m, start, left) && (left == 0 || left + |input| < BLOCK)
      requires input == m[start * BLOCK + left..]
      modifies state, buffer
      ensures Partial(m, |m| / BLOCK, |m| % BLOCK)
    {
      hide HashBlocks;
      var rest := input;
      ghost var n: nat := start;
      while |rest| >= 64
        invariant Partial(m, n, left) && (left == 0 || left + |rest| < BLOCK)
        invariant rest == m[n * BLOCK + left..]
      {
        WholeBlock(rest, m, n);
        rest := rest[64..];
        n := n + 1;
        assert rest == m[n * BLOCK..];
      }
      if |rest| > 0 {
        CopyIn(left, rest);
        assert m[n * BLOCK..n * BLOCK + left] + rest == m[n * BLOCK..n * BLOCK + left + |rest|];
      }
      assert left + |rest| == |m| % BLOCK && n == |m| / BLOCK;
    }

    /** `utils_sha256_update`. */
    method Update(input: seq<Byte>)
      requires Valid() && |input| < WORD
      modifies this, state, buffer
      ensures Valid() && consumed == old(consumed) + input
    {
      hide HashBlocks;
      if |input| == 0 {
        assert consumed + input == consumed;
        return;
      }
      ghost var m := consumed + input;
      ghost var n := |consumed| / BLOCK;
      var left := total0 % 64;
      var fill := 64 - left;
      CountBytes(|input|);
      StillPartial(consumed, input);
      assert Partial(m, n, left);
      if left != 0 && |input| >= fill {
        FillBlock(input, left, m, n);
        assert input[fill..] == m[(n + 1) * BLOCK..];
        Drain(input[fill..], 0, m, n + 1);
      } else {
        Drain(input, left, m, n);
      }
      consumed := m;
      assert m[|m| / BLOCK * BLOCK..] == m[|m| / BLOCK * BLOCK..|m| / BLOCK * BLOCK + |m| % BLOCK];
    }

    /** The bit length, from the two words of the byte count. */
    method MessageLength() returns (msglen: seq<Byte>)
      requires Valid() && |consumed| < 0x2000_0000_0000_0000
      ensures msglen == BigEndian32(8 * |consumed| / WORD) + BigEndian32(8 * |consumed| % WORD)
    {
      hide HashBlocks;
      hide BigEndian32;
      var high := total0 / 0x2000_0000 + total1 * 8 % WORD;
      var low := total0 * 8 % WORD;
      BitLength(|consumed|);
      msglen := BigEndian32(high) + BigEndian32(low);
    }

    /** Nothing is left in the buffer, so the registers are the hash of all the blocks. */
    lemma WholeBlocks()
      requires Valid() && |consumed| % BLOCK == 0
      ensures state[..] == HashBlocks(consumed, |consumed| / BLOCK)
    {
    }

    lemma Count()
      requires Valid()
      ensures total0 % 64 == |consumed| % 64 && state.Length == 8
    {
      hide HashBlocks;
      Remainder(|consumed|);
    }

    /** `utils_sha256_finish`. */
    method Finish(output: array<Byte>)
      requires Valid() && output.Length == 32 && output != buffer
      requires |consumed| < 0x2000_0000_0000_0000
      modifies this, state, buffer, output
      ensures output[..] == Digest(old(consumed))
    {
      hide HashBlocks;
      hide Pad;
      hide BigEndian32;
      hide WordsBytes;
      hide Valid;
      ghost var m := consumed;
      Count();
      var msglen := MessageLength();
      var last := total0 % 64;
      var padn := if last < 56 then 56 - last else 120 - last;
      PaddingParts(m, padn, msglen);
      Update([0x80] + Zeros(padn - 1));
      Update(msglen);
      assert consumed == Pad(m);
      WholeBlocks();
      Count();
      PutState(output);
    }

    method PutState(output: array<Byte>)
      requires state.Length == 8 && output.Length == 32
      modifies output
      ensures output[..] == WordsBytes(state[..])
    {
      hide WordBytes;
      hide WordsBytes;
      WordsBytesFlat(state[..]);
      PutUint32Be(state[0], output, 0);
      PutUint32Be(state[1], output, 4);
      PutUint32Be(state[2], output, 8);
      PutUint32Be(state[3], output, 12);
      PutUint32Be(state[4], output, 16);
      PutUint32Be(state[5], output, 20);
      PutUint32Be(state[6], output, 24);
      PutUint32Be(state[7], output, 28);
      assert output[..] == output[..32];
    }
  }

  method PutUint32Be(n: Word, b: array<Byte>, i: nat)
    requires i + 4 <= b.Length
    modifies b
    ensures b[..i + 4] == old(b[..i]) + WordBytes(n)
  {
    hide Octet;
    ghost var prefix := b[..i];
    b[i] := Octet(n, 24);
    b[i + 1] := Octet(n, 16);
    b[i + 2] := Octet(n, 8);
    b[i + 3] := Octet(n, 0);
    assert b[..i + 4] == prefix + [Octet(n, 24), Octet(n, 16), Octet(n, 8), Octet(n, 0)];
  }

  lemma WordsBytesFlat(h: seq<Word>)
    requires |h| == 8
    ensures WordsBytes(h) ==
            [] + WordBytes(h[0]) + WordBytes(h[1]) + WordBytes(h[2]) + WordBytes(h[3])
            + WordBytes(h[4]) + WordBytes(h[5]) + WordBytes(h[6]) + WordBytes(h[7])
  {
    hide WordBytes;
    hide WordsBytes;
    NoWords(h);
    PrefixBytes(h, 0);
    PrefixBytes(h, 1);
    PrefixBytes(h, 2);
    PrefixBytes(h, 3);
    PrefixBytes(h, 4);
    PrefixBytes(h, 5);
    PrefixBytes(h, 6);
    PrefixBytes(h, 7);
  }

  lemma NoWords(h: seq<Word>)
    ensures WordsBytes(h[..0]) == [] && h[..|h|] == h
  {
  }

  lemma PrefixBytes(h: seq<Word>, i: nat)
    requires i < |h|
    ensures WordsBytes(h[..i + 1]) == WordsBytes(h[..i]) + WordBytes(h[i])
  {
    WordsBytesLast(h[..i + 1]);
    assert h[..i + 1][..i] == h[..i];
  }

  lemma {:induction false} WordsBytesLast(h: seq<Word>)
    requires h != []
    ensures WordsBytes(h) == WordsBytes(h[..|h| - 1]) + WordBytes(h[|h| - 1])
  {
    hide WordBytes;
    if |h| == 1 {
      assert h[1..] == [] && h[..0] == [];
    } else {
      WordsBytesLast(h[1..]);
      assert h[1..][..|h| - 2] == h[..|h| - 1][1..];
    }
  }

  /** Two words of a count, and the carry the C code reads off a wrapped sum. */
  lemma Carry(n: nat, length: nat)
    requires length < WORD
    ensures var low := (n % WORD + length) % WORD;
            && (n + length) % WORD == low
            && (n + length) / WORD % WORD == if low < length then (n / WORD % WORD + 1) % WORD else n / WORD % WORD
  {
    var low, high := n % WORD, n / WORD;
    if low + length < WORD {
      Quotient(n + length, high, low + length);
    } else {
      Quotient(n + length, high + 1, low + length - WORD);
      Quotient(low + length, 1, low + length - WORD);
    }
    CarryIn(high);
  }

  lemma CarryIn(high: nat)
    ensures (high + 1) % WORD == (high % WORD + 1) % WORD
  {
    if high % WORD + 1 < WORD {
      Quotient(high + 1, high / WORD, high % WORD + 1);
    } else {
      Quotient(high + 1, high / WORD + 1, 0);
    }
  }

  lemma Remainder(n: nat)
    ensures n % WORD % 64 == n % 64
  {
    assert n == n / WORD * WORD + n % WORD;
  }

  /** The two halves of the bit length, from the two words of the byte count. */
  lemma BitLength(n: nat)
    requires n < 0x2000_0000_0000_0000
    ensures n % WORD / 0x2000_0000 + n / WORD % WORD * 8 % WORD == 8 * n / WORD
    ensures n % WORD * 8 % WORD == 8 * n % WORD
  {
    var low, high := n % WORD, n / WORD;
    var a, b := low / 0x2000_0000, low % 0x2000_0000;
    assert n == high * WORD + low && low == a * 0x2000_0000 + b && 0 <= a < 8 && 0 <= b < 0x2000_0000;
    assert 8 * n == (8 * high + a) * WORD + 8 * b && 8 * b < WORD;
    Quotient(8 * n, 8 * high + a, 8 * b);
    Quotient(8 * low, a, 8 * b);
    assert high < 0x2000_0000;
  }

  lemma Quotient(n: nat, q: nat, r: nat)
    requires n == q * WORD + r && r < WORD
    ensures n / WORD == q && n % WORD == r
  {
  }

  /** The padding and the length the context is fed are what FIPS 180-4 appends. */
  lemma PaddingParts(m: seq<Byte>, padn: nat, msglen: seq<Byte>)
    requires padn == (if |m| % 64 < 56 then 56 - |m| % 64 else 120 - |m| % 64)
    requires msglen == BigEndian32(8 * |m| / WORD) + BigEndian32(8 * |m| % WORD)
    ensures 0 < padn <= 64 && |msglen| == 8
    ensures m + ([0x80] + Zeros(padn - 1)) + msglen == Pad(m)
    ensures |Pad(m)| % BLOCK == 0
  {
    hide BigEndian32;
    PadWhole(m);
    assert ZeroPadding(|m|) == padn - 1;
  }

  /** `utils_sha256`. */
  method Sha256(input: seq<Byte>, output: array<Byte>)
    requires |input| < WORD && output.Length == 32
    modifies output
    ensures output[..] == Digest(input)
  {
    hide Digest;
    hide Context.Valid;
    var context := new Context();
    context.Update(input);
    assert [] + input == input;
    context.Finish(output);
  }

  function Joined(chunks: seq<seq<Byte>>): seq<Byte> {
    if chunks == [] then [] else Joined(chunks[..|chunks| - 1]) + chunks[|chunks| - 1]
  }

  /** However a message is cut into chunks, the digest is that of the whole message. */
  method Sha256OfChunks(chunks: seq<seq<Byte>>, output: array<Byte>)
    requires forall i :: 0 <= i < |chunks| ==> |chunks[i]| < WORD
    requires |Joined(chunks)| < 0x2000_0000_0000_0000 && output.Length == 32
    modifies output
    ensures output[..] == Digest(Joined(chunks))
  {
    hide Digest;
    var context := new Context();
    assert chunks[..0] == [];
    for i := 0 to |chunks|
      invariant context.Valid() && fresh(context.state) && fresh(context.buffer)
      invariant context.consumed == Joined(chunks[..i])
    {
      assert chunks[..i + 1][..i] == chunks[..i];
      context.Update(chunks[i]);
    }
    assert chunks[..|chunks|] == chunks;
    context.Finish(output);
  }

  /** The key, padded with zeros to a block, XORed with the inner and the outer constant. */
  method MakePads(key: seq<Byte>) returns (inner: array<Byte>, outer: array<Byte>)
    requires |key| <= BLOCK
    ensures fresh(inner) && inner[..] == Xored(key + Zeros(BLOCK - |key|), 0x36)
    ensures fresh(outer) && outer[..] == Xored(key + Zeros(BLOCK - |key|), 0x5C)
  {
    hide Xor;
    ghost var padded := key + Zeros(BLOCK - |key|);
    inner := new Byte[64](_ => 0);
    outer := new Byte[64](_ => 0);
    forall i | 0 <= i < |key| {
      inner[i] := key[i];
    }
    forall i | 0 <= i < |key| {
      outer[i] := key[i];
    }
    assert forall j :: 0 <= j < 64 ==> inner[j] == padded[j] && outer[j] == padded[j];
    var i := 0;
    while i < 64
      invariant 0 <= i <= 64
      invariant forall j :: 0 <= j < 64 ==> inner[j] == if j < i then Xor(padded[j], 0x36) else padded[j]
      invariant forall j :: 0 <= j < 64 ==> outer[j] == if j < i then Xor(padded[j], 0x5C) else padded[j]
    {
      inner[i] := Xor(inner[i], 0x36);
      outer[i] := Xor(outer[i], 0x5C);
      i := i + 1;
    }
  }

  /** A fresh context given two chunks. */
  method HashTwo(first: seq<Byte>, second: seq<Byte>, output: array<Byte>)
    requires |first| < WORD && |second| < WORD && output.Length == 32
    modifies output
    ensures output[..] == Digest(first + second)
  {
    hide Digest;
    hide Context.Valid;
    var context := new Context();
    context.Update(first);
    assert [] + first == first;
    context.Update(second);
    context.Finish(output);
  }

  lemma ShortKey(key: seq<Byte>, text: seq<Byte>)
    requires |key| <= BLOCK
    ensures var padded := key + Zeros(BLOCK - |key|);
            Hmac(key, text) == Digest(Xored(padded, 0x5C) + Digest(Xored(padded, 0x36) + text))
  {
    hide Digest;
    hide Xored;
    hide Zeros;
  }

  /** `utils_hmac_sha256`, which returns without an answer when the key is longer than a block. */
  method HmacSha256(msg: seq<Byte>, key: seq<Byte>, output: array<Byte>)
    requires |msg| < WORD && |key| < WORD && output.Length == 32
    modifies output
    ensures output[..] == if |key| <= BLOCK then Hmac(key, msg) else old(output[..])
  {
    if |key| > 64 {
      return;
    }
    hide Digest;
    hide Xored;
    hide Zeros;
    hide Hmac;
    var inner, outer := MakePads(key);
    ShortKey(key, msg);
    HashTwo(inner[..], msg, output);
    HashTwo(outer[..], output[..], output);
  }

  lemma StillPartial(m: seq<Byte>, rest: seq<Byte>)
    ensures var n, left := |m| / BLOCK, |m| % BLOCK;
            && left == |m| % WORD % 64
            && HashBlocks(m + rest, n) == HashBlocks(m, n)
            && (m + rest)[n * BLOCK..n * BLOCK + left] == m[n * BLOCK..]
            && (m + rest)[n * BLOCK + left..] == rest
  {
    hide HashBlocks;
    var whole := |m| / BLOCK * BLOCK;
    HashPrefix(m, rest, |m| / BLOCK);
    assert whole + |m| % BLOCK == |m|;
    JoinedSlices(m, rest, whole);
    WordThenBlock(|m|);
  }

  lemma WordThenBlock(n: nat)
    ensures n % WORD % 64 == n % 64
  {
    var high, low := n / WORD, n % WORD;
    assert n == (high * 0x400_0000 + low / 64) * 64 + low % 64;
  }

  /** The bytes in the buffer and the first of the rest make a whole block. */
  lemma NextBlock(m: seq<Byte>, o: nat, left: nat, rest: seq<Byte>)
    requires left <= 64 && o + 64 <= |m| && rest == m[o + left..]
    ensures m[o..o + left] + rest[..64 - left] == m[o..o + 64]
  {
  }

  lemma JoinedSlices(m: seq<Byte>, rest: seq<Byte>, from: nat)
    requires from <= |m|
    ensures (m + rest)[from..|m|] == m[from..] && (m + rest)[|m|..] == rest
  {
  }

  lemma HashStep(m: seq<Byte>, n: nat)
    requires (n + 1) * BLOCK <= |m|
    ensures HashBlocks(m, n + 1) == Compress(HashBlocks(m, n), m[n * BLOCK..(n + 1) * BLOCK])
  {
  }

  /** Whole blocks already hashed are not affected by what is appended. */
  lemma {:induction false} HashPrefix(m: seq<Byte>, rest: seq<Byte>, n: nat)
    requires n * BLOCK <= |m|
    ensures HashBlocks(m + rest, n) == HashBlocks(m, n)
    decreases n
  {
    hide Compress;
    if n > 0 {
      HashPrefix(m, rest, n - 1);
      assert (m + rest)[(n - 1) * BLOCK..n * BLOCK] == m[(n - 1) * BLOCK..n * BLOCK];
    }
  }
}
