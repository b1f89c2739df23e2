/** Rotations to the right undone by rotations to the left. */
module WordRotations {

  /** A word and its four bytes. */
  lemma FourParts(w: bv32)
    ensures ((((w >> 24) & 0xFF) as bv8 as bv32) << 24) | ((((w >> 16) & 0xFF) as bv8 as bv32) << 16)
            | ((((w >> 8) & 0xFF) as bv8 as bv32) << 8) | ((w & 0xFF) as bv8 as bv32) == w
  {
  }

  lemma Back2(x: bv32, r: bv32)
    requires r == (x >> 2) | (x << 30)
    ensures (r << 2) | (r >> 30) == x
  {
  }

  lemma Back6(x: bv32, r: bv32)
    requires r == (x >> 6) | (x << 26)
    ensures (r << 6) | (r >> 26) == x
  {
  }

  lemma Back7(x: bv32, r: bv32)
    requires r == (x >> 7) | (x << 25)
    ensures (r << 7) | (r >> 25) == x
  {
  }

  lemma Back11(x: bv32, r: bv32)
    requires r == (x >> 11) | (x << 21)
    ensures (r << 11) | (r >> 21) == x
  {
  }

  lemma Back13(x: bv32, r: bv32)
    requires r == (x >> 13) | (x << 19)
    ensures (r << 13) | (r >> 19) == x
  {
  }

  lemma Back17(x: bv32, r: bv32)
    requires r == (x >> 17) | (x << 15)
    ensures (r << 17) | (r >> 15) == x
  {
  }

  lemma Back18(x: bv32, r: bv32)
    requires r == (x >> 18) | (x << 14)
    ensures (r << 18) | (r >> 14) == x
  {
  }

  lemma Back19(x: bv32, r: bv32)
    requires r == (x >> 19) | (x << 13)
    ensures (r << 19) | (r >> 13) == x
  {
  }

  lemma Back22(x: bv32, r: bv32)
    requires r == (x >> 22) | (x << 10)
    ensures (r << 22) | (r >> 10) == x
  {
  }

  lemma Back25(x: bv32, r: bv32)
    requires r == (x >> 25) | (x << 7)
    ensures (r << 25) | (r >> 7) == x
  {
  }
}

/**
 Where the constants of SHA-256 come from: the fractional parts of the roots of the first primes (sections 4.2.2 and
 5.3.3 of FIPS 180-4).
 */
module Sha256Constants {
  import opened Sha256Spec
  import WordRotations

  ghost predicate Prime(n: nat) {
    n >= 2 && forall d :: 2 <= d < n ==> n % d != 0
  }

  ghost function PrimesBelow(n: nat): nat {
    if n == 0 then 0 else PrimesBelow(n - 1) + if Prime(n - 1) then 1 else 0
  }

  function Cube(n: nat): nat {
    n * n * n
  }

  /** The first 32 bits of the fraction of the cube root of `p`, whose whole part is `c`, are `k`. */
  predicate CubeRoot(p: nat, c: nat, k: nat) {
    var low := 0x1_0000_0000 * c + k;
    && k < 0x1_0000_0000 && Cube(c) <= p < Cube(c + 1)
    && Cube(low) <= 0x1_0000_0000_0000_0000_0000_0000 * p < Cube(low + 1)
  }

  /** The same of the square root. */
  predicate SquareRoot(p: nat, c: nat, k: nat) {
    var low := 0x1_0000_0000 * c + k;
    && k < 0x1_0000_0000 && c * c <= p < (c + 1) * (c + 1)
    && low * low <= 0x1_0000_0000_0000_0000 * p < (low + 1) * (low + 1)
  }

  /** The fraction comes from the prime that `t` primes are below. */
  ghost predicate FromCubeRoot(t: nat, k: nat) {
    exists p, c :: Prime(p) && PrimesBelow(p) == t && CubeRoot(p, c, k)
  }

  ghost predicate FromSquareRoot(t: nat, k: nat) {
    exists p, c :: Prime(p) && PrimesBelow(p) == t && SquareRoot(p, c, k)
  }

  // ---------------------------------------------------------------- counting primes

  /** No prime up to 17 divides the number properly. */
  predicate Sieved(n: nat) {
    && n >= 2 && (n % 2 != 0 || n == 2) && (n % 3 != 0 || n == 3) && (n % 5 != 0 || n == 5) && (n % 7 != 0 || n == 7)
    && (n % 11 != 0 || n == 11) && (n % 13 != 0 || n == 13) && (n % 17 != 0 || n == 17)
  }

  /** Below the square of 18 that makes it a prime. */
  lemma PrimeIffSieved(n: nat)
    requires n < 324
    ensures Prime(n) <==> Sieved(n)
  {
    if Sieved(n) {
      forall d | 2 <= d < n
        ensures n % d != 0
      {
        if n % d == 0 {
          SmallDivisor(n, d, n / d);
        }
      }
    }
  }

  /** One of the two factors is at most 17, and so is one of its prime factors. */
  lemma SmallDivisor(n: nat, d: nat, e: nat)
    requires n < 324 && n == d * e && d >= 2 && e >= 2
    ensures !Sieved(n)
  {
    hide Sieved;
    if d > 17 && e > 17 {
      TooLarge(d, e);
    } else if d > 17 {
      SmallDivisor(n, e, d);
    } else if d % 2 == 0 {
      Multiple(n, 2, d / 2, e);
    } else if d % 3 == 0 {
      Multiple(n, 3, d / 3, e);
    } else if d == 5 {
      Multiple(n, 5, 1, e);
    } else if d == 7 {
      Multiple(n, 7, 1, e);
    } else if d == 11 {
      Multiple(n, 11, 1, e);
    } else if d == 13 {
      Multiple(n, 13, 1, e);
    } else {
      Multiple(n, 17, 1, e);
    }
  }

  lemma TooLarge(d: nat, e: nat)
    requires d >= 18 && e >= 18
    ensures d * e >= 324
  {
    assert d * e >= 18 * e;
  }

  lemma Multiple(n: nat, f: nat, j: nat, e: nat)
    requires n == (f * j) * e && j >= 1 && e >= 2
    requires f == 2 || f == 3 || f == 5 || f == 7 || f == 11 || f == 13 || f == 17
    ensures !Sieved(n)
  {
    hide Sieved;
    var k := j * e;
    assert k >= 2;
    assert n == f * k;
    if f == 2 {
      Times2(n, k);
    } else if f == 3 {
      Times3(n, k);
    } else if f == 5 {
      Times5(n, k);
    } else if f == 7 {
      Times7(n, k);
    } else if f == 11 {
      Times11(n, k);
    } else if f == 13 {
      Times13(n, k);
    } else {
      Times17(n, k);
    }
    Caught(n, f);
  }

  lemma Caught(n: nat, f: nat)
    requires f == 2 || f == 3 || f == 5 || f == 7 || f == 11 || f == 13 || f == 17
    requires n % f == 0 && n > f
    ensures !Sieved(n)
  {
  }

  lemma Times2(n: nat, k: nat)
    requires n == 2 * k && k >= 2
    ensures n % 2 == 0 && n > 2
  {
  }

  lemma Times3(n: nat, k: nat)
    requires n == 3 * k && k >= 2
    ensures n % 3 == 0 && n > 3
  {
  }

  lemma Times5(n: nat, k: nat)
    requires n == 5 * k && k >= 2
    ensures n % 5 == 0 && n > 5
  {
  }

  lemma Times7(n: nat, k: nat)
    requires n == 7 * k && k >= 2
    ensures n % 7 == 0 && n > 7
  {
  }

  lemma Times11(n: nat, k: nat)
    requires n == 11 * k && k >= 2
    ensures n % 11 == 0 && n > 11
  {
  }

  lemma Times13(n: nat, k: nat)
    requires n == 13 * k && k >= 2
    ensures n % 13 == 0 && n > 13
  {
  }

  lemma Times17(n: nat, k: nat)
    requires n == 17 * k && k >= 2
    ensures n % 17 == 0 && n > 17
  {
  }

  function SievedIn(lo: nat, hi: nat): nat {
    if lo >= hi then 0 else SievedIn(lo, hi - 1) + if Sieved(hi - 1) then 1 else 0
  }

  lemma {:induction false} MorePrimes(lo: nat, hi: nat)
    requires lo <= hi < 324
    ensures PrimesBelow(hi) == PrimesBelow(lo) + SievedIn(lo, hi)
  {
    hide Prime;
    hide Sieved;
    if lo < hi {
      MorePrimes(lo, hi - 1);
      PrimeIffSieved(hi - 1);
    }
  }

  /** With `t` primes below `p` and no number sieved between, `q` has one more. */
  lemma NextPrime(p: nat, q: nat)
    requires p < q < 324 && Prime(p) && Sieved(q) && SievedIn(p + 1, q) == 0
    ensures Prime(q) && PrimesBelow(q) == PrimesBelow(p) + 1
  {
    hide Prime;
    hide Sieved;
    MorePrimes(p + 1, q);
    PrimeIffSieved(q);
  }

  lemma FirstPrime()
    ensures Prime(2) && PrimesBelow(2) == 0
  {
  }

  lemma Gaps0To7()
    ensures Sieved(3) && SievedIn(3, 3) == 0
    ensures Sieved(5) && SievedIn(4, 5) == 0
    ensures Sieved(7) && SievedIn(6, 7) == 0
    ensures Sieved(11) && SievedIn(8, 11) == 0
    ensures Sieved(13) && SievedIn(12, 13) == 0
    ensures Sieved(17) && SievedIn(14, 17) == 0
    ensures Sieved(19) && SievedIn(18, 19) == 0
  {
  }

  lemma Primes0To7()
    ensures Prime(2) && PrimesBelow(2) == 0
    ensures Prime(3) && PrimesBelow(3) == 1
    ensures Prime(5) && PrimesBelow(5) == 2
    ensures Prime(7) && PrimesBelow(7) == 3
    ensures Prime(11) && PrimesBelow(11) == 4
    ensures Prime(13) && PrimesBelow(13) == 5
    ensures Prime(17) && PrimesBelow(17) == 6
    ensures Prime(19) && PrimesBelow(19) == 7
  {
    hide *;
    FirstPrime();
    Gaps0To7();
    NextPrime(2, 3);
    NextPrime(3, 5);
    NextPrime(5, 7);
    NextPrime(7, 11);
    NextPrime(11, 13);
    NextPrime(13, 17);
    NextPrime(17, 19);
  }

  lemma Gaps8To15()
    ensures Sieved(23) && SievedIn(20, 23) == 0
    ensures Sieved(29) && SievedIn(24, 29) == 0
    ensures Sieved(31) && SievedIn(30, 31) == 0
    ensures Sieved(37) && SievedIn(32, 37) == 0
    ensures Sieved(41) && SievedIn(38, 41) == 0
    ensures Sieved(43) && SievedIn(42, 43) == 0
    ensures Sieved(47) && SievedIn(44, 47) == 0
    ensures Sieved(53) && SievedIn(48, 53) == 0
  {
  }

  lemma Primes8To15()
    ensures Prime(23) && PrimesBelow(23) == 8
    ensures Prime(29) && PrimesBelow(29) == 9
    ensures Prime(31) && PrimesBelow(31) == 10
    ensures Prime(37) && PrimesBelow(37) == 11
    ensures Prime(41) && PrimesBelow(41) == 12
    ensures Prime(43) && PrimesBelow(43) == 13
    ensures Prime(47) && PrimesBelow(47) == 14
    ensures Prime(53) && PrimesBelow(53) == 15
  {
    hide *;
    Primes0To7();
    Gaps8To15();
    NextPrime(19, 23);
    NextPrime(23, 29);
    NextPrime(29, 31);
    NextPrime(31, 37);
    NextPrime(37, 41);
    NextPrime(41, 43);
    NextPrime(43, 47);
    NextPrime(47, 53);
  }

  lemma Gaps16To23()
    ensures Sieved(59) && SievedIn(54, 59) == 0
    ensures Sieved(61) && SievedIn(60, 61) == 0
    ensures Sieved(67) && SievedIn(62, 67) == 0
    ensures Sieved(71) && SievedIn(68, 71) == 0
    ensures Sieved(73) && SievedIn(72, 73) == 0
    ensures Sieved(79) && SievedIn(74, 79) == 0
    ensures Sieved(83) && SievedIn(80, 83) == 0
    ensures Sieved(89) && SievedIn(84, 89) == 0
  {
  }

  lemma Primes16To23()
    ensures Prime(59) && PrimesBelow(59) == 16
    ensures Prime(61) && PrimesBelow(61) == 17
    ensures Prime(67) && PrimesBelow(67) == 18
    ensures Prime(71) && PrimesBelow(71) == 19
    ensures Prime(73) && PrimesBelow(73) == 20
    ensures Prime(79) && PrimesBelow(79) == 21
    ensures Prime(83) && PrimesBelow(83) == 22
    ensures Prime(89) && PrimesBelow(89) == 23
  {
    hide *;
    Primes8To15();
    Gaps16To23();
    NextPrime(53, 59);
    NextPrime(59, 61);
    NextPrime(61, 67);
    NextPrime(67, 71);
    NextPrime(71, 73);
    NextPrime(73, 79);
    NextPrime(79, 83);
    NextPrime(83, 89);
  }

  lemma Gaps24To31()
    ensures Sieved(97) && SievedIn(90, 97) == 0
    ensures Sieved(101) && SievedIn(98, 101) == 0
    ensures Sieved(103) && SievedIn(102, 103) == 0
    ensures Sieved(107) && SievedIn(104, 107) == 0
    ensures Sieved(109) && SievedIn(108, 109) == 0
    ensures Sieved(113) && SievedIn(110, 113) == 0
    ensures Sieved(127) && SievedIn(114, 127) == 0
    ensures Sieved(131) && SievedIn(128, 131) == 0
  {
  }

  lemma Primes24To31()
    ensures Prime(97) && PrimesBelow(97) == 24
    ensures Prime(101) && PrimesBelow(101) == 25
    ensures Prime(103) && PrimesBelow(103) == 26
    ensures Prime(107) && PrimesBelow(107) == 27
    ensures Prime(109) && PrimesBelow(109) == 28
    ensures Prime(113) && PrimesBelow(113) == 29
    ensures Prime(127) && PrimesBelow(127) == 30
    ensures Prime(131) && PrimesBelow(131) == 31
  {
    hide *;
    Primes16To23();
    Gaps24To31();
    NextPrime(89, 97);
    NextPrime(97, 101);
    NextPrime(101, 103);
    NextPrime(103, 107);
    NextPrime(107, 109);
    NextPrime(109, 113);
    NextPrime(113, 127);
    NextPrime(127, 131);
  }

  lemma Gaps32To39()
    ensures Sieved(137) && SievedIn(132, 137) == 0
    ensures Sieved(139) && SievedIn(138, 139) == 0
    ensures Sieved(149) && SievedIn(140, 149) == 0
    ensures Sieved(151) && SievedIn(150, 151) == 0
    ensures Sieved(157) && SievedIn(152, 157) == 0
    ensures Sieved(163) && SievedIn(158, 163) == 0
    ensures Sieved(167) && SievedIn(164, 167) == 0
    ensures Sieved(173) && SievedIn(168, 173) == 0
  {
  }

  lemma Primes32To39()
    ensures Prime(137) && PrimesBelow(137) == 32
    ensures Prime(139) && PrimesBelow(139) == 33
    ensures Prime(149) && PrimesBelow(149) == 34
    ensures Prime(151) && PrimesBelow(151) == 35
    ensures Prime(157) && PrimesBelow(157) == 36
    ensures Prime(163) && PrimesBelow(163) == 37
    ensures Prime(167) && PrimesBelow(167) == 38
    ensures Prime(173) && PrimesBelow(173) == 39
  {
    hide *;
    Primes24To31();
    Gaps32To39();
    NextPrime(131, 137);
    NextPrime(137, 139);
    NextPrime(139, 149);
    NextPrime(149, 151);
    NextPrime(151, 157);
    NextPrime(157, 163);
    NextPrime(163, 167);
    NextPrime(167, 173);
  }

  lemma Gaps40To47()
    ensures Sieved(179) && SievedIn(174, 179) == 0
    ensures Sieved(181) && SievedIn(180, 181) == 0
    ensures Sieved(191) && SievedIn(182, 191) == 0
    ensures Sieved(193) && SievedIn(192, 193) == 0
    ensures Sieved(197) && SievedIn(194, 197) == 0
    ensures Sieved(199) && SievedIn(198, 199) == 0
    ensures Sieved(211) && SievedIn(200, 211) == 0
    ensures Sieved(223) && SievedIn(212, 223) == 0
  {
  }

  lemma Primes40To47()
    ensures Prime(179) && PrimesBelow(179) == 40
    ensures Prime(181) && PrimesBelow(181) == 41
    ensures Prime(191) && PrimesBelow(191) == 42
    ensures Prime(193) && PrimesBelow(193) == 43
    ensures Prime(197) && PrimesBelow(197) == 44
    ensures Prime(199) && PrimesBelow(199) == 45
    ensures Prime(211) && PrimesBelow(211) == 46
    ensures Prime(223) && PrimesBelow(223) == 47
  {
    hide *;
    Primes32To39();
    Gaps40To47();
    NextPrime(173, 179);
    NextPrime(179, 181);
    NextPrime(181, 191);
    NextPrime(191, 193);
    NextPrime(193, 197);
    NextPrime(197, 199);
    NextPrime(199, 211);
    NextPrime(211, 223);
  }

  lemma Gaps48To55()
    ensures Sieved(227) && SievedIn(224, 227) == 0
    ensures Sieved(229) && SievedIn(228, 229) == 0
    ensures Sieved(233) && SievedIn(230, 233) == 0
    ensures Sieved(239) && SievedIn(234, 239) == 0
    ensures Sieved(241) && SievedIn(240, 241) == 0
    ensures Sieved(251) && SievedIn(242, 251) == 0
    ensures Sieved(257) && SievedIn(252, 257) == 0
    ensures Sieved(263) && SievedIn(258, 263) == 0
  {
  }

  lemma Primes48To55()
    ensures Prime(227) && PrimesBelow(227) == 48
    ensures Prime(229) && PrimesBelow(229) == 49
    ensures Prime(233) && PrimesBelow(233) == 50
    ensures Prime(239) && PrimesBelow(239) == 51
    ensures Prime(241) && PrimesBelow(241) == 52
    ensures Prime(251) && PrimesBelow(251) == 53
    ensures Prime(257) && PrimesBelow(257) == 54
    ensures Prime(263) && PrimesBelow(263) == 55
  {
    hide *;
    Primes40To47();
    Gaps48To55();
    NextPrime(223, 227);
    NextPrime(227, 229);
    NextPrime(229, 233);
    NextPrime(233, 239);
    NextPrime(239, 241);
    NextPrime(241, 251);
    NextPrime(251, 257);
    NextPrime(257, 263);
  }

  lemma Gaps56To63()
    ensures Sieved(269) && SievedIn(264, 269) == 0
    ensures Sieved(271) && SievedIn(270, 271) == 0
    ensures Sieved(277) && SievedIn(272, 277) == 0
    ensures Sieved(281) && SievedIn(278, 281) == 0
    ensures Sieved(283) && SievedIn(282, 283) == 0
    ensures Sieved(293) && SievedIn(284, 293) == 0
    ensures Sieved(307) && SievedIn(294, 307) == 0
    ensures Sieved(311) && SievedIn(308, 311) == 0
  {
  }

  lemma Primes56To63()
    ensures Prime(269) && PrimesBelow(269) == 56
    ensures Prime(271) && PrimesBelow(271) == 57
    ensures Prime(277) && PrimesBelow(277) == 58
    ensures Prime(281) && PrimesBelow(281) == 59
    ensures Prime(283) && PrimesBelow(283) == 60
    ensures Prime(293) && PrimesBelow(293) == 61
    ensures Prime(307) && PrimesBelow(307) == 62
    ensures Prime(311) && PrimesBelow(311) == 63
  {
    hide *;
    Primes48To55();
    Gaps56To63();
    NextPrime(263, 269);
    NextPrime(269, 271);
    NextPrime(271, 277);
    NextPrime(277, 281);
    NextPrime(281, 283);
    NextPrime(283, 293);
    NextPrime(293, 307);
    NextPrime(307, 311);
  }

  // ---------------------------------------------------------------- the constants

  lemma Roots0To7()
    ensures CubeRoot(2, 1, 0x428A2F98)
    ensures CubeRoot(3, 1, 0x71374491)
    ensures CubeRoot(5, 1, 0xB5C0FBCF)
    ensures CubeRoot(7, 1, 0xE9B5DBA5)
    ensures CubeRoot(11, 2, 0x3956C25B)
    ensures CubeRoot(13, 2, 0x59F111F1)
    ensures CubeRoot(17, 2, 0x923F82A4)
    ensures CubeRoot(19, 2, 0xAB1C5ED5)
  {
  }

  lemma Entries0To7()
    ensures |K| == 64
    ensures K[0] == 0x428A2F98
    ensures K[1] == 0x71374491
    ensures K[2] == 0xB5C0FBCF
    ensures K[3] == 0xE9B5DBA5
    ensures K[4] == 0x3956C25B
    ensures K[5] == 0x59F111F1
    ensures K[6] == 0x923F82A4
    ensures K[7] == 0xAB1C5ED5
  {
  }

  lemma Constants0To7(t: nat)
    requires 0 <= t < 8 && |K| == 64
    ensures FromCubeRoot(t, K[t] as int)
  {
    hide Prime;
    hide PrimesBelow;
    hide CubeRoot;
    Primes0To7();
    Roots0To7();
    Entries0To7();
  }

  lemma Roots8To15()
    ensures CubeRoot(23, 2, 0xD807AA98)
    ensures CubeRoot(29, 3, 0x12835B01)
    ensures CubeRoot(31, 3, 0x243185BE)
    ensures CubeRoot(37, 3, 0x550C7DC3)
    ensures CubeRoot(41, 3, 0x72BE5D74)
    ensures CubeRoot(43, 3, 0x80DEB1FE)
    ensures CubeRoot(47, 3, 0x9BDC06A7)
    ensures CubeRoot(53, 3, 0xC19BF174)
  {
  }

  lemma Entries8To15()
    ensures |K| == 64
    ensures K[8] == 0xD807AA98
    ensures K[9] == 0x12835B01
    ensures K[10] == 0x243185BE
    ensures K[11] == 0x550C7DC3
    ensures K[12] == 0x72BE5D74
    ensures K[13] == 0x80DEB1FE
    ensures K[14] == 0x9BDC06A7
    ensures K[15] == 0xC19BF174
  {
  }

  lemma Constants8To15(t: nat)
    requires 8 <= t < 16 && |K| == 64
    ensures FromCubeRoot(t, K[t] as int)
  {
    hide Prime;
    hide PrimesBelow;
    hide CubeRoot;
    Primes8To15();
    Roots8To15();
    Entries8To15();
  }

  lemma Roots16To23()
    ensures CubeRoot(59, 3, 0xE49B69C1)
    ensures CubeRoot(61, 3, 0xEFBE4786)
    ensures CubeRoot(67, 4, 0x0FC19DC6)
    ensures CubeRoot(71, 4, 0x240CA1CC)
    ensures CubeRoot(73, 4, 0x2DE92C6F)
    ensures CubeRoot(79, 4, 0x4A7484AA)
    ensures CubeRoot(83, 4, 0x5CB0A9DC)
    ensures CubeRoot(89, 4, 0x76F988DA)
  {
  }

  lemma Entries16To23()
    ensures |K| == 64
    ensures K[16] == 0xE49B69C1
    ensures K[17] == 0xEFBE4786
    ensures K[18] == 0x0FC19DC6
    ensures K[19] == 0x240CA1CC
    ensures K[20] == 0x2DE92C6F
    ensures K[21] == 0x4A7484AA
    ensures K[22] == 0x5CB0A9DC
    ensures K[23] == 0x76F988DA
  {
  }

  lemma Constants16To23(t: nat)
    requires 16 <= t < 24 && |K| == 64
    ensures FromCubeRoot(t, K[t] as int)
  {
    hide Prime;
    hide PrimesBelow;
    hide CubeRoot;
    Primes16To23();
    Roots16To23();
    Entries16To23();
  }

  lemma Roots24To31()
    ensures CubeRoot(97, 4, 0x983E5152)
    ensures CubeRoot(101, 4, 0xA831C66D)
    ensures CubeRoot(103, 4, 0xB00327C8)
    ensures CubeRoot(107, 4, 0xBF597FC7)
    ensures CubeRoot(109, 4, 0xC6E00BF3)
    ensures CubeRoot(113, 4, 0xD5A79147)
    ensures CubeRoot(127, 5, 0x06CA6351)
    ensures CubeRoot(131, 5, 0x14292967)
  {
  }

  lemma Entries24To31()
    ensures |K| == 64
    ensures K[24] == 0x983E5152
    ensures K[25] == 0xA831C66D
    ensures K[26] == 0xB00327C8
    ensures K[27] == 0xBF597FC7
    ensures K[28] == 0xC6E00BF3
    ensures K[29] == 0xD5A79147
    ensures K[30] == 0x06CA6351
    ensures K[31] == 0x14292967
  {
  }

  lemma Constants24To31(t: nat)
    requires 24 <= t < 32 && |K| == 64
    ensures FromCubeRoot(t, K[t] as int)
  {
    hide Prime;
    hide PrimesBelow;
    hide CubeRoot;
    Primes24To31();
    Roots24To31();
    Entries24To31();
  }

  lemma Roots32To39()
    ensures CubeRoot(137, 5, 0x27B70A85)
    ensures CubeRoot(139, 5, 0x2E1B2138)
    ensures CubeRoot(149, 5, 0x4D2C6DFC)
    ensures CubeRoot(151, 5, 0x53380D13)
    ensures CubeRoot(157, 5, 0x650A7354)
    ensures CubeRoot(163, 5, 0x766A0ABB)
    ensures CubeRoot(167, 5, 0x81C2C92E)
    ensures CubeRoot(173, 5, 0x92722C85)
  {
  }

  lemma Entries32To39()
    ensures |K| == 64
    ensures K[32] == 0x27B70A85
    ensures K[33] == 0x2E1B2138
    ensures K[34] == 0x4D2C6DFC
    ensures K[35] == 0x53380D13
    ensures K[36] == 0x650A7354
    ensures K[37] == 0x766A0ABB
    ensures K[38] == 0x81C2C92E
    ensures K[39] == 0x92722C85
  {
  }

  lemma Constants32To39(t: nat)
    requires 32 <= t < 40 && |K| == 64
    ensures FromCubeRoot(t, K[t] as int)
  {
    hide Prime;
    hide PrimesBelow;
    hide CubeRoot;
    Primes32To39();
    Roots32To39();
    Entries32To39();
  }

  lemma Roots40To47()
    ensures CubeRoot(179, 5, 0xA2BFE8A1)
    ensures CubeRoot(181, 5, 0xA81A664B)
    ensures CubeRoot(191, 5, 0xC24B8B70)
    ensures CubeRoot(193, 5, 0xC76C51A3)
    ensures CubeRoot(197, 5, 0xD192E819)
    ensures CubeRoot(199, 5, 0xD6990624)
    ensures CubeRoot(211, 5, 0xF40E3585)
    ensures CubeRoot(223, 6, 0x106AA070)
  {
  }

  lemma Entries40To47()
    ensures |K| == 64
    ensures K[40] == 0xA2BFE8A1
    ensures K[41] == 0xA81A664B
    ensures K[42] == 0xC24B8B70
    ensures K[43] == 0xC76C51A3
    ensures K[44] == 0xD192E819
    ensures K[45] == 0xD6990624
    ensures K[46] == 0xF40E3585
    ensures K[47] == 0x106AA070
  {
  }

  lemma Constants40To47(t: nat)
    requires 40 <= t < 48 && |K| == 64
    ensures FromCubeRoot(t, K[t] as int)
  {
    hide Prime;
    hide PrimesBelow;
    hide CubeRoot;
    Primes40To47();
    Roots40To47();
    Entries40To47();
  }

  lemma Roots48To55()
    ensures CubeRoot(227, 6, 0x19A4C116)
    ensures CubeRoot(229, 6, 0x1E376C08)
    ensures CubeRoot(233, 6, 0x2748774C)
    ensures CubeRoot(239, 6, 0x34B0BCB5)
    ensures CubeRoot(241, 6, 0x391C0CB3)
    ensures CubeRoot(251, 6, 0x4ED8AA4A)
    ensures CubeRoot(257, 6, 0x5B9CCA4F)
    ensures CubeRoot(263, 6, 0x682E6FF3)
  {
  }

  lemma Entries48To55()
    ensures |K| == 64
    ensures K[48] == 0x19A4C116
    ensures K[49] == 0x1E376C08
    ensures K[50] == 0x2748774C
    ensures K[51] == 0x34B0BCB5
    ensures K[52] == 0x391C0CB3
    ensures K[53] == 0x4ED8AA4A
    ensures K[54] == 0x5B9CCA4F
    ensures K[55] == 0x682E6FF3
  {
  }

  lemma Constants48To55(t: nat)
    requires 48 <= t < 56 && |K| == 64
    ensures FromCubeRoot(t, K[t] as int)
  {
    hide Prime;
    hide PrimesBelow;
    hide CubeRoot;
    Primes48To55();
    Roots48To55();
    Entries48To55();
  }

  lemma Roots56To63()
    ensures CubeRoot(269, 6, 0x748F82EE)
    ensures CubeRoot(271, 6, 0x78A5636F)
    ensures CubeRoot(277, 6, 0x84C87814)
    ensures CubeRoot(281, 6, 0x8CC70208)
    ensures CubeRoot(283, 6, 0x90BEFFFA)
    ensures CubeRoot(293, 6, 0xA4506CEB)
    ensures CubeRoot(307, 6, 0xBEF9A3F7)
    ensures CubeRoot(311, 6, 0xC67178F2)
  {
  }

  lemma Entries56To63()
    ensures |K| == 64
    ensures K[56] == 0x748F82EE
    ensures K[57] == 0x78A5636F
    ensures K[58] == 0x84C87814
    ensures K[59] == 0x8CC70208
    ensures K[60] == 0x90BEFFFA
    ensures K[61] == 0xA4506CEB
    ensures K[62] == 0xBEF9A3F7
    ensures K[63] == 0xC67178F2
  {
  }

  lemma Constants56To63(t: nat)
    requires 56 <= t < 64 && |K| == 64
    ensures FromCubeRoot(t, K[t] as int)
  {
    hide Prime;
    hide PrimesBelow;
    hide CubeRoot;
    Primes56To63();
    Roots56To63();
    Entries56To63();
  }

  /** Every round constant is the fraction of the cube root of the prime at its place. */
  lemma RoundConstants(t: nat)
    requires t < 64
    ensures |K| == 64 && FromCubeRoot(t, K[t] as int)
  {
    hide FromCubeRoot;
    Sizes();
    if t < 8 {
      Constants0To7(t);
    } else if t < 16 {
      Constants8To15(t);
    } else if t < 24 {
      Constants16To23(t);
    } else if t < 32 {
      Constants24To31(t);
    } else if t < 40 {
      Constants32To39(t);
    } else if t < 48 {
      Constants40To47(t);
    } else if t < 56 {
      Constants48To55(t);
    } else {
      Constants56To63(t);
    }
  }

  lemma SquareRoots()
    ensures SquareRoot(2, 1, 0x6A09E667)
    ensures SquareRoot(3, 1, 0xBB67AE85)
    ensures SquareRoot(5, 2, 0x3C6EF372)
    ensures SquareRoot(7, 2, 0xA54FF53A)
    ensures SquareRoot(11, 3, 0x510E527F)
    ensures SquareRoot(13, 3, 0x9B05688C)
    ensures SquareRoot(17, 4, 0x1F83D9AB)
    ensures SquareRoot(19, 4, 0x5BE0CD19)
  {
  }

  lemma InitialEntries()
    ensures |H0| == 8
    ensures H0[0] == 0x6A09E667
    ensures H0[1] == 0xBB67AE85
    ensures H0[2] == 0x3C6EF372
    ensures H0[3] == 0xA54FF53A
    ensures H0[4] == 0x510E527F
    ensures H0[5] == 0x9B05688C
    ensures H0[6] == 0x1F83D9AB
    ensures H0[7] == 0x5BE0CD19
  {
  }

  /** Every word of the initial hash value is the fraction of the square root of the prime at its place. */
  lemma InitialValue(i: nat)
    requires i < 8
    ensures |H0| == 8 && FromSquareRoot(i, H0[i] as int)
  {
    hide Prime;
    hide PrimesBelow;
    hide SquareRoot;
    Primes0To7();
    SquareRoots();
    InitialEntries();
  }

  // ---------------------------------------------------------------- the operations on words

  /** Addition, by its two defining laws. */
  lemma AddIs(x: Word, y: Word)
    ensures Add(x, 0) == x && Add(x, y + 1) == Add(x, y) + 1
  {
  }

  function RotL(r: Word, n: nat): Word
    requires 0 < n < 32
  {
    (r << n) | (r >> (32 - n))
  }

  lemma Rotations(x: Word)
    ensures RotR(x, 2) == (x >> 2) | (x << 30)
    ensures RotR(x, 6) == (x >> 6) | (x << 26)
    ensures RotR(x, 7) == (x >> 7) | (x << 25)
    ensures RotR(x, 11) == (x >> 11) | (x << 21)
    ensures RotR(x, 13) == (x >> 13) | (x << 19)
    ensures RotR(x, 17) == (x >> 17) | (x << 15)
    ensures RotR(x, 18) == (x >> 18) | (x << 14)
    ensures RotR(x, 19) == (x >> 19) | (x << 13)
    ensures RotR(x, 22) == (x >> 22) | (x << 10)
    ensures RotR(x, 25) == (x >> 25) | (x << 7)
  {
  }

  lemma RotationsLeft(r: Word)
    ensures RotL(r, 2) == (r << 2) | (r >> 30)
    ensures RotL(r, 6) == (r << 6) | (r >> 26)
    ensures RotL(r, 7) == (r << 7) | (r >> 25)
    ensures RotL(r, 11) == (r << 11) | (r >> 21)
    ensures RotL(r, 13) == (r << 13) | (r >> 19)
    ensures RotL(r, 17) == (r << 17) | (r >> 15)
    ensures RotL(r, 18) == (r << 18) | (r >> 14)
    ensures RotL(r, 19) == (r << 19) | (r >> 13)
    ensures RotL(r, 22) == (r << 22) | (r >> 10)
    ensures RotL(r, 25) == (r << 25) | (r >> 7)
  {
  }

  lemma RotatedBack2(x: Word)
    ensures RotL(RotR(x, 2), 2) == x
  {
    hide RotL;
    hide RotR;
    Rotations(x);
    RotationsLeft(RotR(x, 2));
    WordRotations.Back2(x, RotR(x, 2));
  }

  lemma RotatedBack6(x: Word)
    ensures RotL(RotR(x, 6), 6) == x
  {
    hide RotL;
    hide RotR;
    Rotations(x);
    RotationsLeft(RotR(x, 6));
    WordRotations.Back6(x, RotR(x, 6));
  }

  lemma RotatedBack7(x: Word)
    ensures RotL(RotR(x, 7), 7) == x
  {
    hide RotL;
    hide RotR;
    Rotations(x);
    RotationsLeft(RotR(x, 7));
    WordRotations.Back7(x, RotR(x, 7));
  }

  lemma RotatedBack11(x: Word)
    ensures RotL(RotR(x, 11), 11) == x
  {
    hide RotL;
    hide RotR;
    Rotations(x);
    RotationsLeft(RotR(x, 11));
    WordRotations.Back11(x, RotR(x, 11));
  }

  lemma RotatedBack13(x: Word)
    ensures RotL(RotR(x, 13), 13) == x
  {
    hide RotL;
    hide RotR;
    Rotations(x);
    RotationsLeft(RotR(x, 13));
    WordRotations.Back13(x, RotR(x, 13));
  }

  lemma RotatedBack17(x: Word)
    ensures RotL(RotR(x, 17), 17) == x
  {
    hide RotL;
    hide RotR;
    Rotations(x);
    RotationsLeft(RotR(x, 17));
    WordRotations.Back17(x, RotR(x, 17));
  }

  lemma RotatedBack18(x: Word)
    ensures RotL(RotR(x, 18), 18) == x
  {
    hide RotL;
    hide RotR;
    Rotations(x);
    RotationsLeft(RotR(x, 18));
    WordRotations.Back18(x, RotR(x, 18));
  }

  lemma RotatedBack19(x: Word)
    ensures RotL(RotR(x, 19), 19) == x
  {
    hide RotL;
    hide RotR;
    Rotations(x);
    RotationsLeft(RotR(x, 19));
    WordRotations.Back19(x, RotR(x, 19));
  }

  lemma RotatedBack22(x: Word)
    ensures RotL(RotR(x, 22), 22) == x
  {
    hide RotL;
    hide RotR;
    Rotations(x);
    RotationsLeft(RotR(x, 22));
    WordRotations.Back22(x, RotR(x, 22));
  }

  lemma RotatedBack25(x: Word)
    ensures RotL(RotR(x, 25), 25) == x
  {
    hide RotL;
    hide RotR;
    Rotations(x);
    RotationsLeft(RotR(x, 25));
    WordRotations.Back25(x, RotR(x, 25));
  }

  /** Rotating to the left by as much gives the word back, for every rotation of section 4.1.2. */
  lemma RotatedBack(x: Word)
    ensures RotL(RotR(x, 2), 2) == x
    ensures RotL(RotR(x, 6), 6) == x
    ensures RotL(RotR(x, 7), 7) == x
    ensures RotL(RotR(x, 11), 11) == x
    ensures RotL(RotR(x, 13), 13) == x
    ensures RotL(RotR(x, 17), 17) == x
    ensures RotL(RotR(x, 18), 18) == x
    ensures RotL(RotR(x, 19), 19) == x
    ensures RotL(RotR(x, 22), 22) == x
    ensures RotL(RotR(x, 25), 25) == x
  {
    hide *;
    RotatedBack2(x);
    RotatedBack6(x);
    RotatedBack7(x);
    RotatedBack11(x);
    RotatedBack13(x);
    RotatedBack17(x);
    RotatedBack18(x);
    RotatedBack19(x);
    RotatedBack22(x);
    RotatedBack25(x);
  }

  /** Shifting to the right divides by the power of two. */
  lemma Shifted(x: Word)
    ensures (Shr(x, 3) << 3) | (x & 7) == x && Shr(x, 3) < 0x2000_0000
    ensures (Shr(x, 10) << 10) | (x & 0x3FF) == x && Shr(x, 10) < 0x40_0000
  {
  }

  /** Words are read and written with their most significant byte first (section 3.1). */
  lemma BigEndianWords(block: seq<Byte>, t: nat, w: Word)
    requires 4 * t + 4 <= |block|
    ensures WordAt(block, t) == 0x100_0000 * (block[4 * t] as Word) + 0x1_0000 * (block[4 * t + 1] as Word)
                                + 0x100 * (block[4 * t + 2] as Word) + (block[4 * t + 3] as Word)
    ensures WordAt(WordBytes(w), 0) == w
  {
    FourBytes(block[4 * t], block[4 * t + 1], block[4 * t + 2], block[4 * t + 3]);
    BytesBack(w);
  }

  lemma FourBytes(a: Byte, b: Byte, c: Byte, d: Byte)
    ensures ((a as Word) << 24) | ((b as Word) << 16) | ((c as Word) << 8) | (d as Word) ==
            0x100_0000 * (a as Word) + 0x1_0000 * (b as Word) + 0x100 * (c as Word) + (d as Word)
  {
  }

  lemma BytesBack(w: Word)
    ensures ((Octet(w, 24) as Word) << 24) | ((Octet(w, 16) as Word) << 16)
            | ((Octet(w, 8) as Word) << 8) | (Octet(w, 0) as Word) == w
  {
    hide Octet;
    Octets(w);
    WordRotations.FourParts(w);
  }

  lemma Octets(w: Word)
    ensures Octet(w, 24) == ((w >> 24) & 0xFF) as Byte && Octet(w, 16) == ((w >> 16) & 0xFF) as Byte
    ensures Octet(w, 8) == ((w >> 8) & 0xFF) as Byte && Octet(w, 0) == (w & 0xFF) as Byte
  {
  }

  /** The padding of the three bytes that section 5.1.1 pads. */
  lemma PaddedExample()
    ensures Pad([0x61, 0x62, 0x63]) ==
            [0x61, 0x62, 0x63, 0x80] + seq(52, i => 0) + [0x00, 0x00, 0x00, 0x00, 0x00, 0x00, 0x00, 0x18]
  {
    hide Zeros;
    hide BigEndian64;
    hide ZeroPadding;
    ExampleZeros();
    ExampleLength();
    var m: seq<Byte> := [0x61, 0x62, 0x63];
    assert m + [0x80] == [0x61, 0x62, 0x63, 0x80];
  }

  lemma ExampleZeros()
    ensures ZeroPadding(3) == 52 && Zeros(52) == seq(52, i => 0)
  {
  }

  lemma ExampleLength()
    ensures BigEndian64(24) == [0x00, 0x00, 0x00, 0x00, 0x00, 0x00, 0x00, 0x18]
  {
    hide LowByte;
    hide BigEndian32;
    BigEndianSmall(0);
    BigEndianSmall(24);
    ExampleBytes();
  }

  lemma BigEndianSmall(n: nat)
    requires n < 0x100
    ensures BigEndian32(n) == [LowByte(0), LowByte(0), LowByte(0), LowByte(n)]
  {
    hide LowByte;
  }

  lemma ExampleBytes()
    ensures LowByte(0) == 0 && LowByte(24) == 0x18
  {
  }
}
