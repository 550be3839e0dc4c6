/**
 SHA-1 as FIPS PUB 180-1 defines it: the padding of section 4, the functions
 and constants of section 5 and the compression of section 7, folded over the
 512-bit blocks of the padded message. No buffer, no counter, no flags.
 */
module Sha1Spec {

  type Octet = bv8
  type Word = bv32

  datatype Digest = Digest(h0: Word, h1: Word, h2: Word, h3: Word, h4: Word)

  /** Messages of this many octets reach 2^64 bits, the standard's limit. */
  const LIMIT: nat := 0x2000_0000_0000_0000

  function Initial(): Digest {
    Digest(0x67452301, 0xEFCDAB89, 0x98BADCFE, 0x10325476, 0xC3D2E1F0)
  }

  /** Section 3: circular left shift. */
  function Rotl1(x: Word): Word { (x << 1) | (x >> 31) }
  function Rotl5(x: Word): Word { (x << 5) | (x >> 27) }
  function Rotl30(x: Word): Word { (x << 30) | (x >> 2) }

  /** Section 5. */
  function F(t: nat, b: Word, c: Word, d: Word): Word
    requires t < 80
  {
    if t < 20 then (b & c) | (!b & d)
    else if t < 40 then b ^ c ^ d
    else if t < 60 then (b & c) | (b & d) | (c & d)
    else b ^ c ^ d
  }

  /** Section 6. */
  function K(t: nat): Word
    requires t < 80
  {
    if t < 20 then 0x5A827999
    else if t < 40 then 0x6ED9EBA1
    else if t < 60 then 0x8F1BBCDC
    else 0xCA62C1D6
  }

  /** Section 3(b): a word is four octets, most significant first. */
  function WordOf(a: Octet, b: Octet, c: Octet, d: Octet): Word {
    (a as Word) * 0x1000000 + (b as Word) * 0x10000 + (c as Word) * 0x100 + (d as Word)
  }

  /** The first `n` words of the message schedule, section 7, steps a and b. */
  ghost function Schedule(block: seq<Octet>, n: nat): (w: seq<Word>)
    requires |block| == 64 && n <= 80
    ensures |w| == n
  {
    if n == 0 then [] else
      var w, t := Schedule(block, n - 1), n - 1;
      w + [if t < 16 then WordOf(block[4 * t], block[4 * t + 1], block[4 * t + 2], block[4 * t + 3])
           else Rotl1(w[t - 3] ^ w[t - 8] ^ w[t - 14] ^ w[t - 16])]
  }

  /** The new first word of step d. */
  function Mix(a: Word, f: Word, e: Word, w: Word, k: Word): Word {
    Rotl5(a) + f + e + w + k
  }

  /** Step d for one value of t. */
  function Round(s: Digest, w: Word, t: nat): Digest
    requires t < 80
  {
    Digest(Mix(s.h0, F(t, s.h1, s.h2, s.h3), s.h4, w, K(t)), s.h0, Rotl30(s.h1), s.h2, s.h3)
  }

  /** Step d for as many values of t as there are words. */
  ghost function Rounds(h: Digest, w: seq<Word>): Digest
    requires |w| <= 80
  {
    if w == [] then h
    else Round(Rounds(h, w[..|w| - 1]), w[|w| - 1], |w| - 1)
  }

  function AddDigests(a: Digest, b: Digest): Digest {
    Digest(a.h0 + b.h0, a.h1 + b.h1, a.h2 + b.h2, a.h3 + b.h3, a.h4 + b.h4)
  }

  ghost function Compress(h: Digest, block: seq<Octet>): Digest
    requires |block| == 64
  {
    AddDigests(h, Rounds(h, Schedule(block, |block| + 16)))
  }

  /** The compression folded over the whole blocks of `s`. */
  ghost function Absorb(h: Digest, s: seq<Octet>): Digest
    requires |s| % 64 == 0
    decreases |s|
  {
    if |s| == 0 then h else Compress(Absorb(h, s[..|s| - 64]), s[|s| - 64..])
  }

  /** The octet of `bits` that counts in units of `unit`. */
  function OctetOf(bits: nat, unit: nat): Octet
    requires unit > 0
  {
    (bits / unit % 0x100) as Octet
  }

  /** Section 4(c): the 64-bit big-endian bit count. */
  function LengthOctets(bits: nat): (r: seq<Octet>)
    requires bits < 0x1_0000_0000_0000_0000
    ensures |r| == 8
  {
    [ OctetOf(bits, 0x100_0000_0000_0000), OctetOf(bits, 0x1_0000_0000_0000),
      OctetOf(bits, 0x100_0000_0000), OctetOf(bits, 0x1_0000_0000),
      OctetOf(bits, 0x100_0000), OctetOf(bits, 0x1_0000), OctetOf(bits, 0x100), OctetOf(bits, 1) ]
  }

  function Zeros(n: nat): (r: seq<Octet>)
    ensures |r| == n && forall i :: 0 <= i < n ==> r[i] == 0
  {
    seq(n, i => 0)
  }

  /** The zero octets between the one bit and the length. */
  function PadZeros(n: nat): nat {
    (119 - n % 64) % 64
  }

  lemma PadZerosFit(n: nat)
    ensures PadZeros(n) == if n % 64 <= 55 then 55 - n % 64 else 119 - n % 64
    ensures (n + 1 + PadZeros(n) + 8) % 64 == 0
  {
    assert n == n / 64 * 64 + n % 64;
  }

  /** Section 4: a one bit, the fewest zeros, the length. */
  function Pad(m: seq<Octet>): (r: seq<Octet>)
    requires |m| < LIMIT
    ensures |r| % 64 == 0
  {
    PadZerosFit(|m|);
    m + [0x80] + Zeros(PadZeros(|m|)) + LengthOctets(8 * |m|)
  }

  ghost function Hash(m: seq<Octet>): Digest
    requires |m| < LIMIT
  {
    Absorb(Initial(), Pad(m))
  }

  // ---------------------------------------------------------------------
  // Laws of the definition
  // ---------------------------------------------------------------------

  /** Absorbing block-aligned pieces one after the other is absorbing them joined. */
  lemma {:induction false} AbsorbJoins(h: Digest, s: seq<Octet>, t: seq<Octet>)
    requires |s| % 64 == 0 && |t| % 64 == 0
    ensures Absorb(h, s + t) == Absorb(Absorb(h, s), t)
    decreases |t|
  {
    if |t| == 0 {
      assert s + t == s;
    } else {
      var init, last := t[..|t| - 64], t[|t| - 64..];
      AbsorbJoins(h, s, init);
      assert (s + t)[..|s + t| - 64] == s + init;
      assert (s + t)[|s + t| - 64..] == last;
    }
  }

  lemma AbsorbOne(h: Digest, block: seq<Octet>)
    requires |block| == 64
    ensures Absorb(h, block) == Compress(h, block)
  {
    assert block[..0] == [] && block[0..] == block;
  }

  /** The count is recovered from its last octets, so padding loses nothing. */
  lemma {:induction false} LengthOctetsInjective(a: nat, b: nat)
    requires a < 0x1_0000_0000_0000_0000 && b < 0x1_0000_0000_0000_0000
    requires LengthOctets(a) == LengthOctets(b)
    ensures a == b
  {
    var x, y := LengthOctets(a), LengthOctets(b);
    assert forall i :: 0 <= i < 8 ==> x[i] == y[i];
    OctetInjective(a / 0x100_0000_0000_0000 % 0x100, b / 0x100_0000_0000_0000 % 0x100);
    OctetInjective(a / 0x1_0000_0000_0000 % 0x100, b / 0x1_0000_0000_0000 % 0x100);
    OctetInjective(a / 0x100_0000_0000 % 0x100, b / 0x100_0000_0000 % 0x100);
    OctetInjective(a / 0x1_0000_0000 % 0x100, b / 0x1_0000_0000 % 0x100);
    OctetInjective(a / 0x100_0000 % 0x100, b / 0x100_0000 % 0x100);
    OctetInjective(a / 0x1_0000 % 0x100, b / 0x1_0000 % 0x100);
    OctetInjective(a / 0x100 % 0x100, b / 0x100 % 0x100);
    OctetInjective(a % 0x100, b % 0x100);
    FromOctets(a);
    FromOctets(b);
  }

  lemma OctetInjective(a: int, b: int)
    requires 0 <= a < 256 && 0 <= b < 256 && a as Octet == b as Octet
    ensures a == b
  {
    OctetValue(a);
    OctetValue(b);
  }

  lemma OctetValue(a: int)
    requires 0 <= a < 256
    ensures (a as Octet) as int == a
  {
    OctetValueIn(a, a / 16);
  }

  /** One case for each of the sixteen high halves keeps the conversion cheap. */
  lemma OctetValueIn(a: int, high: int)
    requires 0 <= high < 16 && 16 * high <= a < 16 * high + 16
    ensures (a as Octet) as int == a
  {
    if high == 0 {} else if high == 1 {} else if high == 2 {} else if high == 3 {}
    else if high == 4 {} else if high == 5 {} else if high == 6 {} else if high == 7 {}
    else if high == 8 {} else if high == 9 {} else if high == 10 {} else if high == 11 {}
    else if high == 12 {} else if high == 13 {} else if high == 14 {} else {}
  }

  lemma FromOctets(a: nat)
    requires a < 0x1_0000_0000_0000_0000
    ensures a == a / 0x100_0000_0000_0000 % 0x100 * 0x100_0000_0000_0000
              + a / 0x1_0000_0000_0000 % 0x100 * 0x1_0000_0000_0000
              + a / 0x100_0000_0000 % 0x100 * 0x100_0000_0000
              + a / 0x1_0000_0000 % 0x100 * 0x1_0000_0000
              + a / 0x100_0000 % 0x100 * 0x100_0000
              + a / 0x1_0000 % 0x100 * 0x1_0000
              + a / 0x100 % 0x100 * 0x100
              + a % 0x100
  {
    assert a / 0x100 / 0x100 == a / 0x1_0000;
    assert a / 0x1_0000 / 0x100 == a / 0x100_0000;
    assert a / 0x100_0000 / 0x100 == a / 0x1_0000_0000;
    assert a / 0x1_0000_0000 / 0x100 == a / 0x100_0000_0000;
    assert a / 0x100_0000_0000 / 0x100 == a / 0x1_0000_0000_0000;
    assert a / 0x1_0000_0000_0000 / 0x100 == a / 0x100_0000_0000_0000;
  }

  /** Two messages have the same padding only when they are the same message. */
  lemma PadInjective(m: seq<Octet>, n: seq<Octet>)
    requires |m| < LIMIT && |n| < LIMIT
    ensures Pad(m) == Pad(n) <==> m == n
  {
    hide LengthOctets, PadZeros;
    if Pad(m) == Pad(n) {
      var p := Pad(m);
      assert p[|p| - 8..] == LengthOctets(8 * |m|);
      assert p[|p| - 8..] == Pad(n)[|p| - 8..] == LengthOctets(8 * |n|);
      LengthOctetsInjective(8 * |m|, 8 * |n|);
      assert m == p[..|m|] == Pad(n)[..|n|] == n;
    }
  }
}
