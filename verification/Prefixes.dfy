/**
 Longest-prefix match, bit by bit: addresses and masks as rows of 32 bits, first
 octet first and most significant bit first, and the route the router chooses.
 */
module Prefixes {
  import opened Bytes
  import opened Routing

  /** Bit `i` of an address, counted from the left. */
  ghost function Bit(a: Ip, i: nat): nat
    requires i < 32
  {
    a[i / 8] / Pow2(7 - i % 8) % 2
  }

  /** The two addresses agree in their first `n` bits. */
  ghost predicate Agree(a: Ip, b: Ip, n: nat) {
    n <= 32 && forall i: nat :: i < n ==> Bit(a, i) == Bit(b, i)
  }

  /** `n` ones, then zeros. */
  ghost predicate IsMask(m: Ip, n: nat) {
    n <= 32 && forall i: nat :: i < 32 ==> Bit(m, i) == if i < n then 1 else 0
  }

  // ---------------------------------------------------------------------
  // Bits of numbers
  // ---------------------------------------------------------------------

  /** The bit that stands `t` places from the right. */
  ghost function BitOf(x: nat, t: nat): nat {
    Drop(x, t) % 2
  }

  lemma {:induction false} DropNext(x: nat, s: nat)
    ensures Drop(x, s + 1) == Drop(x, s) / 2
    decreases s
  {
    if s > 0 {
      DropNext(x / 2, s - 1);
    }
  }

  lemma {:induction false} DropAll(x: nat, k: nat)
    requires x < Pow2(k)
    ensures Drop(x, k) == 0
    decreases k
  {
    if k > 0 {
      DropAll(x / 2, k - 1);
    }
  }

  /** Numbers agree above place `s` exactly when all their bits there do. */
  lemma {:induction false} SameBits(x: nat, y: nat, s: nat, k: nat)
    requires s <= k && x < Pow2(k) && y < Pow2(k)
    ensures Drop(x, s) == Drop(y, s) <==> forall t: nat :: s <= t < k ==> BitOf(x, t) == BitOf(y, t)
    decreases k - s
  {
    if s == k {
      DropAll(x, k);
      DropAll(y, k);
    } else {
      SameBits(x, y, s + 1, k);
      DropNext(x, s);
      DropNext(y, s);
      assert BitOf(x, s) == Drop(x, s) % 2 && BitOf(y, s) == Drop(y, s) % 2;
    }
  }

  lemma {:induction false} LowBit(h: nat, l: nat, k: nat, t: nat)
    requires t < k
    ensures BitOf(h * Pow2(k) + l, t) == BitOf(l, t)
    decreases t
  {
    Halve(h, Pow2(k - 1), l);
    if t > 0 {
      LowBit(h, l / 2, k - 1, t - 1);
    }
  }

  lemma {:induction false} HighBit(h: nat, l: nat, k: nat, t: nat)
    requires l < Pow2(k)
    ensures BitOf(h * Pow2(k) + l, k + t) == BitOf(h, t)
    decreases k
  {
    if k > 0 {
      Halve(h, Pow2(k - 1), l);
      HighBit(h, l / 2, k - 1, t);
    }
  }

  /** The bit at place `31 - i` of the number on the wire is bit `i` of the address. */
  lemma WireBit(a: Ip, i: nat)
    requires i < 32
    ensures BitOf(NtoHl(a), 31 - i) == Bit(a, i)
  {
    hide Drop, BitOf;
    var t := 7 - i % 8;
    OctetBit(a[i / 8], t);
    assert Pow2(8) == 256 by { EightBits(); }
    var top := a[0] as int * 256 + a[1];
    var most := top * 256 + a[2];
    if i / 8 == 3 {
      LowBit(most, a[3], 8, t);
    } else {
      HighBit(most, a[3], 8, 31 - i - 8);
      if i / 8 == 2 {
        LowBit(top, a[2], 8, t);
      } else {
        HighBit(top, a[2], 8, 31 - i - 16);
        if i / 8 == 1 {
          LowBit(a[0], a[1], 8, t);
        } else {
          HighBit(a[0], a[1], 8, t);
        }
      }
    }
  }

  lemma EightBits()
    ensures Pow2(8) == 256
  {
  }

  lemma {:induction false} OctetBit(x: nat, t: nat)
    requires t < 8
    ensures BitOf(x, t) == x / Pow2(t) % 2
  {
    if t > 0 {
      OctetBit(x / 2, t - 1);
      HalfOf(x, t);
    }
  }

  lemma HalfOf(x: nat, t: nat)
    requires 0 < t < 8
    ensures x / 2 / Pow2(t - 1) == x / Pow2(t)
  {
    assert Pow2(0) == 1 && Pow2(1) == 2 && Pow2(2) == 4 && Pow2(3) == 8;
    assert Pow2(4) == 16 && Pow2(5) == 32 && Pow2(6) == 64 && Pow2(7) == 128;
    if t == 1 {} else if t == 2 {} else if t == 3 {} else if t == 4 {} else if t == 5 {} else if t == 6 {} else {}
  }

  lemma WireRange(a: Ip)
    ensures NtoHl(a) < Pow2(32)
  {
    assert Pow2(8) == 0x100;
    assert Pow2(16) == 0x1_0000;
    assert Pow2(24) == 0x100_0000;
    assert Pow2(32) == 0x1_0000_0000;
  }

  // ---------------------------------------------------------------------
  // Prefixes and masks
  // ---------------------------------------------------------------------

  lemma PrefixIsBits(a: Ip, b: Ip, n: nat)
    requires n <= 32
    ensures SamePrefix(a, b, n) <==> Agree(a, b, n)
  {
    hide Drop, NtoHl, Bit, BitOf;
    var x, y := NtoHl(a), NtoHl(b);
    WireRange(a);
    WireRange(b);
    SameBits(x, y, 32 - n, 32);
    forall i: nat | i < 32
      ensures BitOf(x, 31 - i) == Bit(a, i) && BitOf(y, 31 - i) == Bit(b, i)
    {
      WireBit(a, i);
      WireBit(b, i);
    }
    if Agree(a, b, n) {
      forall t: nat | 32 - n <= t < 32
        ensures BitOf(x, t) == BitOf(y, t)
      {
        assert Bit(a, 31 - t) == Bit(b, 31 - t);
        assert 31 - (31 - t) == t;
      }
    }
  }

  lemma {:induction false} MaskBit(n: nat, s: nat, t: nat)
    ensures BitOf(Mask(n, s), t) == if s <= t < n + s then 1 else 0
    decreases s, n, t
  {
    if s > 0 {
      if t > 0 {
        MaskBit(n, s - 1, t - 1);
      }
    } else if n > 0 {
      if t > 0 {
        MaskBit(n - 1, 0, t - 1);
      }
    } else {
      NoBits(t);
    }
  }

  lemma {:induction false} NoBits(t: nat)
    ensures BitOf(0, t) == 0
  {
    if t > 0 {
      NoBits(t - 1);
    }
  }

  lemma {:induction false} MaskRange(n: nat, s: nat)
    ensures Mask(n, s) < Pow2(n + s)
    decreases s, n
  {
    if s > 0 {
      MaskRange(n, s - 1);
    } else if n > 0 {
      MaskRange(n - 1, 0);
    }
  }

  lemma MaskIsBits(m: Ip, n: nat)
    requires IsMask(m, n)
    ensures NtoHl(m) == Mask(n, 32 - n)
  {
    hide NtoHl, Bit, BitOf, Mask;
    WireRange(m);
    MaskRange(n, 32 - n);
    assert n + (32 - n) == 32;
    forall t: nat | 0 <= t < 32
      ensures BitOf(NtoHl(m), t) == BitOf(Mask(n, 32 - n), t)
    {
      WireBit(m, 31 - t);
      MaskBit(n, 32 - n, t);
      assert Bit(m, 31 - t) == if 31 - t < n then 1 else 0;
    }
    SameBits(NtoHl(m), Mask(n, 32 - n), 0, 32);
    assert Drop(NtoHl(m), 0) == NtoHl(m) && Drop(Mask(n, 32 - n), 0) == Mask(n, 32 - n);
  }

  /** Section 5.2.4.3 of RFC 1812 bit by bit: for every table whose masks are ones
      followed by zeros, the earliest of the longest prefixes that agree with the
      address and are not empty; and none exactly when there is no such route. */
  lemma LongestPrefix(routes: seq<Route>, lens: seq<nat>, dst: Ip)
    requires |lens| == |routes| && forall j :: 0 <= j < |routes| ==> IsMask(routes[j].mask, lens[j])
    ensures match Lpm(routes, dst)
      case None =>
        forall j :: 0 <= j < |routes| && lens[j] > 0 ==> !Agree(dst, routes[j].dest, lens[j])
      case Some(i) =>
        && lens[i] > 0 && Agree(dst, routes[i].dest, lens[i])
        && (forall j :: 0 <= j < |routes| && Agree(dst, routes[j].dest, lens[j]) ==> lens[j] <= lens[i])
        && (forall j :: 0 <= j < i && Agree(dst, routes[j].dest, lens[j]) ==> lens[j] < lens[i])
  {
    hide Lpm, SamePrefix, Agree, NtoHl, Mask;
    forall j | 0 <= j < |routes|
      ensures NtoHl(routes[j].mask) == Mask(lens[j], 32 - lens[j])
      ensures SamePrefix(dst, routes[j].dest, lens[j]) <==> Agree(dst, routes[j].dest, lens[j])
    {
      assert IsMask(routes[j].mask, lens[j]);
      MaskIsBits(routes[j].mask, lens[j]);
      PrefixIsBits(dst, routes[j].dest, lens[j]);
    }
    LongestPrefixMatch(routes, lens, dst);
  }
}
