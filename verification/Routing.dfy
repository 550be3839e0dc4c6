/**
 The interface list and the routing table: lookup by name and by address, and
 longest-prefix match as the router's mask comparison performs it.
 */
module Routing {
  import opened Bytes

  /** A C string: the octets before its terminator. */
  type Name = seq<Byte>
  type Mac = m: seq<Byte> | |m| == 6 witness [0, 0, 0, 0, 0, 0]

  /** An address as it lies in memory: four octets in network order. */
  type Ip = a: seq<Byte> | |a| == 4 witness [0, 0, 0, 0]

  datatype Interface = Interface(name: Name, mac: Mac, ip: Ip)
  datatype Route = Route(dest: Ip, gw: Ip, mask: Ip, iface: Name)
  datatype Config = Config(ifaces: seq<Interface>, routes: seq<Route>)

  const NAME_LEN: nat := 32

  // ---------------------------------------------------------------------
  // Interfaces
  // ---------------------------------------------------------------------

  function Clip(n: Name, limit: nat): (r: Name)
    ensures |r| <= limit && (|n| <= limit ==> r == n)
  {
    if |n| <= limit then n else n[..limit]
  }

  /** `strncmp(a, b, sr_IFACE_NAMELEN) == 0`. */
  predicate SameName(a: Name, b: Name) {
    Clip(a, NAME_LEN) == Clip(b, NAME_LEN)
  }

  /** The first interface of that name. */
  function ByName(ifaces: seq<Interface>, name: Name): (r: Option<Interface>)
    ensures r.Some? ==> r.value in ifaces && SameName(r.value.name, name)
    ensures r.None? ==> forall i :: i in ifaces ==> !SameName(i.name, name)
  {
    if ifaces == [] then None
    else if SameName(ifaces[0].name, name) then Some(ifaces[0])
    else ByName(ifaces[1..], name)
  }

  /** The first interface holding that address. */
  function ByIp(ifaces: seq<Interface>, ip: Ip): (r: Option<Interface>)
    ensures r.Some? ==> r.value in ifaces && r.value.ip == ip
    ensures r.None? ==> forall i :: i in ifaces ==> i.ip != ip
  {
    if ifaces == [] then None
    else if ifaces[0].ip == ip then Some(ifaces[0])
    else ByIp(ifaces[1..], ip)
  }

  /** Names are compared over 32 octets. */
  lemma SameNameMeans(a: Name, b: Name)
    ensures SameName(a, b) <==> a == b || (|a| >= 32 && |b| >= 32 && a[..32] == b[..32])
  {
  }

  /** The search by name gives the first interface of that name. */
  lemma {:induction false} FirstByName(ifaces: seq<Interface>, name: Name, i: nat)
    requires i < |ifaces| && SameName(ifaces[i].name, name)
    requires forall j :: 0 <= j < i ==> !SameName(ifaces[j].name, name)
    ensures ByName(ifaces, name) == Some(ifaces[i])
  {
    if i > 0 {
      FirstByName(ifaces[1..], name, i - 1);
    }
  }

  /** The search by address gives the first interface of that address. */
  lemma {:induction false} FirstByIp(ifaces: seq<Interface>, ip: Ip, i: nat)
    requires i < |ifaces| && ifaces[i].ip == ip && forall j :: 0 <= j < i ==> ifaces[j].ip != ip
    ensures ByIp(ifaces, ip) == Some(ifaces[i])
  {
    if i > 0 {
      FirstByIp(ifaces[1..], ip, i - 1);
    }
  }

  /** `sr_get_interface`. */
  method GetInterface(ifaces: seq<Interface>, name: Name) returns (r: Option<Interface>)
    ensures r == ByName(ifaces, name)
  {
    var i := 0;
    assert ifaces[0..] == ifaces;
    while i < |ifaces|
      invariant 0 <= i <= |ifaces| && ByName(ifaces, name) == ByName(ifaces[i..], name)
    {
      if SameName(ifaces[i].name, name) {
        return Some(ifaces[i]);
      }
      assert ifaces[i..][1..] == ifaces[i + 1..];
      i := i + 1;
    }
    r := None;
  }

  /** `sr_get_interface_by_ip`. */
  method GetInterfaceByIp(ifaces: seq<Interface>, ip: Ip) returns (r: Option<Interface>)
    ensures r == ByIp(ifaces, ip)
  {
    var i := 0;
    assert ifaces[0..] == ifaces;
    while i < |ifaces|
      invariant 0 <= i <= |ifaces| && ByIp(ifaces, ip) == ByIp(ifaces[i..], ip)
    {
      if ifaces[i].ip == ip {
        return Some(ifaces[i]);
      }
      assert ifaces[i..][1..] == ifaces[i + 1..];
      i := i + 1;
    }
    r := None;
  }

  /** Looking a found interface up by its own name finds it again. */
  lemma {:induction false} ByNameAgain(ifaces: seq<Interface>, name: Name)
    requires ByName(ifaces, name).Some?
    ensures ByName(ifaces, ByName(ifaces, name).value.name) == ByName(ifaces, name)
  {
    if !SameName(ifaces[0].name, name) {
      ByNameAgain(ifaces[1..], name);
    }
  }

  /** The list has only grown, and every interface in it kept its name. */
  ghost predicate KeepsNames(ifaces: seq<Interface>, later: seq<Interface>) {
    |ifaces| <= |later| && forall i :: 0 <= i < |ifaces| ==> later[i].name == ifaces[i].name
  }

  /** Then a name that was found is still found, at the same interface. */
  lemma {:induction false} ByNameStable(ifaces: seq<Interface>, later: seq<Interface>, name: Name)
    requires KeepsNames(ifaces, later) && ByName(ifaces, name).Some?
    ensures ByName(later, name).Some? && ByName(later, name).value.name == ByName(ifaces, name).value.name
  {
    if !SameName(ifaces[0].name, name) {
      assert KeepsNames(ifaces[1..], later[1..]);
      ByNameStable(ifaces[1..], later[1..], name);
    }
  }

  ghost predicate DistinctIps(ifaces: seq<Interface>) {
    forall i, j :: 0 <= i < j < |ifaces| ==> ifaces[i].ip != ifaces[j].ip
  }

  // ---------------------------------------------------------------------
  // Longest-prefix match
  // ---------------------------------------------------------------------

  /** Bitwise conjunction of two words. */
  function And(a: nat, b: nat): nat {
    if a == 0 || b == 0 then 0 else 2 * And(a / 2, b / 2) + a % 2 * (b % 2)
  }

  /** The word a little-endian host loads from the four octets. */
  function Raw(a: Ip): nat {
    ((a[3] as int * 256 + a[2]) * 256 + a[1]) * 256 + a[0]
  }

  /** Its value after `ntohl`: the number the octets spell on the wire. */
  function NtoHl(a: Ip): nat {
    ((a[0] as int * 256 + a[1]) * 256 + a[2]) * 256 + a[3]
  }

  /** The address test of `lpm_lookup`, on words as they were loaded. */
  predicate Matches(r: Route, dst: Ip) {
    And(Raw(dst), Raw(r.mask)) == And(Raw(r.dest), Raw(r.mask))
  }

  /** The index `lpm_lookup` has settled on after the routes given. */
  function Lpm(routes: seq<Route>, dst: Ip): (best: Option<nat>)
    ensures best.Some? ==> best.value < |routes|
  {
    if routes == [] then None
    else
      var n := |routes| - 1;
      var best := Lpm(routes[..n], dst);
      if Matches(routes[n], dst) && NtoHl(routes[n].mask) > BestRank(routes, best) then Some(n) else best
  }

  /** `ntohl(best_mask)`, which starts at zero. */
  function BestRank(routes: seq<Route>, best: Option<nat>): nat
    requires best.Some? ==> best.value < |routes|
  {
    if best.Some? then NtoHl(routes[best.value].mask) else 0
  }

  /** `lpm_lookup`. */
  method LpmLookup(routes: seq<Route>, dst: Ip) returns (best: Option<nat>)
    ensures best == Lpm(routes, dst)
  {
    hide NtoHl, Matches;
    best := None;
    var bestRank := 0;
    for i := 0 to |routes|
      invariant best == Lpm(routes[..i], dst) && bestRank == BestRank(routes[..i], best)
    {
      assert routes[..i + 1][..i] == routes[..i];
      if Matches(routes[i], dst) {
        if NtoHl(routes[i].mask) > bestRank {
          best, bestRank := Some(i), NtoHl(routes[i].mask);
        }
      }
    }
    assert routes[..|routes|] == routes;
  }

  /** The copy of the loop inside `send_icmp_host_unreachable`, which keeps the
      best mask itself, in network order. */
  method InlineLookup(routes: seq<Route>, dst: Ip) returns (best: Option<nat>)
    ensures best == Lpm(routes, dst)
  {
    hide Matches;
    best := None;
    var bestMask: Ip := [0, 0, 0, 0];
    var i := 0;
    while i < |routes|
      invariant 0 <= i <= |routes|
      invariant best == Lpm(routes[..i], dst) && NtoHl(bestMask) == BestRank(routes[..i], best)
    {
      assert routes[..i + 1][..i] == routes[..i];
      if Matches(routes[i], dst) {
        if NtoHl(routes[i].mask) > NtoHl(bestMask) {
          best, bestMask := Some(i), routes[i].mask;
        }
      }
      i := i + 1;
    }
    assert routes[..|routes|] == routes;
  }

  /** The chosen route is the earliest of those with the greatest nonzero mask. */
  ghost predicate Greatest(routes: seq<Route>, dst: Ip, best: Option<nat>) {
    match best
    case None => forall j :: 0 <= j < |routes| && Matches(routes[j], dst) ==> NtoHl(routes[j].mask) == 0
    case Some(i) =>
      && i < |routes| && Matches(routes[i], dst) && NtoHl(routes[i].mask) > 0
      && (forall j :: 0 <= j < |routes| && Matches(routes[j], dst) ==> NtoHl(routes[j].mask) <= NtoHl(routes[i].mask))
      && (forall j :: 0 <= j < i && Matches(routes[j], dst) ==> NtoHl(routes[j].mask) < NtoHl(routes[i].mask))
  }

  lemma {:induction false} LpmIsGreatest(routes: seq<Route>, dst: Ip)
    ensures Greatest(routes, dst, Lpm(routes, dst))
  {
    hide NtoHl, Matches;
    if routes != [] {
      var n := |routes| - 1;
      LpmIsGreatest(routes[..n], dst);
      assert forall j :: 0 <= j < n ==> routes[..n][j] == routes[j];
    }
  }

  // ---------------------------------------------------------------------
  // The match test does not depend on byte order
  // ---------------------------------------------------------------------

  /** Conjunction works octet by octet, here on the lowest `k` bits apart. */
  lemma {:induction false} AndSplit(h: nat, l: nat, h': nat, l': nat, k: nat)
    requires l < Pow2(k) && l' < Pow2(k)
    ensures And(h * Pow2(k) + l, h' * Pow2(k) + l') == And(h, h') * Pow2(k) + And(l, l')
    decreases k
  {
    hide And;
    AndStep(0, 0);
    if k > 0 {
      var p := Pow2(k - 1);
      AndSplit(h, l / 2, h', l' / 2, k - 1);
      Halve(h, p, l);
      Halve(h', p, l');
      Halve(And(h, h'), p, 0);
      AndStep(h * Pow2(k) + l, h' * Pow2(k) + l');
      AndStep(l, l');
    }
  }

  lemma Halve(h: nat, p: nat, l: nat)
    ensures h * (2 * p) == 2 * (h * p)
    ensures (h * (2 * p) + l) / 2 == h * p + l / 2 && (h * (2 * p) + l) % 2 == l % 2
  {
    assert h * (2 * p) == 2 * (h * p);
  }

  lemma AndStep(a: nat, b: nat)
    ensures And(a, b) == 2 * And(a / 2, b / 2) + a % 2 * (b % 2)
  {
  }

  ghost function Pow2(k: nat): (r: nat)
    ensures r > 0
  {
    if k == 0 then 1 else 2 * Pow2(k - 1)
  }

  lemma AndOctet(h: nat, l: Byte, h': nat, l': Byte)
    ensures And(h * 256 + l, h' * 256 + l') == And(h, h') * 256 + And(l, l')
    ensures And(l, l') < 256
  {
    assert Pow2(8) == 256;
    AndSplit(h, l, h', l', 8);
    AndBelow(l, l');
  }

  lemma {:induction false} AndBelow(a: nat, b: nat)
    ensures And(a, b) <= a
  {
    if a != 0 && b != 0 {
      AndBelow(a / 2, b / 2);
    }
  }

  ghost function AndIp(a: Ip, m: Ip): Ip {
    AndOctet(0, a[0], 0, m[0]);
    AndOctet(0, a[1], 0, m[1]);
    AndOctet(0, a[2], 0, m[2]);
    AndOctet(0, a[3], 0, m[3]);
    [And(a[0], m[0]), And(a[1], m[1]), And(a[2], m[2]), And(a[3], m[3])]
  }

  lemma AndByOctets(a: Ip, m: Ip)
    ensures And(Raw(a), Raw(m)) == Raw(AndIp(a, m))
    ensures And(NtoHl(a), NtoHl(m)) == NtoHl(AndIp(a, m))
  {
    hide And;
    AndOctet(a[3], a[2], m[3], m[2]);
    AndOctet(a[3] as int * 256 + a[2], a[1], m[3] as int * 256 + m[2], m[1]);
    AndOctet((a[3] as int * 256 + a[2]) * 256 + a[1], a[0], (m[3] as int * 256 + m[2]) * 256 + m[1], m[0]);
    AndOctet(a[0], a[1], m[0], m[1]);
    AndOctet(a[0] as int * 256 + a[1], a[2], m[0] as int * 256 + m[1], m[2]);
    AndOctet((a[0] as int * 256 + a[1]) * 256 + a[2], a[3], (m[0] as int * 256 + m[1]) * 256 + m[2], m[3]);
  }

  lemma WordsInjective(a: Ip, b: Ip)
    ensures Raw(a) == Raw(b) <==> a == b
    ensures NtoHl(a) == NtoHl(b) <==> a == b
  {
    if Raw(a) == Raw(b) {
      FourDigits(a[3], a[2], a[1], a[0], b[3], b[2], b[1], b[0]);
      assert a == b;
    }
    if NtoHl(a) == NtoHl(b) {
      FourDigits(a[0], a[1], a[2], a[3], b[0], b[1], b[2], b[3]);
      assert a == b;
    }
  }

  lemma FourDigits(a: Byte, b: Byte, c: Byte, d: Byte, e: Byte, f: Byte, g: Byte, h: Byte)
    requires ((a as int * 256 + b) * 256 + c) * 256 + d == ((e as int * 256 + f) * 256 + g) * 256 + h
    ensures a == e && b == f && c == g && d == h
  {
  }

  /** Testing the loaded words is testing the numbers on the wire. */
  lemma MatchesOnWire(r: Route, dst: Ip)
    ensures Matches(r, dst) <==> And(NtoHl(dst), NtoHl(r.mask)) == And(NtoHl(r.dest), NtoHl(r.mask))
  {
    AndByOctets(dst, r.mask);
    AndByOctets(r.dest, r.mask);
    WordsInjective(AndIp(dst, r.mask), AndIp(r.dest, r.mask));
  }

  // ---------------------------------------------------------------------
  // Contiguous masks and the prefixes they stand for
  // ---------------------------------------------------------------------

  /** The number of `n` one bits followed by `s` zero bits. */
  ghost function Mask(n: nat, s: nat): nat {
    if s > 0 then 2 * Mask(n, s - 1) else if n > 0 then 2 * Mask(n - 1, 0) + 1 else 0
  }

  /** `x` without its last `s` bits. */
  ghost function Drop(x: nat, s: nat): nat {
    if s == 0 then x else Drop(x / 2, s - 1)
  }

  /** The two addresses share their first `n` bits. */
  ghost predicate SamePrefix(a: Ip, b: Ip, n: nat)
    requires n <= 32
  {
    Drop(NtoHl(a), 32 - n) == Drop(NtoHl(b), 32 - n)
  }

  lemma {:induction false} AndOnes(x: nat, n: nat)
    requires x < Pow2(n)
    ensures And(x, Mask(n, 0)) == x
    decreases n
  {
    if n > 0 {
      AndOnes(x / 2, n - 1);
      AndStep(x, Mask(n, 0));
    }
  }

  /** Masking compares exactly the bits that dropping the others leaves. */
  lemma {:induction false} AndMask(a: nat, b: nat, n: nat, s: nat)
    requires a < Pow2(n + s) && b < Pow2(n + s)
    ensures And(a, Mask(n, s)) == And(b, Mask(n, s)) <==> Drop(a, s) == Drop(b, s)
    decreases s
  {
    hide And;
    if s == 0 {
      AndOnes(a, n);
      AndOnes(b, n);
    } else {
      AndMask(a / 2, b / 2, n, s - 1);
      AndStep(a, Mask(n, s));
      AndStep(b, Mask(n, s));
    }
  }

  /** One more bit of prefix is a greater mask. */
  lemma {:induction false} LongerIsGreater(n: nat, s: nat)
    ensures Mask(n, s + 1) < Mask(n + 1, s)
    decreases s
  {
    if s > 0 {
      LongerIsGreater(n, s - 1);
    }
  }

  lemma {:induction false} MaskOrder(m: nat, n: nat, width: nat)
    requires m <= n <= width
    ensures m < n ==> Mask(m, width - m) < Mask(n, width - n)
    decreases n - m
  {
    if m < n {
      LongerIsGreater(m, width - m - 1);
      MaskOrder(m + 1, n, width);
    }
  }

  lemma {:induction false} EmptyMask(s: nat)
    ensures Mask(0, s) == 0
  {
    if s > 0 {
      EmptyMask(s - 1);
    }
  }

  /** Every mask of the table is a run of ones; `lens` are the prefix lengths. */
  ghost predicate Contiguous(routes: seq<Route>, lens: seq<nat>) {
    && |lens| == |routes|
    && forall i :: 0 <= i < |routes| ==> lens[i] <= 32 && NtoHl(routes[i].mask) == Mask(lens[i], 32 - lens[i])
  }

  lemma MatchesIsSamePrefix(r: Route, n: nat, dst: Ip)
    requires n <= 32 && NtoHl(r.mask) == Mask(n, 32 - n)
    ensures Matches(r, dst) <==> SamePrefix(dst, r.dest, n)
  {
    MatchesOnWire(r, dst);
    hide And, Mask, Drop, Matches;
    assert Pow2(8) == 0x100;
    assert Pow2(16) == 0x1_0000;
    assert Pow2(24) == 0x100_0000;
    assert Pow2(32) == 0x1_0000_0000;
    assert n + (32 - n) == 32;
    AndMask(NtoHl(dst), NtoHl(r.dest), n, 32 - n);
  }

  lemma RankIsLength(m: nat, n: nat)
    requires m <= 32 && n <= 32
    ensures Mask(m, 32 - m) <= Mask(n, 32 - n) <==> m <= n
    ensures Mask(n, 32 - n) == 0 <==> n == 0
  {
    EmptyMask(32);
    MaskOrder(0, n, 32);
    if m <= n {
      MaskOrder(m, n, 32);
    } else {
      MaskOrder(n, m, 32);
    }
  }

  /** Section 5.2.4.3 of RFC 1812, as far as the code goes: the answer is the
      earliest route of greatest prefix length among those whose prefix the
      destination shares, except that a route of length zero is never chosen. */
  lemma LongestPrefixMatch(routes: seq<Route>, lens: seq<nat>, dst: Ip)
    requires Contiguous(routes, lens)
    ensures match Lpm(routes, dst)
      case None =>
        forall j :: 0 <= j < |routes| && SamePrefix(dst, routes[j].dest, lens[j]) ==> lens[j] == 0
      case Some(i) =>
        && lens[i] > 0 && SamePrefix(dst, routes[i].dest, lens[i])
        && (forall j :: 0 <= j < |routes| && SamePrefix(dst, routes[j].dest, lens[j]) ==> lens[j] <= lens[i])
        && (forall j :: 0 <= j < i && SamePrefix(dst, routes[j].dest, lens[j]) ==> lens[j] < lens[i])
  {
    hide Lpm, Matches, SamePrefix, NtoHl;
    LpmIsGreatest(routes, dst);
    forall j | 0 <= j < |routes|
      ensures Matches(routes[j], dst) <==> SamePrefix(dst, routes[j].dest, lens[j])
      ensures NtoHl(routes[j].mask) == 0 <==> lens[j] == 0
    {
      MatchesIsSamePrefix(routes[j], lens[j], dst);
      RankIsLength(lens[j], lens[j]);
    }
    match Lpm(routes, dst)
    case None =>
    case Some(i) =>
      forall j | 0 <= j < |routes|
        ensures NtoHl(routes[j].mask) <= NtoHl(routes[i].mask) <==> lens[j] <= lens[i]
        ensures NtoHl(routes[i].mask) <= NtoHl(routes[j].mask) <==> lens[i] <= lens[j]
      {
        RankIsLength(lens[j], lens[i]);
        RankIsLength(lens[i], lens[j]);
      }
  }
}
