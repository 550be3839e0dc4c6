/**
 What the router puts on the wire and what it decides, octet by octet. Nothing
 here is said through the functions that build a frame or take a decision: the
 layouts are those of RFC 826, RFC 791 and RFC 792, and every decision is on the
 octets of the frame, the interfaces and the routing table.
 */
module Octets {
  import opened Bytes
  import opened Checksum
  import opened Routing
  import opened Frames

  // ---------------------------------------------------------------------
  // Layouts
  // ---------------------------------------------------------------------

  /** An ARP frame: hardware type 1, protocol 0x0800, lengths 6 and 4. */
  ghost predicate IsArp(f: Frame, op: Byte, dst: Mac, sha: Mac, sip: Ip, tha: Mac, tip: Ip) {
    && |f| == 42
    && f[0..6] == dst && f[6..12] == sha
    && f[12..22] == [0x08, 0x06, 0, 1, 0x08, 0, 6, 4, 0, op]
    && f[22..28] == sha && f[28..32] == sip && f[32..38] == tha && f[38..42] == tip
  }

  /** A request for `ip` that leaves by `i`. */
  ghost predicate IsRequest(f: Frame, i: Interface, ip: Ip) {
    IsArp(f, 1, [0xFF, 0xFF, 0xFF, 0xFF, 0xFF, 0xFF], i.mac, i.ip, [0, 0, 0, 0, 0, 0], ip)
  }

  /** The answer of `i` to the request `f`. */
  ghost predicate IsReply(r: Frame, f: Frame, i: Interface) {
    |f| >= 42 && IsArp(r, 2, f[6..12], i.mac, i.ip, f[22..28], f[28..32])
  }

  /** An IP header without options, 56 octets long in all, TTL 64, protocol 1, its
      ICMP message, and the quote, apart from both checksums. */
  ghost predicate IsError(g: Frame, from: Ip, to: Ip, kind: Byte, code: Byte, quote: seq<Byte>) {
    && |g| == 70
    && g[14..24] == [0x45, 0, 0, 56, 0, 0, 0, 0, 64, 1]
    && g[26..30] == from && g[30..34] == to
    && g[34] == kind && g[35] == code && g[38..42] == [0, 0, 0, 0]
    && g[42..70] == quote
  }

  /** The checksum a part of a frame has with its own field zero. */
  function SumOf(f: Frame, from: nat, to: nat, k: nat): Word16
    requires from <= to <= |f| && k + 1 < |f|
  {
    IpChecksumOf(Little, f[k := 0][k + 1 := 0][from..to])
  }

  /** The field holds the checksum high octet first, the way `htons` stores it. */
  ghost predicate StoredHighFirst(f: Frame, from: nat, to: nat, k: nat) {
    && from <= to <= |f| && k + 1 < |f|
    && f[k] == SumOf(f, from, to, k) / 256 && f[k + 1] == SumOf(f, from, to, k) % 256
  }

  /** `g` is `f` under an Ethernet header of type IP. */
  ghost predicate IsFilled(g: Frame, f: Frame, dst: Mac, src: Mac) {
    |g| == |f| && |f| >= 14 && g[0..6] == dst && g[6..12] == src && g[12] == 0x08 && g[13] == 0x00 && g[14..] == f[14..]
  }

  /** The same, with the destination `f` had. */
  ghost predicate IsStamped(g: Frame, f: Frame, src: Mac) {
    |f| >= 14 && IsFilled(g, f, f[0..6], src)
  }

  lemma FillOctets(f: Frame, dst: Mac, src: Mac)
    requires |f| >= 14
    ensures IsFilled(Fill(f, dst, src), f, dst, src)
  {
  }

  lemma StampOctets(f: Frame, src: Mac)
    requires |f| >= 14
    ensures IsStamped(Stamp(f, src), f, src)
  {
  }

  lemma ArpFrameOctets(op: Byte, dst: Mac, iface: Interface, tha: Mac, tip: Ip)
    ensures IsArp(ArpFrame(op, dst, iface, tha, tip), op, dst, iface.mac, iface.ip, tha, tip)
  {
  }

  lemma RequestOctets(i: Interface, ip: Ip)
    ensures IsRequest(ArpRequest(i, ip), i, ip)
  {
    hide ArpFrame, IsArp;
    ArpFrameOctets(1, [0xFF, 0xFF, 0xFF, 0xFF, 0xFF, 0xFF], i, [0, 0, 0, 0, 0, 0], ip);
  }

  lemma ReplyOctets(f: Frame, i: Interface)
    requires |f| >= 42
    ensures IsReply(ArpReply(f, i), f, i)
  {
    hide ArpFrame, IsArp;
    ArpFrameOctets(2, f[6..12], i, f[22..28], f[28..32]);
  }

  lemma Resealed(f: Frame, from: nat, to: nat, k: nat)
    requires from <= to <= |f| && k + 1 < |f|
    ensures StoredHighFirst(Reseal(f, from, to, k), from, to, k)
  {
    hide IpChecksumOf;
    assert Reseal(f, from, to, k)[k := 0][k + 1 := 0] == f[k := 0][k + 1 := 0];
  }

  /** `h` is `f` after one hop: one less TTL, the checksum of the new header, and
      nothing else. */
  ghost predicate IsHop(f: Frame, h: Frame) {
    && |h| == |f| && |f| >= 34 && h[22] as int + 1 == f[22]
    && (forall i :: 0 <= i < |f| && i != 22 && i != 24 && i != 25 ==> h[i] == f[i])
    && StoredHighFirst(h, 14, 14 + f[14] % 16 * 4, 24)
  }

  lemma HopOctets(f: Frame)
    requires |f| >= 34 && 14 + f[14] % 16 * 4 <= |f| && f[22] > 0
    ensures IsHop(f, Hop(f))
  {
    Resealed(f[22 := f[22] - 1], 14, 14 + f[14] % 16 * 4, 24);
  }

  lemma ErrorOctets(src: Ip, f: Frame, kind: Byte, code: Byte)
    requires |f| >= 42
    ensures var g := IcmpError(src, f, kind, code);
            && IsError(g, src, f[26..30], kind, code, f[14..42])
            && StoredHighFirst(g, 14, 34, 24) && StoredHighFirst(g, 34, 70, 36)
  {
    hide IpChecksumOf;
    var ip, icmp := ErrorIpHeader(src, IpAt(f, 26)), ErrorIcmp(kind, code, f);
    var g := IcmpError(src, f, kind, code);
    assert g[24 := 0][25 := 0][14..34] == ip;
    assert g[36 := 0][37 := 0][34..70] == icmp;
    assert g[14..24] == ip[..10] && g[26..30] == ip[12..16] && g[30..34] == ip[16..20];
    assert g[38..42] == icmp[4..8] && g[42..70] == icmp[8..] && f[14..42] == icmp[8..];
  }

  /** The notice of a timeout, whose sums are stored as the host holds them. */
  lemma UnreachableOctets(src: Ip, f: Frame)
    requires |f| >= 42
    ensures IsError(HostUnreachable(src, f), src, f[26..30], 3, 1, f[14..42])
  {
    hide CksumOf;
    var icmp := ErrorIcmp(3, 1, f);
    assert HostUnreachable(src, f)[42..70] == icmp[8..];
  }

  // ---------------------------------------------------------------------
  // Routes
  // ---------------------------------------------------------------------

  /** The route the lookup gives for `dst` is `r`, and `out` is its interface. */
  ghost predicate Routed(c: Config, dst: Ip, r: Route, out: Interface) {
    exists i :: 0 <= i < |c.routes| && Lpm(c.routes, dst) == Some(i) && c.routes[i] == r && ByName(c.ifaces, r.iface) == Some(out)
  }

  ghost predicate Unrouted(c: Config, dst: Ip) {
    forall r: Route, out: Interface :: !Routed(c, dst, r, out)
  }

  /** The gateway, unless all its octets are zero; then the destination itself. */
  ghost predicate GoesTo(r: Route, dst: Ip, hop: Ip) {
    if r.gw[0] != 0 || r.gw[1] != 0 || r.gw[2] != 0 || r.gw[3] != 0 then hop == r.gw else hop == dst
  }

  lemma NextHopOctets(r: Route, dst: Ip)
    ensures GoesTo(r, dst, NextHop(r, dst))
  {
  }

  lemma RouteToMeans(c: Config, dst: Ip)
    ensures RouteTo(c, dst).Some? ==> Routed(c, dst, RouteTo(c, dst).value.0, RouteTo(c, dst).value.1)
    ensures RouteTo(c, dst).None? ==> Unrouted(c, dst)
  {
    hide Lpm, ByName;
    if RouteTo(c, dst).Some? {
      var i := Lpm(c.routes, dst).value;
      assert c.routes[i] == RouteTo(c, dst).value.0;
    }
  }

  // ---------------------------------------------------------------------
  // Decisions
  // ---------------------------------------------------------------------

  /** The action is to resolve `frame` towards `to` by the route the lookup gives. */
  ghost predicate Resolves(c: Config, a: Action, to: Ip) {
    a.Resolve? && exists r: Route :: Routed(c, to, r, a.iface) && GoesTo(r, to, a.nextHop)
  }

  /** The action is an ICMP error of that type and code back to the sender of `f`,
      quoting `q`; without a route back it is nothing. */
  ghost predicate Reports(c: Config, a: Action, f: Frame, kind: Byte, code: Byte, q: Frame) {
    && |f| >= 42 && |q| >= 42
    && if Unrouted(c, f[26..30]) then a == Drop
       else
         && Resolves(c, a, f[26..30])
         && IsError(a.frame, a.iface.ip, f[26..30], kind, code, q[14..42])
         && StoredHighFirst(a.frame, 14, 34, 24) && StoredHighFirst(a.frame, 34, 70, 36)
  }

  lemma ResolvesBy(c: Config, to: Ip, a: Action)
    requires RouteTo(c, to).Some? && a.Resolve?
    requires a.nextHop == NextHop(RouteTo(c, to).value.0, to) && a.iface == RouteTo(c, to).value.1
    ensures Resolves(c, a, to) && !Unrouted(c, to)
  {
    hide RouteTo, Routed, NextHop;
    RouteToMeans(c, to);
    NextHopOctets(RouteTo(c, to).value.0, to);
  }

  lemma IcmpT3Reports(c: Config, f: Frame, kind: Byte, code: Byte)
    requires |f| >= 42
    ensures Reports(c, IcmpT3(c, f, kind, code), f, kind, code, f)
  {
    hide RouteTo, IcmpError, Routed, NextHop, IsError, StoredHighFirst;
    var a := IcmpT3(c, f, kind, code);
    RouteToMeans(c, f[26..30]);
    if RouteTo(c, f[26..30]).Some? {
      ResolvesBy(c, f[26..30], a);
      ErrorOctets(a.iface.ip, f, kind, code);
    }
  }

  ghost predicate HasAddress(c: Config, ip: Ip) {
    exists i :: i in c.ifaces && i.ip == ip
  }

  /** `r` answers the echo request `f` by the interface it came in by. */
  ghost predicate IsEcho(c: Config, f: Frame, name: Name, out: Sent) {
    && |f| >= 42 && ByName(c.ifaces, name).Some? && |out.frame| == |f| && out.iface == name
    && var r := out.frame;
       && r[0..6] == f[6..12] && r[6..12] == ByName(c.ifaces, name).value.mac
       && r[12..22] == f[12..22] && r[22] == 64 && r[23] == f[23]
       && r[26..30] == f[30..34] && r[30..34] == f[26..30]
       && r[34] == 0 && r[35] == 0 && r[38..] == f[38..]
       && StoredHighFirst(r, 34, |r|, 36)
       && (f[14] % 16 == 5 ==> StoredHighFirst(r, 14, 34, 24))
  }

  lemma EchoOctets(c: Config, f: Frame, name: Name)
    requires Readable(f) && ByName(c.ifaces, name).Some?
    ensures IsEcho(c, f, name, Sent(EchoReply(f, ByName(c.ifaces, name).value.mac), name))
  {
    hide IpChecksumOf, EchoReply, Answered, SealWrapped, StoredHighFirst;
    var src := ByName(c.ifaces, name).value.mac;
    EchoReplyMeaning(f, src);
    var r := EchoReply(f, src);
    assert r[12..22] == f[12..22];
    EchoSums(f, src);
  }

  lemma EchoSums(f: Frame, src: Mac)
    requires Readable(f)
    ensures var r := EchoReply(f, src);
            StoredHighFirst(r, 34, |r|, 36) && (f[14] % 16 == 5 ==> StoredHighFirst(r, 14, 34, 24))
  {
    hide Reseal, Answered, IpChecksumOf, StoredHighFirst;
    var g := Answered(f, src);
    var ip := Reseal(g, 14, 14 + HeaderLen(f), 24);
    var z := ip[34 := 0][35 := 0];
    var r := Reseal(z, 34, |f|, 36);
    assert r == EchoReply(f, src);
    Resealed(z, 34, |f|, 36);
    if f[14] % 16 == 5 {
      Resealed(g, 14, 34, 24);
      SamePart(ip, r, 14, 34, 24);
    }
  }

  lemma SamePart(f: Frame, g: Frame, from: nat, to: nat, k: nat)
    requires |f| == |g| && k + 1 < to <= |f| && f[..to] == g[..to] && StoredHighFirst(f, from, to, k)
    ensures StoredHighFirst(g, from, to, k)
  {
    hide IpChecksumOf;
    assert forall i :: 0 <= i < to ==> f[i] == f[..to][i] && g[i] == g[..to][i];
    assert f[k := 0][k + 1 := 0][from..to] == g[k := 0][k + 1 := 0][from..to];
  }

  /** What becomes of a received IP frame. For the router itself: an echo request
      is answered, other ICMP ignored, and anything else reported as an unreachable
      port. For another address: reported when its TTL is at most 1 or there is no
      route, dropped when the route's interface is missing, and otherwise hopped
      and resolved towards its destination. */
  ghost predicate IpDecision(c: Config, f: Frame, name: Name, a: Action) {
    && |f| >= 42
    && var dst, ttl, protocol := f[30..34], f[22], f[23];
       if HasAddress(c, dst) then
         if protocol == 1 then (if f[34] == 8 then a.Emit? && IsEcho(c, f, name, a.out) else a == Drop)
         else Reports(c, a, f, 3, 3, f)
       else if ttl <= 1 then Reports(c, a, f, 11, 0, f)
       else if Lpm(c.routes, dst).None? then exists h: Frame :: IsHop(f, h) && Reports(c, a, f, 3, 0, h)
       else if Unrouted(c, dst) then a == Drop
       else Resolves(c, a, dst) && IsHop(f, a.frame)
  }

  lemma HasAddressIff(c: Config, ip: Ip)
    ensures HasAddress(c, ip) <==> ByIp(c.ifaces, ip).Some?
  {
  }

  lemma ForwardDecides(c: Config, f: Frame, name: Name)
    requires Readable(f) && !HasAddress(c, f[30..34])
    ensures IpDecision(c, f, name, Forward(c, f))
  {
    hide RouteTo, IcmpT3, Hop, Routed, NextHop, Reports, Lpm, Unrouted, Resolves, IsEcho, IsHop;
    if f[22] <= 1 {
      IcmpT3Reports(c, f, 11, 0);
    } else {
      var h := Hop(f);
      HopOctets(f);
      assert h[30..34] == f[30..34] && h[26..30] == f[26..30];
      if Lpm(c.routes, f[30..34]).None? {
        IcmpT3Reports(c, h, 3, 0);
        ReportsAbout(c, IcmpT3(c, h, 3, 0), h, f, 3, 0);
      } else {
        RouteToMeans(c, f[30..34]);
        if RouteTo(c, f[30..34]).Some? {
          ResolvesBy(c, f[30..34], Forward(c, f));
        }
      }
    }
  }

  lemma ReportsAbout(c: Config, a: Action, h: Frame, f: Frame, kind: Byte, code: Byte)
    requires Reports(c, a, h, kind, code, h) && |f| >= 42 && h[26..30] == f[26..30]
    ensures Reports(c, a, f, kind, code, h)
  {
    hide Resolves, Unrouted, IsError, StoredHighFirst;
  }

  lemma DecidesIp(c: Config, f: Frame, name: Name)
    requires Receivable(c, f, name) && |f| >= 34 && f[12] == 0x08 && f[13] == 0x00
    ensures IpDecision(c, f, name, Dispatch(c, f, name))
  {
    hide Forward, IcmpT3, EchoReply, Reports, IsEcho, Unrouted, Resolves, Hop, Lpm, IsHop;
    HasAddressIff(c, f[30..34]);
    if !HasAddress(c, f[30..34]) {
      ForwardDecides(c, f, name);
    } else if f[23] == 1 {
      EchoOctets(c, f, name);
    } else {
      IcmpT3Reports(c, f, 3, 3);
    }
  }

  /** What becomes of a received ARP frame: a request is answered when it asks for
      the address of the interface it came in by, by the first interface that has
      that address; a reply is learned; nothing else is done. */
  lemma DecidesArp(c: Config, f: Frame, name: Name)
    requires Receivable(c, f, name) && |f| >= 42 && f[12] == 0x08 && f[13] == 0x06
    ensures var a, op := Dispatch(c, f, name), f[20] as int * 256 + f[21];
            if op == 1 then
              if f[38..42] == ByName(c.ifaces, name).value.ip then
                && a.Emit? && a.out.iface == name
                && ByIp(c.ifaces, f[38..42]).Some? && IsReply(a.out.frame, f, ByIp(c.ifaces, f[38..42]).value)
              else a == Drop
            else if op == 2 then a == Learn(f[28..32], f[22..28])
            else a == Drop
  {
    hide ArpReply, HandleIp, IsReply;
    if ByIp(c.ifaces, f[38..42]).Some? {
      ReplyOctets(f, ByIp(c.ifaces, f[38..42]).value);
    }
  }

  /** Every other frame is dropped. */
  lemma DropsOthers(c: Config, f: Frame, name: Name)
    requires Receivable(c, f, name)
    requires |f| >= 14 && f[12] == 0x08 ==> (f[13] == 0x00 ==> |f| < 34) && (f[13] == 0x06 ==> |f| < 42)
    ensures Dispatch(c, f, name) == Drop
  {
    hide Forward, IcmpT3, EchoReply, ArpReply, ByName, ByIp;
  }

  /** The check before a frame is handed to the server: long enough, by an interface
      that exists, and with its hardware address as the source. */
  lemma AcceptedMeans(c: Config, s: Sent)
    ensures Accepted(c, s) <==>
            |s.frame| >= 14 && ByName(c.ifaces, s.iface).Some? && s.frame[6..12] == ByName(c.ifaces, s.iface).value.mac
  {
  }
}
