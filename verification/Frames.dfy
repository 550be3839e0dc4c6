/**
 Ethernet frames as octets, the rewriting the router does to them, and the
 decision `sr_handlepacket` takes for each: everything up to the point where
 the ARP cache is consulted is a function of the frame and the configuration.
 The host is little-endian, as the Linux build selects.
 */
module Frames {
  import opened Bytes
  import opened Checksum
  import opened Routing

  type Frame = seq<Byte>

  /** One call of `sr_send_packet`. */
  datatype Sent = Sent(frame: Frame, iface: Name)

  const ETH_LEN: nat := 14
  const ARP_FRAME: nat := 42
  const IP_MIN: nat := 34

  // ---------------------------------------------------------------------
  // Reading fields
  // ---------------------------------------------------------------------

  function U16At(f: Frame, k: nat): Word16
    requires k + 1 < |f|
  {
    Load(Big, f[k], f[k + 1])
  }

  function MacAt(f: Frame, k: nat): Mac
    requires k + 6 <= |f|
  {
    f[k..k + 6]
  }

  function IpAt(f: Frame, k: nat): Ip
    requires k + 4 <= |f|
  {
    f[k..k + 4]
  }

  function HeaderLen(f: Frame): nat
    requires |f| > 14
  {
    f[14] % 16 * 4
  }

  function Ttl(f: Frame): Byte
    requires |f| >= IP_MIN
  {
    f[22]
  }

  /** What the ICMP and checksum code reads of an IP frame without checking. */
  predicate Readable(f: Frame) {
    |f| >= 42 && 14 + HeaderLen(f) <= |f|
  }

  // ---------------------------------------------------------------------
  // Rewriting
  // ---------------------------------------------------------------------

  /** The Ethernet header of an IP frame: both addresses and the type. */
  function Fill(f: Frame, dst: Mac, src: Mac): (r: Frame)
    requires |f| >= ETH_LEN
    ensures |r| == |f| && r[..6] == dst && r[6..12] == src && r[14..] == f[14..]
  {
    dst + src + [0x08, 0x00] + f[14..]
  }

  /** The same without the destination, which a queued packet does not know. */
  function Stamp(f: Frame, src: Mac): (r: Frame)
    requires |f| >= ETH_LEN
    ensures |r| == |f| && r[..6] == f[..6] && r[6..12] == src && r[14..] == f[14..]
  {
    f[..6] + src + [0x08, 0x00] + f[14..]
  }

  /** Zero the 16-bit field at `k`, sum `f[from..to]`, and store the `htons`
      of `ip_checksum`, the way the forwarding and ICMP paths do. */
  function Reseal(f: Frame, from: nat, to: nat, k: nat): (r: Frame)
    requires from <= to <= |f| && k + 1 < |f|
    ensures |r| == |f|
    ensures forall i :: 0 <= i < |f| && i != k && i != k + 1 ==> r[i] == f[i]
  {
    var z := f[k := 0][k + 1 := 0];
    Store(Little, z, k, HtoNs(Little, IpChecksumOf(Little, z[from..to])))
  }

  /** A whole header sealed with `htons(ip_checksum(...))`. */
  function SealWrapped(h: seq<Byte>, k: nat): (r: seq<Byte>)
    requires k + 1 < |h|
    ensures |r| == |h|
  {
    Store(Little, h, k, HtoNs(Little, IpChecksumOf(Little, h)))
  }

  /** A whole header sealed with `cksum(...)`, stored as returned. */
  function SealNative(h: seq<Byte>, k: nat): (r: seq<Byte>)
    requires k + 1 < |h|
    ensures |r| == |h|
  {
    Store(Little, h, k, CksumOf(Little, h))
  }

  /** The hop of `forward_ip_packet`: one less TTL and a new checksum. */
  function Hop(f: Frame): (r: Frame)
    requires |f| >= IP_MIN && 14 + HeaderLen(f) <= |f| && Ttl(f) > 0
    ensures |r| == |f| && r[22] == f[22] - 1
    ensures forall i :: 0 <= i < |f| && i != 22 && i != 24 && i != 25 ==> r[i] == f[i]
  {
    Reseal(f[22 := f[22] - 1], 14, 14 + HeaderLen(f), 24)
  }

  /** The IP header of an ICMP error before its checksum. */
  function ErrorIpHeader(src: Ip, dst: Ip): (r: seq<Byte>)
    ensures |r| == 20
  {
    [0x45, 0, 0, 56, 0, 0, 0, 0, 64, 1, 0, 0] + src + dst
  }

  /** The ICMP part before its checksum: type, code and the quoted octets. */
  function ErrorIcmp(kind: Byte, code: Byte, f: Frame): (r: seq<Byte>)
    requires |f| >= 42
    ensures |r| == 36
  {
    [kind, code, 0, 0, 0, 0, 0, 0] + f[14..42]
  }

  function Blank(): (r: Frame)
    ensures |r| == ETH_LEN
  {
    [0, 0, 0, 0, 0, 0, 0, 0, 0, 0, 0, 0, 0, 0]
  }

  /** The frame `send_icmp_t3` builds, Ethernet header still zero. */
  function IcmpError(src: Ip, f: Frame, kind: Byte, code: Byte): (r: Frame)
    requires |f| >= 42
    ensures |r| == 70
  {
    Blank() + SealWrapped(ErrorIpHeader(src, IpAt(f, 26)), 10) + SealWrapped(ErrorIcmp(kind, code, f), 2)
  }

  /** The frame `send_icmp_host_unreachable` builds for one waiting packet. */
  function HostUnreachable(src: Ip, f: Frame): (r: Frame)
    requires |f| >= 42
    ensures |r| == 70
  {
    Blank() + SealNative(ErrorIpHeader(src, IpAt(f, 26)), 10) + SealNative(ErrorIcmp(3, 1, f), 2)
  }

  /** The frame of an echo reply before its checksums. */
  function Answered(f: Frame, src: Mac): (r: Frame)
    requires |f| >= 42
    ensures |r| == |f|
    ensures r[..12] == f[6..12] + src && r[22] == 64 && r[26..30] == f[30..34] && r[30..34] == f[26..30]
    ensures forall i :: (12 <= i < 26 && i != 22) || 34 <= i < |f| ==> r[i] == f[i]
  {
    f[6..12] + src + f[12..22] + [64] + f[23..26] + f[30..34] + f[26..30] + f[34..]
  }

  /** The frame `send_icmp_echo_reply` builds. */
  function EchoReply(f: Frame, src: Mac): (r: Frame)
    requires Readable(f)
    ensures |r| == |f| && r[..6] == f[6..12] && r[6..12] == src
  {
    var ip := Reseal(Answered(f, src), 14, 14 + HeaderLen(f), 24);
    Reseal(ip[34 := 0][35 := 0], 34, |f|, 36)
  }

  function ArpFrame(op: Byte, dst: Mac, iface: Interface, tha: Mac, tip: Ip): (r: Frame)
    ensures |r| == ARP_FRAME && r[6..12] == iface.mac
  {
    dst + iface.mac + [0x08, 0x06] + [0, 1, 0x08, 0, 6, 4, 0, op] + iface.mac + iface.ip + tha + tip
  }

  /** `send_arp_request` and `send_arp_request_for_req` build the same frame. */
  function ArpRequest(iface: Interface, tip: Ip): (r: Frame)
    ensures |r| == ARP_FRAME && r[6..12] == iface.mac
  {
    ArpFrame(1, [0xFF, 0xFF, 0xFF, 0xFF, 0xFF, 0xFF], iface, [0, 0, 0, 0, 0, 0], tip)
  }

  function ArpReply(f: Frame, iface: Interface): (r: Frame)
    requires |f| >= ARP_FRAME
    ensures |r| == ARP_FRAME && r[6..12] == iface.mac
  {
    ArpFrame(2, MacAt(f, 6), iface, MacAt(f, 22), IpAt(f, 28))
  }

  // ---------------------------------------------------------------------
  // What to do with a frame
  // ---------------------------------------------------------------------

  /** The outcome of `sr_handlepacket` up to the ARP cache: nothing, one frame
      at once, a frame that needs its next hop resolved, or a learned address. */
  datatype Action =
    | Drop
    | Emit(out: Sent)
    | Resolve(nextHop: Ip, frame: Frame, iface: Interface)
    | Learn(ip: Ip, mac: Mac)

  /** The next hop on a route: its gateway, or the destination itself. */
  function NextHop(r: Route, dst: Ip): Ip {
    if r.gw == [0, 0, 0, 0] then dst else r.gw
  }

  /** The route lookup and interface lookup both paths share. */
  function RouteTo(c: Config, dst: Ip): (r: Option<(Route, Interface)>)
    ensures r.Some? ==> ByName(c.ifaces, r.value.0.iface) == Some(r.value.1) && r.value.0 in c.routes
  {
    match Lpm(c.routes, dst)
    case None => None
    case Some(i) =>
      match ByName(c.ifaces, c.routes[i].iface)
      case None => None
      case Some(iface) => Some((c.routes[i], iface))
  }

  /** `send_icmp_t3`. */
  function IcmpT3(c: Config, f: Frame, kind: Byte, code: Byte): Action
    requires |f| >= 42
  {
    var back := IpAt(f, 26);
    match RouteTo(c, back)
    case None => Drop
    case Some((r, iface)) => Resolve(NextHop(r, back), IcmpError(iface.ip, f, kind, code), iface)
  }

  /** `forward_ip_packet`. A frame without a route is quoted as already hopped. */
  function Forward(c: Config, f: Frame): Action
    requires Readable(f)
  {
    if Ttl(f) <= 1 then IcmpT3(c, f, 11, 0)
    else
      var hopped := Hop(f);
      var dst := IpAt(hopped, 30);
      if Lpm(c.routes, dst).None? then IcmpT3(c, hopped, 3, 0)
      else
        match RouteTo(c, dst)
        case None => Drop
        case Some((r, iface)) => Resolve(NextHop(r, dst), hopped, iface)
  }

  /** `handle_ip_packet`. */
  function HandleIp(c: Config, f: Frame, name: Name): Action
    requires |f| >= IP_MIN ==> Readable(f)
    requires ByName(c.ifaces, name).Some?
  {
    if |f| < IP_MIN then Drop
    else if ByIp(c.ifaces, IpAt(f, 30)).None? then Forward(c, f)
    else if f[23] != 1 then IcmpT3(c, f, 3, 3)
    else if f[34] == 8 then Emit(Sent(EchoReply(f, ByName(c.ifaces, name).value.mac), name))
    else Drop
  }

  /** `handle_arp_packet`, up to the cache. */
  function HandleArp(c: Config, f: Frame, name: Name): Action {
    if |f| < ARP_FRAME then Drop
    else if U16At(f, 20) == 1 then
      match ByIp(c.ifaces, IpAt(f, 38))
      case None => Drop
      case Some(iface) => Emit(Sent(ArpReply(f, iface), name))
    else if U16At(f, 20) == 2 then Learn(IpAt(f, 28), MacAt(f, 22))
    else Drop
  }

  /** The demands the code makes of a received frame without checking them: the
      interface exists, and an IP frame holds the octets it is read for. */
  predicate Receivable(c: Config, f: Frame, name: Name) {
    && ByName(c.ifaces, name).Some?
    && (|f| >= IP_MIN && U16At(f, 12) == 0x0800 ==> Readable(f))
  }

  /** `sr_handlepacket`. */
  function Handle(c: Config, f: Frame, name: Name): Action
    requires Receivable(c, f, name)
  {
    if |f| < ETH_LEN then Drop
    else if U16At(f, 12) == 0x0806 then HandleArp(c, f, name)
    else if U16At(f, 12) == 0x0800 then HandleIp(c, f, name)
    else Drop
  }

  /** `sr_arp_req_not_for_us`. */
  predicate NotForUs(c: Config, f: Frame, name: Name)
    requires ByName(c.ifaces, name).Some?
  {
    && |f| >= ARP_FRAME
    && U16At(f, 12) == 0x0806
    && U16At(f, 20) == 1
    && IpAt(f, 38) != ByName(c.ifaces, name).value.ip
  }

  /** What a packet message from the server leads to: filter, then handle. */
  function Dispatch(c: Config, f: Frame, name: Name): Action
    requires Receivable(c, f, name)
  {
    if NotForUs(c, f, name) then Drop else Handle(c, f, name)
  }

  // ---------------------------------------------------------------------
  // The source-address check of `sr_send_packet`
  // ---------------------------------------------------------------------

  /** `sr_ether_addrs_match_interface`, and the length check before it. */
  predicate Accepted(c: Config, s: Sent) {
    && |s.frame| >= ETH_LEN
    && ByName(c.ifaces, s.iface).Some?
    && s.frame[6..12] == ByName(c.ifaces, s.iface).value.mac
  }

  /** A frame that awaits resolution will leave through an interface the check
      will find again, and is long enough to be quoted. */
  ghost predicate Resolvable(c: Config, a: Action) {
    a.Resolve? ==> ByName(c.ifaces, a.iface.name) == Some(a.iface) && |a.frame| >= 42
  }

  lemma FilledIsAccepted(c: Config, f: Frame, dst: Mac, iface: Interface)
    requires |f| >= ETH_LEN && ByName(c.ifaces, iface.name) == Some(iface)
    ensures Accepted(c, Sent(Fill(f, dst, iface.mac), iface.name))
  {
  }

  lemma RouteToAgain(c: Config, dst: Ip)
    ensures match RouteTo(c, dst)
      case None => true
      case Some((_, iface)) => ByName(c.ifaces, iface.name) == Some(iface)
  {
    match RouteTo(c, dst)
    case None =>
    case Some((r, iface)) => ByNameAgain(c.ifaces, r.iface);
  }

  lemma {:induction false} IpFoundOnce(ifaces: seq<Interface>, i: Interface)
    requires DistinctIps(ifaces) && i in ifaces
    ensures ByIp(ifaces, i.ip) == Some(i)
  {
    if ifaces[0] != i {
      assert i in ifaces[1..];
      var k :| 0 <= k < |ifaces[1..]| && ifaces[1..][k] == i;
      assert ifaces[0].ip != ifaces[k + 1].ip;
      IpFoundOnce(ifaces[1..], i);
    }
  }

  lemma DispatchIsResolvable(c: Config, f: Frame, name: Name)
    requires Receivable(c, f, name)
    ensures Resolvable(c, Dispatch(c, f, name))
  {
    hide EchoReply, ArpReply, IcmpError, Hop, RouteTo, Lpm;
    if |f| >= IP_MIN {
      RouteToAgain(c, IpAt(f, 26));
      RouteToAgain(c, IpAt(f, 30));
      if Readable(f) && Ttl(f) > 1 {
        assert IpAt(Hop(f), 26) == IpAt(f, 26);
        assert IpAt(Hop(f), 30) == IpAt(f, 30);
      }
    }
  }

  /** Whatever is sent at once passes the source-address check, given distinct
      interface addresses; for ARP replies this rests on the earlier filter. */
  lemma DispatchIsAccepted(c: Config, f: Frame, name: Name)
    requires Receivable(c, f, name) && DistinctIps(c.ifaces)
    ensures var a := Dispatch(c, f, name); a.Emit? ==> Accepted(c, a.out)
  {
    hide EchoReply, ArpReply, IcmpError, Hop, RouteTo, Lpm;
    if |f| >= 42 && U16At(f, 12) == 0x0806 {
      IpFoundOnce(c.ifaces, ByName(c.ifaces, name).value);
    }
  }

  /** Without the filter an ARP reply can carry another interface's address. */
  lemma UnfilteredReplyIsRejected()
    ensures exists c: Config, f: Frame, name: Name ::
              && Receivable(c, f, name) && DistinctIps(c.ifaces)
              && Handle(c, f, name).Emit? && !Accepted(c, Handle(c, f, name).out)
  {
    hide Readable, HandleIp;
    var a := Interface([1], [1, 1, 1, 1, 1, 1], [10, 0, 0, 1]);
    var b := Interface([2], [2, 2, 2, 2, 2, 2], [10, 0, 0, 2]);
    var c := Config([a, b], []);
    var f: Frame := ArpRequest(Interface([3], [3, 3, 3, 3, 3, 3], [10, 0, 0, 3]), b.ip);
    assert IpAt(f, 38) == b.ip;
    assert ByIp(c.ifaces[1..], b.ip) == Some(b);
    assert ByName(c.ifaces, [1]) == Some(a);
    assert Handle(c, f, [1]) == Emit(Sent(ArpReply(f, b), [1]));
  }

  // ---------------------------------------------------------------------
  // Checksums of the frames sent
  // ---------------------------------------------------------------------

  /** The checksum a forwarded header verifies with, or fails to. */
  function HopChecksum(f: Frame): Word16
    requires |f| >= IP_MIN && 14 + HeaderLen(f) <= |f| && Ttl(f) > 0
  {
    IpChecksumOf(Little, f[22 := f[22] - 1][24 := 0][25 := 0][14..14 + HeaderLen(f)])
  }

  /** A forwarded IP header verifies at the next hop exactly when the two octets
      of its checksum are equal. */
  lemma ForwardedVerifiesIff(f: Frame)
    requires |f| >= IP_MIN && 14 + HeaderLen(f) <= |f| && Ttl(f) > 0 && HeaderLen(f) >= 20
    ensures Verifies(Hop(f)[14..14 + HeaderLen(f)]) <==> EqualOctets(HopChecksum(f))
  {
    hide Verifies, IpChecksumOf;
    var z, e := f[22 := f[22] - 1][24 := 0][25 := 0], 14 + HeaderLen(f);
    WrappedStoreVerifiesIff(z[14..e], 10);
    var v := HtoNs(Little, HopChecksum(f));
    assert Hop(f) == Store(Little, z, 24, v);
    assert Store(Little, z, 24, v)[14..e] == Store(Little, z[14..e], 10, v);
  }

  /** Both checksums of a host-unreachable message verify. */
  lemma HostUnreachableVerifies(src: Ip, f: Frame)
    requires |f| >= 42
    ensures var r := HostUnreachable(src, f);
            && Verifies(r[14..34]) && Verifies(r[34..])
            && r[34..36] == [3, 1] && IpAt(r, 30) == IpAt(f, 26) && r[42..] == f[14..42]
  {
    hide Verifies, CksumOf;
    var ip, icmp := ErrorIpHeader(src, IpAt(f, 26)), ErrorIcmp(3, 1, f);
    NativeStoreVerifies(ip, 10);
    NativeStoreVerifies(icmp, 2);
    var r := HostUnreachable(src, f);
    assert r[14..34] == SealNative(ip, 10);
    assert r[34..] == SealNative(icmp, 2);
    assert IpAt(r, 30) == SealNative(ip, 10)[16..20] == ip[16..20];
    assert r[34..36] == SealNative(icmp, 2)[..2] == icmp[..2];
    assert r[42..] == SealNative(icmp, 2)[8..] == icmp[8..];
  }

  /** A header sealed with `htons(ip_checksum(...))` verifies exactly when the two
      octets of the checksum are equal. */
  lemma SealWrappedVerifiesIff(h: seq<Byte>, k: nat)
    requires |h| <= MAX_EXACT && k % 2 == 0 && k + 1 < |h| && h[k] == h[k + 1] == 0
    ensures Verifies(SealWrapped(h, k)) <==> EqualOctets(IpChecksumOf(Little, h))
    ensures forall i :: 0 <= i < |h| && i != k && i != k + 1 ==> SealWrapped(h, k)[i] == h[i]
  {
    hide Verifies, IpChecksumOf;
    WrappedStoreVerifiesIff(h, k);
  }

  /** Whom an ICMP error is from and to, what it says and quotes, and when its two
      checksums verify. */
  lemma IcmpErrorMeaning(src: Ip, f: Frame, kind: Byte, code: Byte)
    requires |f| >= 42
    ensures var r := IcmpError(src, f, kind, code);
            && IpAt(r, 26) == src && IpAt(r, 30) == IpAt(f, 26) && Ttl(r) == 64 && r[23] == 1
            && r[34..36] == [kind, code] && r[42..] == f[14..42]
            && (Verifies(r[14..34]) <==> EqualOctets(IpChecksumOf(Little, ErrorIpHeader(src, IpAt(f, 26)))))
            && (Verifies(r[34..]) <==> EqualOctets(IpChecksumOf(Little, ErrorIcmp(kind, code, f))))
  {
    hide Verifies, SealWrapped, IpChecksumOf;
    var ip, icmp := ErrorIpHeader(src, IpAt(f, 26)), ErrorIcmp(kind, code, f);
    SealWrappedVerifiesIff(ip, 10);
    SealWrappedVerifiesIff(icmp, 2);
    var r := IcmpError(src, f, kind, code);
    assert r[14..34] == SealWrapped(ip, 10) && r[34..] == SealWrapped(icmp, 2);
    assert IpAt(r, 26) == r[14..34][12..16] == ip[12..16];
    assert IpAt(r, 30) == r[14..34][16..20] == ip[16..20];
    assert r[34..36] == r[34..][..2] == icmp[..2];
    assert r[42..] == r[34..][8..] == icmp[8..];
  }

  /** The ICMP part of an echo reply before its checksum. */
  function EchoIcmp(f: Frame): (r: seq<Byte>)
    requires |f| >= 42
    ensures |r| == |f| - 34 && r[..4] == [0, 0, 0, 0]
  {
    [0, 0, 0, 0] + f[38..]
  }

  /** The header that the checksum of an echo reply is computed over. */
  function EchoHeader(f: Frame, src: Mac): (r: seq<Byte>)
    requires Readable(f)
    ensures |r| == HeaderLen(f)
  {
    Answered(f, src)[24 := 0][25 := 0][14..14 + HeaderLen(f)]
  }

  /** The header as it leaves, its checksum field still zero. The ICMP octets are
      written after the header is summed, and with options they lie inside it. */
  function EchoHeaderSent(f: Frame, src: Mac): (r: seq<Byte>)
    requires Readable(f)
    ensures |r| == HeaderLen(f)
  {
    var icmp := SealWrapped(EchoIcmp(f), 2);
    (Answered(f, src)[24 := 0][25 := 0][..34] + icmp)[14..14 + HeaderLen(f)]
  }

  /** An echo reply, taken apart. */
  lemma EchoReplyParts(f: Frame, src: Mac)
    requires Readable(f)
    ensures var v := HtoNs(Little, IpChecksumOf(Little, EchoHeader(f, src)));
            EchoReply(f, src) ==
            Store(Little, Answered(f, src), 24, v)[..34] + SealWrapped(EchoIcmp(f), 2)
  {
    hide IpChecksumOf, Answered;
    var g, n := Answered(f, src), |f|;
    var v := HtoNs(Little, IpChecksumOf(Little, EchoHeader(f, src)));
    var ip := Reseal(g, 14, 14 + HeaderLen(f), 24);
    assert ip == Store(Little, g, 24, v);
    var z := ip[34 := 0][35 := 0][36 := 0][37 := 0];
    assert z[34..n] == EchoIcmp(f);
    var r := EchoReply(f, src);
    var s := HtoNs(Little, IpChecksumOf(Little, EchoIcmp(f)));
    assert r == Store(Little, z, 36, s);
    assert r[34..] == SealWrapped(EchoIcmp(f), 2);
    assert r == r[..34] + r[34..];
  }

  /** An echo reply goes back where the request came from, says type 0 and code
      0, and carries the rest of the request unchanged. Its ICMP checksum verifies
      exactly when its two octets are equal. */
  lemma EchoReplyMeaning(f: Frame, src: Mac)
    requires Readable(f)
    ensures var r := EchoReply(f, src);
            && MacAt(r, 0) == MacAt(f, 6) && MacAt(r, 6) == src
            && IpAt(r, 26) == IpAt(f, 30) && IpAt(r, 30) == IpAt(f, 26) && Ttl(r) == 64
            && r[34..36] == [0, 0] && r[38..] == f[38..]
            && (forall i :: 12 <= i < 24 && i != 22 ==> r[i] == f[i])
            && (|f| - 34 <= MAX_EXACT ==> (Verifies(r[34..]) <==> EqualOctets(IpChecksumOf(Little, EchoIcmp(f)))))
  {
    hide Verifies, IpChecksumOf, SealWrapped, Answered, EchoReply, EchoHeader;
    EchoReplyParts(f, src);
    var g, r, icmp := Answered(f, src), EchoReply(f, src), EchoIcmp(f);
    assert r[34..] == SealWrapped(icmp, 2);
    SealWrappedOctets(icmp);
    if |f| - 34 <= MAX_EXACT {
      SealWrappedVerifiesIff(icmp, 2);
    }
    assert r[34..36] == r[34..][..2] && r[38..] == r[34..][4..];
    assert IpAt(r, 26) == g[26..30] && IpAt(r, 30) == g[30..34];
    assert r[..12] == g[..12];
    assert MacAt(r, 0) == g[..12][..6] && MacAt(r, 6) == g[..12][6..];
  }

  lemma SealWrappedOctets(h: seq<Byte>)
    requires |h| >= 8
    ensures SealWrapped(h, 2)[..2] == h[..2] && SealWrapped(h, 2)[4..] == h[4..]
  {
    hide IpChecksumOf;
  }

  /** The header of an echo reply verifies exactly when the swapped checksum of the
      header as summed is congruent to the checksum of the header as sent. Without
      options the two headers are the same, and the condition is that the two
      octets of the checksum are equal. */
  lemma EchoHeaderVerifiesIff(f: Frame, src: Mac)
    requires Readable(f) && HeaderLen(f) >= 20
    ensures var c := IpChecksumOf(Little, EchoHeader(f, src));
            && (Verifies(EchoReply(f, src)[14..14 + HeaderLen(f)]) <==>
                  Cong(Swap16(c), IpChecksumOf(Little, EchoHeaderSent(f, src))))
            && (HeaderLen(f) == 20 ==>
                  EchoHeaderSent(f, src) == EchoHeader(f, src)
                  && (Verifies(EchoReply(f, src)[14..34]) <==> EqualOctets(c)))
  {
    hide Verifies, IpChecksumOf, SealWrapped, Answered, EchoReply, EchoIcmp, Cong, EqualOctets;
    EchoReplyParts(f, src);
    var c, h, e := IpChecksumOf(Little, EchoHeader(f, src)), EchoHeaderSent(f, src), 14 + HeaderLen(f);
    assert EchoReply(f, src)[14..e] == Store(Little, h, 10, Swap16(c));
    assert h[0] == f[14] && h[10] == 0 && h[11] == 0;
    StoredVerifiesNonzero(h, 10, Swap16(c));
    if HeaderLen(f) == 20 {
      assert h == EchoHeader(f, src);
      SwapFixed(c);
    }
  }

  // ---------------------------------------------------------------------
  // One ARP exchange between two routers
  // ---------------------------------------------------------------------

  /** A request for the address of another router's interface, delivered there,
      is answered to the asker, and the answer delivered back teaches the asker
      exactly that interface's address. */
  lemma ArpExchange(asker: Config, here: Name, other: Config, there: Name)
    requires ByName(asker.ifaces, here).Some? && ByName(other.ifaces, there).Some?
    requires DistinctIps(other.ifaces)
    ensures var i, j := ByName(asker.ifaces, here).value, ByName(other.ifaces, there).value;
            var request := ArpRequest(i, j.ip);
            var answer := ArpReply(request, j);
            && Receivable(other, request, there) && Dispatch(other, request, there) == Emit(Sent(answer, there))
            && MacAt(answer, 0) == i.mac && IpAt(answer, 38) == i.ip
            && Receivable(asker, answer, here) && Dispatch(asker, answer, here) == Learn(j.ip, j.mac)
  {
    hide HandleIp;
    var i, j := ByName(asker.ifaces, here).value, ByName(other.ifaces, there).value;
    var request := ArpRequest(i, j.ip);
    var answer := ArpReply(request, j);
    IpFoundOnce(other.ifaces, j);
    ArpFields(1, [0xFF, 0xFF, 0xFF, 0xFF, 0xFF, 0xFF], i, [0, 0, 0, 0, 0, 0], j.ip);
    ArpFields(2, i.mac, j, i.mac, i.ip);
    assert answer == ArpFrame(2, i.mac, j, i.mac, i.ip);
  }

  lemma ArpFields(op: Byte, dst: Mac, iface: Interface, tha: Mac, tip: Ip)
    ensures var r := ArpFrame(op, dst, iface, tha, tip);
            && MacAt(r, 0) == dst && MacAt(r, 6) == iface.mac && U16At(r, 12) == 0x0806 && U16At(r, 20) == op
            && MacAt(r, 22) == iface.mac && IpAt(r, 28) == iface.ip && MacAt(r, 32) == tha && IpAt(r, 38) == tip
  {
  }
}
