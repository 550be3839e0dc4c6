/**
 Routers in a row: a frame one of them forwards, at once or after its next hop
 was resolved, is what the next one receives. Across any number of hops only
 the Ethernet header, the TTL and the header checksum change, and the TTL
 bounds the number of hops.
 */
module Network {
  import opened Bytes
  import opened Checksum
  import opened Routing
  import opened Frames
  import opened ArpMachine
  import opened ArpSafety
  import opened ArpHistory
  import opened ArpTraffic
  import opened ArpTable
  import Octets

  /** A router configured as `c` forwards `f` rather than answering it. */
  predicate Forwards(c: Config, f: Frame, name: Name) {
    && Receivable(c, f, name)
    && |f| >= IP_MIN && U16At(f, 12) == 0x0800
    && ByIp(c.ifaces, IpAt(f, 30)).None?
    && Ttl(f) > 1
    && RouteTo(c, IpAt(f, 30)).Some?
  }

  /** `g` is what a router that forwards `f` sends on: the hopped frame under
      whatever Ethernet header the resolution gave it. */
  ghost predicate Hopped(c: Config, f: Frame, name: Name, g: Frame) {
    Forwards(c, f, name) && |g| == |f| && g[14..] == Hop(f)[14..]
  }

  /** The decision for a forwarded frame: resolve the next hop of its route. */
  lemma ForwardsIsResolve(c: Config, f: Frame, name: Name)
    requires Forwards(c, f, name)
    ensures var (r, iface) := RouteTo(c, IpAt(f, 30)).value;
            Dispatch(c, f, name) == Resolve(NextHop(r, IpAt(f, 30)), Hop(f), iface)
  {
    hide Reseal, Lpm;
    assert IpAt(Hop(f), 30) == IpAt(f, 30);
  }

  lemma SingleRoute(r: Route)
    requires NtoHl(r.mask) > 0
    ensures Lpm([r], r.dest) == Some(0)
  {
    hide And;
    assert [r][..0] == [];
  }

  // ---------------------------------------------------------------------
  // What one router does to a frame, over any run
  // ---------------------------------------------------------------------

  lemma {:induction false} WaitingWasEnqueued(log: seq<Event>, ip: Ip, p: Packet)
    requires p in Waiting(log, ip)
    ensures exists k :: 0 <= k < |log| && log[k] == Enqueued(ip, p)
  {
    var n := |log| - 1;
    if log[n] != Enqueued(ip, p) {
      WaitingWasEnqueued(log[..n], ip, p);
      var k :| 0 <= k < n && log[..n][k] == Enqueued(ip, p);
      assert log[k] == log[..n][k];
    }
  }

  lemma {:induction false} LifoPrefix(log: seq<Event>, k: nat)
    requires LastInFirstOut(log) && k <= |log|
    ensures LastInFirstOut(log[..k])
  {
    if k < |log| {
      LifoPrefix(log[..|log| - 1], k);
      assert log[..|log| - 1][..k] == log[..k];
    } else {
      assert log[..k] == log;
    }
  }

  /** Sent after queueing: in every run, each flushed frame is, past its Ethernet
      header, what an earlier arrived frame asked to have resolved. */
  lemma FlushedStems(c: Config, w: World, steps: seq<Step>, k: nat)
    requires Initial(w) && k < |Exec(c, w, steps).log| && Exec(c, w, steps).log[k].Flushed?
    ensures var log := Exec(c, w, steps).log;
            exists i :: 0 <= i < k && log[i].Arrived? && PassesOn(c, log[i].frame, log[i].iface, log[k].out.frame)
  {
    hide Exec, Stems, Fill, Stamp, LastInFirstOut, Faithful, Waiting;
    var log := Exec(c, w, steps).log;
    AlwaysTraced(c, w, steps);
    AlwaysLifo(c, w, steps);
    LifoPrefix(log, k + 1);
    LifoHead(log[..k + 1]);
    assert log[..k + 1][..k] == log[..k];
    var e := log[k];
    WaitingWasEnqueued(log[..k], e.ip, e.packet);
    var q :| 0 <= q < k && log[..k][q] == Enqueued(e.ip, e.packet);
    assert log[q] == Enqueued(e.ip, e.packet);
    assert Caused(c, log[..q], log[q]);
    assert Caused(c, log[..k], log[k]);
    OriginIndex(c, log, q, e.ip, e.packet);
    var i :| 0 <= i < q && log[i].Arrived? && Stems(c, log[i].frame, log[i].iface, e.ip, e.packet);
    StemPassesOn(c, log, k, log[i].frame, log[i].iface);
  }

  /** The frame `g` carries on what `f` asked to have resolved, typed as IP. */
  ghost predicate PassesOn(c: Config, f: Frame, name: Name, g: Frame) {
    && Receivable(c, f, name) && Dispatch(c, f, name).Resolve?
    && var a := Dispatch(c, f, name);
       |g| == |a.frame| && |g| >= ETH_LEN && g[12] == 0x08 && g[13] == 0x00 && g[14..] == a.frame[14..]
  }

  lemma OriginIndex(c: Config, log: seq<Event>, q: nat, ip: Ip, p: Packet)
    requires q <= |log| && HasOrigin(c, log[..q], ip, p)
    ensures exists i :: 0 <= i < q && log[i].Arrived? && Stems(c, log[i].frame, log[i].iface, ip, p)
  {
    hide Stems;
    var i :| 0 <= i < q && log[..q][i].Arrived? && Stems(c, log[..q][i].frame, log[..q][i].iface, ip, p);
    assert log[i] == log[..q][i];
  }

  lemma StemPassesOn(c: Config, log: seq<Event>, k: nat, f: Frame, name: Name)
    requires k < |log| && log[k].Flushed? && Caused(c, log[..k], log[k])
    requires Stems(c, f, name, log[k].ip, log[k].packet)
    ensures PassesOn(c, f, name, log[k].out.frame)
  {
    hide Dispatch, Receivable, LastLearned;
  }

  lemma AlwaysLifo(c: Config, w: World, steps: seq<Step>)
    requires Initial(w)
    ensures LastInFirstOut(Exec(c, w, steps).log)
  {
    AlwaysFaithful(c, w, steps);
  }

  lemma LifoHead(log: seq<Event>)
    requires LastInFirstOut(log) && log != [] && log[|log| - 1].Flushed?
    ensures log[|log| - 1].packet in Waiting(log[..|log| - 1], log[|log| - 1].ip)
  {
  }

  /** The frame `g` is what a router sends because `f` arrived: its answer, or what
      it asked to have resolved. */
  ghost predicate Yields(c: Config, f: Frame, name: Name, g: Frame) {
    || PassesOn(c, f, name, g)
    || (Receivable(c, f, name) && Dispatch(c, f, name).Emit? && g == Dispatch(c, f, name).out.frame)
  }

  lemma DirectStems(c: Config, w: World, steps: seq<Step>, k: nat)
    requires Initial(w) && k < |Exec(c, w, steps).log| && Exec(c, w, steps).log[k].Direct?
    ensures var log := Exec(c, w, steps).log;
            k > 0 && log[k - 1].Arrived? && Yields(c, log[k - 1].frame, log[k - 1].iface, log[k].out.frame)
  {
    hide Exec, Dispatch, Receivable, Fill;
    var log := Exec(c, w, steps).log;
    AlwaysTraced(c, w, steps);
    assert Caused(c, log[..k], log[k]);
    assert log[..k][k - 1] == log[k - 1];
  }

  /** In every run, whatever is sent at once or flushed is what an earlier arrived
      frame yields. */
  lemma SentStems(c: Config, w: World, steps: seq<Step>, k: nat)
    requires Initial(w) && k < |Exec(c, w, steps).log|
    requires Exec(c, w, steps).log[k].Direct? || Exec(c, w, steps).log[k].Flushed?
    ensures var log := Exec(c, w, steps).log;
            exists i :: 0 <= i < k && log[i].Arrived? && Yields(c, log[i].frame, log[i].iface, log[k].out.frame)
  {
    hide Exec, PassesOn, Dispatch, Receivable;
    var log := Exec(c, w, steps).log;
    if log[k].Direct? {
      DirectStems(c, w, steps, k);
    } else {
      FlushedStems(c, w, steps, k);
      var i :| 0 <= i < k && log[i].Arrived? && PassesOn(c, log[i].frame, log[i].iface, log[k].out.frame);
      assert Yields(c, log[i].frame, log[i].iface, log[k].out.frame);
    }
  }

  /** An ICMP error message, octet by octet. */
  ghost predicate IsError(f: Frame) {
    exists from: Ip, to: Ip, kind: Byte, code: Byte, quote: seq<Byte> :: Octets.IsError(f, from, to, kind, code, quote)
  }

  /** What a frame yields is its hop, if it is forwarded; otherwise it is a message
      of the router's own: an echo or ARP reply, or an ICMP error. */
  lemma HoppedOrOwn(c: Config, f: Frame, name: Name, g: Frame)
    requires Yields(c, f, name, g)
    ensures Forwards(c, f, name) ==> Hopped(c, f, name, g)
    ensures !Forwards(c, f, name) ==>
              Dispatch(c, f, name).Emit? || (Dispatch(c, f, name).Resolve? && IsError(Dispatch(c, f, name).frame))
  {
    hide Hop, Lpm, ByName, ByIp, EchoReply, ArpReply, IcmpError;
    if Forwards(c, f, name) {
      ForwardsIsResolve(c, f, name);
    } else if Dispatch(c, f, name).Resolve? {
      OwnIsError(c, f, name);
    }
  }

  lemma OwnIsError(c: Config, f: Frame, name: Name)
    requires Receivable(c, f, name) && Dispatch(c, f, name).Resolve? && !Forwards(c, f, name)
    ensures IsError(Dispatch(c, f, name).frame)
  {
    hide Reseal, ByName, ByIp, EchoReply, ArpReply, IcmpError, RouteTo, Lpm, Octets.IsError;
    assert |f| >= IP_MIN && U16At(f, 12) == 0x0800;
    var a := Dispatch(c, f, name);
    if ByIp(c.ifaces, IpAt(f, 30)).Some? {
      Octets.ErrorOctets(a.iface.ip, f, 3, 3);
    } else if Ttl(f) <= 1 {
      Octets.ErrorOctets(a.iface.ip, f, 11, 0);
    } else {
      assert IpAt(Hop(f), 30) == IpAt(f, 30);
      RouteNeedsLpm(c, IpAt(f, 30));
      Octets.ErrorOctets(a.iface.ip, Hop(f), 3, 0);
    }
  }

  lemma RouteNeedsLpm(c: Config, dst: Ip)
    ensures Lpm(c.routes, dst).None? ==> RouteTo(c, dst).None?
  {
    hide Lpm;
  }

  // ---------------------------------------------------------------------
  // Any number of hops
  // ---------------------------------------------------------------------

  /** Equal but for Ethernet header, TTL and header checksum. */
  ghost predicate SamePayload(f: Frame, g: Frame) {
    |f| == |g| && forall i :: 14 <= i < |f| && i != 22 && i != 24 && i != 25 ==> f[i] == g[i]
  }

  lemma OneHop(c: Config, f: Frame, name: Name, g: Frame)
    requires Hopped(c, f, name, g)
    ensures |f| >= IP_MIN && |g| >= IP_MIN && Ttl(f) > 1 && Ttl(g) == Ttl(f) - 1 && SamePayload(f, g)
  {
    hide Reseal, ByName, ByIp, RouteTo;
    SameFrom(g, Hop(f), 14);
  }

  lemma SameFrom(g: Frame, h: Frame, k: nat)
    requires k <= |g| == |h| && g[k..] == h[k..]
    ensures forall i :: k <= i < |g| ==> g[i] == h[i]
  {
    forall i | k <= i < |g|
      ensures g[i] == h[i]
    {
      assert g[i] == g[k..][i - k] && h[i] == h[k..][i - k];
    }
  }

  /** A run of one router, the event at which a frame arrived there and the event
      at which it was sent on. */
  datatype Leg = Leg(c: Config, start: World, steps: seq<Step>, arrival: nat, departure: nat) {
    ghost function Log(): seq<Event> {
      Exec(c, start, steps).log
    }

    /** The router sent the departing frame, at once or after queueing, because
        the arriving one came in, and forwarded rather than answered it. */
    ghost predicate Valid() {
      && Initial(start) && arrival < departure < |Log()|
      && Log()[arrival].Arrived? && (Log()[departure].Direct? || Log()[departure].Flushed?)
      && Forwards(c, In(), Log()[arrival].iface)
      && Yields(c, In(), Log()[arrival].iface, Out())
    }

    ghost function In(): Frame {
      if arrival < |Log()| && Log()[arrival].Arrived? then Log()[arrival].frame else []
    }

    ghost function Out(): Frame {
      if departure < |Log()| && (Log()[departure].Direct? || Log()[departure].Flushed?)
      then Log()[departure].out.frame else []
    }
  }

  /** Every frame that leaves a router, in any run, leaves on a leg from an earlier
      arrival, unless it is a message of the router's own. */
  lemma SentIsALeg(c: Config, w: World, steps: seq<Step>, k: nat)
    requires Initial(w) && k < |Exec(c, w, steps).log|
    requires Exec(c, w, steps).log[k].Direct? || Exec(c, w, steps).log[k].Flushed?
    ensures var log := Exec(c, w, steps).log;
            exists i :: 0 <= i < k && log[i].Arrived?
              && Yields(c, log[i].frame, log[i].iface, log[k].out.frame)
              && (Leg(c, w, steps, i, k).Valid()
                  || Dispatch(c, log[i].frame, log[i].iface).Emit?
                  || (Dispatch(c, log[i].frame, log[i].iface).Resolve? && IsError(Dispatch(c, log[i].frame, log[i].iface).frame)))
  {
    hide Exec, Yields, Forwards, Hopped, IsError;
    var log := Exec(c, w, steps).log;
    SentStems(c, w, steps, k);
    var i :| 0 <= i < k && log[i].Arrived? && Yields(c, log[i].frame, log[i].iface, log[k].out.frame);
    HoppedOrOwn(c, log[i].frame, log[i].iface, log[k].out.frame);
    var leg := Leg(c, w, steps, i, k);
    assert leg.In() == log[i].frame && leg.Out() == log[k].out.frame;
  }

  /** What leaves one router is what arrives at the next. */
  ghost predicate Journey(legs: seq<Leg>) {
    && legs != [] && (forall j :: 0 <= j < |legs| ==> legs[j].Valid())
    && (forall j {:trigger legs[j].Out()} :: 0 <= j < |legs| - 1 ==> legs[j].Out() == legs[j + 1].In())
  }

  lemma LegIsOneHop(l: Leg)
    requires l.Valid()
    ensures var f, g := l.In(), l.Out();
            |f| >= IP_MIN && |g| >= IP_MIN && Ttl(f) > 1 && Ttl(g) == Ttl(f) - 1 && SamePayload(f, g)
  {
    hide Exec, Yields, Forwards, Hopped;
    var name := l.Log()[l.arrival].iface;
    HoppedOrOwn(l.c, l.In(), name, l.Out());
    OneHop(l.c, l.In(), name, l.Out());
  }

  /** In any network of such routers, whatever runs they make, a packet is
      forwarded at most its initial TTL minus one times, 254 at most; its TTL falls
      by one per hop, and nothing past the Ethernet header changes but the TTL and
      the header checksum. */
  lemma {:induction false} TtlBoundsJourney(legs: seq<Leg>)
    requires Journey(legs)
    ensures var first, last := legs[0].In(), legs[|legs| - 1].Out();
            && |first| >= IP_MIN && |last| >= IP_MIN
            && |legs| <= Ttl(first) - 1 <= 254
            && Ttl(last) == Ttl(first) - |legs|
            && SamePayload(first, last)
    decreases |legs|
  {
    hide Leg.Valid, Leg.In, Leg.Out;
    var n := |legs| - 1;
    LegIsOneHop(legs[n]);
    if n > 0 {
      var init := legs[..n];
      assert forall j :: 0 <= j < n ==> init[j] == legs[j];
      assert legs[n - 1].Out() == legs[n].In();
      TtlBoundsJourney(init);
    }
  }

  // ---------------------------------------------------------------------
  // Journeys of every length
  // ---------------------------------------------------------------------

  /** What a router sends on is forwarded again wherever it is delivered to a router
      that is not its destination and has a route for it, as long as its TTL is
      over 1. */
  lemma ForwardsAgain(c: Config, f: Frame, name: Name, g: Frame, next: Config, there: Name)
    requires Forwards(c, f, name) && Yields(c, f, name, g) && Ttl(f) > 2
    requires ByName(next.ifaces, there).Some? && ByIp(next.ifaces, IpAt(f, 30)).None? && RouteTo(next, IpAt(f, 30)).Some?
    ensures Forwards(next, g, there)
  {
    hide Reseal, ByName, ByIp, RouteTo, Dispatch;
    ForwardsIsResolve(c, f, name);
    SameFrom(g, Hop(f), 14);
    assert IpAt(g, 30) == IpAt(f, 30);
  }

  /** A fresh router. */
  lemma Fresh() returns (w: World)
    ensures Initial(w)
  {
    var blank := Entry([0, 0, 0, 0, 0, 0], [0, 0, 0, 0], 0, false);
    w := World(seq(SLOTS, _ => blank), [], Idle, 0, 0, []);
  }

  /** Once it knows the next hop, it sends on at once what it forwards. */
  lemma ForwardsAtOnce(c: Config, f: Frame, name: Name) returns (l: Leg)
    requires Forwards(c, f, name)
    ensures l.Valid() && l.c == c && l.In() == f && Yields(c, f, name, l.Out())
  {
    hide Dispatch, Receivable, Forwards, Yields, Apply, Exec, Lookup, Reply, Initial;
    var w := Fresh();
    ForwardsReceives(c, f, name);
    var a, mac: Mac := Dispatch(c, f, name), [2, 0, 0, 0, 0, 1];
    var first, second := Receive(Reply(a.nextHop, mac), name), Receive(f, name);
    KnowsHop(c, w, name, a.nextHop, mac);
    SendsAtOnce(c, Apply(c, w, first), f, name);
    TwoSteps(c, w, first, second);
    l := Leg(c, w, [first, second], 2, 3);
  }

  lemma TwoSteps(c: Config, w: World, a: Step, b: Step)
    ensures Exec(c, w, [a, b]) == Apply(c, Apply(c, w, a), b)
  {
    hide Apply;
    ExecOne(c, w, [], a);
    ExecOne(c, w, [a], b);
    assert [] + [a] == [a] && [a] + [b] == [a, b];
    assert Exec(c, w, []) == w;
  }

  lemma KnowsHop(c: Config, w: World, name: Name, ip: Ip, mac: Mac)
    requires Initial(w) && ByName(c.ifaces, name).Some?
    ensures var u := Apply(c, w, Receive(Reply(ip, mac), name));
            u.pc == Idle && |u.log| == 2 && Lookup(u.entries, ip).Some?
  {
    hide Apply, Lookup, Insert, Reply;
    ReplyTeaches(c, w, name, ip, mac);
    SlotsFree(w, ip);
    LookupAfterInsert(w.entries, ip, mac, w.now);
  }

  lemma ForwardsReceives(c: Config, f: Frame, name: Name)
    requires Forwards(c, f, name)
    ensures Receivable(c, f, name) && Dispatch(c, f, name).Resolve? && ByName(c.ifaces, name).Some?
  {
    hide Hop;
    ForwardsIsResolve(c, f, name);
  }

  lemma SlotsFree(w: World, ip: Ip)
    requires Initial(w)
    ensures FreeSlot(w.entries) < |w.entries| && !Cached(w.entries[FreeSlot(w.entries) + 1..], ip)
  {
  }

  lemma SendsAtOnce(c: Config, w: World, f: Frame, name: Name)
    requires w.pc == Idle && Receivable(c, f, name) && Dispatch(c, f, name).Resolve?
    requires Lookup(w.entries, Dispatch(c, f, name).nextHop).Some?
    ensures var v := Apply(c, w, Receive(f, name));
            && |v.log| == |w.log| + 2 && w.log <= v.log
            && v.log[|w.log|] == Arrived(f, name) && v.log[|w.log| + 1].Direct?
            && Yields(c, f, name, v.log[|w.log| + 1].out.frame)
  {
    hide Dispatch, Receivable, Lookup, Fill;
    DispatchIsResolvable(c, f, name);
    var a := Dispatch(c, f, name);
    Octets.FillOctets(a.frame, Lookup(w.entries, a.nextHop).value.mac, a.iface.mac);
  }

  /** The bound is met: from every frame that is forwarded, journeys of every length
      its TTL allows exist. */
  lemma {:induction false} JourneysExist(c: Config, f: Frame, name: Name, n: nat) returns (legs: seq<Leg>)
    requires Forwards(c, f, name) && 1 <= n <= Ttl(f) - 1
    ensures Journey(legs) && |legs| == n && legs[0].In() == f
    decreases n
  {
    hide Leg.Valid, Leg.In, Leg.Out, Yields, Forwards;
    var l := ForwardsAtOnce(c, f, name);
    if n == 1 {
      legs := [l];
    } else {
      LegIsOneHop(l);
      ForwardsRoute(c, f, name);
      ForwardsAgain(c, f, name, l.Out(), c, name);
      var rest := JourneysExist(c, l.Out(), name, n - 1);
      legs := [l] + rest;
    }
  }

  lemma ForwardsRoute(c: Config, f: Frame, name: Name)
    requires Forwards(c, f, name)
    ensures ByName(c.ifaces, name).Some? && ByIp(c.ifaces, IpAt(f, 30)).None? && RouteTo(c, IpAt(f, 30)).Some?
  {
  }

  // ---------------------------------------------------------------------
  // Frames that do not verify
  // ---------------------------------------------------------------------

  /** The sum over a header without options. */
  lemma HeaderSum(h: seq<Byte>)
    requires |h| == 20
    ensures Sum(HostWords(Little, h)) ==
            Load(Little, h[0], h[1]) + Load(Little, h[2], h[3]) + Load(Little, h[4], h[5]) + Load(Little, h[6], h[7])
            + Load(Little, h[8], h[9]) + Load(Little, h[10], h[11]) + Load(Little, h[12], h[13])
            + Load(Little, h[14], h[15]) + Load(Little, h[16], h[17]) + Load(Little, h[18], h[19])
  {
    hide HostWords, Sum, Load;
    HostWordsStep(Little, h, 0);
    HostWordsStep(Little, h, 2);
    HostWordsStep(Little, h, 4);
    HostWordsStep(Little, h, 6);
    HostWordsStep(Little, h, 8);
    HostWordsStep(Little, h, 10);
    HostWordsStep(Little, h, 12);
    HostWordsStep(Little, h, 14);
    HostWordsStep(Little, h, 16);
    HostWordsStep(Little, h, 18);
    HostWordsEnd(Little, h, 20);
    assert h[0..] == h;
  }

  /** One interface, and one host route through it. */
  lemma Sample() returns (c: Config, r: Route)
    ensures c.routes == [r] && r.dest == [10, 0, 1, 1] && NextHop(r, r.dest) == r.dest
    ensures ByName(c.ifaces, [1]) == Some(Interface([1], [1, 1, 1, 1, 1, 1], [10, 0, 0, 1]))
    ensures RouteTo(c, r.dest) == Some((r, Interface([1], [1, 1, 1, 1, 1, 1], [10, 0, 0, 1])))
    ensures ByIp(c.ifaces, r.dest).None?
  {
    hide Lpm;
    var i := Interface([1], [1, 1, 1, 1, 1, 1], [10, 0, 0, 1]);
    r := Route([10, 0, 1, 1], [0, 0, 0, 0], [255, 255, 255, 255], [1]);
    c := Config([i], [r]);
    SingleRoute(r);
  }

  lemma HopChecksumOfHeader(f: Frame, h: seq<Byte>)
    requires |h| == 20 && |f| >= IP_MIN && f[14..34] == h && h[0] % 16 == 5 && h[8] > 0
    ensures HeaderLen(f) == 20 && Ttl(f) == h[8]
    ensures HopChecksum(f) == IpChecksumOf(Little, h[8 := h[8] - 1][10 := 0][11 := 0])
  {
    hide IpChecksumOf;
    assert f[14] == h[0] && f[22] == h[8];
    assert f[22 := f[22] - 1][24 := 0][25 := 0][14..34] == h[8 := h[8] - 1][10 := 0][11 := 0];
  }

  /** The header of a packet of 28 octets from 10.0.2.1 to 10.0.1.1. */
  ghost function SampleHeader(ttl: Byte): (h: seq<Byte>)
    ensures |h| == 20 && h[0] == 0x45 && h[8] == ttl && h[10] == h[11] == 0
    ensures h[12..16] == [10, 0, 2, 1] && h[16..20] == [10, 0, 1, 1]
  {
    [0x45, 0, 0, 28, 0, 0, 0, 0, ttl, 17, 0, 0] + [10, 0, 2, 1] + [10, 0, 1, 1]
  }

  lemma SampleChecksum()
    ensures IpChecksumOf(Little, SampleHeader(63)) == 0xd064
  {
    hide HostWords, Sum;
    HeaderSum(SampleHeader(63));
    assert Sum(HostWords(Little, SampleHeader(63))) == 0x2f9b;
  }

  /** The same as a frame. */
  ghost function SampleFrame(h: seq<Byte>): (f: Frame)
    requires |h| == 20
    ensures |f| == 42 && f[14..34] == h && f[12] == 8 && f[13] == 0 && f[14] == h[0] && f[22] == h[8]
    ensures IpAt(f, 26) == h[12..16] && IpAt(f, 30) == h[16..20]
  {
    [0, 0, 0, 0, 0, 0, 0, 0, 0, 0, 0, 0, 8, 0] + h + [0, 0, 0, 0, 0, 0, 0, 0]
  }

  /** A frame that is forwarded and does not verify at the next hop. */
  lemma ForwardedHeaderFails()
    ensures exists c: Config, f: Frame, name: Name ::
              Forwards(c, f, name) && HeaderLen(f) == 20 && !Verifies(Hop(f)[14..34])
  {
    hide Lpm, ByName, ByIp, RouteTo, Verifies, Hop, IpChecksumOf, SampleFrame, HopChecksum;
    var c, r := Sample();
    var h := SampleHeader(64);
    var f := SampleFrame(h);
    HopChecksumOfHeader(f, h);
    assert Forwards(c, f, [1]);
    assert h[8 := h[8] - 1][10 := 0][11 := 0] == SampleHeader(63);
    SampleChecksum();
    ForwardedVerifiesIff(f);
  }

  /** A packet whose TTL has run out, and the error message for it. */
  lemma IcmpErrorFails()
    ensures exists c: Config, f: Frame, name: Name ::
              && Receivable(c, f, name) && Dispatch(c, f, name).Resolve?
              && |Dispatch(c, f, name).frame| == 70 && IsError(Dispatch(c, f, name).frame)
              && !Verifies(Dispatch(c, f, name).frame[14..34])
  {
    hide Lpm, ByName, ByIp, RouteTo, Verifies, Hop, IcmpError, SampleFrame, SampleHeader;
    var c, r := Sample();
    var f := SampleFrame(SampleHeader(1)[12 := 10][14 := 1]);
    assert IpAt(f, 26) == r.dest && IpAt(f, 30) == r.dest;
    assert Dispatch(c, f, [1]) == IcmpT3(c, f, 11, 0);
    assert Dispatch(c, f, [1]).frame == IcmpError([10, 0, 0, 1], f, 11, 0);
    Octets.ErrorOctets([10, 0, 0, 1], f, 11, 0);
    ErrorHeaderFails(f);
  }

  lemma ErrorChecksum(h: seq<Byte>)
    requires h == ErrorIpHeader([10, 0, 0, 1], [10, 0, 1, 1])
    ensures IpChecksumOf(Little, h) == 0xc465
  {
    hide HostWords, Sum;
    HeaderSum(h);
    assert Sum(HostWords(Little, h)) == 0x3b9a;
  }

  lemma ErrorHeaderFails(f: Frame)
    requires |f| >= 42 && IpAt(f, 26) == [10, 0, 1, 1]
    ensures !Verifies(IcmpError([10, 0, 0, 1], f, 11, 0)[14..34])
  {
    hide Verifies, IpChecksumOf, SealWrapped;
    IcmpErrorMeaning([10, 0, 0, 1], f, 11, 0);
    ErrorChecksum(ErrorIpHeader([10, 0, 0, 1], [10, 0, 1, 1]));
  }
}
