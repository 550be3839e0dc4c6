/**
 The router instance and its handlers, in the source's form: packet buffers are
 rewritten in place, the cache is called through its methods, and a handler
 runs from receive to return without a tick in between. Each handler is proved
 to take the state machine from one idle state to the next.
 */
module Router {
  import opened Bytes
  import opened Checksum
  import opened Routing
  import opened Frames
  import opened ArpMachine
  import opened ArpSafety
  import opened ArpHistory
  import opened ArpRetry
  import opened ArpLimit
  import opened Links
  import opened ArpHeap

  // ---------------------------------------------------------------------
  // A handler call as one run of the machine
  // ---------------------------------------------------------------------

  /** How many steps the packet thread still has to take. */
  function Rank(pc: Pc): nat {
    match pc
    case Idle => 0
    case Marking(_) => 1
    case Sending(_, _) => 2
    case Holding(_, _) => 3
    case Missed(_, _) => 4
    case Flushing(_, _, rest) => |rest| + 1
  }

  /** The packet thread runs on, undisturbed, until it is idle. */
  function Settle(c: Config, w: World): World
    decreases Rank(w.pc)
  {
    var w' := ProceedStep(c, w, false);
    if Rank(w'.pc) < Rank(w.pc) then Settle(c, w') else w
  }

  /** A whole handler call is a run of the machine without a tick. */
  lemma {:induction false} SettleIsARun(c: Config, w: World) returns (steps: seq<Step>)
    ensures forall i :: 0 <= i < |steps| ==> steps[i] == Proceed(false)
    ensures Exec(c, w, steps) == Settle(c, w)
    decreases Rank(w.pc)
  {
    hide ProceedStep;
    var w' := ProceedStep(c, w, false);
    if Rank(w'.pc) < Rank(w.pc) {
      var rest := SettleIsARun(c, w');
      steps := [Proceed(false)] + rest;
      ExecPrepend(c, w, Proceed(false), rest);
    } else {
      steps := [];
    }
  }

  /** Receiving a packet and running to rest, in the terms of whole runs: the
      claims about every run hold of every sequence of handler calls and ticks. */
  lemma HandlerIsARun(c: Config, w: World, f: Frame, name: Name) returns (steps: seq<Step>)
    requires w.pc == Idle && Receivable(c, f, name)
    ensures Exec(c, w, steps) == Settle(c, ReceiveStep(c, w, f, name))
    ensures Tick !in steps
  {
    hide ReceiveStep, Settle, ProceedStep, Receivable;
    var rest := SettleIsARun(c, ReceiveStep(c, w, f, name));
    ExecPrepend(c, w, Receive(f, name), rest);
    steps := [Receive(f, name)] + rest;
  }

  /** In a safe state every handler call comes to rest. */
  lemma {:induction false} Settles(c: Config, w: World)
    requires Safe(c, w)
    ensures Settle(c, w).pc == Idle && Safe(c, Settle(c, w))
    decreases Rank(w.pc)
  {
    hide Safe;
    ProceedSafe(c, w, false);
    ProceedRanks(c, w);
    if w.pc != Idle {
      Settles(c, ProceedStep(c, w, false));
    }
  }

  lemma ProceedRanks(c: Config, w: World)
    requires Safe(c, w)
    ensures w.pc != Idle ==> Rank(ProceedStep(c, w, false).pc) < Rank(w.pc)
  {
    if w.pc.Flushing? && w.pc.rest != [] {
      assert PacketOk(c, w.pc.rest[0]);
    }
  }

  /** The rest of a call after a miss: queue, and ask if the request is new. */
  function AfterMiss(c: Config, w: World, ip: Ip, p: Packet): World {
    var w1 := QueueStep(w, ip, p);
    var i := Find(w1.requests, ip);
    if i < |w1.requests| && w1.requests[i].timesSent == 0 then
      var w2 := SendStep(c, w1, ip, p.iface);
      w2.(requests := Mark(w2.requests, ip, w2.now), pc := Idle)
    else w1.(pc := Idle)
  }

  /** What `send_arp_request` logs. */
  function FirstAsk(c: Config, ip: Ip, name: Name, now: int): seq<Event> {
    match ByName(c.ifaces, name)
    case None => []
    case Some(i) => [Asked(ip, now, Sent(ArpRequest(i, ip), name))]
  }

  lemma MissInSteps(c: Config, w: World, ip: Ip, p: Packet)
    requires w.pc == Idle
    ensures var rs := Queue(w.requests, ip, p);
            var i := Find(rs, ip);
            var log := w.log + (if Pending(w.requests, ip) then [] else [Opened(ip)]) + [Enqueued(ip, p)];
            i < |rs| ==>
            AfterMiss(c, w, ip, p) ==
              if rs[i].timesSent == 0
              then w.(requests := rs[i := rs[i].(sent := w.now, timesSent := 1)], log := log + FirstAsk(c, ip, p.iface, w.now))
              else w.(requests := rs, log := log)
  {
    hide Queue, ArpRequest;
  }

  lemma SettleMiss(c: Config, w: World, ip: Ip, p: Packet)
    requires w.pc == Missed(ip, p)
    ensures Settle(c, w) == AfterMiss(c, w, ip, p)
  {
    hide Mark, ArpRequest, Push;
    var w1 := ProceedStep(c, w, false);
    var w2 := ProceedStep(c, w1, false);
    assert Settle(c, w) == Settle(c, w1) == Settle(c, w2);
    if w2.pc != Idle {
      var w3 := ProceedStep(c, w2, false);
      var w4 := ProceedStep(c, w3, false);
      assert Settle(c, w2) == Settle(c, w3) == Settle(c, w4);
    }
  }

  /** The flush loop of `handle_arp_packet`, list head first. */
  function FlushEvents(c: Config, ip: Ip, mac: Mac, ps: seq<Packet>): seq<Event>
    requires forall p :: p in ps ==> |p.buf| >= 42 && ByName(c.ifaces, p.iface).Some?
  {
    if ps == [] then []
    else
      [Flushed(ip, ps[0], Sent(Fill(ps[0].buf, mac, ByName(c.ifaces, ps[0].iface).value.mac), ps[0].iface))]
      + FlushEvents(c, ip, mac, ps[1..])
  }

  lemma {:induction false} SettleFlush(c: Config, w: World, ip: Ip, mac: Mac, ps: seq<Packet>)
    requires w.pc == Flushing(ip, mac, ps)
    requires forall p :: p in ps ==> |p.buf| >= 42 && ByName(c.ifaces, p.iface).Some?
    ensures Settle(c, w) == w.(pc := Idle, log := w.log + FlushEvents(c, ip, mac, ps))
    decreases |ps|
  {
    hide Fill;
    var w' := ProceedStep(c, w, false);
    if ps == [] {
      assert w.log + FlushEvents(c, ip, mac, ps) == w.log;
    } else {
      SettleFlush(c, w', ip, mac, ps[1..]);
      assert w.log + FlushEvents(c, ip, mac, ps) == w'.log + FlushEvents(c, ip, mac, ps[1..]);
    }
  }

  // ---------------------------------------------------------------------
  // Buffers rewritten in place
  // ---------------------------------------------------------------------

  /** Zero a checksum field, sum, and store the `htons` of the result. */
  method ResealInPlace(buf: array<Byte>, from: nat, to: nat, k: nat)
    requires from <= to <= buf.Length && k + 1 < buf.Length
    modifies buf
    ensures buf[..] == Reseal(old(buf[..]), from, to, k)
  {
    buf[k], buf[k + 1] := 0, 0;
    assert buf[..] == old(buf[..])[k := 0][k + 1 := 0];
    assert buf[..][from..to] == buf[from..to];
    var sum := IpChecksum(Little, buf[from..to]);
    var v := HtoNs(Little, sum);
    buf[k], buf[k + 1] := v % 256, v / 256;
  }

  /** The middle of `forward_ip_packet`. */
  method HopInPlace(packet: array<Byte>)
    requires packet.Length >= IP_MIN && 14 + HeaderLen(packet[..]) <= packet.Length && Ttl(packet[..]) > 0
    modifies packet
    ensures packet[..] == Hop(old(packet[..]))
  {
    hide Reseal;
    var headerLen := packet[14] % 16 * 4;
    packet[22] := packet[22] - 1;
    assert packet[..] == old(packet[..])[22 := old(packet[..])[22] - 1];
    ResealInPlace(packet, 14, 14 + headerLen, 24);
  }

  /** The three writes to an Ethernet header before an IP frame leaves. */
  method FillInPlace(packet: array<Byte>, dst: Mac, src: Mac)
    requires packet.Length >= ETH_LEN
    modifies packet
    ensures packet[..] == Fill(old(packet[..]), dst, src)
  {
    CopyInto(packet, 0, dst);
    CopyInto(packet, 6, src);
    packet[12], packet[13] := 0x08, 0x00;
  }

  /** `memcpy` into a packet. */
  method CopyInto(packet: array<Byte>, at: nat, bytes: seq<Byte>)
    requires at + |bytes| <= packet.Length
    modifies packet
    ensures packet[..] == old(packet[..at]) + bytes + old(packet[at + |bytes|..])
  {
    var n := |bytes|;
    for i := 0 to n
      invariant packet[..at] == old(packet[..at]) && packet[at + n..] == old(packet[at + n..])
      invariant packet[at..at + i] == bytes[..i]
    {
      packet[at + i] := bytes[i];
      assert packet[at..at + i + 1] == packet[at..at + i] + [bytes[i]];
      assert bytes[..i + 1] == bytes[..i] + [bytes[i]];
    }
    assert packet[..] == packet[..at] + packet[at..at + n] + packet[at + n..];
    assert bytes[..n] == bytes;
  }

  method TurnMacs(reply: array<Byte>, src: Mac)
    requires reply.Length >= 14
    modifies reply
    ensures reply[..] == old(reply[6..12]) + src + old(reply[12..])
  {
    CopyInto(reply, 0, reply[6..12]);
    CopyInto(reply, 6, src);
  }

  method TurnIps(reply: array<Byte>)
    requires reply.Length >= 34
    modifies reply
    ensures reply[..] == old(reply[..26]) + old(reply[30..34]) + old(reply[26..30]) + old(reply[34..])
  {
    var tmp, dst := reply[26..30], reply[30..34];
    CopyInto(reply, 26, dst);
    CopyInto(reply, 30, tmp);
  }

  lemma TurnedAround(f: Frame, src: Mac, g: Frame, h: Frame)
    requires |f| >= 42
    requires g == f[6..12] + src + f[12..]
    requires h == g[..26] + g[30..34] + g[26..30] + g[34..]
    ensures h[22 := 64] == Answered(f, src)
  {
    assert g[26..30] == f[26..30] && g[30..34] == f[30..34] && g[34..] == f[34..];
    assert g[..26] == f[6..12] + src + f[12..26];
    assert f[12..26] == f[12..22] + [f[22]] + f[23..26];
  }

  /** The edits of `send_icmp_echo_reply` before its checksums: both pairs of
      addresses and the TTL. */
  method TurnAround(reply: array<Byte>, src: Mac)
    requires reply.Length >= 42
    modifies reply
    ensures reply[..] == Answered(old(reply[..]), src)
  {
    ghost var f := reply[..];
    TurnMacs(reply, src);
    ghost var g := reply[..];
    assert g == f[6..12] + src + f[12..];
    TurnIps(reply);
    ghost var h := reply[..];
    assert h == g[..26] + g[30..34] + g[26..30] + g[34..];
    TurnedAround(f, src, g, h);
    reply[22] := 64;
    assert reply[..] == h[22 := 64];
  }

  /** `send_icmp_echo_reply`: a copy of the request, edited in place. */
  method BuildEchoReply(f: Frame, src: Mac) returns (reply: array<Byte>)
    requires Readable(f)
    ensures fresh(reply) && reply[..] == EchoReply(f, src)
  {
    hide Reseal, Answered;
    reply := new Byte[|f|](i requires 0 <= i < |f| => f[i]);
    assert reply[..] == f;
    TurnAround(reply, src);
    ResealInPlace(reply, 14, 14 + f[14] % 16 * 4, 24);
    ghost var ip := reply[..];
    reply[34], reply[35] := 0, 0;
    assert reply[..] == ip[34 := 0][35 := 0];
    ResealInPlace(reply, 34, reply.Length, 36);
  }

  /** `send_icmp_host_unreachable` up to the route lookup: the message itself. */
  method BuildHostUnreachable(src: Ip, f: Frame) returns (r: Frame)
    requires |f| >= 42
    ensures r == HostUnreachable(src, f)
  {
    hide CksumOf;
    var ip := ErrorIpHeader(src, IpAt(f, 26));
    var ipSum := Cksum(Little, ip);
    var icmp := ErrorIcmp(3, 1, f);
    var icmpSum := Cksum(Little, icmp);
    r := Blank() + Store(Little, ip, 10, ipSum) + Store(Little, icmp, 2, icmpSum);
  }

  /** The body of `send_icmp_t3` up to the cache. */
  method BuildIcmpError(src: Ip, f: Frame, kind: Byte, code: Byte) returns (r: Frame)
    requires |f| >= 42
    ensures r == IcmpError(src, f, kind, code)
  {
    hide IpChecksumOf;
    var ip := ErrorIpHeader(src, IpAt(f, 26));
    var ipSum := IpChecksum(Little, ip);
    var icmp := ErrorIcmp(kind, code, f);
    var icmpSum := IpChecksum(Little, icmp);
    r := Blank() + Store(Little, ip, 10, HtoNs(Little, ipSum)) + Store(Little, icmp, 2, HtoNs(Little, icmpSum));
  }

  // ---------------------------------------------------------------------
  // The instance
  // ---------------------------------------------------------------------

  class Instance {
    const config: Config
    const cache: Cache
    ghost var lastTick: int
    ghost var log: seq<Event>

    ghost predicate Valid()
      reads this, cache, cache.nodes
    {
      cache.Valid()
    }

    /** The machine state the instance stands for when no handler is running. */
    ghost function View(now: int): World
      reads this, cache, cache.nodes, cache.entries
    {
      World(cache.entries[..], cache.List(), Idle, now, lastTick, log)
    }

    /** `sr_init` for an already loaded configuration. */
    constructor (config: Config, ghost now: int)
      ensures Valid() && this.config == config && Initial(View(now))
      ensures fresh(cache) && fresh(cache.entries) && cache.nodes == []
    {
      this.config := config;
      cache := new Cache();
      lastTick, log := now, [];
      new;
      assert |cache.List()| == |cache.nodes|;
    }

    method FindRoute(dst: Ip) returns (r: Option<(Route, Interface)>)
      ensures r == RouteTo(config, dst)
    {
      hide Lpm;
      var best := LpmLookup(config.routes, dst);
      match best
      case None => r := None;
      case Some(i) =>
        var iface := GetInterface(config.ifaces, config.routes[i].iface);
        match iface
        case None => r := None;
        case Some(out) => r := Some((config.routes[i], out));
    }

    /** One turn of the loop of `send_icmp_host_unreachable`. */
    method BuildNotice(p: Packet) returns (r: Option<Sent>)
      requires Valid() && |p.buf| >= 42
      ensures r == Notice(config, cache.entries[..], p)
    {
      hide Lpm, Lookup, HostUnreachable, Fill;
      r := None;
      var back := IpAt(p.buf, 26);
      var via := GetInterface(config.ifaces, p.iface);
      if via.None? {
        return;
      }
      var message := BuildHostUnreachable(via.value.ip, p.buf);
      var best := InlineLookup(config.routes, back);
      if best.None? {
        return;
      }
      var route := config.routes[best.value];
      var out := GetInterface(config.ifaces, route.iface);
      if out.None? {
        return;
      }
      var entry := cache.LookupEntry(NextHop(route, back));
      if entry.Some? {
        r := Some(Sent(Fill(message, entry.value.mac, out.value.mac), out.value.name));
      }
    }

    /** `send_icmp_host_unreachable`. */
    method SendHostUnreachable(req: Node<Request>)
      requires Valid() && forall p :: p in req.value.packets ==> |p.buf| >= 42
      modifies this`log
      ensures log == old(log) + Retire(config, cache.entries[..], req.value.ip, req.value.packets)
    {
      hide Notice;
      var pkts := req.value.packets;
      while pkts != []
        invariant forall p :: p in pkts ==> |p.buf| >= 42
        invariant log + Retire(config, cache.entries[..], req.value.ip, pkts) ==
                  old(log) + Retire(config, cache.entries[..], req.value.ip, req.value.packets)
        decreases |pkts|
      {
        var notice := BuildNotice(pkts[0]);
        ghost var before, rest := log, Retire(config, cache.entries[..], req.value.ip, pkts[1..]);
        log := log + [Retired(req.value.ip, pkts[0], notice)];
        assert log + rest == before + ([Retired(req.value.ip, pkts[0], notice)] + rest);
        pkts := pkts[1..];
      }
      assert log == log + [];
    }

    /** `send_arp_request_for_req`. */
    method AskAgain(req: Node<Request>, now: int)
      modifies this`log
      ensures log == old(log) + Ask(config, req.value, now)
    {
      if req.value.packets == [] {
        return;
      }
      var iface := GetInterface(config.ifaces, req.value.packets[0].iface);
      if iface.None? {
        return;
      }
      log := log + [Asked(req.value.ip, now, Sent(ArpRequest(iface.value, req.value.ip), iface.value.name))];
    }

    /** `handle_arpreq`: the request is destroyed or moves to its next state; no
        other request is touched. */
    method HandleArpReq(req: Node<Request>, ghost i: nat, now: int)
      requires Valid() && i < |cache.nodes| && cache.nodes[i] == req
      requires forall p :: p in req.value.packets ==> |p.buf| >= 42
      modifies this`log, cache, cache.nodes
      ensures Valid()
      ensures log == old(log) + Doings(config, cache.entries[..], old(req.value), now)
      ensures cache.nodes == if Survivor(old(req.value), now).None? then Without(old(cache.nodes), i) else old(cache.nodes)
      ensures Survivor(old(req.value), now).Some? ==> Some(req.value) == Survivor(old(req.value), now)
      ensures forall n :: n in old(cache.nodes) && n != req ==> n.value == old(n.value)
    {
      hide Chain, Retire, Ask;
      if now - req.value.sent >= 1 {
        if req.value.timesSent >= 5 {
          SendHostUnreachable(req);
          cache.Destroy(req);
        } else {
          AskAgain(req, now);
          cache.Touch(i, req, now, req.value.timesSent + 1);
        }
      }
    }

    /** One turn of the sweep: the node under the cursor is handled, and what lies
        before and after it in the list stays as it is. */
    method SweepOne(req: Node<Request>, ghost done: seq<Node<Request>>, ghost todo: seq<Node<Request>>, now: int)
      returns (next: Node?<Request>, ghost kept: seq<Node<Request>>)
      requires Valid() && cache.nodes == done + todo && todo != [] && req == todo[0]
      requires forall p :: p in req.value.packets ==> |p.buf| >= 42
      modifies this`log, cache, cache.nodes
      ensures Valid() && cache.nodes == kept + todo[1..] && next == NodeAt(todo[1..], 0)
      ensures forall n :: n in kept ==> n in done || n == req
      ensures Values(todo[1..]) == old(Values(todo[1..]))
      ensures var s := Survivor(old(req.value), now);
              Values(kept) == old(Values(done)) + if s.Some? then [s.value] else []
      ensures log == old(log) + Doings(config, cache.entries[..], old(req.value), now)
    {
      hide Doings, Chain, Values, Survivor;
      ghost var before, after, s := Values(done), Values(todo[1..]), Survivor(req.value, now);
      NextInChain(done, todo, cache.requests);
      next := req.next;
      HandleArpReq(req, |done|, now);
      DropMiddle(done, todo);
      kept := if s.Some? then done + [req] else done;
      assert forall i :: 0 <= i < |done| ==> done[i] in old(cache.nodes);
      assert forall i :: 1 <= i < |todo| ==> todo[i] in old(cache.nodes);
      SameValues(done, before);
      SameValues(todo[1..], after);
      ValuesSnoc(done, req);
    }

    /** `sr_arpcache_sweepreqs`: walks the list while handling may unlink the node
        under the cursor. Every request present at the start is handled exactly
        once and in order, the survivors stay in order, and the saved next pointer
        is always a node of the list. */
    method SweepReqs(now: int)
      requires Valid() && Quotable(cache.List())
      modifies this`log, cache, cache.nodes
      ensures Valid()
      ensures cache.List() == SweepList(old(cache.List()), now)
      ensures log == old(log) + SweepEvents(config, cache.entries[..], old(cache.List()), now)
      ensures forall n :: n in cache.nodes ==> n in old(cache.nodes)
    {
      hide Chain, Values, Progress, Doings, SweepEvents, SweepList, Quotable;
      ghost var all, start, table := cache.List(), log, cache.entries[..];
      ghost var done: seq<Node<Request>>, todo := [], cache.nodes;
      ProgressStart(config, table, all, now, start);
      StartOfChain(cache.nodes, cache.requests);
      var req := cache.requests;
      while req != null
        invariant Valid() && cache.nodes == done + todo && req == NodeAt(todo, 0)
        invariant forall n :: n in cache.nodes ==> n in old(cache.nodes)
        invariant Progress(config, table, all, now, Values(done), Values(todo), start, log)
        decreases |todo|
      {
        ProgressStep(config, table, all, now, Values(done), Values(todo), start, log);
        TailOfValues(todo);
        assert forall i :: 0 <= i < |cache.nodes| ==> cache.nodes[i] in old(cache.nodes);
        req, done := SweepOne(req, done, todo, now);
        todo := todo[1..];
      }
      assert done + [] == done;
      ProgressEnd(config, table, all, now, Values(done), start, log);
    }

    /** One iteration of `sr_arpcache_timeout`, lock held throughout. */
    method TimeoutTick(now: int)
      requires Valid() && Quotable(cache.List())
      modifies this, cache, cache.nodes, cache.entries
      ensures Valid() && View(now) == TickStep(config, old(View(now)))
      ensures forall n :: n in cache.nodes ==> n in old(cache.nodes)
    {
      hide Chain, SweepEvents, SweepList, Expire;
      cache.ExpireEntries(now);
      assert cache.List() == old(cache.List());
      SweepReqs(now);
      lastTick := now;
    }

    /** `send_arp_request`. */
    method SendArpRequest(tip: Ip, name: Name, now: int)
      modifies this`log
      ensures log == old(log) + FirstAsk(config, tip, name, now)
    {
      var iface := GetInterface(config.ifaces, name);
      if iface.Some? {
        log := log + [Asked(tip, now, Sent(ArpRequest(iface.value, tip), name))];
      }
    }

    /** The queueing branch of `forward_ip_packet` and `send_icmp_t3`. */
    method QueueAndAsk(ip: Ip, p: Packet, now: int)
      requires Valid()
      modifies this`log, cache, cache.nodes
      ensures Valid() && View(now) == AfterMiss(config, old(View(now)), ip, p)
      ensures forall n :: n in cache.nodes ==> n in old(cache.nodes) || fresh(n)
    {
      hide Chain, Values, Find, Queue, AfterMiss, FirstAsk;
      MissInSteps(config, View(now), ip, p);
      log := log + (if Pending(cache.List(), ip) then [] else [Opened(ip)]) + [Enqueued(ip, p)];
      var req := cache.QueueReq(ip, p);
      if req.value.timesSent == 0 {
        SendArpRequest(ip, p.iface, now);
        assert req in cache.nodes;
        cache.Touch(Find(cache.List(), ip), req, now, 1);
      }
    }

    /** The lookup and what follows it in `forward_ip_packet` and `send_icmp_t3`. */
    method ResolveAndSend(nextHop: Ip, packet: array<Byte>, iface: Interface, now: int)
      requires Valid() && packet.Length >= ETH_LEN
      modifies this`log, cache, cache.nodes, packet
      ensures Valid()
      ensures View(now) == Settle(config, LookupStep(old(View(now)), nextHop, old(packet[..]), iface))
      ensures forall n :: n in cache.nodes ==> n in old(cache.nodes) || fresh(n)
    {
      hide Chain, Values, Lookup, Fill, Stamp, AfterMiss;
      ghost var w := View(now);
      var entry := cache.LookupEntry(nextHop);
      if entry.Some? {
        FillInPlace(packet, entry.value.mac, iface.mac);
        log := log + [Direct(Sent(packet[..], iface.name))];
        assert View(now) == LookupStep(w, nextHop, old(packet[..]), iface);
      } else {
        var p := Packet(Stamp(packet[..], iface.mac), iface.name);
        SettleMiss(config, w.(pc := Missed(nextHop, p)), nextHop, p);
        QueueAndAsk(nextHop, p, now);
        AfterMissPc(config, w, nextHop, p);
      }
    }

    /** The flush loop of `handle_arp_packet`. */
    method FlushReq(req: Node<Request>, mac: Mac)
      requires forall p :: p in req.value.packets ==> |p.buf| >= 42 && ByName(config.ifaces, p.iface).Some?
      modifies this`log
      ensures log == old(log) + FlushEvents(config, req.value.ip, mac, req.value.packets)
    {
      hide Fill;
      var pkts := req.value.packets;
      while pkts != []
        invariant forall p :: p in pkts ==> |p.buf| >= 42 && ByName(config.ifaces, p.iface).Some?
        invariant log + FlushEvents(config, req.value.ip, mac, pkts) == old(log) + FlushEvents(config, req.value.ip, mac, req.value.packets)
        decreases |pkts|
      {
        var out := GetInterface(config.ifaces, pkts[0].iface);
        ghost var before, rest := log, FlushEvents(config, req.value.ip, mac, pkts[1..]);
        ghost var e := Flushed(req.value.ip, pkts[0], Sent(Fill(pkts[0].buf, mac, out.value.mac), pkts[0].iface));
        log := log + [e];
        assert log + rest == before + ([e] + rest);
        pkts := pkts[1..];
      }
      assert log == log + [];
    }

    /** `sr_arpcache_insert`: both halves, and the request it hands back. */
    method TakeRequest(ip: Ip, mac: Mac, now: int) returns (req: Node?<Request>)
      requires Valid()
      modifies this`log, cache, cache.nodes, cache.entries
      ensures Valid() && log == old(log) + [Learned(ip, mac, now)]
      ensures cache.entries[..] == Insert(old(cache.entries[..]), ip, mac, now)
      ensures cache.List() == Unlink(old(cache.List()), ip)
      ensures req == null <==> !Pending(old(cache.List()), ip)
      ensures req != null ==> req !in cache.nodes && req.value == old(cache.List())[Find(old(cache.List()), ip)]
      ensures forall n :: n in cache.nodes ==> n in old(cache.nodes)
    {
      hide Chain, Insert, Unlink, Find;
      log := log + [Learned(ip, mac, now)];
      req := cache.UnlinkReq(ip);
      ghost var rs := cache.List();
      cache.InsertEntry(mac, ip, now);
      assert cache.List() == rs;
    }

    /** The flush, and `sr_arpreq_destroy` on a request no longer in the list. */
    method FlushAndDestroy(req: Node<Request>, mac: Mac)
      requires Valid() && req !in cache.nodes
      requires forall p :: p in req.value.packets ==> |p.buf| >= 42 && ByName(config.ifaces, p.iface).Some?
      modifies this`log, cache, cache.nodes
      ensures Valid() && cache.nodes == old(cache.nodes) && cache.List() == old(cache.List())
      ensures log == old(log) + old(FlushEvents(config, req.value.ip, mac, req.value.packets))
    {
      hide Chain, Values, FlushEvents;
      FlushReq(req, mac);
      cache.Destroy(req);
    }

    /** The reply branch of `handle_arp_packet`: insert, flush, destroy. */
    method HandleArpReply(ip: Ip, mac: Mac, now: int)
      requires Valid() && Safe(config, View(now))
      modifies this`log, cache, cache.nodes, cache.entries
      ensures Valid() && View(now) == Settle(config, LearnStep(old(View(now)), ip, mac))
      ensures forall n :: n in cache.nodes ==> n in old(cache.nodes)
    {
      hide Chain, Values, FlushEvents, Insert, Unlink, Settle, Safe, Find;
      ghost var w := View(now);
      ghost var w' := LearnStep(w, ip, mac);
      var req := TakeRequest(ip, mac, now);
      if req == null {
        SettleIdle(config, w');
        return;
      }
      FlushablePackets(config, w, ip);
      SettleFlush(config, w', ip, mac, req.value.packets);
      assert forall i :: 0 <= i < |cache.nodes| ==> cache.nodes[i] in old(cache.nodes);
      FlushAndDestroy(req, mac);
    }

    /** `send_icmp_t3`. */
    method SendIcmpT3(f: Frame, kind: Byte, code: Byte, now: int)
      requires Valid() && |f| >= 42
      modifies this`log, cache, cache.nodes
      ensures Valid() && View(now) == Perform(config, old(View(now)), IcmpT3(config, f, kind, code))
      ensures forall n :: n in cache.nodes ==> n in old(cache.nodes) || fresh(n)
    {
      hide Chain, Values, RouteTo, IcmpError, Settle, LookupStep;
      var back := IpAt(f, 26);
      var found := FindRoute(back);
      if found.None? {
        return;
      }
      var (route, iface) := found.value;
      var message := BuildIcmpError(iface.ip, f, kind, code);
      var reply := new Byte[|message|](i requires 0 <= i < |message| => message[i]);
      assert reply[..] == message;
      ResolveAndSend(NextHop(route, back), reply, iface, now);
    }

    /** `forward_ip_packet`, on the packet as received. */
    method ForwardIpPacket(packet: array<Byte>, now: int)
      requires Valid() && Readable(packet[..])
      modifies this`log, cache, cache.nodes, packet
      ensures Valid() && View(now) == Perform(config, old(View(now)), Forward(config, old(packet[..])))
      ensures forall n :: n in cache.nodes ==> n in old(cache.nodes) || fresh(n)
    {
      hide Chain, Values, RouteTo, IcmpT3, Perform, Hop, Lpm, ByName, NextHop;
      assert packet[..][22] == packet[22];
      if packet[22] <= 1 {
        SendIcmpT3(packet[..], 11, 0, now);
        return;
      }
      HopInPlace(packet);
      var dst := IpAt(packet[..], 30);
      var best := LpmLookup(config.routes, dst);
      if best.None? {
        SendIcmpT3(packet[..], 3, 0, now);
        return;
      }
      var found := FindRoute(dst);
      if found.None? {
        PerformDrop(config, View(now));
        return;
      }
      var (route, iface) := found.value;
      PerformResolve(config, View(now), NextHop(route, dst), packet[..], iface);
      ResolveAndSend(NextHop(route, dst), packet, iface, now);
    }

    /** `handle_ip_packet`. */
    method HandleIpPacket(packet: array<Byte>, name: Name, now: int)
      requires Valid() && ByName(config.ifaces, name).Some?
      requires packet.Length >= IP_MIN ==> Readable(packet[..])
      modifies this`log, cache, cache.nodes, packet
      ensures Valid() && View(now) == Perform(config, old(View(now)), HandleIp(config, old(packet[..]), name))
      ensures forall n :: n in cache.nodes ==> n in old(cache.nodes) || fresh(n)
    {
      hide Chain, Values, IcmpT3, Forward, EchoReply, Settle;
      if packet.Length < IP_MIN {
        return;
      }
      var target := GetInterfaceByIp(config.ifaces, IpAt(packet[..], 30));
      if target.None? {
        ForwardIpPacket(packet, now);
      } else if packet[23] != 1 {
        SendIcmpT3(packet[..], 3, 3, now);
      } else if packet[34] == 8 {
        var iface := GetInterface(config.ifaces, name);
        var reply := BuildEchoReply(packet[..], iface.value.mac);
        log := log + [Direct(Sent(reply[..], name))];
      }
    }

    /** `handle_arp_packet`. */
    method HandleArpPacket(packet: array<Byte>, name: Name, now: int)
      requires Valid() && Safe(config, View(now))
      modifies this`log, cache, cache.nodes, cache.entries
      ensures Valid() && View(now) == Perform(config, old(View(now)), HandleArp(config, old(packet[..]), name))
      ensures forall n :: n in cache.nodes ==> n in old(cache.nodes)
    {
      hide Chain, Values, ArpReply, Settle, LearnStep, Safe;
      if packet.Length < ARP_FRAME {
        return;
      }
      var f := packet[..];
      var op := U16At(f, 20);
      if op == 1 {
        var iface := GetInterfaceByIp(config.ifaces, IpAt(f, 38));
        if iface.Some? {
          log := log + [Direct(Sent(ArpReply(f, iface.value), name))];
        }
      } else if op == 2 {
        HandleArpReply(IpAt(f, 28), MacAt(f, 22), now);
      }
    }

    /** A packet message: the filter, then `sr_handlepacket`. With no tick in
        between, the call is one run of the machine from idle to idle. */
    method ReceivePacket(packet: array<Byte>, name: Name, now: int)
      requires Valid() && Safe(config, View(now)) && Receivable(config, packet[..], name)
      modifies this`log, cache, cache.nodes, cache.entries, packet
      ensures Valid() && View(now) == Settle(config, ReceiveStep(config, old(View(now)), old(packet[..]), name))
      ensures Safe(config, View(now))
      ensures forall n :: n in cache.nodes ==> n in old(cache.nodes) || fresh(n)
    {
      hide Chain, Values, HandleArp, HandleIp, Settle, ReceiveStep, Safe, Perform;
      ghost var w, f := View(now), packet[..];
      log := log + [Arrived(f, name)];
      ghost var w0 := View(now);
      ReceiveIsPerform(config, w, f, name);
      ReceiveSafe(config, w, f, name);
      Settles(config, ReceiveStep(config, w, f, name));
      SafeDespiteLog(config, w, w0);
      PerformDrop(config, w0);
      if NotForUs(config, packet[..], name) || packet.Length < ETH_LEN {
        return;
      }
      var etherType := U16At(packet[..], 12);
      if etherType == 0x0806 {
        HandleArpPacket(packet, name, now);
      } else if etherType == 0x0800 {
        HandleIpPacket(packet, name, now);
      }
    }
  }

  // ---------------------------------------------------------------------
  // Any sequence of calls
  // ---------------------------------------------------------------------

  /** What the two threads do to an instance, one call after the other: after some
      seconds a packet is delivered, or the timeout thread wakes. */
  datatype Call = Deliver(wait: nat, frame: Frame, name: Name) | Timeout(wait: nat)

  /** What one call does to the machine: the time passes, then the packet is taken
      up and handled to the end, or one tick comes. */
  ghost function Play(c: Config, w: World, call: Call): World
    requires Callable(c, call)
  {
    var u := w.(now := w.now + call.wait);
    match call
    case Deliver(_, f, name) => Settle(c, ReceiveStep(c, u, f, name))
    case Timeout(_) => if Quotable(u.requests) then TickStep(c, u) else u
  }

  ghost function PlayAll(c: Config, w: World, calls: seq<Call>): World
    requires forall i :: 0 <= i < |calls| ==> Callable(c, calls[i])
  {
    if calls == [] then w else Play(c, PlayAll(c, w, calls[..|calls| - 1]), calls[|calls| - 1])
  }

  /** A delivered frame meets the demands of the code. */
  predicate Callable(c: Config, call: Call) {
    call.Deliver? ==> Receivable(c, call.frame, call.name)
  }

  lemma {:induction false} WithoutTicks(c: Config, w: World, steps: seq<Step>)
    requires Tick !in steps
    ensures Undisturbed(c, w, steps)
  {
    if steps != [] {
      WithoutTicks(c, w, steps[..|steps| - 1]);
    }
  }

  lemma HandlerReaches(c: Config, w: World, f: Frame, name: Name)
    requires w.pc == Idle && Receivable(c, f, name)
    ensures Reaches(c, w, Settle(c, ReceiveStep(c, w, f, name)), true)
  {
    hide Exec, Settle, ReceiveStep, Receivable, Undisturbed;
    var steps := HandlerIsARun(c, w, f, name);
    WithoutTicks(c, w, steps);
  }

  lemma TickReaches(c: Config, w: World)
    requires w.pc == Idle && Quotable(w.requests)
    ensures Reaches(c, w, TickStep(c, w), true)
  {
    hide Reaches, TickStep;
    ReachesStep(c, w, Tick, true);
  }

  lemma WaitReaches(c: Config, w: World, d: nat)
    requires Safe(c, w)
    ensures Reaches(c, w, w.(now := w.now + d), true) && Safe(c, w.(now := w.now + d))
  {
    hide Reaches;
    ReachesStep(c, w, Advance(d), true);
    ApplySafe(c, w, Advance(d));
  }

  /** One call on a live instance. */
  method OneCall(r: Instance, call: Call, now: int) returns (after: int)
    requires r.Valid() && Safe(r.config, r.View(now))
    requires Callable(r.config, call)
    modifies r, r.cache, r.cache.nodes, r.cache.entries
    ensures r.Valid() && Safe(r.config, r.View(after)) && after == now + call.wait
    ensures r.View(after) == Play(r.config, old(r.View(now)), call)
    ensures Reaches(r.config, old(r.View(now)), r.View(after), true)
    ensures forall n :: n in r.cache.nodes ==> n in old(r.cache.nodes) || fresh(n)
  {
    hide Chain, Values, Reaches, Safe, Receivable, TickStep, Settle, ReceiveStep;
    after := now + call.wait;
    ghost var w, u := r.View(now), r.View(after);
    WaitReaches(r.config, w, call.wait);
    match call {
      case Deliver(_, f, name) =>
        var packet := new Byte[|f|](i requires 0 <= i < |f| => f[i]);
        assert packet[..] == f;
        HandlerReaches(r.config, u, f, name);
        r.ReceivePacket(packet, name, after);
      case Timeout(_) =>
        TickSafe(r.config, u);
        TickReaches(r.config, u);
        r.TimeoutTick(after);
    }
    ReachesThen(r.config, w, u, r.View(after), true);
  }

  /** Any sequence of calls on a new instance does to it what the machine does when
      the same packets and ticks come in the same order at the same times, and that
      is one run from an initial state without a tick in a window. So what is proved of such runs
      holds of the router in memory: packets are conserved, and no request is sent
      more than five times. */
  method Drive(config: Config, start: int, calls: seq<Call>) returns (r: Instance, now: int, ghost w: World)
    requires forall i :: 0 <= i < |calls| ==> Callable(config, calls[i])
    ensures r.Valid() && r.config == config && Initial(w) && w.now == start
    ensures r.View(now) == PlayAll(config, w, calls)
    ensures Reaches(config, w, r.View(now), true) && Safe(config, r.View(now))
    ensures forall ip: Ip ::
              multiset(QueuedFor(r.log, ip)) ==
              multiset(PacketsOf(r.cache.List(), ip)) + multiset(FlushedFor(r.log, ip)) + multiset(RetiredFor(r.log, ip))
    ensures forall ip: Ip :: Sends(r.log, ip) <= MAX_SENDS
    ensures LastInFirstOut(r.log) && Paced(r.log)
  {
    hide Chain, Values, Reaches, Safe, Callable, Play;
    r := new Instance(config, start);
    now, w := start, r.View(start);
    ReachesSelf(config, w, true);
    InitialSafe(config, w);
    for i := 0 to |calls|
      invariant fresh(r) && fresh(r.cache) && fresh(r.cache.entries) && forall n :: n in r.cache.nodes ==> fresh(n)
      invariant r.Valid() && r.config == config && Safe(config, r.View(now))
      invariant Reaches(config, w, r.View(now), true) && r.View(now) == PlayAll(config, w, calls[..i])
    {
      assert calls[..i + 1][..i] == calls[..i];
      ghost var v := r.View(now);
      assert forall k :: 0 <= k < |r.cache.nodes| ==> r.cache.nodes[k] in r.cache.nodes;
      now := OneCall(r, calls[i], now);
      ReachesThen(config, w, v, r.View(now), true);
    }
    assert calls[..|calls|] == calls;
    CalmRun(config, w, r.View(now));
  }

  /** What whole runs keep, for a state they reach. */
  lemma CalmRun(c: Config, w: World, v: World)
    requires Initial(w) && Reaches(c, w, v, true) && v.pc == Idle
    ensures forall ip: Ip ::
              multiset(QueuedFor(v.log, ip)) ==
              multiset(PacketsOf(v.requests, ip)) + multiset(FlushedFor(v.log, ip)) + multiset(RetiredFor(v.log, ip))
    ensures forall ip: Ip :: Sends(v.log, ip) <= MAX_SENDS
    ensures LastInFirstOut(v.log) && Paced(v.log)
  {
    hide Exec, Undisturbed, Sends, QueuedFor, FlushedFor, RetiredFor, PacketsOf, LastInFirstOut, Paced;
    var steps :| Exec(c, w, steps) == v && Undisturbed(c, w, steps);
    forall ip: Ip
      ensures multiset(QueuedFor(v.log, ip)) ==
              multiset(PacketsOf(v.requests, ip)) + multiset(FlushedFor(v.log, ip)) + multiset(RetiredFor(v.log, ip))
      ensures Sends(v.log, ip) <= MAX_SENDS
    {
      PacketsAreConserved(c, w, steps, ip);
      AtMostFiveSends(c, w, steps, ip);
    }
    PacketsAreConserved(c, w, steps, [0, 0, 0, 0]);
    AtMostFiveSends(c, w, steps, [0, 0, 0, 0]);
  }

  /** What becomes of the state once a frame's action is known. */
  function Perform(c: Config, w: World, a: Action): World {
    match a
    case Drop => w
    case Emit(out) => w.(log := w.log + [Direct(out)])
    case Learn(ip, mac) => Settle(c, LearnStep(w, ip, mac))
    case Resolve(nextHop, frame, iface) =>
      if |frame| < ETH_LEN then w else Settle(c, LookupStep(w, nextHop, frame, iface))
  }

  lemma PerformDrop(c: Config, w: World)
    ensures Perform(c, w, Drop) == w
  {
  }

  lemma PerformResolve(c: Config, w: World, nextHop: Ip, frame: Frame, iface: Interface)
    requires |frame| >= ETH_LEN
    ensures Perform(c, w, Resolve(nextHop, frame, iface)) == Settle(c, LookupStep(w, nextHop, frame, iface))
  {
  }

  lemma ReceiveIsPerform(c: Config, w: World, f: Frame, name: Name)
    requires w.pc == Idle && Receivable(c, f, name)
    ensures Settle(c, ReceiveStep(c, w, f, name)) ==
            Perform(c, w.(log := w.log + [Arrived(f, name)]), Dispatch(c, f, name))
  {
    hide Dispatch, LookupStep, LearnStep, Settle;
    var w0 := w.(log := w.log + [Arrived(f, name)]);
    SettleIdle(c, w0);
    match Dispatch(c, f, name)
    case Emit(out) => SettleIdle(c, w0.(log := w0.log + [Direct(out)]));
    case _ =>
  }

  lemma SafeDespiteLog(c: Config, w: World, w': World)
    requires Safe(c, w) && w' == w.(log := w'.log)
    ensures Safe(c, w')
  {
  }

  lemma SettleIdle(c: Config, w: World)
    requires w.pc == Idle
    ensures Settle(c, w) == w
  {
  }

  lemma FlushablePackets(c: Config, w: World, ip: Ip)
    requires Safe(c, w) && Pending(w.requests, ip)
    ensures forall p :: p in PacketsOf(w.requests, ip) ==> |p.buf| >= 42 && ByName(c.ifaces, p.iface).Some?
  {
    assert RequestOk(c, w.requests[Find(w.requests, ip)]);
    assert forall p :: p in PacketsOf(w.requests, ip) ==> PacketOk(c, p);
  }

  lemma AfterMissPc(c: Config, w: World, ip: Ip, p: Packet)
    ensures AfterMiss(c, w.(pc := Missed(ip, p)), ip, p) == AfterMiss(c, w, ip, p)
  {
  }

  lemma StartOfChain(ns: seq<Node<Request>>, head: Node?<Request>)
    requires Chain(ns, head)
    ensures head == NodeAt(ns, 0)
  {
  }

  lemma NextInChain(done: seq<Node<Request>>, todo: seq<Node<Request>>, head: Node?<Request>)
    requires Chain(done + todo, head) && todo != []
    ensures todo[0].next == NodeAt(todo[1..], 0)
    ensures (done + todo)[|done|] == todo[0]
    ensures todo[0] !in done && todo[0] !in todo[1..]
  {
    var all := done + todo;
    assert all[|done|].next == NodeAt(all, |done| + 1);
    assert forall i :: 0 <= i < |done| ==> all[i] == done[i];
    assert forall i :: 1 <= i < |todo| ==> all[|done| + i] == todo[i];
  }

  lemma DropMiddle(done: seq<Node<Request>>, todo: seq<Node<Request>>)
    requires todo != []
    ensures Without(done + todo, |done|) == done + todo[1..]
    ensures done + [todo[0]] + todo[1..] == done + todo
  {
  }

  /** Part of the list is swept, part is still to do, and together they come to
      the sweep of the whole. */
  ghost predicate Progress(c: Config, table: seq<Entry>, all: seq<Request>, now: int,
                           done: seq<Request>, todo: seq<Request>, start: seq<Event>, log: seq<Event>)
  {
    && Quotable(all) && Quotable(todo)
    && done + SweepList(todo, now) == SweepList(all, now)
    && log + SweepEvents(c, table, todo, now) == start + SweepEvents(c, table, all, now)
  }

  lemma ProgressStart(c: Config, table: seq<Entry>, all: seq<Request>, now: int, start: seq<Event>)
    requires Quotable(all)
    ensures Values<Request>([]) == [] && Progress(c, table, all, now, [], all, start, start)
  {
  }

  lemma ProgressEnd(c: Config, table: seq<Entry>, all: seq<Request>, now: int, done: seq<Request>, start: seq<Event>, log: seq<Event>)
    requires Values<Request>([]) == [] && Quotable(all) && Progress(c, table, all, now, done, [], start, log)
    ensures done == SweepList(all, now) && log == start + SweepEvents(c, table, all, now)
  {
    assert done + [] == done && log + [] == log;
  }

  lemma ProgressStep(c: Config, table: seq<Entry>, all: seq<Request>, now: int,
                     done: seq<Request>, todo: seq<Request>, start: seq<Event>, log: seq<Event>)
    requires todo != [] && Progress(c, table, all, now, done, todo, start, log)
    ensures forall p :: p in todo[0].packets ==> |p.buf| >= 42
    ensures var s := Survivor(todo[0], now);
            Progress(c, table, all, now, done + (if s.Some? then [s.value] else []), todo[1..], start,
                     log + Doings(c, table, todo[0], now))
  {
    hide Doings, SweepList, SweepEvents, Survivor;
    var s, rest, events := Survivor(todo[0], now), SweepList(todo[1..], now), SweepEvents(c, table, todo[1..], now);
    var kept := if s.Some? then [s.value] else [];
    SweepUnfolds(c, table, todo, now);
    Regroup(done, kept, rest);
    Regroup(log, Doings(c, table, todo[0], now), events);
    assert forall i :: 0 <= i < |todo[1..]| ==> todo[1..][i] == todo[i + 1];
  }

  lemma SweepUnfolds(c: Config, table: seq<Entry>, rs: seq<Request>, now: int)
    requires rs != [] && Quotable(rs)
    ensures SweepList(rs, now) ==
            (if Survivor(rs[0], now).Some? then [Survivor(rs[0], now).value] else []) + SweepList(rs[1..], now)
    ensures Quotable(rs[1..]) && forall p :: p in rs[0].packets ==> |p.buf| >= 42
    ensures SweepEvents(c, table, rs, now) == Doings(c, table, rs[0], now) + SweepEvents(c, table, rs[1..], now)
  {
    hide Doings, Survivor;
  }

  lemma Regroup<T>(a: seq<T>, b: seq<T>, c: seq<T>)
    ensures a + (b + c) == a + b + c
  {
  }
}
