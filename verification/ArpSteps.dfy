/**
 Each step of the machine, said about one address or one slot at a time and with
 the numbers of the source: 100 slots, 15 seconds, one second, five sends.
 */
module ArpSteps {
  import opened Bytes
  import opened Routing
  import opened Frames
  import opened Octets
  import opened ArpMachine
  import opened ArpSafety
  import opened ArpHistory
  import opened ArpRetry
  import opened ArpTraffic

  // ---------------------------------------------------------------------
  // The tick
  // ---------------------------------------------------------------------

  /** An entry survives a tick as it is while it is at most 15 seconds old. */
  lemma TickEntry(c: Config, w: World, i: nat)
    requires Safe(c, w) && i < 100
    ensures var w', e := Apply(c, w, Tick), w.entries[i];
            && |w.entries| == 100 && |w'.entries| == 100
            && w'.entries[i] == if !e.valid || w.now - e.added <= 15 then e else Entry(e.mac, e.ip, e.added, false)
  {
    hide SweepList, SweepEvents;
    OkIsQuotable(c, w.requests);
  }

  /** A tick leaves a request alone within a second of its last send, repeats it
      below five sends, and destroys it at five; it opens none. */
  lemma TickRequest(c: Config, w: World, ip: Ip)
    requires Safe(c, w)
    ensures var w' := Apply(c, w, Tick);
            if !Pending(w.requests, ip) then !Pending(w'.requests, ip) && Sends(w'.log, ip) == Sends(w.log, ip)
            else
              var r := RequestFor(w.requests, ip);
              if w.now - r.sent < 1 then
                Pending(w'.requests, ip) && RequestFor(w'.requests, ip) == r && Sends(w'.log, ip) == Sends(w.log, ip)
              else if r.timesSent < 5 then
                && Pending(w'.requests, ip)
                && RequestFor(w'.requests, ip) == Request(ip, w.now, r.timesSent + 1, r.packets)
                && Sends(w'.log, ip) == Sends(w.log, ip) + 1
              else !Pending(w'.requests, ip) && Sends(w'.log, ip) == Sends(w.log, ip)
  {
    hide SweepList, SweepEvents, Expire, Sends;
    OkIsQuotable(c, w.requests);
    SweepFind(c, w.requests, w.now, ip);
    SweepAsks(c, Expire(w.entries, w.now), w.requests, w.now, w.log, ip);
  }

  lemma {:induction false} RetireHas(c: Config, entries: seq<Entry>, ip: Ip, ps: seq<Packet>, j: nat)
    requires (forall p :: p in ps ==> |p.buf| >= 42) && j < |ps|
    ensures j < |Retire(c, entries, ip, ps)| && Retire(c, entries, ip, ps)[j] == Retired(ip, ps[j], Notice(c, entries, ps[j]))
  {
    hide Notice;
    if j > 0 {
      RetireHas(c, entries, ip, ps[1..], j - 1);
    }
  }

  lemma {:induction false} SweepHas(c: Config, entries: seq<Entry>, rs: seq<Request>, now: int, i: nat, e: Event)
    requires Quotable(rs) && i < |rs| && e in Doings(c, entries, rs[i], now)
    ensures e in SweepEvents(c, entries, rs, now)
  {
    hide Doings;
    if i > 0 {
      SweepHas(c, entries, rs[1..], now, i - 1, e);
    }
  }

  lemma NoticeIff(c: Config, entries: seq<Entry>, p: Packet)
    requires |p.buf| >= 42 && ByName(c.ifaces, p.iface).Some?
    ensures Notice(c, entries, p).Some? <==>
            exists r: Route, out: Interface, hop: Ip ::
              Routed(c, p.buf[26..30], r, out) && GoesTo(r, p.buf[26..30], hop) && Cached(entries, hop)
  {
    hide RouteTo, HostUnreachable, Lookup, Fill, Cached, NextHop, Routed, GoesTo;
    var back := p.buf[26..30];
    RouteToMeans(c, back);
    if RouteTo(c, back).Some? {
      var (r, out) := RouteTo(c, back).value;
      NextHopOctets(r, back);
      forall r': Route, out': Interface, hop: Ip | Routed(c, back, r', out') && GoesTo(r', back, hop)
        ensures hop == NextHop(r, back)
      {
        RoutedOnce(c, back, r, out, r', out');
        GoesOnce(r, back, hop, NextHop(r, back));
      }
    }
  }

  lemma RoutedOnce(c: Config, dst: Ip, r: Route, out: Interface, r': Route, out': Interface)
    requires Routed(c, dst, r, out) && Routed(c, dst, r', out')
    ensures r == r' && out == out'
  {
  }

  lemma GoesOnce(r: Route, dst: Ip, a: Ip, b: Ip)
    requires GoesTo(r, dst, a) && GoesTo(r, dst, b)
    ensures a == b
  {
  }

  /** A request that a tick destroys gives up each of its packets, with a notice
      exactly when there is a route back with an interface whose next hop is in the
      table as the tick leaves it. */
  lemma TickNotices(c: Config, w: World, ip: Ip, p: Packet)
    requires Safe(c, w) && Pending(w.requests, ip) && p in RequestFor(w.requests, ip).packets
    requires w.now - RequestFor(w.requests, ip).sent >= 1 && RequestFor(w.requests, ip).timesSent >= 5
    ensures |p.buf| >= 42
    ensures var w' := Apply(c, w, Tick);
            exists notice: Option<Sent> ::
              && Retired(ip, p, notice) in w'.log[|w.log|..]
              && (notice.Some? <==>
                    exists r: Route, out: Interface, hop: Ip ::
                      Routed(c, p.buf[26..30], r, out) && GoesTo(r, p.buf[26..30], hop) && Cached(w'.entries, hop))
  {
    hide SweepList, SweepEvents, Expire, Notice, Retire, Routed, GoesTo, Cached, ByName;
    var i, entries := Find(w.requests, ip), Expire(w.entries, w.now);
    var r := w.requests[i];
    OkIsQuotable(c, w.requests);
    assert RequestOk(c, r);
    assert PacketOk(c, p);
    var j :| 0 <= j < |r.packets| && r.packets[j] == p;
    RetireHas(c, entries, ip, r.packets, j);
    SweepHas(c, entries, w.requests, w.now, i, Retired(ip, p, Notice(c, entries, p)));
    NoticeIff(c, entries, p);
    assert Apply(c, w, Tick).log[|w.log|..] == SweepEvents(c, entries, w.requests, w.now);
  }

  /** Nothing else happens in a tick. */
  lemma TickRest(c: Config, w: World)
    requires Safe(c, w)
    ensures var w' := Apply(c, w, Tick); w'.pc == w.pc && w'.now == w.now && w'.lastTick == w.now && w.log <= w'.log
  {
    hide SweepList, SweepEvents, Expire;
    OkIsQuotable(c, w.requests);
  }

  // ---------------------------------------------------------------------
  // The packet thread
  // ---------------------------------------------------------------------

  /** What a received frame leads to, for each decision about it. */
  lemma ReceiveDoes(c: Config, w: World, f: Frame, name: Name)
    requires Safe(c, w) && w.pc == Idle && Receivable(c, f, name)
    ensures var w', arrived := Apply(c, w, Receive(f, name)), w.log + [Arrived(f, name)];
            match Dispatch(c, f, name)
            case Drop => w' == w.(log := arrived)
            case Emit(out) => w' == w.(log := arrived + [Direct(out)])
            case Learn(ip, mac) =>
              && w'.log == arrived + [Learned(ip, mac, w.now)] && w'.now == w.now && w'.lastTick == w.lastTick
              && w'.pc == if Pending(w.requests, ip) then Flushing(ip, mac, RequestFor(w.requests, ip).packets) else Idle
            case Resolve(hop, frame, iface) =>
              if Cached(w.entries, hop) then
                exists i, out: Sent ::
                  && 0 <= i < |w.entries| && w.entries[i].valid && w.entries[i].ip == hop
                  && (forall j :: i < j < |w.entries| ==> !(w.entries[j].valid && w.entries[j].ip == hop))
                  && w' == w.(log := arrived + [Direct(out)])
                  && out.iface == iface.name && IsFilled(out.frame, frame, w.entries[i].mac, iface.mac)
              else
                exists p: Packet ::
                  w' == w.(log := arrived, pc := Missed(hop, p)) && p.iface == iface.name && IsStamped(p.buf, frame, iface.mac)
  {
    hide Dispatch, Receivable, Fill, Stamp, Insert, Unlink, IsFilled, IsStamped, Lookup;
    DispatchIsResolvable(c, f, name);
    match Dispatch(c, f, name)
    case Resolve(hop, frame, iface) =>
      match Lookup(w.entries, hop) {
        case None =>
          StampOctets(frame, iface.mac);
          var p := Packet(Stamp(frame, iface.mac), iface.name);
          assert Apply(c, w, Receive(f, name)) == w.(log := w.log + [Arrived(f, name)], pc := Missed(hop, p));
        case Some(e) =>
          var i := LastAt(w.entries, hop);
          FillOctets(frame, e.mac, iface.mac);
          var out := Sent(Fill(frame, e.mac, iface.mac), iface.name);
          assert Apply(c, w, Receive(f, name)) == w.(log := w.log + [Arrived(f, name)] + [Direct(out)]);
      }
    case _ =>
  }

  lemma {:induction false} LastAt(entries: seq<Entry>, ip: Ip) returns (i: nat)
    requires Cached(entries, ip)
    ensures i < |entries| && entries[i].valid && entries[i].ip == ip && Lookup(entries, ip) == Some(entries[i])
    ensures forall j :: i < j < |entries| ==> !(entries[j].valid && entries[j].ip == ip)
  {
    var n := |entries| - 1;
    if Holds(entries[n], ip) {
      i := n;
    } else {
      i := LastAt(entries[..n], ip);
    }
  }

  /** A learned address takes the first free slot, if there is one, and its request
      out of the list; no other slot and no other request changes. */
  lemma LearnDoes(c: Config, w: World, f: Frame, name: Name, i: nat, other: Ip)
    requires Safe(c, w) && w.pc == Idle && Receivable(c, f, name) && Dispatch(c, f, name).Learn? && i < |w.entries|
    ensures var w', a := Apply(c, w, Receive(f, name)), Dispatch(c, f, name);
            && |w'.entries| == |w.entries|
            && w'.entries[i] == (if !w.entries[i].valid && (forall j :: 0 <= j < i ==> w.entries[j].valid)
                                 then Entry(a.mac, a.ip, w.now, true) else w.entries[i])
            && (Pending(w'.requests, other) <==> other != a.ip && Pending(w.requests, other))
            && (Pending(w'.requests, other) ==> RequestFor(w'.requests, other) == RequestFor(w.requests, other))
  {
    hide Dispatch, Receivable, Unlink;
    UnlinkKeeps(c, w.requests, Dispatch(c, f, name).ip, other);
  }

  lemma UnlinkKeeps(c: Config, rs: seq<Request>, ip: Ip, other: Ip)
    requires RequestsOk(c, rs)
    ensures Pending(Unlink(rs, ip), other) <==> other != ip && Pending(rs, other)
    ensures Pending(Unlink(rs, ip), other) ==> RequestFor(Unlink(rs, ip), other) == RequestFor(rs, other)
  {
    UnlinkOk(c, rs, ip);
    UnlinkFind(c, rs, ip, other);
    PendingIff(rs, other);
    PendingIff(Unlink(rs, ip), other);
    var k := Find(rs, ip);
    if other != ip && Pending(rs, other) {
      var i := Find(rs, other);
      if k < |rs| {
        assert Unlink(rs, ip)[if i < k then i else i - 1] == rs[i];
      }
    }
  }

  /** After a miss: the packet goes to the head of the request for its next hop,
      which is opened if there is none; no other request changes. */
  lemma QueueDoes(c: Config, w: World, stale: bool, other: Ip)
    requires Safe(c, w) && w.pc.Missed?
    ensures var w', ip, p := Apply(c, w, Proceed(stale)), w.pc.ip, w.pc.packet;
            && w'.entries == w.entries && w'.now == w.now && w'.pc == Holding(ip, p.iface)
            && w'.log == w.log + (if Pending(w.requests, ip) then [] else [Opened(ip)]) + [Enqueued(ip, p)]
            && Pending(w'.requests, ip)
            && RequestFor(w'.requests, ip) ==
               (if Pending(w.requests, ip)
                then var r := RequestFor(w.requests, ip); Request(ip, r.sent, r.timesSent, [p] + r.packets)
                else Request(ip, 0, 0, [p]))
            && (other != ip ==> (Pending(w'.requests, other) <==> Pending(w.requests, other)))
            && (other != ip && Pending(w.requests, other) ==> RequestFor(w'.requests, other) == RequestFor(w.requests, other))
  {
    var ip, p, i := w.pc.ip, w.pc.packet, Find(w.requests, w.pc.ip);
    if i < |w.requests| {
      var r := w.requests[i].(packets := [p] + w.requests[i].packets);
      UpdateFind(w.requests, i, r, other);
      UpdateFind(w.requests, i, r, ip);
    } else {
      RequestForCons(Request(ip, 0, 0, [p]), w.requests, other);
      RequestForCons(Request(ip, 0, 0, [p]), w.requests, ip);
    }
  }

  /** The test: go on to send if the count is 0, or if a freed count reads as 0. */
  lemma TestDoes(c: Config, w: World, stale: bool)
    requires w.pc.Holding?
    ensures var unsent := if Pending(w.requests, w.pc.ip) then RequestFor(w.requests, w.pc.ip).timesSent == 0 else stale;
            Apply(c, w, Proceed(stale)) == w.(pc := if unsent then Sending(w.pc.ip, w.pc.iface) else Idle)
  {
  }

  /** The first send: one ARP request for the next hop, by the interface of the
      packet; nothing else changes. */
  lemma SendDoes(c: Config, w: World, stale: bool)
    requires Safe(c, w) && w.pc.Sending?
    ensures var i := ByName(c.ifaces, w.pc.iface);
            && i.Some?
            && exists out: Sent ::
                 && Apply(c, w, Proceed(stale)) == w.(pc := Marking(w.pc.ip), log := w.log + [Asked(w.pc.ip, w.now, out)])
                 && out.iface == w.pc.iface && IsRequest(out.frame, i.value, w.pc.ip)
  {
    hide ArpRequest, IsRequest;
    var i := ByName(c.ifaces, w.pc.iface).value;
    RequestOctets(i, w.pc.ip);
    var out := Sent(ArpRequest(i, w.pc.ip), w.pc.iface);
    assert Apply(c, w, Proceed(stale)) == w.(pc := Marking(w.pc.ip), log := w.log + [Asked(w.pc.ip, w.now, out)]);
  }

  /** The two writes: the time, and 1; no other request changes. */
  lemma MarkDoes(c: Config, w: World, stale: bool, other: Ip)
    requires Safe(c, w) && w.pc.Marking?
    ensures var w', ip := Apply(c, w, Proceed(stale)), w.pc.ip;
            && w'.entries == w.entries && w'.now == w.now && w'.log == w.log && w'.pc == Idle
            && (Pending(w'.requests, other) <==> Pending(w.requests, other))
            && (Pending(w.requests, other) ==>
                  var r := RequestFor(w.requests, other);
                  RequestFor(w'.requests, other) == if other == ip then Request(ip, w.now, 1, r.packets) else r)
  {
    var i := Find(w.requests, w.pc.ip);
    if i < |w.requests| {
      UpdateFind(w.requests, i, w.requests[i].(sent := w.now, timesSent := 1), other);
    }
  }

  /** The flush: the packet at the head is sent by its own interface under the
      address just learned, until none is left. */
  lemma FlushDoes(c: Config, w: World, stale: bool)
    requires Safe(c, w) && w.pc.Flushing?
    ensures var w', ip, mac, rest := Apply(c, w, Proceed(stale)), w.pc.ip, w.pc.mac, w.pc.rest;
            if rest == [] then w' == w.(pc := Idle)
            else
              && ByName(c.ifaces, rest[0].iface).Some?
              && exists out: Sent ::
                   && w' == w.(pc := Flushing(ip, mac, rest[1..]), log := w.log + [Flushed(ip, rest[0], out)])
                   && out.iface == rest[0].iface
                   && IsFilled(out.frame, rest[0].buf, mac, ByName(c.ifaces, rest[0].iface).value.mac)
  {
    hide Fill, IsFilled;
    if w.pc.rest != [] {
      var p := w.pc.rest[0];
      assert PacketOk(c, p);
      var i := ByName(c.ifaces, p.iface).value;
      FillOctets(p.buf, w.pc.mac, i.mac);
      var out := Sent(Fill(p.buf, w.pc.mac, i.mac), p.iface);
      assert Apply(c, w, Proceed(stale)) ==
             w.(pc := Flushing(w.pc.ip, w.pc.mac, w.pc.rest[1..]), log := w.log + [Flushed(w.pc.ip, p, out)]);
    }
  }
}
