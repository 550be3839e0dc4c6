/**
 What the router transmits and what it believes: every frame handed to
 `sr_send_packet` passes its source-address check, every queued packet stems
 from a frame that arrived, every flush uses the address last learned, and
 every address in the table was learned recently.
 */
module ArpTraffic {
  import opened Bytes
  import opened Routing
  import opened Checksum
  import opened Frames
  import opened Octets
  import opened ArpMachine
  import opened ArpSafety

  // ---------------------------------------------------------------------
  // One event at a time
  // ---------------------------------------------------------------------

  /** The transmission an event stands for, if any, passes the check. */
  ghost predicate Clean(c: Config, e: Event) {
    match e
    case Direct(out) => Accepted(c, out)
    case Asked(_, _, out) => Accepted(c, out)
    case Flushed(_, _, out) => Accepted(c, out)
    case Retired(_, _, notice) => notice.Some? ==> Accepted(c, notice.value)
    case _ => true
  }

  /** The queued packet is what some arrived frame asked to have resolved. */
  ghost predicate Stems(c: Config, f: Frame, name: Name, ip: Ip, p: Packet) {
    && Receivable(c, f, name)
    && Dispatch(c, f, name).Resolve?
    && var a := Dispatch(c, f, name);
       a.nextHop == ip && p.iface == a.iface.name && IsStamped(p.buf, a.frame, a.iface.mac)
  }

  ghost predicate HasOrigin(c: Config, log: seq<Event>, ip: Ip, p: Packet) {
    exists i :: 0 <= i < |log| && log[i].Arrived? && Stems(c, log[i].frame, log[i].iface, ip, p)
  }

  /** The frame flushed is the packet with the addresses filled in. */
  ghost predicate FlushedWith(c: Config, p: Packet, mac: Mac, out: Sent) {
    && ByName(c.ifaces, p.iface).Some? && out.iface == p.iface
    && IsFilled(out.frame, p.buf, mac, ByName(c.ifaces, p.iface).value.mac)
  }

  /** The hardware address in the last reply for `ip`. */
  function LastLearned(log: seq<Event>, ip: Ip): Option<Mac> {
    if log == [] then None
    else
      var e := log[|log| - 1];
      if e.Learned? && e.ip == ip then Some(e.mac) else LastLearned(log[..|log| - 1], ip)
  }

  /** The packet is flushed under the address of the last reply for its next hop. */
  ghost predicate HasReply(c: Config, log: seq<Event>, ip: Ip, p: Packet, out: Sent) {
    LastLearned(log, ip).Some? && FlushedWith(c, p, LastLearned(log, ip).value, out)
  }

  ghost predicate Heard(log: seq<Event>, ip: Ip, mac: Mac) {
    exists at :: Learned(ip, mac, at) in log
  }

  /** The frame sent at once is the answer to the arrived frame, or what that frame
      asked to have resolved, under an address some reply gave for its next hop. */
  ghost predicate Answers(c: Config, log: seq<Event>, f: Frame, name: Name, out: Sent) {
    && Receivable(c, f, name)
    && match Dispatch(c, f, name)
       case Emit(o) => out == o
       case Resolve(nextHop, frame, iface) =>
         out.iface == iface.name && exists mac: Mac :: Heard(log, nextHop, mac) && IsFilled(out.frame, frame, mac, iface.mac)
       case _ => false
  }

  /** The packet queued last for `ip`. */
  function LastQueued(log: seq<Event>, ip: Ip): Option<Packet> {
    if log == [] then None
    else
      var e := log[|log| - 1];
      if e.Enqueued? && e.ip == ip then Some(e.packet) else LastQueued(log[..|log| - 1], ip)
  }

  /** An ARP request for `ip` by the interface of the packet queued last for it. */
  ghost predicate Requests(c: Config, log: seq<Event>, ip: Ip, out: Sent) {
    && LastQueued(log, ip).Some?
    && var i := ByName(c.ifaces, LastQueued(log, ip).value.iface);
       i.Some? && ByName(c.ifaces, out.iface) == i && IsRequest(out.frame, i.value, ip)
  }

  /** An ARP reply that gives `mac` for `ip`. */
  ghost predicate Teaches(f: Frame, ip: Ip, mac: Mac) {
    |f| >= 42 && f[12] == 0x08 && f[13] == 0x06 && f[20] == 0 && f[21] == 2 && f[28..32] == ip && f[22..28] == mac
  }

  /** A host-unreachable message to the sender of `p`, from the address of the
      interface `p` was to leave by, under an address some reply gave for the next
      hop of the route back; both its checksums verify. */
  ghost predicate Notifies(c: Config, log: seq<Event>, p: Packet, n: Sent) {
    && |p.buf| >= 42 && ByName(c.ifaces, p.iface).Some? && |n.frame| == 70
    && n.frame[12] == 0x08 && n.frame[13] == 0x00
    && Octets.IsError(n.frame, ByName(c.ifaces, p.iface).value.ip, p.buf[26..30], 3, 1, p.buf[14..42])
    && Verifies(n.frame[14..34]) && Verifies(n.frame[34..])
    && exists r: Route, out: Interface, hop: Ip ::
         && Routed(c, p.buf[26..30], r, out) && GoesTo(r, p.buf[26..30], hop)
         && Heard(log, hop, n.frame[0..6]) && n.frame[6..12] == out.mac && n.iface == out.name
  }

  /** Event `e`, appended to `log`, has its cause in `log`. */
  ghost predicate Caused(c: Config, log: seq<Event>, e: Event) {
    match e
    case Arrived(_, _) => true
    case Opened(_) => true
    case Direct(out) =>
      && log != [] && log[|log| - 1].Arrived?
      && Answers(c, log, log[|log| - 1].frame, log[|log| - 1].iface, out)
    case Learned(ip, mac, _) => log != [] && log[|log| - 1].Arrived? && Teaches(log[|log| - 1].frame, ip, mac)
    case Enqueued(ip, p) => HasOrigin(c, log, ip, p)
    case Asked(ip, _, out) => Requests(c, log, ip, out)
    case Flushed(ip, p, out) => HasReply(c, log, ip, p, out)
    case Retired(_, p, notice) => notice.Some? ==> Notifies(c, log, p, notice.value)
  }

  predicate NeedsNoCause(e: Event) {
    e.Arrived? || e.Opened?
  }

  lemma {:induction false} QueuedStays(log: seq<Event>, es: seq<Event>, ip: Ip)
    requires forall i :: 0 <= i < |es| ==> !es[i].Enqueued? || es[i].ip != ip
    ensures LastQueued(log + es, ip) == LastQueued(log, ip)
  {
    if es == [] {
      assert log + es == log;
    } else {
      var init := es[..|es| - 1];
      QueuedStays(log, init, ip);
      assert (log + es)[..|log + es| - 1] == log + init;
    }
  }

  lemma QueuedStep(log: seq<Event>, ip: Ip, p: Packet)
    ensures LastQueued(log + [Enqueued(ip, p)], ip) == Some(p)
  {
  }

  lemma HeardStays(log: seq<Event>, more: seq<Event>, ip: Ip, mac: Mac)
    requires Heard(log, ip, mac)
    ensures Heard(log + more, ip, mac)
  {
    var at :| Learned(ip, mac, at) in log;
    assert Learned(ip, mac, at) in log + more;
  }

  lemma {:induction false} LearnedStays(log: seq<Event>, es: seq<Event>, ip: Ip)
    requires forall i :: 0 <= i < |es| ==> !es[i].Learned?
    ensures LastLearned(log + es, ip) == LastLearned(log, ip)
  {
    if es == [] {
      assert log + es == log;
    } else {
      var init := es[..|es| - 1];
      LearnedStays(log, init, ip);
      assert (log + es)[..|log + es| - 1] == log + init;
    }
  }

  lemma OriginStays(c: Config, log: seq<Event>, more: seq<Event>, ip: Ip, p: Packet)
    requires HasOrigin(c, log, ip, p)
    ensures HasOrigin(c, log + more, ip, p)
  {
    hide Stems;
    var i :| 0 <= i < |log| && log[i].Arrived? && Stems(c, log[i].frame, log[i].iface, ip, p);
    assert (log + more)[i] == log[i];
  }

  // ---------------------------------------------------------------------
  // Whole logs
  // ---------------------------------------------------------------------

  ghost predicate AllClean(c: Config, log: seq<Event>) {
    forall i :: 0 <= i < |log| ==> Clean(c, log[i])
  }

  ghost predicate AllCaused(c: Config, log: seq<Event>) {
    forall i :: 0 <= i < |log| ==> Caused(c, log[..i], log[i])
  }

  /** What the packet thread carries also has its cause in the log. */
  ghost predicate PcCaused(c: Config, w: World) {
    match w.pc
    case Missed(ip, p) => HasOrigin(c, w.log, ip, p)
    case Holding(ip, iface) => LastQueued(w.log, ip).Some? && LastQueued(w.log, ip).value.iface == iface
    case Sending(ip, iface) => LastQueued(w.log, ip).Some? && LastQueued(w.log, ip).value.iface == iface
    case Flushing(ip, mac, _) => LastLearned(w.log, ip) == Some(mac)
    case _ => true
  }

  /** The packet at the head of each request is the one queued last. */
  ghost predicate Newest(rs: seq<Request>, log: seq<Event>) {
    forall i :: 0 <= i < |rs| && rs[i].packets != [] ==> LastQueued(log, rs[i].ip) == Some(rs[i].packets[0])
  }

  /** Events that need no cause extend a log freely. */
  lemma CausedExtends(c: Config, log: seq<Event>, es: seq<Event>)
    requires AllCaused(c, log)
    requires forall i :: 0 <= i < |es| ==> NeedsNoCause(es[i])
    ensures AllCaused(c, log + es)
  {
    hide HasOrigin, HasReply, Answers, Requests, Notifies, Teaches;
    forall i | 0 <= i < |log + es|
      ensures Caused(c, (log + es)[..i], (log + es)[i])
    {
      if i < |log| {
        assert (log + es)[..i] == log[..i];
      }
    }
  }

  /** What a sweep logs keeps its cause while the sweep goes on. */
  lemma SweepCauseStays(c: Config, log: seq<Event>, more: seq<Event>, e: Event)
    requires (e.Asked? || e.Retired?) && Caused(c, log, e)
    requires forall i :: 0 <= i < |more| ==> more[i].Asked? || more[i].Retired?
    ensures Caused(c, log + more, e)
  {
    hide Routed, GoesTo, Octets.IsError, Verifies, IsRequest, LastQueued, Heard;
    if e.Asked? {
      QueuedStays(log, more, e.ip);
    } else if e.notice.Some? {
      var n, back := e.notice.value, e.packet.buf[26..30];
      var r: Route, out: Interface, hop: Ip :|
        && Routed(c, back, r, out) && GoesTo(r, back, hop)
        && Heard(log, hop, n.frame[0..6]) && n.frame[6..12] == out.mac && n.iface == out.name;
      HeardStays(log, more, hop, n.frame[0..6]);
    }
  }

  lemma {:induction false} SweepExtends(c: Config, log: seq<Event>, es: seq<Event>)
    requires AllCaused(c, log)
    requires forall i :: 0 <= i < |es| ==> (es[i].Asked? || es[i].Retired?) && Caused(c, log, es[i])
    ensures AllCaused(c, log + es)
  {
    hide Caused;
    forall i | 0 <= i < |log + es|
      ensures Caused(c, (log + es)[..i], (log + es)[i])
    {
      if i < |log| {
        assert (log + es)[..i] == log[..i];
      } else {
        SweepCauseStays(c, log, es[..i - |log|], es[i - |log|]);
        assert (log + es)[..i] == log + es[..i - |log|];
      }
    }
  }

  lemma CausedStep(c: Config, log: seq<Event>, e: Event)
    requires AllCaused(c, log) && Caused(c, log, e)
    ensures AllCaused(c, log + [e])
  {
    hide Caused;
    forall i | 0 <= i <= |log|
      ensures Caused(c, (log + [e])[..i], (log + [e])[i])
    {
      assert (log + [e])[..i] == if i < |log| then log[..i] else log;
    }
  }

  // ---------------------------------------------------------------------
  // The sweep
  // ---------------------------------------------------------------------

  lemma NoticeClean(c: Config, entries: seq<Entry>, p: Packet)
    requires |p.buf| >= 42
    ensures Notice(c, entries, p).Some? ==> Accepted(c, Notice(c, entries, p).value)
  {
    hide RouteTo, HostUnreachable, Lookup, Fill;
    RouteToAgain(c, IpAt(p.buf, 26));
  }

  lemma {:induction false} RetireClean(c: Config, entries: seq<Entry>, ip: Ip, ps: seq<Packet>)
    requires forall p :: p in ps ==> |p.buf| >= 42
    ensures forall i :: 0 <= i < |Retire(c, entries, ip, ps)| ==>
              Clean(c, Retire(c, entries, ip, ps)[i]) && Retire(c, entries, ip, ps)[i].Retired?
  {
    hide Notice, Accepted;
    if ps != [] {
      NoticeClean(c, entries, ps[0]);
      RetireClean(c, entries, ip, ps[1..]);
    }
  }

  lemma DoingsClean(c: Config, entries: seq<Entry>, r: Request, now: int)
    requires forall p :: p in r.packets ==> |p.buf| >= 42
    ensures forall i :: 0 <= i < |Doings(c, entries, r, now)| ==>
              Clean(c, Doings(c, entries, r, now)[i])
              && (Doings(c, entries, r, now)[i].Retired? || Doings(c, entries, r, now)[i].Asked?)
  {
    hide ArpRequest, Retire;
    RetireClean(c, entries, r.ip, r.packets);
    if r.packets != [] && ByName(c.ifaces, r.packets[0].iface).Some? {
      ByNameAgain(c.ifaces, r.packets[0].iface);
    }
  }

  lemma {:induction false} SweepClean(c: Config, entries: seq<Entry>, rs: seq<Request>, now: int)
    requires Quotable(rs)
    ensures forall i :: 0 <= i < |SweepEvents(c, entries, rs, now)| ==>
              Clean(c, SweepEvents(c, entries, rs, now)[i])
              && (SweepEvents(c, entries, rs, now)[i].Retired? || SweepEvents(c, entries, rs, now)[i].Asked?)
  {
    hide Doings, Clean;
    if rs != [] {
      DoingsClean(c, entries, rs[0], now);
      SweepClean(c, entries, rs[1..], now);
    }
  }

  /** Every valid entry was heard of. */
  ghost predicate AllHeard(log: seq<Event>, entries: seq<Entry>) {
    forall i :: 0 <= i < |entries| && entries[i].valid ==> Heard(log, entries[i].ip, entries[i].mac)
  }

  lemma NoticeCaused(c: Config, entries: seq<Entry>, p: Packet, log: seq<Event>)
    requires |p.buf| >= 42 && AllHeard(log, entries) && Notice(c, entries, p).Some?
    ensures Notifies(c, log, p, Notice(c, entries, p).value)
  {
    hide RouteTo, HostUnreachable, Lookup, Fill, Routed, NextHop, GoesTo, Octets.IsError, Verifies, Heard;
    var back, via, n := p.buf[26..30], ByName(c.ifaces, p.iface).value, Notice(c, entries, p).value;
    var (r, out) := RouteTo(c, back).value;
    var hop := NextHop(r, back);
    RouteToMeans(c, back);
    NextHopOctets(r, back);
    var e := Lookup(entries, hop).value;
    assert Heard(log, hop, e.mac);
    var h := HostUnreachable(via.ip, p.buf);
    UnreachableOctets(via.ip, p.buf);
    HostUnreachableVerifies(via.ip, p.buf);
    FillOctets(h, e.mac, out.mac);
    SameBeyond(h, n.frame, via.ip, back, p.buf[14..42]);
  }

  /** Filling in the Ethernet header leaves the message as it was. */
  lemma SameBeyond(h: Frame, g: Frame, from: Ip, to: Ip, quote: seq<Byte>)
    requires |h| == |g| == 70 && g[14..] == h[14..] && Octets.IsError(h, from, to, 3, 1, quote)
    requires Verifies(h[14..34]) && Verifies(h[34..])
    ensures Octets.IsError(g, from, to, 3, 1, quote) && Verifies(g[14..34]) && Verifies(g[34..])
  {
    hide Verifies;
    forall i | 14 <= i < 70
      ensures g[i] == h[i]
    {
      assert g[i] == g[14..][i - 14] && h[i] == h[14..][i - 14];
    }
    assert g[14..34] == h[14..34] && g[34..] == h[34..] && g[14..24] == h[14..24];
    assert g[26..30] == h[26..30] && g[30..34] == h[30..34] && g[38..42] == h[38..42] && g[42..70] == h[42..70];
  }

  lemma {:induction false} RetireCaused(c: Config, entries: seq<Entry>, ip: Ip, ps: seq<Packet>, log: seq<Event>)
    requires (forall p :: p in ps ==> |p.buf| >= 42) && AllHeard(log, entries)
    ensures forall i :: 0 <= i < |Retire(c, entries, ip, ps)| ==> Caused(c, log, Retire(c, entries, ip, ps)[i])
  {
    hide Notice, AllHeard, Notifies;
    if ps != [] {
      if Notice(c, entries, ps[0]).Some? {
        NoticeCaused(c, entries, ps[0], log);
      }
      RetireCaused(c, entries, ip, ps[1..], log);
    }
  }

  lemma AskCaused(c: Config, r: Request, now: int, log: seq<Event>)
    requires r.packets != [] ==> LastQueued(log, r.ip) == Some(r.packets[0])
    ensures forall i :: 0 <= i < |Ask(c, r, now)| ==> Caused(c, log, Ask(c, r, now)[i])
  {
    hide ArpRequest, IsRequest, LastQueued;
    if r.packets != [] && ByName(c.ifaces, r.packets[0].iface).Some? {
      ByNameAgain(c.ifaces, r.packets[0].iface);
      RequestOctets(ByName(c.ifaces, r.packets[0].iface).value, r.ip);
    }
  }

  lemma {:induction false} SweepCaused(c: Config, entries: seq<Entry>, rs: seq<Request>, now: int, log: seq<Event>)
    requires Quotable(rs) && AllHeard(log, entries) && Newest(rs, log)
    ensures forall i :: 0 <= i < |SweepEvents(c, entries, rs, now)| ==> Caused(c, log, SweepEvents(c, entries, rs, now)[i])
  {
    hide Retire, Ask, Caused, AllHeard, LastQueued;
    if rs != [] {
      RetireCaused(c, entries, rs[0].ip, rs[0].packets, log);
      AskCaused(c, rs[0], now, log);
      SweepCaused(c, entries, rs[1..], now, log);
    }
  }

  lemma {:induction false} SweepNewest(rs: seq<Request>, now: int, log: seq<Event>)
    requires Newest(rs, log)
    ensures Newest(SweepList(rs, now), log)
  {
    hide LastQueued;
    if rs != [] {
      SweepNewest(rs[1..], now, log);
    }
  }

  lemma NewestStays(rs: seq<Request>, log: seq<Event>, es: seq<Event>)
    requires Newest(rs, log) && forall i :: 0 <= i < |es| ==> !es[i].Enqueued?
    ensures Newest(rs, log + es)
  {
    hide LastQueued;
    forall i | 0 <= i < |rs| && rs[i].packets != []
      ensures LastQueued(log + es, rs[i].ip) == Some(rs[i].packets[0])
    {
      QueuedStays(log, es, rs[i].ip);
    }
  }

  // ---------------------------------------------------------------------
  // Every step keeps the log caused
  // ---------------------------------------------------------------------

  ghost predicate Traced(c: Config, w: World) {
    AllCaused(c, w.log) && PcCaused(c, w) && Newest(w.requests, w.log)
  }

  /** Events that queue nothing and teach nothing keep what the packet thread has. */
  lemma PcStays(c: Config, w: World, w': World, es: seq<Event>)
    requires PcCaused(c, w) && w'.log == w.log + es && w'.pc == w.pc
    requires forall i :: 0 <= i < |es| ==> !es[i].Enqueued? && !es[i].Learned?
    ensures PcCaused(c, w')
  {
    hide HasOrigin, LastQueued, LastLearned;
    match w.pc
    case Missed(ip, p) => OriginStays(c, w.log, es, ip, p);
    case Holding(ip, _) => QueuedStays(w.log, es, ip);
    case Sending(ip, _) => QueuedStays(w.log, es, ip);
    case Flushing(ip, _, _) => LearnedStays(w.log, es, ip);
    case _ =>
  }

  lemma TickTraced(c: Config, w: World)
    requires Traced(c, w) && Grounds(w) && Quotable(w.requests)
    ensures Traced(c, TickStep(c, w))
  {
    hide SweepEvents, SweepList, Expire, Clean, AllCaused, Caused, PcCaused, Newest, Heard;
    var entries := Expire(w.entries, w.now);
    var es := SweepEvents(c, entries, w.requests, w.now);
    ExpiredHeard(w);
    SweepClean(c, entries, w.requests, w.now);
    SweepCaused(c, entries, w.requests, w.now, w.log);
    SweepExtends(c, w.log, es);
    PcStays(c, w, TickStep(c, w), es);
    SweepNewest(w.requests, w.now, w.log);
    NewestStays(SweepList(w.requests, w.now), w.log, es);
  }

  lemma ExpiredHeard(w: World)
    requires Grounds(w)
    ensures AllHeard(w.log, Expire(w.entries, w.now))
  {
    var entries := Expire(w.entries, w.now);
    forall i | 0 <= i < |entries| && entries[i].valid
      ensures Heard(w.log, entries[i].ip, entries[i].mac)
    {
      assert Grounded(w, w.entries[i]);
      assert Learned(entries[i].ip, entries[i].mac, entries[i].added) in w.log;
    }
  }

  lemma LookupTraced(c: Config, w: World, f: Frame, name: Name)
    requires Traced(c, w) && Grounds(w) && w.pc == Idle && w.log != [] && w.log[|w.log| - 1] == Arrived(f, name)
    requires Receivable(c, f, name) && Dispatch(c, f, name).Resolve?
    ensures var a := Dispatch(c, f, name);
            |a.frame| >= 42 && Traced(c, LookupStep(w, a.nextHop, a.frame, a.iface))
  {
    hide Dispatch, Receivable, Lookup, Fill, Stamp, AllCaused, Newest, IsFilled, IsStamped;
    DispatchIsResolvable(c, f, name);
    var a := Dispatch(c, f, name);
    match Lookup(w.entries, a.nextHop)
    case None =>
      StampOctets(a.frame, a.iface.mac);
      assert Stems(c, w.log[|w.log| - 1].frame, w.log[|w.log| - 1].iface, a.nextHop,
                   Packet(Stamp(a.frame, a.iface.mac), a.iface.name));
    case Some(e) =>
      assert Grounded(w, e);
      assert Heard(w.log, a.nextHop, e.mac);
      FillOctets(a.frame, e.mac, a.iface.mac);
      var direct := Direct(Sent(Fill(a.frame, e.mac, a.iface.mac), a.iface.name));
      CausedStep(c, w.log, direct);
      NewestStays(w.requests, w.log, [direct]);
  }

  lemma LearnTraced(c: Config, w: World, f: Frame, name: Name, ip: Ip, mac: Mac)
    requires Traced(c, w) && w.pc == Idle && w.log != [] && w.log[|w.log| - 1] == Arrived(f, name) && Teaches(f, ip, mac)
    ensures Traced(c, LearnStep(w, ip, mac))
  {
    hide Insert, PacketsOf, AllCaused, Teaches, LastQueued;
    CausedStep(c, w.log, Learned(ip, mac, w.now));
    NewestStays(w.requests, w.log, [Learned(ip, mac, w.now)]);
  }

  lemma LearnTeaches(c: Config, f: Frame, name: Name)
    requires Receivable(c, f, name) && Dispatch(c, f, name).Learn?
    ensures Teaches(f, Dispatch(c, f, name).ip, Dispatch(c, f, name).mac)
  {
    hide HandleIp, ByName, ByIp, ArpReply;
    if |f| >= 14 && U16At(f, 12) == 0x0800 {
      HandleIpNeverLearns(c, f, name);
    }
  }

  lemma HandleIpNeverLearns(c: Config, f: Frame, name: Name)
    requires |f| >= IP_MIN ==> Readable(f)
    requires ByName(c.ifaces, name).Some?
    ensures !HandleIp(c, f, name).Learn?
  {
    hide EchoReply, IcmpError, Hop, RouteTo, Lpm;
  }

  lemma EmitTraced(c: Config, w: World, f: Frame, name: Name)
    requires Traced(c, w) && w.pc == Idle && w.log != [] && w.log[|w.log| - 1] == Arrived(f, name)
    requires Receivable(c, f, name) && Dispatch(c, f, name).Emit?
    ensures Traced(c, w.(log := w.log + [Direct(Dispatch(c, f, name).out)]))
  {
    hide Dispatch, Receivable, AllCaused, Newest;
    CausedStep(c, w.log, Direct(Dispatch(c, f, name).out));
    NewestStays(w.requests, w.log, [Direct(Dispatch(c, f, name).out)]);
  }

  lemma ArrivalTraced(c: Config, w: World, f: Frame, name: Name)
    requires Traced(c, w) && w.pc == Idle
    ensures Traced(c, w.(log := w.log + [Arrived(f, name)]))
  {
    hide AllCaused, Newest;
    CausedExtends(c, w.log, [Arrived(f, name)]);
    NewestStays(w.requests, w.log, [Arrived(f, name)]);
  }

  lemma ReceiveTraced(c: Config, w: World, f: Frame, name: Name)
    requires Traced(c, w) && Grounds(w) && w.pc == Idle && Receivable(c, f, name)
    ensures Traced(c, ReceiveStep(c, w, f, name))
  {
    hide Dispatch, LearnStep, Receivable, LookupStep, Traced, Teaches;
    var w0 := w.(log := w.log + [Arrived(f, name)]);
    ArrivalTraced(c, w, f, name);
    match Dispatch(c, f, name)
    case Drop =>
    case Emit(out) => EmitTraced(c, w0, f, name);
    case Learn(ip, mac) =>
      LearnTeaches(c, f, name);
      LearnTraced(c, w0, f, name, ip, mac);
    case Resolve(_, _, _) => LookupTraced(c, w0, f, name);
  }

  lemma QueueTraced(c: Config, w: World)
    requires Safe(c, w) && Traced(c, w) && w.pc.Missed?
    ensures Traced(c, QueueStep(w, w.pc.ip, w.pc.packet))
  {
    hide HasOrigin, AllCaused, LastQueued;
    var w', ip, p := QueueStep(w, w.pc.ip, w.pc.packet), w.pc.ip, w.pc.packet;
    var mid := w.log + if Pending(w.requests, ip) then [] else [Opened(ip)];
    CausedExtends(c, w.log, mid[|w.log|..]);
    OriginStays(c, w.log, mid[|w.log|..], ip, p);
    CausedStep(c, mid, Enqueued(ip, p));
    QueuedStep(mid, ip, p);
    NewestStays(w.requests, w.log, mid[|w.log|..]);
    forall i | 0 <= i < |w'.requests| && w'.requests[i].packets != []
      ensures LastQueued(w'.log, w'.requests[i].ip) == Some(w'.requests[i].packets[0])
    {
      if w'.requests[i].ip != ip {
        QueuedStays(mid, [Enqueued(ip, p)], w'.requests[i].ip);
      }
    }
  }

  lemma SendTraced(c: Config, w: World)
    requires Safe(c, w) && Traced(c, w) && w.pc.Sending?
    ensures Traced(c, SendStep(c, w, w.pc.ip, w.pc.iface))
  {
    hide ArpRequest, AllCaused, Newest, LastQueued, IsRequest;
    var ip, i := w.pc.ip, ByName(c.ifaces, w.pc.iface).value;
    var e := Asked(ip, w.now, Sent(ArpRequest(i, ip), w.pc.iface));
    RequestOctets(i, ip);
    CausedStep(c, w.log, e);
    NewestStays(w.requests, w.log, [e]);
  }

  lemma MarkTraced(c: Config, w: World)
    requires Traced(c, w) && w.pc.Marking?
    ensures Traced(c, w.(requests := Mark(w.requests, w.pc.ip, w.now), pc := Idle))
  {
    hide AllCaused, LastQueued;
  }

  lemma FlushTraced(c: Config, w: World)
    requires Traced(c, w) && w.pc.Flushing?
    ensures Traced(c, FlushStep(c, w, w.pc.ip, w.pc.mac, w.pc.rest))
  {
    hide Fill, AllCaused, HasOrigin, Newest, IsFilled;
    var rest := w.pc.rest;
    if rest != [] && ByName(c.ifaces, rest[0].iface).Some? && |rest[0].buf| >= ETH_LEN {
      var iface := ByName(c.ifaces, rest[0].iface).value;
      var e := Flushed(w.pc.ip, rest[0], Sent(Fill(rest[0].buf, w.pc.mac, iface.mac), rest[0].iface));
      FillOctets(rest[0].buf, w.pc.mac, iface.mac);
      assert FlushedWith(c, rest[0], w.pc.mac, e.out);
      CausedStep(c, w.log, e);
      LearnedStays(w.log, [e], w.pc.ip);
      NewestStays(w.requests, w.log, [e]);
    }
  }

  lemma ProceedTraced(c: Config, w: World, stale: bool)
    requires Safe(c, w) && Traced(c, w)
    ensures Traced(c, ProceedStep(c, w, stale))
  {
    hide QueueStep, FlushStep, SendStep, Mark, AllCaused, Newest, LastQueued, Safe;
    match w.pc
    case Idle =>
    case Missed(_, _) => QueueTraced(c, w);
    case Holding(_, _) =>
    case Sending(_, _) => SendTraced(c, w);
    case Marking(_) => MarkTraced(c, w);
    case Flushing(_, _, _) => FlushTraced(c, w);
  }

  /** Where everything in the log comes from, over every run. A frame sent at once
      answers the frame that has just arrived, or is what that frame asked to have
      resolved under an address some reply gave. What is learned is what a reply
      said that has just arrived. A queued packet stems from an arrived frame, and
      leaves under the address of the last reply for its next hop. An ARP request
      asks for that next hop by the interface of the packet queued last. A notice
      goes to the sender of the packet it is about. */
  lemma {:induction false} AlwaysTraced(c: Config, w: World, steps: seq<Step>)
    requires Initial(w)
    ensures AllCaused(c, Exec(c, w, steps).log)
    ensures Traced(c, Exec(c, w, steps))
  {
    hide TickStep, ReceiveStep, ProceedStep, Receivable, AllCaused, Quotable, Grounds, Safe, Newest;
    if steps == [] {
      EmptyTraced(c, w);
    } else {
      var init, s := steps[..|steps| - 1], steps[|steps| - 1];
      var v := Exec(c, w, init);
      AlwaysTraced(c, w, init);
      AlwaysGrounds(c, w, init);
      AlwaysSafe(c, w, init);
      match s
      case Advance(d) =>
      case Tick =>
        if Quotable(v.requests) {
          TickTraced(c, v);
        }
      case Receive(f, name) =>
        if v.pc == Idle && Receivable(c, f, name) {
          ReceiveTraced(c, v, f, name);
        }
      case Proceed(stale) => ProceedTraced(c, v, stale);
    }
  }

  lemma EmptyTraced(c: Config, w: World)
    requires Initial(w)
    ensures Traced(c, w)
  {
  }

  // ---------------------------------------------------------------------
  // Every step sends only what passes the check
  // ---------------------------------------------------------------------

  /** What is new in `log'` passes the check. */
  ghost predicate CleanSince(c: Config, log: seq<Event>, log': seq<Event>) {
    log <= log' && forall i :: |log| <= i < |log'| ==> Clean(c, log'[i])
  }

  lemma TickClean(c: Config, w: World)
    requires Quotable(w.requests)
    ensures CleanSince(c, w.log, TickStep(c, w).log)
  {
    hide SweepEvents, SweepList, Expire, Clean;
    SweepClean(c, Expire(w.entries, w.now), w.requests, w.now);
  }

  lemma ReceiveClean(c: Config, w: World, f: Frame, name: Name)
    requires Receivable(c, f, name) && DistinctIps(c.ifaces)
    ensures CleanSince(c, w.log, ReceiveStep(c, w, f, name).log)
  {
    hide Dispatch, Receivable, Lookup, Fill, Stamp, Insert, Unlink, Accepted;
    DispatchIsAccepted(c, f, name);
    DispatchIsResolvable(c, f, name);
    match Dispatch(c, f, name)
    case Resolve(nextHop, frame, iface) =>
      match Lookup(w.entries, nextHop) {
        case None =>
        case Some(e) => FilledIsAccepted(c, frame, e.mac, iface);
      }
    case _ =>
  }

  lemma ProceedClean(c: Config, w: World, stale: bool)
    ensures CleanSince(c, w.log, ProceedStep(c, w, stale).log)
  {
    hide Queue, Mark, ArpRequest, Fill;
  }

  lemma StepClean(c: Config, w: World, s: Step)
    requires DistinctIps(c.ifaces)
    ensures CleanSince(c, w.log, Apply(c, w, s).log)
  {
    hide TickStep, ReceiveStep, ProceedStep, Receivable, Clean, Quotable;
    match s
    case Advance(d) =>
    case Tick =>
      if Quotable(w.requests) {
        TickClean(c, w);
      }
    case Receive(f, name) =>
      if w.pc == Idle && Receivable(c, f, name) {
        ReceiveClean(c, w, f, name);
      }
    case Proceed(stale) => ProceedClean(c, w, stale);
  }

  /** Every frame the router hands to `sr_send_packet`, on every path of every
      run, names an interface and carries that interface's address, so the check
      there never rejects it. */
  lemma {:induction false} AlwaysClean(c: Config, w: World, steps: seq<Step>)
    requires Initial(w) && DistinctIps(c.ifaces)
    ensures AllClean(c, Exec(c, w, steps).log)
  {
    hide Apply, Clean;
    if steps != [] {
      AlwaysClean(c, w, steps[..|steps| - 1]);
      StepClean(c, Exec(c, w, steps[..|steps| - 1]), steps[|steps| - 1]);
    }
  }

  // ---------------------------------------------------------------------
  // Provenance and freshness of the table
  // ---------------------------------------------------------------------

  /** A valid entry was learned in a reply and has survived every tick since. */
  ghost predicate Grounded(w: World, e: Entry) {
    e.valid ==>
      && Learned(e.ip, e.mac, e.added) in w.log
      && e.added <= w.now
      && (e.added >= w.lastTick || w.lastTick - e.added <= TIMEOUT)
  }

  ghost predicate Grounds(w: World) {
    w.lastTick <= w.now && forall i :: 0 <= i < |w.entries| ==> Grounded(w, w.entries[i])
  }

  lemma LogGrows(c: Config, w: World, s: Step)
    ensures w.log <= Apply(c, w, s).log
    ensures Apply(c, w, s).lastTick == if s.Tick? && Quotable(w.requests) then w.now else w.lastTick
    ensures Apply(c, w, s).now == if s.Advance? then w.now + s.seconds else w.now
  {
    hide Dispatch, Receivable, SweepEvents, SweepList, Expire, Queue, Unlink, Insert, Lookup, Mark, Fill, Stamp, ArpRequest;
  }

  lemma GroundedStays(w: World, w': World, e: Entry)
    requires Grounded(w, e) && w.log <= w'.log && w.now <= w'.now && w.lastTick == w'.lastTick
    ensures Grounded(w', e)
  {
    if e.valid {
      var i :| 0 <= i < |w.log| && w.log[i] == Learned(e.ip, e.mac, e.added);
      assert w'.log[i] == w.log[i];
    }
  }

  /** What a step makes of the table: untouched, expired, or one reply added. */
  lemma EntriesAfter(c: Config, w: World, s: Step)
    ensures var w' := Apply(c, w, s);
      || w'.entries == w.entries
      || (s.Tick? && w'.entries == Expire(w.entries, w.now))
      || (s.Receive? && exists ip: Ip, mac: Mac ::
            w'.entries == Insert(w.entries, ip, mac, w.now) && Learned(ip, mac, w.now) in w'.log)
  {
    hide Dispatch, Receivable, SweepEvents, SweepList, Expire, Queue, Unlink, Insert, Lookup, Mark, Fill, Stamp, ArpRequest;
    var w' := Apply(c, w, s);
    if s.Receive? && w.pc == Idle && Receivable(c, s.frame, s.iface) {
      match Dispatch(c, s.frame, s.iface)
      case Learn(ip, mac) =>
        assert w'.log[|w.log| + 1] == Learned(ip, mac, w.now);
        assert w'.entries == Insert(w.entries, ip, mac, w.now);
      case _ =>
    }
  }

  lemma ApplyGrounds(c: Config, w: World, s: Step)
    requires Grounds(w)
    ensures Grounds(Apply(c, w, s))
  {
    hide Apply, Expire, Insert, Grounded;
    var w' := Apply(c, w, s);
    LogGrows(c, w, s);
    EntriesAfter(c, w, s);
    if w'.entries == w.entries && w'.lastTick == w.lastTick {
      forall i | 0 <= i < |w'.entries| ensures Grounded(w', w'.entries[i]) { GroundedStays(w, w', w.entries[i]); }
    } else if s.Tick? {
      TickGrounds(c, w);
    } else {
      var ip: Ip, mac: Mac :| w'.entries == Insert(w.entries, ip, mac, w.now) && Learned(ip, mac, w.now) in w'.log;
      forall i | 0 <= i < |w'.entries|
        ensures Grounded(w', w'.entries[i])
      {
        GroundedStays(w, w', w.entries[i]);
        InsertedEntry(w', w.entries, ip, mac, i);
      }
    }
  }

  lemma InsertedEntry(w: World, entries: seq<Entry>, ip: Ip, mac: Mac, i: nat)
    requires Learned(ip, mac, w.now) in w.log && w.lastTick <= w.now
    requires i < |entries| && Grounded(w, entries[i])
    ensures Grounded(w, Insert(entries, ip, mac, w.now)[i])
  {
  }

  lemma TickGrounds(c: Config, w: World)
    requires Grounds(w)
    ensures Grounds(Apply(c, w, Tick))
  {
    hide SweepEvents, SweepList;
    LogGrows(c, w, Tick);
    var w' := Apply(c, w, Tick);
    forall i | 0 <= i < |w'.entries|
      ensures Grounded(w', w'.entries[i])
    {
      var e := w.entries[i];
      if w'.entries[i].valid {
        var k :| 0 <= k < |w.log| && w.log[k] == Learned(e.ip, e.mac, e.added);
        assert w'.log[k] == w.log[k];
      }
    }
  }

  lemma {:induction false} AlwaysGrounds(c: Config, w: World, steps: seq<Step>)
    requires Initial(w)
    ensures Grounds(Exec(c, w, steps))
  {
    hide Apply;
    if steps != [] {
      AlwaysGrounds(c, w, steps[..|steps| - 1]);
      ApplyGrounds(c, Exec(c, w, steps[..|steps| - 1]), steps[|steps| - 1]);
    }
  }

  /** Every lookup answer, in every reachable state, was recorded by an earlier
      reply with that address, and is at most 15 seconds older than the time
      since the last tick. */
  lemma AnswersAreFresh(c: Config, w: World, steps: seq<Step>, ip: Ip)
    requires Initial(w)
    ensures var w' := Exec(c, w, steps);
            match Lookup(w'.entries, ip)
            case None => true
            case Some(e) =>
              && Learned(ip, e.mac, e.added) in w'.log
              && 0 <= w'.now - e.added <= TIMEOUT + (w'.now - w'.lastTick)
  {
    hide Exec, Lookup;
    AlwaysGrounds(c, w, steps);
    var w' := Exec(c, w, steps);
    if Lookup(w'.entries, ip).Some? {
      assert Grounded(w', Lookup(w'.entries, ip).value);
    }
  }

  /** A lookup right after a reply returns the new entry exactly when a slot was
      free and no valid entry for the address lies above it; otherwise it returns
      what it returned before. */
  lemma {:induction false} LookupAfterInsert(entries: seq<Entry>, ip: Ip, mac: Mac, now: int)
    ensures var i := FreeSlot(entries);
            Lookup(Insert(entries, ip, mac, now), ip) ==
            if i < |entries| && !Cached(entries[i + 1..], ip) then Some(Entry(mac, ip, now, true))
            else Lookup(entries, ip)
  {
    var i := FreeSlot(entries);
    if i < |entries| {
      LookupUpdate(entries, i, Entry(mac, ip, now, true), ip);
    }
  }

  lemma {:induction false} LookupUpdate(entries: seq<Entry>, i: nat, e: Entry, ip: Ip)
    requires i < |entries| && Holds(e, ip) && !entries[i].valid
    ensures Lookup(entries[i := e], ip) == if Cached(entries[i + 1..], ip) then Lookup(entries, ip) else Some(e)
    decreases |entries|
  {
    hide Lookup, Holds, Cached;
    var n, after := |entries| - 1, entries[i := e];
    LookupLast(entries, ip);
    LookupLast(after, ip);
    if i == n {
      LookupLast([], ip);
      assert entries[i + 1..] == [];
    } else {
      assert after[..n] == entries[..n][i := e];
      assert entries[i + 1..] == entries[..n][i + 1..] + [entries[n]];
      CachedExtends(entries[..n][i + 1..], entries[n], ip);
      if !Holds(entries[n], ip) {
        LookupUpdate(entries[..n], i, e, ip);
      }
    }
  }

  lemma LookupLast(entries: seq<Entry>, ip: Ip)
    ensures entries == [] ==> !Cached(entries, ip)
    ensures entries != [] ==>
              var n := |entries| - 1;
              Lookup(entries, ip) == if Holds(entries[n], ip) then Some(entries[n]) else Lookup(entries[..n], ip)
  {
  }

  lemma CachedExtends(entries: seq<Entry>, e: Entry, ip: Ip)
    ensures Cached(entries + [e], ip) <==> Cached(entries, ip) || Holds(e, ip)
  {
    if Holds(e, ip) {
      assert (entries + [e])[|entries|] == e;
    }
    if Cached(entries, ip) {
      var i :| 0 <= i < |entries| && Holds(entries[i], ip);
      assert (entries + [e])[i] == entries[i];
    }
  }
}
