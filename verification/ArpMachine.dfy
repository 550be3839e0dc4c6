/**
 The ARP cache and the two threads that share it, as one state machine. The
 packet thread takes a step per critical section and per unlocked action; the
 timeout thread's tick is one step: it holds the lock throughout, and the packet
 thread's unlocked actions are taken to fall before or after it. Every
 observable action is appended to a log, so that claims about whole runs are
 claims about logs.
 */
module ArpMachine {
  import opened Bytes
  import opened Routing
  import opened Frames

  const SLOTS: nat := 100
  const TIMEOUT: int := 15
  const MAX_SENDS: nat := 5

  datatype Entry = Entry(mac: Mac, ip: Ip, added: int, valid: bool)

  /** A queued frame and the interface it will leave by. */
  datatype Packet = Packet(buf: Frame, iface: Name)

  /** A pending request; `packets` is the list head first, newest first. */
  datatype Request = Request(ip: Ip, sent: int, timesSent: nat, packets: seq<Packet>)

  datatype Event =
    | Arrived(frame: Frame, iface: Name)
    | Direct(out: Sent)
    | Learned(ip: Ip, mac: Mac, at: int)
    | Opened(ip: Ip)
    | Enqueued(ip: Ip, packet: Packet)
    | Asked(ip: Ip, at: int, out: Sent)
    | Flushed(ip: Ip, packet: Packet, out: Sent)
    | Retired(ip: Ip, packet: Packet, notice: Option<Sent>)

  // ---------------------------------------------------------------------
  // The table
  // ---------------------------------------------------------------------

  predicate Holds(e: Entry, ip: Ip) {
    e.valid && e.ip == ip
  }

  /** Some valid entry answers for the address. */
  ghost predicate Cached(entries: seq<Entry>, ip: Ip) {
    exists i :: 0 <= i < |entries| && Holds(entries[i], ip)
  }

  /** `sr_arpcache_lookup`: the last valid entry for the address. */
  function Lookup(entries: seq<Entry>, ip: Ip): (r: Option<Entry>)
    ensures r.Some? ==> r.value in entries && Holds(r.value, ip)
    ensures r.None? <==> !Cached(entries, ip)
  {
    if entries == [] then None
    else
      var n := |entries| - 1;
      if Holds(entries[n], ip) then Some(entries[n]) else Lookup(entries[..n], ip)
  }

  /** The index of the first free slot, or the number of slots. */
  function FreeSlot(entries: seq<Entry>): (i: nat)
    ensures i <= |entries|
    ensures i < |entries| ==> !entries[i].valid
    ensures forall j :: 0 <= j < i ==> entries[j].valid
  {
    if entries == [] || !entries[0].valid then 0 else 1 + FreeSlot(entries[1..])
  }

  /** The table half of `sr_arpcache_insert`. */
  function Insert(entries: seq<Entry>, ip: Ip, mac: Mac, now: int): (r: seq<Entry>)
    ensures |r| == |entries|
  {
    var i := FreeSlot(entries);
    if i < |entries| then entries[i := Entry(mac, ip, now, true)] else entries
  }

  function Aged(e: Entry, now: int): Entry {
    if e.valid && now - e.added > TIMEOUT then e.(valid := false) else e
  }

  /** The expiry loop of the tick. */
  function Expire(entries: seq<Entry>, now: int): (r: seq<Entry>)
    ensures |r| == |entries|
    ensures forall i :: 0 <= i < |entries| ==> r[i] == Aged(entries[i], now)
  {
    seq(|entries|, i requires 0 <= i < |entries| => Aged(entries[i], now))
  }

  // ---------------------------------------------------------------------
  // The request list
  // ---------------------------------------------------------------------

  /** The position of the first request for the address, or the length. */
  function Find(rs: seq<Request>, ip: Ip): (i: nat)
    ensures i <= |rs|
    ensures i < |rs| ==> rs[i].ip == ip
    ensures forall j :: 0 <= j < i ==> rs[j].ip != ip
  {
    if rs == [] || rs[0].ip == ip then 0 else 1 + Find(rs[1..], ip)
  }

  predicate Pending(rs: seq<Request>, ip: Ip) {
    Find(rs, ip) < |rs|
  }

  function PacketsOf(rs: seq<Request>, ip: Ip): seq<Packet> {
    if Pending(rs, ip) then rs[Find(rs, ip)].packets else []
  }

  /** An empty packet is not added. */
  function Push(p: Packet, ps: seq<Packet>): seq<Packet> {
    if p.buf == [] then ps else [p] + ps
  }

  /** `sr_arpcache_queuereq`. */
  function Queue(rs: seq<Request>, ip: Ip, p: Packet): (r: seq<Request>) {
    var i := Find(rs, ip);
    if i < |rs| then rs[i := rs[i].(packets := Push(p, rs[i].packets))]
    else [Request(ip, 0, 0, Push(p, []))] + rs
  }

  /** The list half of `sr_arpcache_insert`, and `sr_arpreq_destroy`. */
  function Unlink(rs: seq<Request>, ip: Ip): seq<Request> {
    var i := Find(rs, ip);
    if i < |rs| then rs[..i] + rs[i + 1..] else rs
  }

  /** The two unlocked writes that follow the first ARP request. */
  function Mark(rs: seq<Request>, ip: Ip, now: int): (r: seq<Request>)
    ensures |r| == |rs|
  {
    var i := Find(rs, ip);
    if i < |rs| then rs[i := rs[i].(sent := now, timesSent := 1)] else rs
  }

  // ---------------------------------------------------------------------
  // The sweep
  // ---------------------------------------------------------------------

  /** The host-unreachable message for one waiting packet, when the code gets as
      far as sending it: the packet's interface exists, its source has a route
      with an interface, and the next hop back is in the cache. */
  function Notice(c: Config, entries: seq<Entry>, p: Packet): (r: Option<Sent>)
    requires |p.buf| >= 42
  {
    var back := IpAt(p.buf, 26);
    match ByName(c.ifaces, p.iface)
    case None => None
    case Some(via) =>
      match RouteTo(c, back)
      case None => None
      case Some((r, out)) =>
        match Lookup(entries, NextHop(r, back))
        case None => None
        case Some(e) => Some(Sent(Fill(HostUnreachable(via.ip, p.buf), e.mac, out.mac), out.name))
  }

  /** `send_icmp_host_unreachable`: every waiting packet is retired in turn. */
  function Retire(c: Config, entries: seq<Entry>, ip: Ip, ps: seq<Packet>): seq<Event>
    requires forall p :: p in ps ==> |p.buf| >= 42
  {
    if ps == [] then []
    else [Retired(ip, ps[0], Notice(c, entries, ps[0]))] + Retire(c, entries, ip, ps[1..])
  }

  /** `send_arp_request_for_req`: uses the newest packet's interface. */
  function Ask(c: Config, r: Request, now: int): seq<Event> {
    if r.packets == [] then []
    else
      match ByName(c.ifaces, r.packets[0].iface)
      case None => []
      case Some(iface) => [Asked(r.ip, now, Sent(ArpRequest(iface, r.ip), iface.name))]
  }

  predicate Due(r: Request, now: int) {
    now - r.sent >= 1
  }

  ghost predicate Quotable(rs: seq<Request>) {
    forall i :: 0 <= i < |rs| ==> forall p :: p in rs[i].packets ==> |p.buf| >= 42
  }

  /** What `handle_arpreq` leaves of a request: nothing, or its next state. */
  function Survivor(r: Request, now: int): Option<Request> {
    if !Due(r, now) then Some(r)
    else if r.timesSent >= MAX_SENDS then None
    else Some(r.(sent := now, timesSent := r.timesSent + 1))
  }

  /** What `handle_arpreq` does meanwhile. */
  function Doings(c: Config, entries: seq<Entry>, r: Request, now: int): seq<Event>
    requires forall p :: p in r.packets ==> |p.buf| >= 42
  {
    if !Due(r, now) then []
    else if r.timesSent >= MAX_SENDS then Retire(c, entries, r.ip, r.packets)
    else Ask(c, r, now)
  }

  /** `sr_arpcache_sweepreqs`, as a filter and map over the list. */
  function SweepList(rs: seq<Request>, now: int): seq<Request> {
    if rs == [] then []
    else
      var rest := SweepList(rs[1..], now);
      match Survivor(rs[0], now)
      case None => rest
      case Some(r) => [r] + rest
  }

  function SweepEvents(c: Config, entries: seq<Entry>, rs: seq<Request>, now: int): seq<Event>
    requires Quotable(rs)
  {
    if rs == [] then []
    else Doings(c, entries, rs[0], now) + SweepEvents(c, entries, rs[1..], now)
  }

  // ---------------------------------------------------------------------
  // The machine
  // ---------------------------------------------------------------------

  /** Where the packet thread stands between its critical sections. */
  datatype Pc =
    | Idle
    | Missed(ip: Ip, packet: Packet)
    | Holding(ip: Ip, iface: Name)
    | Sending(ip: Ip, iface: Name)
    | Marking(ip: Ip)
    | Flushing(ip: Ip, mac: Mac, rest: seq<Packet>)

  datatype World = World(
    entries: seq<Entry>,
    requests: seq<Request>,
    pc: Pc,
    now: int,
    lastTick: int,
    log: seq<Event>)

  /** `Proceed(stale)` is the packet thread's next action; `stale` is what a read
      of a request freed under its feet happens to yield. */
  datatype Step =
    | Advance(seconds: nat)
    | Tick
    | Receive(frame: Frame, iface: Name)
    | Proceed(stale: bool)

  ghost predicate Initial(w: World) {
    && |w.entries| == SLOTS
    && (forall i :: 0 <= i < SLOTS ==> !w.entries[i].valid)
    && w.requests == [] && w.pc == Idle && w.log == [] && w.lastTick == w.now
  }

  function TickStep(c: Config, w: World): World
    requires Quotable(w.requests)
  {
    var entries := Expire(w.entries, w.now);
    w.(entries := entries,
       requests := SweepList(w.requests, w.now),
       lastTick := w.now,
       log := w.log + SweepEvents(c, entries, w.requests, w.now))
  }

  /** `handle_arp_packet` on a reply, up to the first flush. */
  function LearnStep(w: World, ip: Ip, mac: Mac): World {
    w.(entries := Insert(w.entries, ip, mac, w.now),
       requests := Unlink(w.requests, ip),
       pc := if Pending(w.requests, ip) then Flushing(ip, mac, PacketsOf(w.requests, ip)) else w.pc,
       log := w.log + [Learned(ip, mac, w.now)])
  }

  /** The lookup in `forward_ip_packet` and `send_icmp_t3`, and the send on a hit. */
  function LookupStep(w: World, nextHop: Ip, frame: Frame, iface: Interface): World
    requires |frame| >= ETH_LEN
  {
    match Lookup(w.entries, nextHop)
    case None => w.(pc := Missed(nextHop, Packet(Stamp(frame, iface.mac), iface.name)))
    case Some(e) =>
      w.(log := w.log + [Direct(Sent(Fill(frame, e.mac, iface.mac), iface.name))])
  }

  function ReceiveStep(c: Config, w: World, f: Frame, name: Name): World
    requires Receivable(c, f, name)
  {
    var w := w.(log := w.log + [Arrived(f, name)]);
    match Dispatch(c, f, name)
    case Drop => w
    case Emit(out) => w.(log := w.log + [Direct(out)])
    case Learn(ip, mac) => LearnStep(w, ip, mac)
    case Resolve(nextHop, frame, iface) => if |frame| < ETH_LEN then w else LookupStep(w, nextHop, frame, iface)
  }

  /** `sr_arpcache_queuereq` as called after a miss. */
  function QueueStep(w: World, ip: Ip, p: Packet): World {
    w.(requests := Queue(w.requests, ip, p),
       pc := Holding(ip, p.iface),
       log := w.log + (if Pending(w.requests, ip) then [] else [Opened(ip)]) + [Enqueued(ip, p)])
  }

  /** The test `req->times_sent == 0` on the pointer the queue call returned. */
  function TestStep(w: World, ip: Ip, iface: Name, stale: bool): World {
    var unsent := if Pending(w.requests, ip) then w.requests[Find(w.requests, ip)].timesSent == 0 else stale;
    w.(pc := if unsent then Sending(ip, iface) else Idle)
  }

  /** `send_arp_request`. */
  function SendStep(c: Config, w: World, ip: Ip, iface: Name): World {
    w.(pc := Marking(ip),
       log := w.log + match ByName(c.ifaces, iface)
                      case None => []
                      case Some(i) => [Asked(ip, w.now, Sent(ArpRequest(i, ip), iface))])
  }

  /** One packet of the flush loop, or its end. */
  function FlushStep(c: Config, w: World, ip: Ip, mac: Mac, rest: seq<Packet>): World {
    if rest == [] then w.(pc := Idle)
    else
      match ByName(c.ifaces, rest[0].iface)
      case None => w
      case Some(i) =>
        if |rest[0].buf| < ETH_LEN then w else
        w.(pc := Flushing(ip, mac, rest[1..]),
           log := w.log + [Flushed(ip, rest[0], Sent(Fill(rest[0].buf, mac, i.mac), rest[0].iface))])
  }

  function ProceedStep(c: Config, w: World, stale: bool): World {
    match w.pc
    case Idle => w
    case Missed(ip, p) => QueueStep(w, ip, p)
    case Holding(ip, iface) => TestStep(w, ip, iface, stale)
    case Sending(ip, iface) => SendStep(c, w, ip, iface)
    case Marking(ip) => w.(requests := Mark(w.requests, ip, w.now), pc := Idle)
    case Flushing(ip, mac, rest) => FlushStep(c, w, ip, mac, rest)
  }

  /** One step. A step that is not possible in the state leaves it alone. */
  ghost function Apply(c: Config, w: World, s: Step): World {
    match s
    case Advance(d) => w.(now := w.now + d)
    case Tick => if Quotable(w.requests) then TickStep(c, w) else w
    case Receive(f, name) => if w.pc == Idle && Receivable(c, f, name) then ReceiveStep(c, w, f, name) else w
    case Proceed(stale) => ProceedStep(c, w, stale)
  }

  /** A whole run. */
  ghost function Exec(c: Config, w: World, steps: seq<Step>): World {
    if steps == [] then w else Apply(c, Exec(c, w, steps[..|steps| - 1]), steps[|steps| - 1])
  }

  /** Two runs one after the other are one run. */
  lemma {:induction false} ExecJoins(c: Config, w: World, a: seq<Step>, b: seq<Step>)
    ensures Exec(c, w, a + b) == Exec(c, Exec(c, w, a), b)
  {
    hide Apply;
    if b == [] {
      assert a + b == a;
    } else {
      ExecJoins(c, w, a, b[..|b| - 1]);
      assert (a + b)[..|a + b| - 1] == a + b[..|b| - 1];
    }
  }

  lemma ExecOne(c: Config, w: World, a: seq<Step>, s: Step)
    ensures Exec(c, w, a + [s]) == Apply(c, Exec(c, w, a), s)
  {
    hide Apply;
    assert (a + [s])[..|a|] == a;
  }

  lemma ExecPrepend(c: Config, w: World, s: Step, rest: seq<Step>)
    ensures Exec(c, w, [s] + rest) == Exec(c, Apply(c, w, s), rest)
  {
    hide Apply;
    ExecOne(c, w, [], s);
    assert [] + [s] == [s];
    ExecJoins(c, w, [s], rest);
  }
}
