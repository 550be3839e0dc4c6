/**
 A session with the server, from the start of the main loop: hardware messages
 build and change the interface list and are checked against the routing table,
 packets and ticks drive the router. The interface list is not fixed here: a
 later hardware message may append interfaces and overwrite the addresses of
 the last one.
 */
module Session {
  import opened Bytes
  import opened Routing
  import opened Frames
  import opened ArpMachine
  import opened ArpSafety
  import opened ArpHistory
  import opened ArpTraffic
  import opened ArpRetry
  import opened Links
  import opened IfList
  import opened VnsWire

  // ---------------------------------------------------------------------
  // The check
  // ---------------------------------------------------------------------

  /** The routes without an interface, among the first `k`. */
  ghost function DanglingTo(c: Config, k: nat): set<nat>
    requires k <= |c.routes|
  {
    set i: nat | i < k && ByName(c.ifaces, c.routes[i].iface).None?
  }

  ghost function Dangling(c: Config): set<nat> {
    DanglingTo(c, |c.routes|)
  }

  lemma DanglingStep(c: Config, k: nat)
    requires k < |c.routes|
    ensures |DanglingTo(c, k + 1)| ==
            |DanglingTo(c, k)| + if ByName(c.ifaces, c.routes[k].iface).None? then 1 else 0
  {
    hide ByName;
    if ByName(c.ifaces, c.routes[k].iface).None? {
      assert DanglingTo(c, k + 1) == DanglingTo(c, k) + {k};
    } else {
      assert DanglingTo(c, k + 1) == DanglingTo(c, k);
    }
  }

  /** `sr_verify_routing_table`: 999 when either list is empty, else the number
      of routes whose interface does not exist. */
  method VerifyRoutingTable(l: InterfaceList, routes: seq<Route>) returns (ret: nat)
    requires l.Valid()
    ensures l.List() == [] || routes == [] ==> ret == 999
    ensures l.List() != [] && routes != [] ==> ret == |Dangling(Config(l.List(), routes))|
  {
    hide Chain, Values, ByName;
    var empty := IsEmpty(l);
    if empty || routes == [] {
      return 999;
    }
    ret := 0;
    ghost var c := Config(l.List(), routes);
    for k := 0 to |routes|
      invariant ret == |DanglingTo(c, k)|
    {
      DanglingStep(c, k);
      var found := l.Get(routes[k].iface);
      if found == null {
        ret := ret + 1;
      }
    }
  }

  /** What the check has to find for the session to go on. */
  ghost predicate Consistent(c: Config) {
    c.ifaces != [] && c.routes != [] && |Dangling(c)| == 0
  }

  /** The configuration after a hardware message, or nothing where the message or
      the check after it ends the session. */
  ghost function Accept(c: Config, body: seq<Byte>, memory: nat -> Interface): Option<Config> {
    match ApplyEntries(c.ifaces, body, memory)
    case None => None
    case Some(list) => if Consistent(Config(list, c.routes)) then Some(Config(list, c.routes)) else None
  }

  /** The hardware case of `sr_read_from_server_expect`. */
  method HandleHardware(l: InterfaceList, routes: seq<Route>, body: seq<Byte>, memory: nat -> Interface)
    returns (ok: bool)
    requires l.Valid()
    modifies l, l.nodes
    ensures l.Valid()
    ensures ok <==> Accept(Config(old(l.List()), routes), body, memory).Some?
    ensures ok ==> Some(Config(l.List(), routes)) == Accept(Config(old(l.List()), routes), body, memory)
  {
    hide Chain, Values, ApplyEntries, Dangling;
    var parsed, _ := HandleHwInfo(l, body, memory);
    if !parsed {
      return false;
    }
    var errors := VerifyRoutingTable(l, routes);
    ok := errors == 0;
  }

  // ---------------------------------------------------------------------
  // Later messages keep every name
  // ---------------------------------------------------------------------

  lemma EntryKeepsNames(list: seq<Interface>, key: nat, value: seq<Byte>, memory: Interface)
    requires |value| == 32
    ensures match ApplyEntry(list, key, value, memory)
      case None => true
      case Some(next) => KeepsNames(list, next)
  {
    hide CString;
  }

  /** However many entries a message has: interfaces are appended, addresses of
      the last one overwritten, and no name is lost or moved. */
  lemma {:induction false} EntriesKeepNames(list: seq<Interface>, body: seq<Byte>, memory: nat -> Interface)
    ensures match ApplyEntries(list, body, memory)
      case None => true
      case Some(next) => KeepsNames(list, next)
    decreases |body|
  {
    hide ApplyEntry, Read32;
    if |body| >= 36 {
      EntryKeepsNames(list, Read32(body), body[4..36], memory(|body|));
      match ApplyEntry(list, Read32(body), body[4..36], memory(|body|))
      case None =>
      case Some(next) => EntriesKeepNames(next, body[36..], memory);
    }
  }

  // ---------------------------------------------------------------------
  // Sessions
  // ---------------------------------------------------------------------

  datatype State = State(config: Config, world: World, ready: bool, open: bool)

  /** A hardware message; a step of the two threads; a close message; or another
      message, which leaves the router alone and may fail. */
  datatype Happening =
    | Hardware(body: seq<Byte>, memory: nat -> Interface)
    | Machine(step: Step)
    | Close
    | Other(fails: bool)

  /** The main loop has just been entered with a loaded routing table. */
  ghost predicate Started(s: State) {
    s.open && !s.ready && s.config.ifaces == [] && Initial(s.world)
  }

  /** One happening. A message is read only when the packet thread is idle. */
  ghost function After(s: State, h: Happening): State {
    if !s.open then s
    else
      match h
      case Hardware(body, memory) =>
        if s.world.pc != Idle then s
        else
          (match Accept(s.config, body, memory)
           case None => s.(open := false)
           case Some(c) => s.(config := c, ready := true))
      case Machine(step) => s.(world := Apply(s.config, s.world, step))
      case Close => s.(open := s.world.pc != Idle)
      case Other(fails) => s.(open := s.world.pc != Idle || !fails)
  }

  ghost function Run(s: State, hs: seq<Happening>): State {
    if hs == [] then s else After(Run(s, hs[..|hs| - 1]), hs[|hs| - 1])
  }

  /** Every route has its interface. */
  ghost predicate AllResolve(c: Config) {
    forall i :: 0 <= i < |c.routes| ==> ByName(c.ifaces, c.routes[i].iface).Some?
  }

  ghost predicate Sound(s: State) {
    Safe(s.config, s.world) && (s.ready ==> AllResolve(s.config))
  }

  lemma ConsistentResolves(c: Config)
    requires Consistent(c)
    ensures AllResolve(c)
  {
    forall i | 0 <= i < |c.routes|
      ensures ByName(c.ifaces, c.routes[i].iface).Some?
    {
      assert i !in Dangling(c);
    }
  }

  lemma NamesKeepPackets(c: Config, later: Config, p: Packet)
    requires KeepsNames(c.ifaces, later.ifaces) && PacketOk(c, p)
    ensures PacketOk(later, p)
  {
    ByNameStable(c.ifaces, later.ifaces, p.iface);
  }

  /** Everything the router holds stays good when the configuration changes under
      it the way hardware messages change it. */
  lemma NamesKeepSafe(c: Config, later: Config, w: World)
    requires KeepsNames(c.ifaces, later.ifaces) && Safe(c, w) && w.pc == Idle
    ensures Safe(later, w)
  {
    hide ByName, Cached;
    forall i | 0 <= i < |w.requests|
      ensures RequestOk(later, w.requests[i])
    {
      assert RequestOk(c, w.requests[i]);
      forall p | p in w.requests[i].packets
        ensures PacketOk(later, p)
      {
        NamesKeepPackets(c, later, p);
      }
    }
  }

  lemma AfterSound(s: State, h: Happening)
    requires Sound(s)
    ensures Sound(After(s, h))
  {
    hide Safe, Apply, Consistent, ApplyEntries, AllResolve;
    match h
    case Hardware(body, memory) =>
      EntriesKeepNames(s.config.ifaces, body, memory);
      if s.world.pc == Idle && Accept(s.config, body, memory).Some? {
        var c := Accept(s.config, body, memory).value;
        NamesKeepSafe(s.config, c, s.world);
        ConsistentResolves(c);
      }
    case Machine(step) => ApplySafe(s.config, s.world, step);
    case _ =>
  }

  /** Over every session, hardware messages at any time included: pending
      addresses are distinct and uncached and every queued packet has its
      interface; and once the session has been ready, every route has one. */
  lemma {:induction false} AlwaysSound(s: State, hs: seq<Happening>)
    requires Started(s)
    ensures Sound(Run(s, hs)) && Run(s, hs).config.routes == s.config.routes
  {
    hide After, Safe, AllResolve;
    if hs == [] {
      AlwaysSafe(s.config, s.world, []);
      assert Exec(s.config, s.world, []) == s.world;
    } else {
      var v := Run(s, hs[..|hs| - 1]);
      AlwaysSound(s, hs[..|hs| - 1]);
      AfterSound(v, hs[|hs| - 1]);
      RoutesStay(v, hs[|hs| - 1]);
    }
  }

  lemma RoutesStay(s: State, h: Happening)
    ensures After(s, h).config.routes == s.config.routes
    ensures s.ready ==> After(s, h).ready
  {
    hide Apply, Consistent, ApplyEntries;
  }

  /** Once a session has been ready, in every later state, every route the lookup
      returns leads to an interface. */
  lemma ReadyRoutesResolve(s: State, hs: seq<Happening>, dst: Ip)
    requires Started(s) && Run(s, hs).ready
    ensures var c := Run(s, hs).config;
            Lpm(c.routes, dst).Some? <==> RouteTo(c, dst).Some?
  {
    hide Run, Lpm, Safe;
    AlwaysSound(s, hs);
  }

  /** So no packet is dropped for a missing interface: an ICMP error is dropped
      exactly when there is no route back, and a packet to forward exactly when
      there is neither a route on nor one back. */
  lemma DroppedIffUnrouted(s: State, hs: seq<Happening>, f: Frame, kind: Byte, code: Byte)
    requires Started(s) && Run(s, hs).ready && Readable(f)
    ensures var c := Run(s, hs).config;
            && (IcmpT3(c, f, kind, code).Drop? <==> Lpm(c.routes, IpAt(f, 26)).None?)
            && (Forward(c, f).Drop? <==>
                  (Ttl(f) <= 1 || Lpm(c.routes, IpAt(f, 30)).None?) && Lpm(c.routes, IpAt(f, 26)).None?)
  {
    hide Run, Lpm, RouteTo, IcmpError, Reseal;
    ReadyRoutesResolve(s, hs, IpAt(f, 26));
    ReadyRoutesResolve(s, hs, IpAt(f, 30));
    if Ttl(f) > 1 {
      assert IpAt(Hop(f), 26) == IpAt(f, 26) && IpAt(Hop(f), 30) == IpAt(f, 30);
    }
  }

  /** And a packet that is given up goes without notice exactly when there is no
      route back or its next hop is not in the cache. */
  lemma UnnoticedIffUnreachable(s: State, hs: seq<Happening>, i: nat, p: Packet)
    requires Started(s) && Run(s, hs).ready
    requires i < |Run(s, hs).world.requests| && p in Run(s, hs).world.requests[i].packets
    ensures |p.buf| >= 42
    ensures var v := Run(s, hs);
            var back := IpAt(p.buf, 26);
            var best := Lpm(v.config.routes, back);
            Notice(v.config, v.world.entries, p).None? <==>
            best.None? || !Cached(v.world.entries, NextHop(v.config.routes[best.value], back))
  {
    hide Run, Lpm, Lookup, HostUnreachable, Cached;
    var v := Run(s, hs);
    AlwaysSound(s, hs);
    assert RequestOk(v.config, v.world.requests[i]);
    assert PacketOk(v.config, p);
    ReadyRoutesResolve(s, hs, IpAt(p.buf, 26));
  }

  // ---------------------------------------------------------------------
  // The claims about runs, over sessions
  // ---------------------------------------------------------------------

  lemma AfterFaithful(s: State, h: Happening)
    requires Sound(s) && Faithful(s.world)
    ensures Faithful(After(s, h).world)
  {
    hide Safe, Apply, Accept, AllResolve, Faithful;
    if h.Machine? {
      StepFaithful(s.config, s.world, h.step);
    }
  }

  lemma {:induction false} SessionFaithful(s: State, hs: seq<Happening>)
    requires Started(s)
    ensures Faithful(Run(s, hs).world)
  {
    hide After, Sound, Faithful;
    if hs == [] {
      InitialFaithful(s.world);
    } else {
      SessionFaithful(s, hs[..|hs| - 1]);
      AlwaysSound(s, hs[..|hs| - 1]);
      AfterFaithful(Run(s, hs[..|hs| - 1]), hs[|hs| - 1]);
    }
  }

  /** Packets are conserved over every session, whatever hardware messages come. */
  lemma SessionConserves(s: State, hs: seq<Happening>, ip: Ip)
    requires Started(s)
    ensures var w := Run(s, hs).world;
            && LastInFirstOut(w.log)
            && multiset(QueuedFor(w.log, ip)) ==
               multiset(PacketsFor(w, ip)) + multiset(FlushedFor(w.log, ip)) + multiset(RetiredFor(w.log, ip))
  {
    hide Run, PacketsFor, LastInFirstOut;
    SessionFaithful(s, hs);
    FaithfulConserves(Run(s, hs).world, ip);
  }

  /** Whatever is sent at any moment of a session passes the check against the
      interfaces of that moment, if their addresses are distinct then. */
  lemma SessionClean(s: State, hs: seq<Happening>, h: Happening)
    requires Started(s) && DistinctIps(Run(s, hs).config.ifaces)
    ensures CleanSince(Run(s, hs).config, Run(s, hs).world.log, After(Run(s, hs), h).world.log)
  {
    hide Run, Apply, Accept, Clean;
    var v := Run(s, hs);
    if h.Machine? {
      StepClean(v.config, v.world, h.step);
    }
  }

  lemma AfterAccounted(s: State, h: Happening, ip: Ip)
    requires Sound(s) && Accounted(s.world, ip)
    ensures Accounted(After(s, h).world, ip)
  {
    hide Safe, Apply, Accept, AllResolve, Accounted;
    if h.Machine? {
      StepAccounted(s.config, s.world, h.step, ip);
    }
  }

  /** No session sends more than eleven requests for one resolution. */
  lemma {:induction false} SessionAtMostEleven(s: State, hs: seq<Happening>, ip: Ip)
    requires Started(s)
    ensures Accounted(Run(s, hs).world, ip) && Sends(Run(s, hs).world.log, ip) <= 2 * MAX_SENDS + 1
  {
    hide After, Sound, Sends;
    if hs == [] {
      AtMostElevenSends(s.config, s.world, [], ip);
      assert Exec(s.config, s.world, []) == s.world;
    } else {
      var v := Run(s, hs[..|hs| - 1]);
      SessionAtMostEleven(s, hs[..|hs| - 1], ip);
      AlwaysSound(s, hs[..|hs| - 1]);
      AfterAccounted(v, hs[|hs| - 1], ip);
    }
    AlwaysSound(s, hs);
    CountInBounds(Run(s, hs), ip);
  }

  lemma CountInBounds(s: State, ip: Ip)
    requires Sound(s) && Accounted(s.world, ip)
    ensures Sends(s.world.log, ip) <= 2 * MAX_SENDS + 1
  {
    hide Safe, Sends, AllResolve;
    if Pending(s.world.requests, ip) {
      LimitOk(s.config, s.world, ip);
    }
  }

  /** No tick of the session falls into a window of the packet thread. */
  ghost predicate Calm(s: State, hs: seq<Happening>) {
    hs == [] ||
    (var init := hs[..|hs| - 1];
     Calm(s, init) && (hs[|hs| - 1] == Machine(Tick) ==> !InWindow(Run(s, init).world.pc)))
  }

  lemma AfterInStep(s: State, h: Happening)
    requires Sound(s) && AllInStep(s.world) && (h == Machine(Tick) ==> !InWindow(s.world.pc))
    ensures AllInStep(After(s, h).world)
  {
    hide Safe, Apply, Accept, AllResolve, AllInStep;
    if h.Machine? {
      ApplyInStep(s.config, s.world, h.step);
    }
  }

  lemma {:induction false} SessionInStep(s: State, hs: seq<Happening>)
    requires Started(s) && Calm(s, hs)
    ensures AllInStep(Run(s, hs).world)
  {
    hide After, Sound, AllInStep;
    if hs == [] {
      AlwaysInStep(s.config, s.world, []);
      assert Exec(s.config, s.world, []) == s.world;
    } else {
      SessionInStep(s, hs[..|hs| - 1]);
      AlwaysSound(s, hs[..|hs| - 1]);
      AfterInStep(Run(s, hs[..|hs| - 1]), hs[|hs| - 1]);
    }
  }

  /** A calm session sends at most five, and never two within a second. */
  lemma SessionAtMostFive(s: State, hs: seq<Happening>, ip: Ip)
    requires Started(s) && Calm(s, hs)
    ensures Sends(Run(s, hs).world.log, ip) <= MAX_SENDS && Paced(Run(s, hs).world.log)
  {
    hide Run, Sends, Paced;
    SessionInStep(s, hs);
    assert InStep(Run(s, hs).world, ip);
  }

  // ---------------------------------------------------------------------
  // What a session does
  // ---------------------------------------------------------------------

  /** Between messages a session runs the machine. */
  lemma {:induction false} SessionRuns(s: State, steps: seq<Step>)
    requires s.open
    ensures var hs := seq(|steps|, i requires 0 <= i < |steps| => Machine(steps[i]));
            Run(s, hs) == s.(world := Exec(s.config, s.world, steps))
  {
    hide Apply;
    var hs := seq(|steps|, i requires 0 <= i < |steps| => Machine(steps[i]));
    if steps != [] {
      var init := steps[..|steps| - 1];
      SessionRuns(s, init);
      assert hs[..|hs| - 1] == seq(|init|, i requires 0 <= i < |init| => Machine(init[i]));
    }
  }

  /** The description of any hardware that has an interface for every route makes a
      session ready, with the server's interfaces in the server's order. */
  lemma BecomesReady(s: State, ifs: seq<VnsInterface>, memory: nat -> Interface)
    requires Started(s) && ifs != [] && s.config.routes != []
    requires forall k :: 0 <= k < |ifs| ==> 0 !in ifs[k].name && |ifs[k].name| <= NAME_LEN
    requires forall j :: 0 <= j < |s.config.routes| ==> exists k :: 0 <= k < |ifs| && ifs[k].name == s.config.routes[j].iface
    ensures var list := seq(|ifs|, k requires 0 <= k < |ifs| => Interface(ifs[k].name, ifs[k].mac, ifs[k].ip));
            After(s, Hardware(PackHwInfo(ifs), memory)) == s.(config := Config(list, s.config.routes), ready := true)
  {
    hide ApplyEntries, ByName, PackHwInfo;
    var list := seq(|ifs|, k requires 0 <= k < |ifs| => Interface(ifs[k].name, ifs[k].mac, ifs[k].ip));
    HwInfoRoundTrip([], ifs, memory);
    assert [] + seq(|ifs|, k requires 0 <= k < |ifs| => Rebuilt(ifs[k])) == list;
    var c := Config(list, s.config.routes);
    forall j | 0 <= j < |c.routes|
      ensures ByName(c.ifaces, c.routes[j].iface).Some?
    {
      var k :| 0 <= k < |ifs| && ifs[k].name == c.routes[j].iface;
      assert list[k] in c.ifaces && SameName(list[k].name, c.routes[j].iface);
    }
    assert Dangling(c) == {};
  }

  /** A check that fails, a failed assertion and a close message end the session for
      good. */
  lemma {:induction false} EndedStaysEnded(s: State, hs: seq<Happening>)
    requires !s.open
    ensures Run(s, hs) == s
  {
    if hs != [] {
      EndedStaysEnded(s, hs[..|hs| - 1]);
    }
  }
}
