/**
 What every reachable state of the ARP machine satisfies, for every way the
 timeout thread's ticks fall between the packet thread's steps: requests have
 distinct addresses, no address is both pending and cached, and everything
 queued can still be sent.
 */
module ArpSafety {
  import opened Bytes
  import opened Routing
  import opened Frames
  import opened ArpMachine

  ghost predicate Distinct(rs: seq<Request>) {
    forall i, j :: 0 <= i < j < |rs| ==> rs[i].ip != rs[j].ip
  }

  ghost predicate PacketOk(c: Config, p: Packet) {
    |p.buf| >= 42 && ByName(c.ifaces, p.iface).Some?
  }

  ghost predicate RequestOk(c: Config, r: Request) {
    && r.packets != [] && r.timesSent <= MAX_SENDS
    && forall p :: p in r.packets ==> PacketOk(c, p)
  }

  ghost predicate RequestsOk(c: Config, rs: seq<Request>) {
    Distinct(rs) && forall i :: 0 <= i < |rs| ==> RequestOk(c, rs[i])
  }

  /** No address is both pending and validly cached. */
  ghost predicate Apart(entries: seq<Entry>, rs: seq<Request>) {
    forall i :: 0 <= i < |rs| ==> !Cached(entries, rs[i].ip)
  }

  /** What the packet thread may rely on between two of its steps. */
  ghost predicate PcOk(c: Config, w: World) {
    match w.pc
    case Idle => true
    case Missed(ip, p) => PacketOk(c, p) && !Cached(w.entries, ip)
    case Holding(_, iface) => ByName(c.ifaces, iface).Some?
    case Sending(_, iface) => ByName(c.ifaces, iface).Some?
    case Marking(_) => true
    case Flushing(ip, _, rest) => !Pending(w.requests, ip) && forall p :: p in rest ==> PacketOk(c, p)
  }

  ghost predicate Safe(c: Config, w: World) {
    && |w.entries| == SLOTS
    && RequestsOk(c, w.requests)
    && Apart(w.entries, w.requests)
    && PcOk(c, w)
  }

  // ---------------------------------------------------------------------
  // The table
  // ---------------------------------------------------------------------

  /** A tick only ever removes addresses from the table. */
  lemma ExpireUncaches(entries: seq<Entry>, now: int, ip: Ip)
    requires Cached(Expire(entries, now), ip)
    ensures Cached(entries, ip)
  {
    var i :| 0 <= i < |entries| && Holds(Expire(entries, now)[i], ip);
    assert Holds(entries[i], ip);
  }

  /** A reply adds its own address and no other. */
  lemma InsertCaches(entries: seq<Entry>, ip: Ip, mac: Mac, now: int, other: Ip)
    requires Cached(Insert(entries, ip, mac, now), other) && other != ip
    ensures Cached(entries, other)
  {
    var after := Insert(entries, ip, mac, now);
    var i :| 0 <= i < |after| && Holds(after[i], other);
    assert after[i] == entries[i];
    assert Holds(entries[i], other);
  }

  // ---------------------------------------------------------------------
  // The list
  // ---------------------------------------------------------------------

  lemma PendingIff(rs: seq<Request>, ip: Ip)
    ensures Pending(rs, ip) <==> exists i :: 0 <= i < |rs| && rs[i].ip == ip
  {
  }

  lemma FindIs(rs: seq<Request>, i: nat)
    requires Distinct(rs) && i < |rs|
    ensures Find(rs, rs[i].ip) == i
  {
  }

  lemma QueueOk(c: Config, rs: seq<Request>, ip: Ip, p: Packet)
    requires RequestsOk(c, rs) && PacketOk(c, p)
    ensures RequestsOk(c, Queue(rs, ip, p))
  {
    var i := Find(rs, ip);
    if i < |rs| {
      assert RequestOk(c, rs[i]);
    }
  }

  lemma QueueIps(rs: seq<Request>, ip: Ip, p: Packet, i: nat)
    requires i < |Queue(rs, ip, p)|
    ensures Queue(rs, ip, p)[i].ip == ip || Pending(rs, Queue(rs, ip, p)[i].ip)
  {
    PendingIff(rs, Queue(rs, ip, p)[i].ip);
  }

  lemma UnlinkOk(c: Config, rs: seq<Request>, ip: Ip)
    requires RequestsOk(c, rs)
    ensures RequestsOk(c, Unlink(rs, ip)) && !Pending(Unlink(rs, ip), ip)
    ensures forall i :: 0 <= i < |Unlink(rs, ip)| ==> Unlink(rs, ip)[i] in rs
  {
    PendingIff(Unlink(rs, ip), ip);
  }

  lemma MarkOk(c: Config, rs: seq<Request>, ip: Ip, now: int)
    requires RequestsOk(c, rs)
    ensures RequestsOk(c, Mark(rs, ip, now))
    ensures forall i :: 0 <= i < |rs| ==> Mark(rs, ip, now)[i].ip == rs[i].ip
  {
    var i := Find(rs, ip);
    if i < |rs| {
      assert RequestOk(c, rs[i]);
    }
  }

  /** `r` is what the sweep made of some request of `rs`. */
  ghost predicate Descends(rs: seq<Request>, now: int, r: Request) {
    exists j :: 0 <= j < |rs| && Survivor(rs[j], now) == Some(r)
  }

  lemma DescendsTail(rs: seq<Request>, now: int, r: Request)
    requires rs != [] && Descends(rs[1..], now, r)
    ensures Descends(rs, now, r)
  {
    var j :| 0 <= j < |rs[1..]| && Survivor(rs[1..][j], now) == Some(r);
    assert rs[j + 1] == rs[1..][j];
  }

  /** A swept list holds what the sweep made of the old requests, nothing else. */
  lemma {:induction false} SweepDescends(rs: seq<Request>, now: int)
    ensures forall i :: 0 <= i < |SweepList(rs, now)| ==> Descends(rs, now, SweepList(rs, now)[i])
  {
    if rs != [] {
      SweepDescends(rs[1..], now);
      var rest, all := SweepList(rs[1..], now), SweepList(rs, now);
      forall i | 0 <= i < |all|
        ensures Descends(rs, now, all[i])
      {
        var k := i - (|all| - |rest|);
        if k < 0 {
          assert Survivor(rs[0], now) == Some(all[i]);
        } else {
          assert all[i] == rest[k];
          DescendsTail(rs, now, all[i]);
        }
      }
    }
  }

  lemma DescendantOk(c: Config, rs: seq<Request>, now: int, r: Request)
    requires RequestsOk(c, rs) && Descends(rs, now, r)
    ensures RequestOk(c, r) && Pending(rs, r.ip)
  {
    var j :| 0 <= j < |rs| && Survivor(rs[j], now) == Some(r);
    assert RequestOk(c, rs[j]);
    PendingIff(rs, r.ip);
  }

  lemma {:induction false} SweepOk(c: Config, rs: seq<Request>, now: int)
    requires RequestsOk(c, rs)
    ensures RequestsOk(c, SweepList(rs, now))
  {
    if rs != [] {
      var rest := SweepList(rs[1..], now);
      SweepOk(c, rs[1..], now);
      SweepDescends(rs[1..], now);
      forall i | 0 <= i < |rest|
        ensures rest[i].ip != rs[0].ip
      {
        DescendantOk(c, rs[1..], now, rest[i]);
        assert rs[1..][Find(rs[1..], rest[i].ip)] == rs[Find(rs[1..], rest[i].ip) + 1];
      }
      assert RequestOk(c, rs[0]);
    }
  }

  lemma SweptIps(c: Config, rs: seq<Request>, now: int, ip: Ip)
    requires RequestsOk(c, rs) && Pending(SweepList(rs, now), ip)
    ensures Pending(rs, ip)
  {
    SweepDescends(rs, now);
    DescendantOk(c, rs, now, SweepList(rs, now)[Find(SweepList(rs, now), ip)]);
  }

  lemma OkIsQuotable(c: Config, rs: seq<Request>)
    requires RequestsOk(c, rs)
    ensures Quotable(rs)
  {
    forall i | 0 <= i < |rs|
      ensures forall p :: p in rs[i].packets ==> |p.buf| >= 42
    {
      assert RequestOk(c, rs[i]);
    }
  }

  // ---------------------------------------------------------------------
  // Every step keeps the invariant
  // ---------------------------------------------------------------------

  lemma TickSafe(c: Config, w: World)
    requires Safe(c, w)
    ensures Quotable(w.requests) && Safe(c, TickStep(c, w))
  {
    hide SweepList, SweepEvents, Expire, Cached;
    OkIsQuotable(c, w.requests);
    var w' := TickStep(c, w);
    SweepOk(c, w.requests, w.now);
    forall i | 0 <= i < |w'.requests|
      ensures !Cached(w'.entries, w'.requests[i].ip)
    {
      var ip := w'.requests[i].ip;
      PendingIff(w'.requests, ip);
      SweptIps(c, w.requests, w.now, ip);
      assert !Cached(w.entries, w.requests[Find(w.requests, ip)].ip);
      if Cached(w'.entries, ip) {
        ExpireUncaches(w.entries, w.now, ip);
      }
    }
    match w.pc
    case Missed(ip, _) =>
      if Cached(w'.entries, ip) {
        ExpireUncaches(w.entries, w.now, ip);
      }
    case Flushing(ip, _, _) =>
      if Pending(w'.requests, ip) {
        SweptIps(c, w.requests, w.now, ip);
      }
    case _ =>
  }

  lemma LearnSafe(c: Config, w: World, ip: Ip, mac: Mac)
    requires Safe(c, w) && w.pc == Idle
    ensures Safe(c, LearnStep(w, ip, mac))
  {
    hide Unlink, Insert, Cached;
    UnlinkOk(c, w.requests, ip);
    var w' := LearnStep(w, ip, mac);
    forall i | 0 <= i < |w'.requests|
      ensures !Cached(w'.entries, w'.requests[i].ip)
    {
      PendingIff(w'.requests, ip);
      if Cached(w'.entries, w'.requests[i].ip) {
        InsertCaches(w.entries, ip, mac, w.now, w'.requests[i].ip);
      }
    }
    if Pending(w.requests, ip) {
      assert RequestOk(c, w.requests[Find(w.requests, ip)]);
    }
  }

  lemma ReceiveSafe(c: Config, w: World, f: Frame, name: Name)
    requires Safe(c, w) && w.pc == Idle && Receivable(c, f, name)
    ensures Safe(c, ReceiveStep(c, w, f, name))
  {
    hide Dispatch, LearnStep, Receivable, Stamp, Fill, Cached;
    var w0 := w.(log := w.log + [Arrived(f, name)]);
    DispatchIsResolvable(c, f, name);
    match Dispatch(c, f, name)
    case Learn(ip, mac) => LearnSafe(c, w0, ip, mac);
    case _ =>
  }

  lemma QueueSafe(c: Config, w: World)
    requires Safe(c, w) && w.pc.Missed?
    ensures Safe(c, QueueStep(w, w.pc.ip, w.pc.packet))
  {
    hide Queue, Cached;
    QueueOk(c, w.requests, w.pc.ip, w.pc.packet);
    var qs := Queue(w.requests, w.pc.ip, w.pc.packet);
    forall i | 0 <= i < |qs|
      ensures !Cached(w.entries, qs[i].ip)
    {
      QueueIps(w.requests, w.pc.ip, w.pc.packet, i);
      assert Pending(w.requests, qs[i].ip) ==> !Cached(w.entries, w.requests[Find(w.requests, qs[i].ip)].ip);
    }
  }

  lemma ProceedSafe(c: Config, w: World, stale: bool)
    requires Safe(c, w)
    ensures Safe(c, ProceedStep(c, w, stale))
  {
    hide Mark, Fill, ArpRequest, Cached, QueueStep;
    match w.pc
    case Missed(_, _) => QueueSafe(c, w);
    case Marking(ip) => MarkOk(c, w.requests, ip, w.now);
    case Flushing(_, _, rest) => assert forall p :: p in rest ==> PacketOk(c, p);
    case _ =>
  }

  lemma ApplySafe(c: Config, w: World, s: Step)
    requires Safe(c, w)
    ensures Safe(c, Apply(c, w, s))
  {
    hide TickStep, ReceiveStep, ProceedStep, Receivable;
    match s
    case Advance(_) =>
    case Tick => TickSafe(c, w);
    case Receive(f, name) =>
      if w.pc == Idle && Receivable(c, f, name) {
        ReceiveSafe(c, w, f, name);
      }
    case Proceed(stale) => ProceedSafe(c, w, stale);
  }

  /** In every reachable state, under every interleaving, pending requests have
      pairwise distinct addresses and none of them is validly cached. */
  lemma {:induction false} AlwaysSafe(c: Config, w: World, steps: seq<Step>)
    requires Initial(w)
    ensures Safe(c, Exec(c, w, steps))
  {
    if steps != [] {
      AlwaysSafe(c, w, steps[..|steps| - 1]);
      ApplySafe(c, Exec(c, w, steps[..|steps| - 1]), steps[|steps| - 1]);
    }
  }
}
