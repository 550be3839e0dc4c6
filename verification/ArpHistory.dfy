/**
 What the log of a run says about packets: which are waiting for an address,
 which were flushed by its reply, which were retired by its timeout. The state
 of the machine and the log always tell the same story, and it is a stack
 discipline: what leaves is what was queued last.
 */
module ArpHistory {
  import opened Bytes
  import opened Routing
  import opened Frames
  import opened ArpMachine
  import opened ArpSafety

  // ---------------------------------------------------------------------
  // Reading a log
  // ---------------------------------------------------------------------

  /** The packet left the queue of `ip` by this event. */
  predicate Leaves(e: Event, ip: Ip) {
    (e.Flushed? || e.Retired?) && e.ip == ip
  }

  predicate Joins(e: Event, ip: Ip) {
    e.Enqueued? && e.ip == ip
  }

  /** The event moves no packet into or out of a queue. */
  predicate Quiet(e: Event) {
    !e.Enqueued? && !e.Flushed? && !e.Retired?
  }

  /** Packets waiting for `ip` after the events given, newest first. */
  function Waiting(log: seq<Event>, ip: Ip): seq<Packet> {
    if log == [] then []
    else
      var before, e := Waiting(log[..|log| - 1], ip), log[|log| - 1];
      if Joins(e, ip) then [e.packet] + before
      else if Leaves(e, ip) && before != [] then before[1..]
      else before
  }

  /** Every packet that leaves is the one queued last among those waiting. */
  ghost predicate LastInFirstOut(log: seq<Event>) {
    log == [] ||
    (var before, e := log[..|log| - 1], log[|log| - 1];
     && LastInFirstOut(before)
     && ((e.Flushed? || e.Retired?) ==> Waiting(before, e.ip) != [] && Waiting(before, e.ip)[0] == e.packet))
  }

  function QueuedFor(log: seq<Event>, ip: Ip): seq<Packet> {
    if log == [] then []
    else
      var before, e := QueuedFor(log[..|log| - 1], ip), log[|log| - 1];
      if Joins(e, ip) then before + [e.packet] else before
  }

  function FlushedFor(log: seq<Event>, ip: Ip): seq<Packet> {
    if log == [] then []
    else
      var before, e := FlushedFor(log[..|log| - 1], ip), log[|log| - 1];
      if e.Flushed? && e.ip == ip then before + [e.packet] else before
  }

  function RetiredFor(log: seq<Event>, ip: Ip): seq<Packet> {
    if log == [] then []
    else
      var before, e := RetiredFor(log[..|log| - 1], ip), log[|log| - 1];
      if e.Retired? && e.ip == ip then before + [e.packet] else before
  }

  /** In a last-in-first-out log nothing is lost and nothing is duplicated. */
  lemma {:induction false} LogConserves(log: seq<Event>, ip: Ip)
    requires LastInFirstOut(log)
    ensures multiset(QueuedFor(log, ip)) ==
            multiset(Waiting(log, ip)) + multiset(FlushedFor(log, ip)) + multiset(RetiredFor(log, ip))
  {
    if log != [] {
      var before, e := log[..|log| - 1], log[|log| - 1];
      LogConserves(before, ip);
      var w := Waiting(before, ip);
      if Leaves(e, ip) {
        assert w == [w[0]] + w[1..];
      }
    }
  }

  lemma WaitingStep(log: seq<Event>, e: Event, ip: Ip)
    ensures Waiting(log + [e], ip) ==
            if Joins(e, ip) then [e.packet] + Waiting(log, ip)
            else if Leaves(e, ip) && Waiting(log, ip) != [] then Waiting(log, ip)[1..]
            else Waiting(log, ip)
  {
    assert (log + [e])[..|log|] == log;
  }

  lemma LifoStep(log: seq<Event>, e: Event)
    requires LastInFirstOut(log)
    requires (e.Flushed? || e.Retired?) ==> Waiting(log, e.ip) != [] && Waiting(log, e.ip)[0] == e.packet
    ensures LastInFirstOut(log + [e])
  {
    assert (log + [e])[..|log|] == log;
  }

  /** Events that move no packet of `ip` do not change what waits for it. */
  lemma {:induction false} WaitingFrame(log: seq<Event>, es: seq<Event>, ip: Ip)
    requires forall i :: 0 <= i < |es| ==> !Joins(es[i], ip) && !Leaves(es[i], ip)
    ensures Waiting(log + es, ip) == Waiting(log, ip)
  {
    if es == [] {
      assert log + es == log;
    } else {
      var init := es[..|es| - 1];
      WaitingFrame(log, init, ip);
      WaitingStep(log + init, es[|es| - 1], ip);
      assert log + es == log + init + [es[|es| - 1]];
    }
  }

  lemma {:induction false} QuietLifo(log: seq<Event>, es: seq<Event>)
    requires LastInFirstOut(log)
    requires forall i :: 0 <= i < |es| ==> !es[i].Flushed? && !es[i].Retired?
    ensures LastInFirstOut(log + es)
  {
    if es == [] {
      assert log + es == log;
    } else {
      var init := es[..|es| - 1];
      QuietLifo(log, init);
      LifoStep(log + init, es[|es| - 1]);
      assert log + es == log + init + [es[|es| - 1]];
    }
  }

  // ---------------------------------------------------------------------
  // The state agrees with the log
  // ---------------------------------------------------------------------

  /** Packets the state holds for `ip`: in its request, or in flight to it. */
  function PacketsFor(w: World, ip: Ip): seq<Packet> {
    if w.pc.Flushing? && w.pc.ip == ip then w.pc.rest else PacketsOf(w.requests, ip)
  }

  ghost predicate Faithful(w: World) {
    && LastInFirstOut(w.log)
    && forall ip: Ip :: Waiting(w.log, ip) == PacketsFor(w, ip)
  }

  /** Retiring the packets of one request, head first, empties its queue. */
  lemma {:induction false} RetireHistory(c: Config, entries: seq<Entry>, ip: Ip, ps: seq<Packet>, log: seq<Event>)
    requires LastInFirstOut(log) && Waiting(log, ip) == ps
    requires forall p :: p in ps ==> |p.buf| >= 42
    ensures var after := log + Retire(c, entries, ip, ps);
            LastInFirstOut(after) && Waiting(after, ip) == []
    decreases |ps|
  {
    hide Notice;
    if ps == [] {
      assert log + Retire(c, entries, ip, ps) == log;
    } else {
      var e := Retired(ip, ps[0], Notice(c, entries, ps[0]));
      WaitingStep(log, e, ip);
      LifoStep(log, e);
      RetireHistory(c, entries, ip, ps[1..], log + [e]);
      assert log + Retire(c, entries, ip, ps) == log + [e] + Retire(c, entries, ip, ps[1..]);
    }
  }

  lemma {:induction false} RetireIsAbout(c: Config, entries: seq<Entry>, ip: Ip, ps: seq<Packet>)
    requires forall p :: p in ps ==> |p.buf| >= 42
    ensures forall i :: 0 <= i < |Retire(c, entries, ip, ps)| ==>
              Retire(c, entries, ip, ps)[i].Retired? && Retire(c, entries, ip, ps)[i].ip == ip
  {
    hide Notice;
    if ps != [] {
      RetireIsAbout(c, entries, ip, ps[1..]);
    }
  }

  /** Handling one request touches its own queue only, and empties it exactly
      when the request does not survive. */
  lemma DoingsHistory(c: Config, entries: seq<Entry>, r: Request, now: int, log: seq<Event>)
    requires LastInFirstOut(log) && Waiting(log, r.ip) == r.packets
    requires forall p :: p in r.packets ==> |p.buf| >= 42
    ensures var after := log + Doings(c, entries, r, now);
            && LastInFirstOut(after)
            && Waiting(after, r.ip) == (if Survivor(r, now).Some? then r.packets else [])
            && forall ip: Ip :: ip != r.ip ==> Waiting(after, ip) == Waiting(log, ip)
  {
    hide Ask, Retire, Waiting, LastInFirstOut;
    var es := Doings(c, entries, r, now);
    RetireIsAbout(c, entries, r.ip, r.packets);
    AskIsAbout(c, r, now);
    forall ip: Ip | ip != r.ip
      ensures Waiting(log + es, ip) == Waiting(log, ip)
    {
      WaitingFrame(log, es, ip);
    }
    if Survivor(r, now).None? {
      RetireHistory(c, entries, r.ip, r.packets, log);
    } else {
      QuietLifo(log, es);
      WaitingFrame(log, es, r.ip);
    }
  }

  lemma AskIsAbout(c: Config, r: Request, now: int)
    ensures forall i :: 0 <= i < |Ask(c, r, now)| ==>
              Ask(c, r, now)[i].Asked? && Ask(c, r, now)[i].ip == r.ip && Ask(c, r, now)[i].at == now
  {
    hide ArpRequest;
  }

  lemma PacketsOfCons(r: Request, rs: seq<Request>, ip: Ip)
    ensures PacketsOf([r] + rs, ip) == if r.ip == ip then r.packets else PacketsOf(rs, ip)
    ensures Pending([r] + rs, ip) <==> (r.ip == ip || Pending(rs, ip))
  {
    assert ([r] + rs)[1..] == rs;
  }

  /** What each address still has waiting once a whole list has been swept. */
  lemma {:induction false} SweepHistory(c: Config, entries: seq<Entry>, rs: seq<Request>, now: int, log: seq<Event>)
    requires RequestsOk(c, rs) && Quotable(rs) && LastInFirstOut(log)
    requires forall i :: 0 <= i < |rs| ==> Waiting(log, rs[i].ip) == rs[i].packets
    ensures var after := log + SweepEvents(c, entries, rs, now);
            && LastInFirstOut(after)
            && forall ip: Ip :: Waiting(after, ip) ==
                 if Pending(rs, ip) then PacketsOf(SweepList(rs, now), ip) else Waiting(log, ip)
    decreases |rs|
  {
    hide Doings, Waiting, LastInFirstOut, PacketsOf;
    if rs == [] {
      assert log + SweepEvents(c, entries, rs, now) == log;
    } else {
      var r, rest := rs[0], rs[1..];
      var mid := log + Doings(c, entries, r, now);
      DoingsHistory(c, entries, r, now, log);
      SweepHistory(c, entries, rest, now, mid);
      var after := log + SweepEvents(c, entries, rs, now);
      assert after == mid + SweepEvents(c, entries, rest, now);
      assert rs == [r] + rest;
      forall ip: Ip
        ensures Waiting(after, ip) == if Pending(rs, ip) then PacketsOf(SweepList(rs, now), ip) else Waiting(log, ip)
      {
        SweepHead(c, rs, now, ip);
      }
    }
  }

  lemma SweepHead(c: Config, rs: seq<Request>, now: int, ip: Ip)
    requires rs != [] && RequestsOk(c, rs)
    ensures Pending(rs, ip) <==> (rs[0].ip == ip || Pending(rs[1..], ip))
    ensures rs[0].ip == ip ==> !Pending(rs[1..], ip)
    ensures PacketsOf(SweepList(rs, now), ip) ==
            if rs[0].ip == ip then (if Survivor(rs[0], now).Some? then rs[0].packets else [])
            else PacketsOf(SweepList(rs[1..], now), ip)
  {
    var rest := SweepList(rs[1..], now);
    assert rs == [rs[0]] + rs[1..];
    PacketsOfCons(rs[0], rs[1..], ip);
    PendingIff(rs[1..], ip);
    if rs[0].ip == ip && Pending(rest, ip) {
      SweptIps(c, rs[1..], now, ip);
    }
    if Survivor(rs[0], now).Some? {
      PacketsOfCons(Survivor(rs[0], now).value, rest, ip);
    }
  }

  lemma TickFaithful(c: Config, w: World)
    requires Safe(c, w) && Faithful(w) && Quotable(w.requests)
    ensures Faithful(TickStep(c, w))
  {
    hide SweepEvents, SweepList, Expire, Waiting, LastInFirstOut, PacketsOf;
    var w', entries := TickStep(c, w), Expire(w.entries, w.now);
    forall i | 0 <= i < |w.requests|
      ensures Waiting(w.log, w.requests[i].ip) == w.requests[i].packets
    {
      RequestPackets(c, w, i);
    }
    SweepHistory(c, entries, w.requests, w.now, w.log);
    forall ip: Ip
      ensures Waiting(w'.log, ip) == PacketsFor(w', ip)
    {
      if !Pending(w.requests, ip) {
        if Pending(w'.requests, ip) {
          SweptIps(c, w.requests, w.now, ip);
        }
        NoPackets(w.requests, ip);
        NoPackets(w'.requests, ip);
      }
    }
  }

  lemma NoPackets(rs: seq<Request>, ip: Ip)
    requires !Pending(rs, ip)
    ensures PacketsOf(rs, ip) == []
  {
  }

  lemma RequestPackets(c: Config, w: World, i: nat)
    requires Safe(c, w) && Faithful(w) && i < |w.requests|
    ensures Waiting(w.log, w.requests[i].ip) == w.requests[i].packets
  {
    FindIs(w.requests, i);
  }

  lemma UnlinkPackets(c: Config, rs: seq<Request>, ip: Ip, other: Ip)
    requires RequestsOk(c, rs)
    ensures PacketsOf(Unlink(rs, ip), other) == if other == ip then [] else PacketsOf(rs, other)
  {
    UnlinkOk(c, rs, ip);
    var us, i := Unlink(rs, ip), Find(rs, ip);
    if other != ip && i < |rs| {
      var j := Find(rs, other);
      if j < |rs| {
        var k := if j < i then j else j - 1;
        assert us[k] == rs[j];
        FindIs(us, k);
      } else {
        PendingIff(us, other);
      }
    }
  }

  lemma QueuePackets(c: Config, rs: seq<Request>, ip: Ip, p: Packet, other: Ip)
    requires RequestsOk(c, rs) && PacketOk(c, p)
    ensures PacketsOf(Queue(rs, ip, p), other) ==
            if other == ip then [p] + PacketsOf(rs, ip) else PacketsOf(rs, other)
  {
    hide RequestOk, PacketsOf;
    QueueOk(c, rs, ip, p);
    var i := Find(rs, ip);
    if i < |rs| {
      UpdatePackets(rs, i, rs[i].(packets := [p] + rs[i].packets), other);
      UpdatePackets(rs, i, rs[i], ip);
      assert rs[i := rs[i]] == rs;
    } else {
      assert [p] + [] == [p];
      PacketsOfCons(Request(ip, 0, 0, [p]), rs, other);
      NoPackets(rs, ip);
    }
  }

  /** Replacing a request by another for the same address. */
  lemma UpdatePackets(rs: seq<Request>, i: nat, r: Request, other: Ip)
    requires Distinct(rs) && i < |rs| && r.ip == rs[i].ip
    ensures PacketsOf(rs[i := r], other) == if other == r.ip then r.packets else PacketsOf(rs, other)
  {
    var us, j := rs[i := r], Find(rs, other);
    FindIs(us, i);
    if j < |rs| {
      FindIs(us, j);
    } else {
      PendingIff(us, other);
    }
  }

  lemma MarkPackets(c: Config, rs: seq<Request>, ip: Ip, now: int, other: Ip)
    requires RequestsOk(c, rs)
    ensures PacketsOf(Mark(rs, ip, now), other) == PacketsOf(rs, other)
  {
    hide RequestOk, PacketsOf;
    var i := Find(rs, ip);
    if i < |rs| {
      UpdatePackets(rs, i, rs[i].(sent := now, timesSent := 1), other);
      UpdatePackets(rs, i, rs[i], other);
      assert rs[i := rs[i]] == rs;
    }
  }

  /** Appending events that move no packet keeps a state faithful if it holds
      the same packets as before. */
  lemma QuietFaithful(w: World, w': World)
    requires Faithful(w) && w.log <= w'.log
    requires forall i :: |w.log| <= i < |w'.log| ==> Quiet(w'.log[i])
    requires forall ip: Ip :: PacketsFor(w', ip) == PacketsFor(w, ip)
    ensures Faithful(w')
  {
    hide Waiting, LastInFirstOut, PacketsFor;
    var es := w'.log[|w.log|..];
    assert w'.log == w.log + es;
    QuietLifo(w.log, es);
    forall ip: Ip
      ensures Waiting(w'.log, ip) == PacketsFor(w', ip)
    {
      WaitingFrame(w.log, es, ip);
    }
  }

  lemma LearnPackets(c: Config, w: World, ip: Ip, mac: Mac, other: Ip)
    requires Safe(c, w) && w.pc == Idle
    ensures PacketsFor(LearnStep(w, ip, mac), other) == PacketsFor(w, other)
  {
    hide Unlink, Insert, PacketsOf;
    UnlinkPackets(c, w.requests, ip, other);
    if !Pending(w.requests, ip) {
      NoPackets(w.requests, ip);
    }
  }

  lemma ReceiveFaithful(c: Config, w: World, f: Frame, name: Name)
    requires Safe(c, w) && Faithful(w) && w.pc == Idle && Receivable(c, f, name)
    ensures Faithful(ReceiveStep(c, w, f, name))
  {
    hide Dispatch, Receivable, Unlink, Insert, PacketsOf, Fill, Stamp, Faithful;
    var w', w0 := ReceiveStep(c, w, f, name), w.(log := w.log + [Arrived(f, name)]);
    forall ip: Ip
      ensures PacketsFor(w', ip) == PacketsFor(w, ip)
    {
      match Dispatch(c, f, name)
      case Learn(learned, mac) => LearnPackets(c, w0, learned, mac, ip);
      case _ =>
    }
    QuietFaithful(w, w');
  }

  lemma QueueFaithful(c: Config, w: World)
    requires Safe(c, w) && Faithful(w) && w.pc.Missed?
    ensures Faithful(QueueStep(w, w.pc.ip, w.pc.packet))
  {
    hide Queue, Waiting, LastInFirstOut, PacketsOf;
    var w', p := QueueStep(w, w.pc.ip, w.pc.packet), w.pc.packet;
    var mid := w.log + if Pending(w.requests, w.pc.ip) then [] else [Opened(w.pc.ip)];
    QuietLifo(w.log, mid[|w.log|..]);
    LifoStep(mid, Enqueued(w.pc.ip, p));
    forall ip: Ip
      ensures Waiting(w'.log, ip) == PacketsFor(w', ip)
    {
      WaitingFrame(w.log, mid[|w.log|..], ip);
      WaitingStep(mid, Enqueued(w.pc.ip, p), ip);
      QueuePackets(c, w.requests, w.pc.ip, p, ip);
    }
  }

  lemma FlushFaithful(c: Config, w: World)
    requires Safe(c, w) && Faithful(w) && w.pc.Flushing?
    ensures Faithful(FlushStep(c, w, w.pc.ip, w.pc.mac, w.pc.rest))
  {
    hide Waiting, LastInFirstOut, PacketsOf, Fill;
    var w', rest := FlushStep(c, w, w.pc.ip, w.pc.mac, w.pc.rest), w.pc.rest;
    if rest == [] {
      NoPackets(w.requests, w.pc.ip);
    } else {
      assert PacketOk(c, rest[0]);
      var e := w'.log[|w.log|];
      assert w'.log == w.log + [e];
      LifoStep(w.log, e);
      forall ip: Ip
        ensures Waiting(w'.log, ip) == PacketsFor(w', ip)
      {
        WaitingStep(w.log, e, ip);
      }
    }
  }

  lemma ProceedFaithful(c: Config, w: World, stale: bool)
    requires Safe(c, w) && Faithful(w)
    ensures Faithful(ProceedStep(c, w, stale))
  {
    hide Waiting, LastInFirstOut, PacketsOf, QueueStep, FlushStep, ArpRequest, Mark;
    var w' := ProceedStep(c, w, stale);
    match w.pc
    case Idle =>
    case Missed(_, _) => QueueFaithful(c, w);
    case Holding(_, _) =>
    case Sending(_, _) => QuietFaithful(w, w');
    case Marking(m) =>
      forall ip: Ip ensures Waiting(w'.log, ip) == PacketsFor(w', ip) { MarkPackets(c, w.requests, m, w.now, ip); }
    case Flushing(_, _, _) => FlushFaithful(c, w);
  }

  lemma StepFaithful(c: Config, w: World, s: Step)
    requires Safe(c, w) && Faithful(w)
    ensures Faithful(Apply(c, w, s))
  {
    hide TickStep, ReceiveStep, ProceedStep, Receivable, Faithful, Safe;
    match s
    case Advance(d) => AdvanceFaithful(w, d);
    case Tick =>
      if Quotable(w.requests) {
        TickFaithful(c, w);
      }
    case Receive(f, name) =>
      if w.pc == Idle && Receivable(c, f, name) {
        ReceiveFaithful(c, w, f, name);
      }
    case Proceed(stale) => ProceedFaithful(c, w, stale);
  }

  /** The log and the state agree in every reachable state. */
  lemma {:induction false} AlwaysFaithful(c: Config, w: World, steps: seq<Step>)
    requires Initial(w)
    ensures Faithful(Exec(c, w, steps))
  {
    hide Apply, Faithful, Safe;
    if steps == [] {
      InitialFaithful(w);
    } else {
      AlwaysFaithful(c, w, steps[..|steps| - 1]);
      AlwaysSafe(c, w, steps[..|steps| - 1]);
      StepFaithful(c, Exec(c, w, steps[..|steps| - 1]), steps[|steps| - 1]);
    }
  }

  lemma InitialFaithful(w: World)
    requires Initial(w)
    ensures Faithful(w)
  {
  }

  lemma AdvanceFaithful(w: World, d: nat)
    requires Faithful(w)
    ensures Faithful(w.(now := w.now + d))
  {
    var w' := w.(now := w.now + d);
    forall ip: Ip ensures Waiting(w'.log, ip) == PacketsFor(w', ip) { assert PacketsFor(w', ip) == PacketsFor(w, ip); }
  }

  /** Packet conservation over every run and every interleaving: what was ever
      queued for an address is still held for it, or was transmitted by a flush,
      or was retired by a timeout, each packet exactly once; and packets leave in
      exact reverse order of queueing. */
  lemma PacketsAreConserved(c: Config, w: World, steps: seq<Step>, ip: Ip)
    requires Initial(w)
    ensures var w' := Exec(c, w, steps);
            && LastInFirstOut(w'.log)
            && multiset(QueuedFor(w'.log, ip)) ==
               multiset(PacketsFor(w', ip)) + multiset(FlushedFor(w'.log, ip)) + multiset(RetiredFor(w'.log, ip))
  {
    hide Exec, PacketsFor, LastInFirstOut;
    AlwaysFaithful(c, w, steps);
    FaithfulConserves(Exec(c, w, steps), ip);
  }

  lemma FaithfulConserves(w: World, ip: Ip)
    requires Faithful(w)
    ensures LastInFirstOut(w.log)
    ensures multiset(QueuedFor(w.log, ip)) ==
            multiset(PacketsFor(w, ip)) + multiset(FlushedFor(w.log, ip)) + multiset(RetiredFor(w.log, ip))
  {
    hide PacketsFor, LastInFirstOut;
    LogConserves(w.log, ip);
  }
}
