/**
 How often and how fast a request is repeated. A request is opened when the
 first packet for an address is queued; the claims count the ARP requests sent
 for that address since. The packet thread tests and writes `times_sent`
 outside the lock, so the limit of five depends on no tick falling there.
 */
module ArpRetry {
  import opened Bytes
  import opened Routing
  import opened Frames
  import opened ArpMachine
  import opened ArpSafety
  import opened ArpHistory

  // ---------------------------------------------------------------------
  // Reading a log
  // ---------------------------------------------------------------------

  predicate Counts(e: Event, ip: Ip) {
    (e.Asked? || e.Opened?) && e.ip == ip
  }

  /** ARP requests for `ip` since it was last opened. */
  function Sends(log: seq<Event>, ip: Ip): nat {
    if log == [] then 0
    else
      var before, e := Sends(log[..|log| - 1], ip), log[|log| - 1];
      if !Counts(e, ip) then before else if e.Opened? then 0 else before + 1
  }

  /** When the last of them was sent. */
  function LastAsk(log: seq<Event>, ip: Ip): Option<int> {
    if log == [] then None
    else
      var before, e := LastAsk(log[..|log| - 1], ip), log[|log| - 1];
      if !Counts(e, ip) then before else if e.Opened? then None else Some(e.at)
  }

  /** Consecutive requests for an address are at least one second apart. */
  ghost predicate Paced(log: seq<Event>) {
    log == [] ||
    (var before, e := log[..|log| - 1], log[|log| - 1];
     Paced(before) && (e.Asked? && LastAsk(before, e.ip).Some? ==> e.at - LastAsk(before, e.ip).value >= 1))
  }

  lemma SendsStep(log: seq<Event>, e: Event, ip: Ip)
    ensures Sends(log + [e], ip) ==
            if !Counts(e, ip) then Sends(log, ip) else if e.Opened? then 0 else Sends(log, ip) + 1
    ensures LastAsk(log + [e], ip) ==
            if !Counts(e, ip) then LastAsk(log, ip) else if e.Opened? then None else Some(e.at)
  {
    assert (log + [e])[..|log|] == log;
  }

  lemma PacedStep(log: seq<Event>, e: Event)
    requires Paced(log)
    requires e.Asked? && LastAsk(log, e.ip).Some? ==> e.at - LastAsk(log, e.ip).value >= 1
    ensures Paced(log + [e])
  {
    assert (log + [e])[..|log|] == log;
  }

  lemma {:induction false} SendsFrame(log: seq<Event>, es: seq<Event>, ip: Ip)
    requires forall i :: 0 <= i < |es| ==> !Counts(es[i], ip)
    ensures Sends(log + es, ip) == Sends(log, ip) && LastAsk(log + es, ip) == LastAsk(log, ip)
  {
    if es == [] {
      assert log + es == log;
    } else {
      var init := es[..|es| - 1];
      SendsFrame(log, init, ip);
      SendsStep(log + init, es[|es| - 1], ip);
      assert log + es == log + init + [es[|es| - 1]];
    }
  }

  lemma {:induction false} PacedFrame(log: seq<Event>, es: seq<Event>)
    requires Paced(log) && forall i :: 0 <= i < |es| ==> !es[i].Asked?
    ensures Paced(log + es)
  {
    if es == [] {
      assert log + es == log;
    } else {
      var init := es[..|es| - 1];
      PacedFrame(log, init);
      PacedStep(log + init, es[|es| - 1]);
      assert log + es == log + init + [es[|es| - 1]];
    }
  }

  // ---------------------------------------------------------------------
  // What a sweep does for one address
  // ---------------------------------------------------------------------

  /** The request for `ip`, given that there is one. */
  function RequestFor(rs: seq<Request>, ip: Ip): (r: Request)
    requires Pending(rs, ip)
    ensures r.ip == ip
  {
    rs[Find(rs, ip)]
  }

  lemma RequestForCons(r: Request, rs: seq<Request>, ip: Ip)
    ensures Pending([r] + rs, ip) <==> (r.ip == ip || Pending(rs, ip))
    ensures r.ip == ip ==> RequestFor([r] + rs, ip) == r
    ensures r.ip != ip && Pending(rs, ip) ==> RequestFor([r] + rs, ip) == RequestFor(rs, ip)
  {
    assert ([r] + rs)[1..] == rs;
  }

  /** The swept list holds exactly what the sweep made of each request. */
  lemma {:induction false} SweepFind(c: Config, rs: seq<Request>, now: int, ip: Ip)
    requires RequestsOk(c, rs)
    ensures Pending(SweepList(rs, now), ip) <==> (Pending(rs, ip) && Survivor(RequestFor(rs, ip), now).Some?)
    ensures Pending(SweepList(rs, now), ip) ==>
              Survivor(RequestFor(rs, ip), now) == Some(RequestFor(SweepList(rs, now), ip))
  {
    if rs != [] {
      var r, rest := rs[0], rs[1..];
      SweepFind(c, rest, now, ip);
      assert rs == [r] + rest;
      RequestForCons(r, rest, ip);
      PendingIff(rest, ip);
      if Survivor(r, now).Some? {
        RequestForCons(Survivor(r, now).value, SweepList(rest, now), ip);
      }
    }
  }

  /** A due request under the limit is asked for once, and only then. */
  predicate Repeats(r: Request, now: int) {
    Due(r, now) && r.timesSent < MAX_SENDS
  }

  /** The newest packet decides the interface; a good request always has one. */
  lemma AskOnce(c: Config, r: Request, now: int)
    requires RequestOk(c, r)
    ensures |Ask(c, r, now)| == 1
    ensures Ask(c, r, now)[0].Asked? && Ask(c, r, now)[0].ip == r.ip && Ask(c, r, now)[0].at == now
  {
    assert PacketOk(c, r.packets[0]);
  }

  /** The clock condition under which asking again keeps the pace. */
  ghost predicate Spaced(log: seq<Event>, r: Request) {
    LastAsk(log, r.ip).Some? ==> LastAsk(log, r.ip).value <= r.sent
  }

  lemma DoingsAsks(c: Config, entries: seq<Entry>, r: Request, now: int, log: seq<Event>)
    requires RequestOk(c, r) && (forall p :: p in r.packets ==> |p.buf| >= 42)
    ensures var after := log + Doings(c, entries, r, now);
            && (forall ip: Ip :: ip != r.ip ==>
                  Sends(after, ip) == Sends(log, ip) && LastAsk(after, ip) == LastAsk(log, ip))
            && Sends(after, r.ip) == Sends(log, r.ip) + (if Repeats(r, now) then 1 else 0)
            && LastAsk(after, r.ip) == (if Repeats(r, now) then Some(now) else LastAsk(log, r.ip))
            && (Paced(log) && Spaced(log, r) ==> Paced(after))
  {
    hide Ask, Retire, Sends, LastAsk, Paced;
    var es := Doings(c, entries, r, now);
    AskOnce(c, r, now);
    RetireIsAbout(c, entries, r.ip, r.packets);
    forall ip: Ip | ip != r.ip
      ensures Sends(log + es, ip) == Sends(log, ip) && LastAsk(log + es, ip) == LastAsk(log, ip)
    {
      SendsFrame(log, es, ip);
    }
    if Repeats(r, now) {
      assert es == [es[0]];
      SendsStep(log, es[0], r.ip);
      if Paced(log) && Spaced(log, r) {
        PacedStep(log, es[0]);
      }
    } else {
      SendsFrame(log, es, r.ip);
      if Paced(log) {
        PacedFrame(log, es);
      }
    }
  }

  lemma {:induction false} SweepAsks(c: Config, entries: seq<Entry>, rs: seq<Request>, now: int, log: seq<Event>, ip: Ip)
    requires RequestsOk(c, rs) && Quotable(rs)
    ensures var after, again := log + SweepEvents(c, entries, rs, now), Pending(rs, ip) && Repeats(RequestFor(rs, ip), now);
            && Sends(after, ip) == Sends(log, ip) + (if again then 1 else 0)
            && LastAsk(after, ip) == (if again then Some(now) else LastAsk(log, ip))
    decreases |rs|
  {
    hide Doings, Sends, LastAsk;
    if rs == [] {
      assert log + SweepEvents(c, entries, rs, now) == log;
    } else {
      var r, rest := rs[0], rs[1..];
      assert RequestOk(c, r);
      DoingsAsks(c, entries, r, now, log);
      SweepAsks(c, entries, rest, now, log + Doings(c, entries, r, now), ip);
      assert log + SweepEvents(c, entries, rs, now) == log + Doings(c, entries, r, now) + SweepEvents(c, entries, rest, now);
      assert rs == [r] + rest;
      RequestForCons(r, rest, ip);
      PendingIff(rest, ip);
    }
  }

  lemma {:induction false} SweepPaced(c: Config, entries: seq<Entry>, rs: seq<Request>, now: int, log: seq<Event>)
    requires RequestsOk(c, rs) && Quotable(rs) && Paced(log)
    requires forall i :: 0 <= i < |rs| ==> Spaced(log, rs[i])
    ensures Paced(log + SweepEvents(c, entries, rs, now))
    decreases |rs|
  {
    hide Doings, Paced, LastAsk;
    if rs == [] {
      assert log + SweepEvents(c, entries, rs, now) == log;
    } else {
      var r, rest := rs[0], rs[1..];
      var mid := log + Doings(c, entries, r, now);
      assert RequestOk(c, r);
      DoingsAsks(c, entries, r, now, log);
      forall i | 0 <= i < |rest|
        ensures Spaced(mid, rest[i])
      {
        assert rest[i] == rs[i + 1];
      }
      SweepPaced(c, entries, rest, now, mid);
      assert log + SweepEvents(c, entries, rs, now) == mid + SweepEvents(c, entries, rest, now);
    }
  }

  // ---------------------------------------------------------------------
  // Draining
  // ---------------------------------------------------------------------

  /** How many sweeps the list can still absorb. */
  function Budget(rs: seq<Request>): int {
    if rs == [] then 0 else 6 - rs[0].timesSent + Budget(rs[1..])
  }

  function DueCount(rs: seq<Request>, now: int): nat {
    if rs == [] then 0 else (if Due(rs[0], now) then 1 else 0) + DueCount(rs[1..], now)
  }

  /** A sweep queues nothing and pays one unit for every due request, whether it
      is asked for again or given up. */
  lemma {:induction false} SweepDrains(rs: seq<Request>, now: int)
    requires forall i :: 0 <= i < |rs| ==> rs[i].timesSent <= MAX_SENDS
    ensures Budget(SweepList(rs, now)) == Budget(rs) - DueCount(rs, now)
    ensures |SweepList(rs, now)| <= |rs| <= Budget(rs)
  {
    if rs != [] {
      SweepDrains(rs[1..], now);
      var rest := SweepList(rs[1..], now);
      if Survivor(rs[0], now).Some? {
        assert ([Survivor(rs[0], now).value] + rest)[1..] == rest;
      }
    }
  }

  // ---------------------------------------------------------------------
  // The limit of five, when no tick falls between test and write
  // ---------------------------------------------------------------------

  /** The packet thread holds a request pointer outside the lock. */
  predicate InWindow(pc: Pc) {
    pc.Holding? || pc.Sending? || pc.Marking?
  }

  /** No tick of the run falls into such a window. */
  ghost predicate Undisturbed(c: Config, w: World, steps: seq<Step>) {
    steps == [] ||
    (var init := steps[..|steps| - 1];
     Undisturbed(c, w, init) && (steps[|steps| - 1].Tick? ==> !InWindow(Exec(c, w, init).pc)))
  }

  /** The count in the request is the count in the log. */
  ghost predicate InStep(w: World, ip: Ip) {
    var n := Sends(w.log, ip);
    && n <= MAX_SENDS
    && (n == 0 <==> LastAsk(w.log, ip).None?)
    && (n > 0 ==> LastAsk(w.log, ip).value <= w.now)
    && (InWindow(w.pc) && w.pc.ip == ip ==> Pending(w.requests, ip))
    && (Pending(w.requests, ip) ==>
          var r := RequestFor(w.requests, ip);
          if w.pc == Marking(ip) then r.timesSent == 0 && n == 1
          else n == r.timesSent && Spaced(w.log, r) && (w.pc.Sending? && w.pc.ip == ip ==> n == 0))
  }

  lemma TickInStep(c: Config, w: World, ip: Ip)
    requires Safe(c, w) && Quotable(w.requests) && InStep(w, ip) && !InWindow(w.pc)
    ensures InStep(TickStep(c, w), ip)
  {
    hide SweepList, SweepEvents, Expire, Sends, LastAsk;
    SweepAsks(c, Expire(w.entries, w.now), w.requests, w.now, w.log, ip);
    SweepFind(c, w.requests, w.now, ip);
  }

  lemma TickPaced(c: Config, w: World)
    requires Safe(c, w) && Quotable(w.requests) && !InWindow(w.pc) && Paced(w.log)
    requires forall ip: Ip :: InStep(w, ip)
    ensures Paced(TickStep(c, w).log)
  {
    hide SweepList, SweepEvents, Expire, Sends, LastAsk, Paced;
    forall i | 0 <= i < |w.requests|
      ensures Spaced(w.log, w.requests[i])
    {
      FindIs(w.requests, i);
      assert InStep(w, w.requests[i].ip);
    }
    SweepPaced(c, Expire(w.entries, w.now), w.requests, w.now, w.log);
  }

  ghost predicate SameTimes(rs: seq<Request>, rs': seq<Request>, ip: Ip)
    requires Pending(rs, ip) && Pending(rs', ip)
  {
    RequestFor(rs, ip).sent == RequestFor(rs', ip).sent && RequestFor(rs, ip).timesSent == RequestFor(rs', ip).timesSent
  }

  /** Steps that ask for nothing and leave the requests for `ip` as they were. */
  lemma QuietInStep(w: World, w': World, ip: Ip)
    requires InStep(w, ip) && w.log <= w'.log && w.now <= w'.now
    requires forall i :: |w.log| <= i < |w'.log| ==> !Counts(w'.log[i], ip)
    requires !(w.pc.Marking? && w.pc.ip == ip)
    requires Pending(w'.requests, ip) ==> Pending(w.requests, ip) && SameTimes(w.requests, w'.requests, ip)
    requires InWindow(w'.pc) && w'.pc.ip == ip ==> Pending(w'.requests, ip)
    requires w'.pc.Sending? && w'.pc.ip == ip ==> RequestFor(w'.requests, ip).timesSent == 0
    requires !w'.pc.Marking?
    ensures InStep(w', ip)
  {
    hide Sends, LastAsk;
    assert w'.log == w.log + w'.log[|w.log|..];
    SendsFrame(w.log, w'.log[|w.log|..], ip);
  }

  lemma UnlinkFind(c: Config, rs: seq<Request>, ip: Ip, other: Ip)
    requires RequestsOk(c, rs)
    ensures Pending(Unlink(rs, ip), other) ==>
              other != ip && Pending(rs, other) && RequestFor(Unlink(rs, ip), other) == RequestFor(rs, other)
  {
    UnlinkOk(c, rs, ip);
    var us, i := Unlink(rs, ip), Find(rs, ip);
    if Pending(us, other) {
      var k := Find(us, other);
      if i < |rs| {
        FindIs(rs, if k < i then k else k + 1);
      }
    }
  }

  lemma UpdateFind(rs: seq<Request>, i: nat, r: Request, other: Ip)
    requires Distinct(rs) && i < |rs| && r.ip == rs[i].ip
    ensures Pending(rs[i := r], other) <==> Pending(rs, other)
    ensures Pending(rs, other) ==>
              RequestFor(rs[i := r], other) == if other == r.ip then r else RequestFor(rs, other)
  {
    var us, j := rs[i := r], Find(rs, other);
    if j < |rs| {
      FindIs(us, j);
      FindIs(rs, i);
    } else {
      PendingIff(us, other);
    }
  }

  lemma ReceiveInStep(c: Config, w: World, f: Frame, name: Name, ip: Ip)
    requires Safe(c, w) && w.pc == Idle && Receivable(c, f, name) && InStep(w, ip)
    ensures InStep(ReceiveStep(c, w, f, name), ip)
  {
    hide Dispatch, Receivable, Insert, Unlink, Lookup, Fill, Stamp, InStep;
    var w' := ReceiveStep(c, w, f, name);
    if Dispatch(c, f, name).Learn? {
      UnlinkFind(c, w.requests, Dispatch(c, f, name).ip, ip);
    }
    QuietInStep(w, w', ip);
  }

  /** A packet that joins a request, or opens it. */
  lemma QueueInStep(c: Config, w: World, ip: Ip)
    requires Safe(c, w) && w.pc.Missed? && InStep(w, ip)
    ensures InStep(QueueStep(w, w.pc.ip, w.pc.packet), ip)
  {
    hide Sends, LastAsk, Push;
    var w', q, p := QueueStep(w, w.pc.ip, w.pc.packet), w.pc.ip, w.pc.packet;
    var i := Find(w.requests, q);
    if i < |w.requests| {
      UpdateFind(w.requests, i, w.requests[i].(packets := Push(p, w.requests[i].packets)), ip);
      assert w'.log == w.log + [Enqueued(q, p)];
      QuietInStep(w, w', ip);
    } else {
      RequestForCons(Request(q, 0, 0, Push(p, [])), w.requests, ip);
      var mid := w.log + [Opened(q)];
      assert w'.log == mid + [Enqueued(q, p)];
      SendsStep(w.log, Opened(q), ip);
      SendsStep(mid, Enqueued(q, p), ip);
    }
  }

  lemma SendInStep(c: Config, w: World, ip: Ip)
    requires Safe(c, w) && w.pc.Sending? && InStep(w, ip)
    ensures InStep(SendStep(c, w, w.pc.ip, w.pc.iface), ip)
  {
    hide Sends, LastAsk, ArpRequest;
    var w' := SendStep(c, w, w.pc.ip, w.pc.iface);
    assert w'.log == w.log + [w'.log[|w.log|]];
    SendsStep(w.log, w'.log[|w.log|], ip);
  }

  lemma MarkInStep(c: Config, w: World, ip: Ip)
    requires Safe(c, w) && w.pc.Marking? && InStep(w, ip)
    ensures InStep(w.(requests := Mark(w.requests, w.pc.ip, w.now), pc := Idle), ip)
  {
    hide Sends, LastAsk;
    var i := Find(w.requests, w.pc.ip);
    if i < |w.requests| {
      UpdateFind(w.requests, i, w.requests[i].(sent := w.now, timesSent := 1), ip);
    }
  }

  lemma FlushInStep(c: Config, w: World, ip: Ip)
    requires Safe(c, w) && w.pc.Flushing? && InStep(w, ip)
    ensures InStep(FlushStep(c, w, w.pc.ip, w.pc.mac, w.pc.rest), ip)
  {
    hide Fill, InStep;
    QuietInStep(w, FlushStep(c, w, w.pc.ip, w.pc.mac, w.pc.rest), ip);
  }

  lemma ProceedInStep(c: Config, w: World, stale: bool, ip: Ip)
    requires Safe(c, w) && InStep(w, ip) && (forall other: Ip :: InStep(w, other))
    ensures InStep(ProceedStep(c, w, stale), ip)
  {
    hide Sends, LastAsk, Mark, QueueStep, FlushStep, SendStep;
    match w.pc
    case Idle =>
    case Missed(_, _) => QueueInStep(c, w, ip);
    case Holding(h, _) => assert InStep(w, h);
    case Sending(_, _) => SendInStep(c, w, ip);
    case Marking(_) => MarkInStep(c, w, ip);
    case Flushing(_, _, _) => FlushInStep(c, w, ip);
  }

  lemma ProceedPaced(c: Config, w: World, stale: bool)
    requires Safe(c, w) && Paced(w.log) && forall ip: Ip :: InStep(w, ip)
    ensures Paced(ProceedStep(c, w, stale).log)
  {
    hide Sends, LastAsk, Mark, Queue, Paced, Fill, ArpRequest;
    var w' := ProceedStep(c, w, stale);
    assert w'.log == w.log + w'.log[|w.log|..];
    if w.pc.Sending? {
      assert InStep(w, w.pc.ip);
      assert w'.log == w.log + [w'.log[|w.log|]];
      PacedStep(w.log, w'.log[|w.log|]);
    } else {
      PacedFrame(w.log, w'.log[|w.log|..]);
    }
  }

  lemma ReceivePaced(c: Config, w: World, f: Frame, name: Name)
    requires w.pc == Idle && Paced(w.log) && Receivable(c, f, name)
    ensures Paced(ReceiveStep(c, w, f, name).log)
  {
    hide Paced, Dispatch, Receivable, Insert, Unlink, Lookup, Fill, Stamp;
    var w' := ReceiveStep(c, w, f, name);
    assert w'.log == w.log + w'.log[|w.log|..];
    PacedFrame(w.log, w'.log[|w.log|..]);
  }

  lemma AdvanceInStep(w: World, d: nat, ip: Ip)
    requires InStep(w, ip)
    ensures InStep(w.(now := w.now + d), ip)
  {
  }

  ghost predicate AllInStep(w: World) {
    Paced(w.log) && forall ip: Ip :: InStep(w, ip)
  }

  lemma ApplyInStep(c: Config, w: World, s: Step)
    requires Safe(c, w) && AllInStep(w) && (s.Tick? ==> !InWindow(w.pc))
    ensures AllInStep(Apply(c, w, s))
  {
    hide Safe, InStep, Paced, TickStep, ReceiveStep, ProceedStep, Receivable, Quotable;
    var w' := Apply(c, w, s);
    if s.Tick? && Quotable(w.requests) {
      TickPaced(c, w);
    } else if s.Receive? && w.pc == Idle && Receivable(c, s.frame, s.iface) {
      ReceivePaced(c, w, s.frame, s.iface);
    } else if s.Proceed? {
      ProceedPaced(c, w, s.stale);
    }
    forall ip: Ip
      ensures InStep(w', ip)
    {
      match s
      case Advance(d) => AdvanceInStep(w, d, ip);
      case Tick =>
        if Quotable(w.requests) {
          TickInStep(c, w, ip);
        }
      case Receive(f, name) =>
        if w.pc == Idle && Receivable(c, f, name) {
          ReceiveInStep(c, w, f, name, ip);
        }
      case Proceed(stale) => ProceedInStep(c, w, stale, ip);
    }
  }

  lemma {:induction false} AlwaysInStep(c: Config, w: World, steps: seq<Step>)
    requires Initial(w) && Undisturbed(c, w, steps)
    ensures AllInStep(Exec(c, w, steps))
  {
    hide Apply, Safe;
    if steps == [] {
      forall ip: Ip ensures InStep(w, ip) { PendingIff(w.requests, ip); }
    } else {
      AlwaysInStep(c, w, steps[..|steps| - 1]);
      AlwaysSafe(c, w, steps[..|steps| - 1]);
      ApplyInStep(c, Exec(c, w, steps[..|steps| - 1]), steps[|steps| - 1]);
    }
  }

  /** Section 2.3.2.1 of RFC 1122 in this router: as long as no tick falls into
      a window, no address is asked for more than five times per request, and
      never twice within a second. */
  lemma AtMostFiveSends(c: Config, w: World, steps: seq<Step>, ip: Ip)
    requires Initial(w) && Undisturbed(c, w, steps)
    ensures Sends(Exec(c, w, steps).log, ip) <= MAX_SENDS
    ensures Paced(Exec(c, w, steps).log)
  {
    hide Exec, Sends, Paced;
    AlwaysInStep(c, w, steps);
    assert InStep(Exec(c, w, steps), ip);
  }

  // ---------------------------------------------------------------------
  // How long a request can stay pending
  // ---------------------------------------------------------------------

  /** The request for `ip` was there before every step and after the last. */
  ghost predicate StaysPending(c: Config, w: World, steps: seq<Step>, ip: Ip) {
    && Pending(Exec(c, w, steps).requests, ip)
    && (steps != [] ==> StaysPending(c, w, steps[..|steps| - 1], ip))
  }

  /** Ticks of the run at which the request for `ip` was due. */
  ghost function DueTicks(c: Config, w: World, steps: seq<Step>, ip: Ip): nat {
    if steps == [] then 0
    else
      var v := Exec(c, w, steps[..|steps| - 1]);
      DueTicks(c, w, steps[..|steps| - 1], ip)
      + if steps[|steps| - 1].Tick? && Pending(v.requests, ip) && Due(RequestFor(v.requests, ip), v.now) then 1 else 0
  }

  /** The first request has been sent and written down. */
  ghost predicate Underway(w: World, ip: Ip) {
    && Pending(w.requests, ip) && RequestFor(w.requests, ip).timesSent >= 1
    && !(w.pc.Sending? && w.pc.ip == ip) && !(w.pc.Marking? && w.pc.ip == ip)
  }

  /** One step of a request that is underway: ticks that find it due count up,
      and nothing else touches its count, however many packets join it. */
  lemma StepCounts(c: Config, w: World, s: Step, ip: Ip)
    requires Safe(c, w) && Underway(w, ip) && Pending(Apply(c, w, s).requests, ip)
    ensures Underway(Apply(c, w, s), ip)
    ensures var r := RequestFor(w.requests, ip);
            RequestFor(Apply(c, w, s).requests, ip).timesSent ==
            r.timesSent + if s.Tick? && Due(r, w.now) then 1 else 0
  {
    hide Dispatch, Receivable, SweepEvents, SweepList, Expire, Unlink, Insert, Lookup, Fill, Stamp, ArpRequest, Push;
    match s
    case Advance(_) =>
    case Tick =>
      OkIsQuotable(c, w.requests);
      SweepFind(c, w.requests, w.now, ip);
    case Receive(f, name) =>
      if w.pc == Idle && Receivable(c, f, name) && Dispatch(c, f, name).Learn? {
        UnlinkFind(c, w.requests, Dispatch(c, f, name).ip, ip);
      }
    case Proceed(_) => ProceedCounts(c, w, s.stale, ip);
  }

  lemma ProceedCounts(c: Config, w: World, stale: bool, ip: Ip)
    requires Safe(c, w) && Underway(w, ip)
    ensures Underway(ProceedStep(c, w, stale), ip)
    ensures RequestFor(ProceedStep(c, w, stale).requests, ip).timesSent == RequestFor(w.requests, ip).timesSent
  {
    hide Fill, ArpRequest, Push;
    match w.pc
    case Missed(q, p) =>
      var i := Find(w.requests, q);
      if i < |w.requests| {
        UpdateFind(w.requests, i, w.requests[i].(packets := Push(p, w.requests[i].packets)), ip);
      } else {
        RequestForCons(Request(q, 0, 0, Push(p, [])), w.requests, ip);
      }
    case Marking(q) =>
      var i := Find(w.requests, q);
      if i < |w.requests| {
        UpdateFind(w.requests, i, w.requests[i].(sent := w.now, timesSent := 1), ip);
      }
    case _ =>
  }

  /** From its first send on, a request that is never answered is gone after
      five due ticks: while it stays, each due tick has raised its count. This
      holds under every interleaving. */
  lemma {:induction false} GoneWithinFiveDueTicks(c: Config, w: World, steps: seq<Step>, ip: Ip)
    requires Safe(c, w) && Underway(w, ip) && StaysPending(c, w, steps, ip)
    ensures Underway(Exec(c, w, steps), ip) && Safe(c, Exec(c, w, steps))
    ensures RequestFor(Exec(c, w, steps).requests, ip).timesSent ==
            RequestFor(w.requests, ip).timesSent + DueTicks(c, w, steps, ip)
    ensures DueTicks(c, w, steps, ip) <= MAX_SENDS - 1
  {
    hide Apply, RequestOk;
    if steps != [] {
      var init, s := steps[..|steps| - 1], steps[|steps| - 1];
      GoneWithinFiveDueTicks(c, w, init, ip);
      StepCounts(c, Exec(c, w, init), s, ip);
      ApplySafe(c, Exec(c, w, init), s);
    }
    LimitOk(c, Exec(c, w, steps), ip);
  }

  lemma LimitOk(c: Config, w: World, ip: Ip)
    requires Safe(c, w) && Pending(w.requests, ip)
    ensures RequestFor(w.requests, ip).timesSent <= MAX_SENDS
  {
    assert RequestOk(c, w.requests[Find(w.requests, ip)]);
  }

  // ---------------------------------------------------------------------
  // What a tick inside the window costs
  // ---------------------------------------------------------------------

  /** One step of a request that is underway, seen in the log: as many requests
      are sent as its count goes up. */
  lemma StepSends(c: Config, w: World, s: Step, ip: Ip)
    requires Safe(c, w) && Underway(w, ip) && Pending(Apply(c, w, s).requests, ip)
    ensures Sends(Apply(c, w, s).log, ip) - Sends(w.log, ip) ==
            RequestFor(Apply(c, w, s).requests, ip).timesSent - RequestFor(w.requests, ip).timesSent
  {
    hide Apply, SweepEvents, SweepList, Expire, Sends, Safe;
    StepCounts(c, w, s, ip);
    var w' := Apply(c, w, s);
    if s.Tick? {
      TickSends(c, w, ip);
    } else {
      StepIsQuiet(c, w, s, ip);
      assert w'.log == w.log + w'.log[|w.log|..];
      SendsFrame(w.log, w'.log[|w.log|..], ip);
    }
  }

  lemma TickSends(c: Config, w: World, ip: Ip)
    requires Safe(c, w) && Underway(w, ip) && Pending(Apply(c, w, Tick).requests, ip)
    ensures Sends(Apply(c, w, Tick).log, ip) == Sends(w.log, ip) + if Due(RequestFor(w.requests, ip), w.now) then 1 else 0
  {
    hide SweepEvents, SweepList, Expire, Sends;
    OkIsQuotable(c, w.requests);
    SweepAsks(c, Expire(w.entries, w.now), w.requests, w.now, w.log, ip);
    SweepFind(c, w.requests, w.now, ip);
    LimitOk(c, w, ip);
  }

  /** Only ticks repeat a request that is underway. */
  lemma StepIsQuiet(c: Config, w: World, s: Step, ip: Ip)
    requires Underway(w, ip) && !s.Tick?
    ensures w.log <= Apply(c, w, s).log
    ensures forall i :: |w.log| <= i < |Apply(c, w, s).log| ==> !Counts(Apply(c, w, s).log[i], ip)
  {
    hide Dispatch, Receivable, Unlink, Insert, Lookup, Fill, Stamp, ArpRequest, Queue, Mark;
  }

  lemma {:induction false} RunSends(c: Config, w: World, steps: seq<Step>, ip: Ip)
    requires Safe(c, w) && Underway(w, ip) && StaysPending(c, w, steps, ip)
    ensures Underway(Exec(c, w, steps), ip)
    ensures Sends(Exec(c, w, steps).log, ip) - Sends(w.log, ip) ==
            RequestFor(Exec(c, w, steps).requests, ip).timesSent - RequestFor(w.requests, ip).timesSent
  {
    hide Apply, Safe, Sends;
    if steps != [] {
      var init, s := steps[..|steps| - 1], steps[|steps| - 1];
      RunSends(c, w, init, ip);
      GoneWithinFiveDueTicks(c, w, init, ip);
      StepSends(c, Exec(c, w, init), s, ip);
      StepCounts(c, Exec(c, w, init), s, ip);
    }
  }

  /** How far log and request can drift apart under any interleaving. */
  ghost predicate Accounted(w: World, ip: Ip) {
    var n, mine := Sends(w.log, ip), InWindow(w.pc) && w.pc.ip == ip;
    if Pending(w.requests, ip) then
      var t := RequestFor(w.requests, ip).timesSent;
      if mine && w.pc.Sending? then n == t
      else if mine && w.pc.Marking? then n == t + 1
      else t <= n <= t + MAX_SENDS && (t == 0 ==> n == 0)
    else n <= 2 * MAX_SENDS + if mine && !w.pc.Marking? then 0 else 1
  }

  /** Steps that send nothing for `ip` and keep its count, if it stays. */
  lemma QuietAccounted(c: Config, w: World, w': World, ip: Ip)
    requires Safe(c, w) && Accounted(w, ip) && w.log <= w'.log
    requires forall i :: |w.log| <= i < |w'.log| ==> !Counts(w'.log[i], ip)
    requires Pending(w'.requests, ip) ==> Pending(w.requests, ip) && SameTimes(w.requests, w'.requests, ip)
    requires w'.pc == w.pc || !(InWindow(w.pc) && w.pc.ip == ip)
    requires w'.pc == w.pc || !(w'.pc.Sending? || w'.pc.Marking?)
    requires w'.pc != w.pc && w'.pc.Holding? && w'.pc.ip == ip ==> Pending(w'.requests, ip)
    ensures Accounted(w', ip)
  {
    hide Sends;
    assert w'.log == w.log + w'.log[|w.log|..];
    SendsFrame(w.log, w'.log[|w.log|..], ip);
    if Pending(w.requests, ip) {
      LimitOk(c, w, ip);
    }
  }

  lemma TickAccounted(c: Config, w: World, ip: Ip)
    requires Safe(c, w) && Quotable(w.requests) && Accounted(w, ip)
    ensures Accounted(TickStep(c, w), ip)
  {
    hide SweepList, SweepEvents, Expire, Sends;
    SweepAsks(c, Expire(w.entries, w.now), w.requests, w.now, w.log, ip);
    SweepFind(c, w.requests, w.now, ip);
    if Pending(w.requests, ip) {
      LimitOk(c, w, ip);
    }
  }

  lemma ReceiveAccounted(c: Config, w: World, f: Frame, name: Name, ip: Ip)
    requires Safe(c, w) && w.pc == Idle && Receivable(c, f, name) && Accounted(w, ip)
    ensures Accounted(ReceiveStep(c, w, f, name), ip)
  {
    hide Dispatch, Receivable, Insert, Unlink, Lookup, Fill, Stamp, Accounted;
    if Dispatch(c, f, name).Learn? {
      UnlinkFind(c, w.requests, Dispatch(c, f, name).ip, ip);
    }
    QuietAccounted(c, w, ReceiveStep(c, w, f, name), ip);
  }

  lemma QueueAccounted(c: Config, w: World, ip: Ip)
    requires Safe(c, w) && w.pc.Missed? && Accounted(w, ip)
    ensures Accounted(QueueStep(w, w.pc.ip, w.pc.packet), ip)
  {
    hide Sends, Push;
    var w', q, p := QueueStep(w, w.pc.ip, w.pc.packet), w.pc.ip, w.pc.packet;
    var i := Find(w.requests, q);
    if i < |w.requests| {
      UpdateFind(w.requests, i, w.requests[i].(packets := Push(p, w.requests[i].packets)), ip);
      assert w'.log == w.log + [Enqueued(q, p)];
      QuietAccounted(c, w, w', ip);
    } else {
      RequestForCons(Request(q, 0, 0, Push(p, [])), w.requests, ip);
      var mid := w.log + [Opened(q)];
      assert w'.log == mid + [Enqueued(q, p)];
      SendsStep(w.log, Opened(q), ip);
      SendsStep(mid, Enqueued(q, p), ip);
    }
  }

  lemma SendAccounted(c: Config, w: World, ip: Ip)
    requires Safe(c, w) && w.pc.Sending? && Accounted(w, ip)
    ensures Accounted(SendStep(c, w, w.pc.ip, w.pc.iface), ip)
  {
    hide Sends, ArpRequest;
    var w' := SendStep(c, w, w.pc.ip, w.pc.iface);
    assert w'.log == w.log + [w'.log[|w.log|]];
    SendsStep(w.log, w'.log[|w.log|], ip);
  }

  lemma MarkAccounted(c: Config, w: World, ip: Ip)
    requires Safe(c, w) && w.pc.Marking? && Accounted(w, ip)
    ensures Accounted(w.(requests := Mark(w.requests, w.pc.ip, w.now), pc := Idle), ip)
  {
    hide Sends;
    var i := Find(w.requests, w.pc.ip);
    if i < |w.requests| {
      UpdateFind(w.requests, i, w.requests[i].(sent := w.now, timesSent := 1), ip);
    }
    if Pending(w.requests, ip) {
      LimitOk(c, w, ip);
    }
  }

  lemma ProceedAccounted(c: Config, w: World, stale: bool, ip: Ip)
    requires Safe(c, w) && Accounted(w, ip)
    ensures Accounted(ProceedStep(c, w, stale), ip)
  {
    hide Sends, Mark, QueueStep, SendStep, Fill;
    match w.pc
    case Idle =>
    case Missed(_, _) => QueueAccounted(c, w, ip);
    case Holding(_, _) =>
    case Sending(_, _) => SendAccounted(c, w, ip);
    case Marking(_) => MarkAccounted(c, w, ip);
    case Flushing(_, _, _) => QuietAccounted(c, w, ProceedStep(c, w, stale), ip);
  }

  lemma StepAccounted(c: Config, w: World, s: Step, ip: Ip)
    requires Safe(c, w) && Accounted(w, ip)
    ensures Accounted(Apply(c, w, s), ip)
  {
    hide Safe, TickStep, ReceiveStep, ProceedStep, Receivable, Quotable, Sends;
    match s
    case Advance(d) =>
    case Tick =>
      if Quotable(w.requests) {
        TickAccounted(c, w, ip);
      }
    case Receive(f, name) =>
      if w.pc == Idle && Receivable(c, f, name) {
        ReceiveAccounted(c, w, f, name, ip);
      }
    case Proceed(stale) => ProceedAccounted(c, w, stale, ip);
  }

  /** Under every interleaving, stale reads included, an address is asked for at
      most eleven times per request, and at the moment of the unlocked write the
      log is exactly one ahead of the count. */
  lemma {:induction false} AtMostElevenSends(c: Config, w: World, steps: seq<Step>, ip: Ip)
    requires Initial(w)
    ensures var w' := Exec(c, w, steps);
            && Accounted(w', ip)
            && Sends(w'.log, ip) <= 2 * MAX_SENDS + 1
            && (w'.pc == Marking(ip) && Pending(w'.requests, ip) ==>
                  Sends(w'.log, ip) == RequestFor(w'.requests, ip).timesSent + 1)
  {
    hide Safe, Apply, Sends;
    var w' := Exec(c, w, steps);
    if steps == [] {
      NoSends(ip);
      PendingIff(w.requests, ip);
    } else {
      AtMostElevenSends(c, w, steps[..|steps| - 1], ip);
      AlwaysSafe(c, w, steps[..|steps| - 1]);
      StepAccounted(c, Exec(c, w, steps[..|steps| - 1]), steps[|steps| - 1], ip);
    }
    AlwaysSafe(c, w, steps);
    if Pending(w'.requests, ip) {
      LimitOk(c, w', ip);
    }
  }

  lemma NoSends(ip: Ip)
    ensures Sends([], ip) == 0
  {
  }
}
