/**
 The pace of one request a second, exactly: which steps of a run send too soon
 after the last request for the same address, and how that comes about.
 */
module ArpPace {
  import opened Bytes
  import opened Routing
  import opened Frames
  import opened ArpMachine
  import opened ArpSafety
  import opened ArpHistory
  import opened ArpRetry
  import opened ArpLimit

  /** The address was asked for less than a second ago. */
  ghost predicate Recent(log: seq<Event>, ip: Ip, now: int) {
    LastAsk(log, ip).Some? && now - LastAsk(log, ip).value < 1
  }

  lemma PacedStepIff(log: seq<Event>, e: Event)
    ensures Paced(log + [e]) <==> Paced(log) && !(e.Asked? && Recent(log, e.ip, e.at))
  {
    hide LastAsk;
    assert (log + [e])[..|log|] == log;
  }

  lemma {:induction false} PacedFrameIff(log: seq<Event>, es: seq<Event>)
    requires forall i :: 0 <= i < |es| ==> !es[i].Asked?
    ensures Paced(log + es) <==> Paced(log)
  {
    hide Paced, LastAsk;
    if es == [] {
      assert log + es == log;
    } else {
      var init := es[..|es| - 1];
      PacedFrameIff(log, init);
      PacedStepIff(log + init, es[|es| - 1]);
      assert log + es == log + init + [es[|es| - 1]];
    }
  }

  lemma DoingsPacedIff(c: Config, entries: seq<Entry>, r: Request, now: int, log: seq<Event>)
    requires RequestOk(c, r) && (forall p :: p in r.packets ==> |p.buf| >= 42)
    ensures Paced(log + Doings(c, entries, r, now)) <==> Paced(log) && !(Repeats(r, now) && Recent(log, r.ip, now))
  {
    hide Ask, Retire, LastAsk, Paced;
    var es := Doings(c, entries, r, now);
    AskOnce(c, r, now);
    RetireIsAbout(c, entries, r.ip, r.packets);
    if Repeats(r, now) {
      assert es == [es[0]];
      PacedStepIff(log, es[0]);
    } else {
      PacedFrameIff(log, es);
    }
  }

  /** A sweep keeps the pace exactly when none of the requests it repeats was sent
      less than a second ago. */
  lemma {:induction false} SweepPacedIff(c: Config, entries: seq<Entry>, rs: seq<Request>, now: int, log: seq<Event>)
    requires RequestsOk(c, rs) && Quotable(rs)
    ensures Paced(log + SweepEvents(c, entries, rs, now)) <==>
            Paced(log) && forall i :: 0 <= i < |rs| ==> !(Repeats(rs[i], now) && Recent(log, rs[i].ip, now))
    decreases |rs|
  {
    hide Doings, Paced, LastAsk, Sends;
    if rs == [] {
      assert log + SweepEvents(c, entries, rs, now) == log;
    } else {
      var r, rest := rs[0], rs[1..];
      var mid := log + Doings(c, entries, r, now);
      assert RequestOk(c, r);
      DoingsAsks(c, entries, r, now, log);
      DoingsPacedIff(c, entries, r, now, log);
      SweepPacedIff(c, entries, rest, now, mid);
      assert log + SweepEvents(c, entries, rs, now) == mid + SweepEvents(c, entries, rest, now);
      forall i | 0 <= i < |rest|
        ensures rest[i] == rs[i + 1] && (Recent(mid, rest[i].ip, now) <==> Recent(log, rest[i].ip, now))
      {
        assert rs[0].ip != rs[i + 1].ip;
      }
    }
  }

  // ---------------------------------------------------------------------
  // What holds in every state that can be reached
  // ---------------------------------------------------------------------

  /** The log is not ahead of the clock, and a request is dated no earlier than its
      last send, unless the packet thread has yet to write that down. */
  ghost predicate Dated(w: World, ip: Ip) {
    && (LastAsk(w.log, ip).Some? ==> LastAsk(w.log, ip).value <= w.now)
    && (Pending(w.requests, ip) && w.pc != Marking(ip) ==> Spaced(w.log, RequestFor(w.requests, ip)))
  }

  lemma TickDated(c: Config, w: World, ip: Ip)
    requires Safe(c, w) && Quotable(w.requests) && Dated(w, ip)
    ensures Dated(TickStep(c, w), ip)
  {
    hide SweepList, SweepEvents, Expire, Sends, LastAsk;
    SweepAsks(c, Expire(w.entries, w.now), w.requests, w.now, w.log, ip);
    SweepFind(c, w.requests, w.now, ip);
  }

  lemma QuietDated(w: World, w': World, ip: Ip)
    requires Dated(w, ip) && w.log <= w'.log && w.now <= w'.now && w.pc != Marking(ip)
    requires forall i :: |w.log| <= i < |w'.log| ==> !Counts(w'.log[i], ip)
    requires Pending(w'.requests, ip) ==> Pending(w.requests, ip) && SameTimes(w.requests, w'.requests, ip)
    ensures Dated(w', ip)
  {
    hide LastAsk, Sends;
    assert w'.log == w.log + w'.log[|w.log|..];
    SendsFrame(w.log, w'.log[|w.log|..], ip);
  }

  lemma ReceiveDated(c: Config, w: World, f: Frame, name: Name, ip: Ip)
    requires Safe(c, w) && w.pc == Idle && Receivable(c, f, name) && Dated(w, ip)
    ensures Dated(ReceiveStep(c, w, f, name), ip)
  {
    hide Dispatch, Receivable, Insert, Unlink, Lookup, Fill, Stamp, Dated;
    if Dispatch(c, f, name).Learn? {
      UnlinkFind(c, w.requests, Dispatch(c, f, name).ip, ip);
    }
    QuietDated(w, ReceiveStep(c, w, f, name), ip);
  }

  lemma QueueDated(c: Config, w: World, ip: Ip)
    requires Safe(c, w) && w.pc.Missed? && Dated(w, ip)
    ensures Dated(QueueStep(w, w.pc.ip, w.pc.packet), ip)
  {
    hide LastAsk, Sends, Push;
    var w', q, p := QueueStep(w, w.pc.ip, w.pc.packet), w.pc.ip, w.pc.packet;
    var i := Find(w.requests, q);
    if i < |w.requests| {
      UpdateFind(w.requests, i, w.requests[i].(packets := Push(p, w.requests[i].packets)), ip);
      assert w'.log == w.log + [Enqueued(q, p)];
      QuietDated(w, w', ip);
    } else {
      RequestForCons(Request(q, 0, 0, Push(p, [])), w.requests, ip);
      var mid := w.log + [Opened(q)];
      assert w'.log == mid + [Enqueued(q, p)];
      SendsStep(w.log, Opened(q), ip);
      SendsStep(mid, Enqueued(q, p), ip);
    }
  }

  lemma SendDated(c: Config, w: World, ip: Ip)
    requires Safe(c, w) && w.pc.Sending? && Dated(w, ip)
    ensures Dated(SendStep(c, w, w.pc.ip, w.pc.iface), ip)
  {
    hide LastAsk, Sends, ArpRequest;
    var w' := SendStep(c, w, w.pc.ip, w.pc.iface);
    assert w'.log == w.log + [w'.log[|w.log|]];
    SendsStep(w.log, w'.log[|w.log|], ip);
  }

  lemma MarkDated(c: Config, w: World, ip: Ip)
    requires Safe(c, w) && w.pc.Marking? && Dated(w, ip)
    ensures Dated(w.(requests := Mark(w.requests, w.pc.ip, w.now), pc := Idle), ip)
  {
    hide LastAsk;
    var i := Find(w.requests, w.pc.ip);
    if i < |w.requests| {
      UpdateFind(w.requests, i, w.requests[i].(sent := w.now, timesSent := 1), ip);
    }
  }

  lemma ProceedDated(c: Config, w: World, stale: bool, ip: Ip)
    requires Safe(c, w) && Dated(w, ip)
    ensures Dated(ProceedStep(c, w, stale), ip)
  {
    hide LastAsk, Mark, QueueStep, SendStep, Fill, Safe;
    match w.pc
    case Idle =>
    case Missed(_, _) => QueueDated(c, w, ip);
    case Holding(_, _) =>
    case Sending(_, _) => SendDated(c, w, ip);
    case Marking(_) => MarkDated(c, w, ip);
    case Flushing(_, _, _) => QuietDated(w, ProceedStep(c, w, stale), ip);
  }

  lemma StepDated(c: Config, w: World, s: Step, ip: Ip)
    requires Safe(c, w) && Dated(w, ip)
    ensures Dated(Apply(c, w, s), ip)
  {
    hide TickStep, ReceiveStep, ProceedStep, Receivable, LastAsk;
    match s
    case Advance(_) =>
    case Tick =>
      OkIsQuotable(c, w.requests);
      TickDated(c, w, ip);
    case Receive(f, name) =>
      if w.pc == Idle && Receivable(c, f, name) {
        ReceiveDated(c, w, f, name, ip);
      }
    case Proceed(stale) => ProceedDated(c, w, stale, ip);
  }

  lemma {:induction false} AlwaysDated(c: Config, w: World, steps: seq<Step>, ip: Ip)
    requires Initial(w)
    ensures Dated(Exec(c, w, steps), ip)
  {
    hide Apply, Safe;
    if steps == [] {
      PendingIff(w.requests, ip);
    } else {
      AlwaysDated(c, w, steps[..|steps| - 1], ip);
      AlwaysSafe(c, w, steps[..|steps| - 1]);
      StepDated(c, Exec(c, w, steps[..|steps| - 1]), steps[|steps| - 1], ip);
    }
  }

  // ---------------------------------------------------------------------
  // The exact condition
  // ---------------------------------------------------------------------

  /** The two steps that send too soon: the packet thread's first send for an
      address that a tick has just asked for, and a tick that repeats a request
      whose first send the packet thread has yet to write down. */
  ghost predicate Rushes(w: World, s: Step) {
    && (|| (s.Proceed? && w.pc.Sending?)
        || (s.Tick? && w.pc.Marking? && Pending(w.requests, w.pc.ip)
            && Repeats(RequestFor(w.requests, w.pc.ip), w.now)))
    && Recent(w.log, w.pc.ip, w.now)
  }

  lemma TickPaceIff(c: Config, w: World)
    requires Safe(c, w) && Quotable(w.requests) && forall ip: Ip :: Dated(w, ip)
    ensures Paced(TickStep(c, w).log) <==> Paced(w.log) && !Rushes(w, Tick)
  {
    hide SweepList, SweepEvents, Expire, Paced, LastAsk;
    SweepPacedIff(c, Expire(w.entries, w.now), w.requests, w.now, w.log);
    forall i | 0 <= i < |w.requests|
      ensures Find(w.requests, w.requests[i].ip) == i
      ensures w.pc != Marking(w.requests[i].ip) ==>
                !(Repeats(w.requests[i], w.now) && Recent(w.log, w.requests[i].ip, w.now))
    {
      FindIs(w.requests, i);
      assert Dated(w, w.requests[i].ip);
    }
  }

  lemma ProceedPaceIff(c: Config, w: World, stale: bool)
    requires Safe(c, w)
    ensures Paced(ProceedStep(c, w, stale).log) <==> Paced(w.log) && !Rushes(w, Proceed(stale))
  {
    hide LastAsk, Mark, Queue, Paced, Fill, ArpRequest;
    var w' := ProceedStep(c, w, stale);
    assert w'.log == w.log + w'.log[|w.log|..];
    if w.pc.Sending? {
      assert w'.log == w.log + [w'.log[|w.log|]];
      PacedStepIff(w.log, w'.log[|w.log|]);
    } else {
      PacedFrameIff(w.log, w'.log[|w.log|..]);
    }
  }

  lemma ReceivePaceIff(c: Config, w: World, f: Frame, name: Name)
    requires w.pc == Idle && Receivable(c, f, name)
    ensures Paced(ReceiveStep(c, w, f, name).log) <==> Paced(w.log)
  {
    hide Paced, Dispatch, Receivable, Insert, Unlink, Lookup, Fill, Stamp;
    var w' := ReceiveStep(c, w, f, name);
    assert w'.log == w.log + w'.log[|w.log|..];
    PacedFrameIff(w.log, w'.log[|w.log|..]);
  }

  lemma PaceLostIff(c: Config, w: World, s: Step)
    requires Safe(c, w) && forall ip: Ip :: Dated(w, ip)
    ensures Paced(Apply(c, w, s).log) <==> Paced(w.log) && !Rushes(w, s)
  {
    hide TickStep, ReceiveStep, ProceedStep, Receivable, Paced, Dated, Recent;
    match s
    case Advance(_) =>
    case Tick =>
      OkIsQuotable(c, w.requests);
      TickPaceIff(c, w);
    case Receive(f, name) =>
      if w.pc == Idle && Receivable(c, f, name) {
        ReceivePaceIff(c, w, f, name);
      }
    case Proceed(stale) => ProceedPaceIff(c, w, stale);
  }

  /** For every run: no address is asked for twice within a second for one request,
      if and only if none of its steps rushes. */
  lemma {:induction false} PacedIff(c: Config, w: World, steps: seq<Step>)
    requires Initial(w)
    ensures Paced(Exec(c, w, steps).log) <==>
            forall k :: 0 <= k < |steps| ==> !Rushes(Exec(c, w, steps[..k]), steps[k])
  {
    hide Apply, Safe, Paced, Rushes, Dated, Exec;
    var n := |steps|;
    if n == 0 {
      NothingPaced(c, w);
      assert steps == [];
    } else {
      var init := steps[..n - 1];
      PacedIff(c, w, init);
      AlwaysSafe(c, w, init);
      forall ip: Ip
        ensures Dated(Exec(c, w, init), ip)
      {
        AlwaysDated(c, w, init, ip);
      }
      PaceLostIff(c, Exec(c, w, init), steps[n - 1]);
      assert init + [steps[n - 1]] == steps;
      ExecOne(c, w, init, steps[n - 1]);
      assert forall k :: 0 <= k <= n - 1 ==> steps[..k] == init[..k];
      assert forall k :: 0 <= k < n - 1 ==> steps[k] == init[k];
      assert init[..n - 1] == init;
    }
  }

  lemma NothingPaced(c: Config, w: World)
    requires Initial(w)
    ensures Exec(c, w, []) == w && Paced(w.log)
  {
  }

  lemma {:induction false} AskedIsSent(log: seq<Event>, ip: Ip)
    ensures LastAsk(log, ip).None? <==> Sends(log, ip) == 0
  {
    if log != [] {
      AskedIsSent(log[..|log| - 1], ip);
    }
  }

  /** As long as the order is kept, only a tick that spoils it can rush. */
  lemma RushIsSpoilt(c: Config, w: World, s: Step)
    requires Rushes(w, s) && Known(c, w, w.pc.ip) && InOrder(w, w.pc.ip)
    ensures s.Tick? && Spoils(w, w.pc.ip)
  {
    hide Safe, Sends, LastAsk;
    AskedIsSent(w.log, w.pc.ip);
  }

  /** So a run none of whose ticks spoils a request keeps the pace. */
  lemma PacedUnlessSpoilt(c: Config, w: World, steps: seq<Step>)
    requires Initial(w)
    requires forall k, ip: Ip :: 0 <= k < |steps| && steps[k].Tick? ==> !Spoils(Exec(c, w, steps[..k]), ip)
    ensures Paced(Exec(c, w, steps).log)
  {
    hide Exec, Spoils, Rushes, Paced, Known, InOrder;
    PacedIff(c, w, steps);
    forall k | 0 <= k < |steps|
      ensures !Rushes(Exec(c, w, steps[..k]), steps[k])
    {
      var v := Exec(c, w, steps[..k]);
      if Rushes(v, steps[k]) {
        RushIsInWindow(v, steps[k]);
        AlwaysKnown(c, w, steps[..k], v.pc.ip);
        OrderOverRun(c, w, steps, v.pc.ip);
        RushIsSpoilt(c, v, steps[k]);
      }
    }
  }

  lemma RushIsInWindow(w: World, s: Step)
    requires Rushes(w, s)
    ensures InWindow(w.pc)
  {
  }

  /** The pace can be lost: every frame a fresh router has to resolve can lead to
      two requests in the same second. */
  lemma TickBreaksPace(c: Config, w: World, f: Frame, name: Name, ip: Ip)
    requires Initial(w) && Needs(c, f, name, ip)
    ensures exists steps :: !Paced(Exec(c, w, steps).log)
  {
    hide Safe, Sends, LastAsk, Needs, Apply, Exec, Undisturbed, Rushes, Paced;
    var a := FirstSend(c, w, f, name, ip);
    var b := Apply(c, a, Advance(Wait(a, ip)));
    var d := Apply(c, b, Proceed(false));
    WaitsAndSends(c, a, ip);
    ReachesNext(c, w, a, Advance(Wait(a, ip)), false);
    ReachesNext(c, w, b, Proceed(false), false);
    var steps :| Exec(c, w, steps) == d;
    PacedIff(c, w, steps + [Tick]);
    assert (steps + [Tick])[..|steps|] == steps && (steps + [Tick])[|steps|] == Tick;
  }

  lemma WaitsAndSends(c: Config, w: World, ip: Ip)
    requires Safe(c, w) && Mine(w.pc, ip) && w.pc.Sending?
    requires Pending(w.requests, ip) && RequestFor(w.requests, ip).timesSent == 0
    ensures Rushes(Apply(c, Apply(c, w, Advance(Wait(w, ip))), Proceed(false)), Tick)
  {
    hide LastAsk, Sends, ArpRequest;
    var b := Apply(c, w, Advance(Wait(w, ip)));
    ApplySafe(c, w, Advance(Wait(w, ip)));
    var d := Apply(c, b, Proceed(false));
    assert d.log == b.log + [d.log[|b.log|]];
    SendsStep(b.log, d.log[|b.log|], ip);
  }
}
