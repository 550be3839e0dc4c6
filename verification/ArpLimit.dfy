/**
 The limit of five ARP requests, exactly. The packet thread tests and writes
 `times_sent` without the lock, so a tick can fall in between. For every state
 that can be reached this module says whether the limit can still be kept, for
 every step whether it is what loses it, and for every run which of its ticks
 do the damage; and it gives the runs that go furthest over.
 */
module ArpLimit {
  import opened Bytes
  import opened Routing
  import opened Frames
  import opened ArpMachine
  import opened ArpSafety
  import opened ArpRetry

  // ---------------------------------------------------------------------
  // Reaching one state from another
  // ---------------------------------------------------------------------

  /** Some run leads from `w` to `v`; a calm one has no tick in a window. */
  ghost predicate Reaches(c: Config, w: World, v: World, calm: bool) {
    exists steps :: Exec(c, w, steps) == v && (calm ==> Undisturbed(c, w, steps))
  }

  lemma ReachesSelf(c: Config, w: World, calm: bool)
    ensures Reaches(c, w, w, calm)
  {
    assert Exec(c, w, []) == w && Undisturbed(c, w, []);
  }

  lemma ReachesStep(c: Config, w: World, s: Step, calm: bool)
    requires calm && s.Tick? ==> !InWindow(w.pc)
    ensures Reaches(c, w, Apply(c, w, s), calm)
  {
    hide Apply;
    ExecOne(c, w, [], s);
    assert [s][..0] == [] && [] + [s] == [s];
    assert Undisturbed(c, w, []);
    assert calm ==> Undisturbed(c, w, [s]);
    assert Exec(c, w, [s]) == Apply(c, w, s);
  }

  lemma {:induction false} UndisturbedJoins(c: Config, w: World, a: seq<Step>, b: seq<Step>)
    requires Undisturbed(c, w, a) && Undisturbed(c, Exec(c, w, a), b)
    ensures Undisturbed(c, w, a + b)
    decreases |b|
  {
    hide Exec;
    if b == [] {
      assert a + b == a;
    } else {
      var init := b[..|b| - 1];
      UndisturbedJoins(c, w, a, init);
      ExecJoins(c, w, a, init);
      assert (a + b)[..|a + b| - 1] == a + init;
    }
  }

  lemma ReachesThen(c: Config, u: World, v: World, w: World, calm: bool)
    requires Reaches(c, u, v, calm) && Reaches(c, v, w, calm)
    ensures Reaches(c, u, w, calm)
  {
    hide Exec, Undisturbed;
    var a :| Exec(c, u, a) == v && (calm ==> Undisturbed(c, u, a));
    var b :| Exec(c, v, b) == w && (calm ==> Undisturbed(c, v, b));
    ExecJoins(c, u, a, b);
    if calm {
      UndisturbedJoins(c, u, a, b);
    }
    assert Exec(c, u, a + b) == w && (calm ==> Undisturbed(c, u, a + b));
  }

  /** One step further. */
  lemma ReachesNext(c: Config, u: World, v: World, s: Step, calm: bool)
    requires Reaches(c, u, v, calm) && (calm && s.Tick? ==> !InWindow(v.pc))
    ensures Reaches(c, u, Apply(c, v, s), calm)
  {
    hide Reaches, Apply;
    ReachesStep(c, v, s, calm);
    ReachesThen(c, u, v, Apply(c, v, s), calm);
  }

  // ---------------------------------------------------------------------
  // What holds in every state that can be reached
  // ---------------------------------------------------------------------

  /** The packet thread is between its queue call and its write, for `ip`. */
  ghost predicate Mine(pc: Pc, ip: Ip) {
    InWindow(pc) && pc.ip == ip
  }

  /** A request that is gone while the packet thread still holds it was destroyed
      by a timeout, so it had been sent five times. */
  ghost predicate Spent(w: World, ip: Ip) {
    Mine(w.pc, ip) && !Pending(w.requests, ip) ==> Sends(w.log, ip) >= MAX_SENDS
  }

  ghost predicate Known(c: Config, w: World, ip: Ip) {
    Safe(c, w) && Accounted(w, ip) && Spent(w, ip)
  }

  lemma TickSpent(c: Config, w: World, ip: Ip)
    requires Safe(c, w) && Quotable(w.requests) && Accounted(w, ip) && Spent(w, ip)
    ensures Spent(TickStep(c, w), ip)
  {
    hide SweepList, SweepEvents, Expire, Sends;
    SweepAsks(c, Expire(w.entries, w.now), w.requests, w.now, w.log, ip);
    SweepFind(c, w.requests, w.now, ip);
  }

  lemma ProceedSpent(c: Config, w: World, stale: bool, ip: Ip)
    requires Safe(c, w) && Spent(w, ip)
    ensures Spent(ProceedStep(c, w, stale), ip)
  {
    hide Sends, Fill, ArpRequest, Mark, Push;
    var w' := ProceedStep(c, w, stale);
    match w.pc
    case Missed(q, p) =>
      PendingIff(w'.requests, q);
      var i := Find(w.requests, q);
      assert w'.requests[if i < |w.requests| then i else 0].ip == q;
    case Sending(q, iface) =>
      assert w'.log == w.log + [w'.log[|w.log|]];
      SendsStep(w.log, w'.log[|w.log|], ip);
    case _ =>
  }

  lemma StepKnown(c: Config, w: World, s: Step, ip: Ip)
    requires Known(c, w, ip)
    ensures Known(c, Apply(c, w, s), ip)
  {
    hide Safe, TickStep, ReceiveStep, ProceedStep, Receivable, Sends, Quotable;
    ApplySafe(c, w, s);
    StepAccounted(c, w, s, ip);
    match s
    case Advance(_) =>
    case Tick =>
      if Quotable(w.requests) {
        TickSpent(c, w, ip);
      }
    case Receive(f, name) =>
      if w.pc == Idle && Receivable(c, f, name) {
        ReceiveLeavesWindow(c, w, f, name);
      }
    case Proceed(stale) => ProceedSpent(c, w, stale, ip);
  }

  lemma ReceiveLeavesWindow(c: Config, w: World, f: Frame, name: Name)
    requires w.pc == Idle && Receivable(c, f, name)
    ensures !InWindow(ReceiveStep(c, w, f, name).pc)
  {
    hide Dispatch, Receivable, Lookup, Fill, Stamp, Insert, Unlink;
  }

  lemma {:induction false} AlwaysKnown(c: Config, w: World, steps: seq<Step>, ip: Ip)
    requires Initial(w)
    ensures Known(c, Exec(c, w, steps), ip)
  {
    hide Apply, Safe, Accounted;
    AlwaysSafe(c, w, steps);
    AtMostElevenSends(c, w, steps, ip);
    if steps != [] {
      AlwaysKnown(c, w, steps[..|steps| - 1], ip);
      StepKnown(c, Exec(c, w, steps[..|steps| - 1]), steps[|steps| - 1], ip);
    }
  }

  // ---------------------------------------------------------------------
  // Whether the limit can still be kept
  // ---------------------------------------------------------------------

  /** The count agrees with the log, apart from a first send not yet written
      down, and the packet thread holds no request that was sent or destroyed
      behind its back. */
  ghost predicate InOrder(w: World, ip: Ip) {
    if Pending(w.requests, ip) then
      var t := RequestFor(w.requests, ip).timesSent;
      if w.pc == Marking(ip) then t == 0
      else Sends(w.log, ip) == t && (Mine(w.pc, ip) && w.pc.Sending? ==> t == 0)
    else Sends(w.log, ip) <= MAX_SENDS && (Mine(w.pc, ip) ==> w.pc.Marking?)
  }

  lemma OrderIsWithin(c: Config, w: World, ip: Ip)
    requires Known(c, w, ip) && InOrder(w, ip)
    ensures Sends(w.log, ip) <= MAX_SENDS
  {
    hide Sends;
    if Pending(w.requests, ip) {
      LimitOk(c, w, ip);
    }
  }

  /** The ticks that lose it: the request falls due while the packet thread is
      about to send or write, or is destroyed while the packet thread holds it. */
  ghost predicate Spoils(w: World, ip: Ip) {
    && Mine(w.pc, ip) && Pending(w.requests, ip)
    && Due(RequestFor(w.requests, ip), w.now)
    && (w.pc.Holding? ==> RequestFor(w.requests, ip).timesSent == MAX_SENDS)
  }

  lemma TickOrder(c: Config, w: World, ip: Ip)
    requires Known(c, w, ip) && InOrder(w, ip) && Quotable(w.requests)
    ensures InOrder(TickStep(c, w), ip) <==> !Spoils(w, ip)
  {
    hide SweepList, SweepEvents, Expire, Sends;
    SweepAsks(c, Expire(w.entries, w.now), w.requests, w.now, w.log, ip);
    SweepFind(c, w.requests, w.now, ip);
    if Pending(w.requests, ip) {
      LimitOk(c, w, ip);
    }
  }

  /** Steps that send nothing for `ip` and keep its count, if it stays. */
  lemma QuietOrder(c: Config, w: World, w': World, ip: Ip)
    requires Known(c, w, ip) && InOrder(w, ip) && w.log <= w'.log
    requires forall i :: |w.log| <= i < |w'.log| ==> !Counts(w'.log[i], ip)
    requires Pending(w'.requests, ip) ==> Pending(w.requests, ip) && SameTimes(w.requests, w'.requests, ip)
    requires !Mine(w.pc, ip) && (Mine(w'.pc, ip) ==> w'.pc.Holding? && Pending(w'.requests, ip))
    ensures InOrder(w', ip)
  {
    hide Sends;
    assert w'.log == w.log + w'.log[|w.log|..];
    SendsFrame(w.log, w'.log[|w.log|..], ip);
    OrderIsWithin(c, w, ip);
  }

  lemma ReceiveOrder(c: Config, w: World, f: Frame, name: Name, ip: Ip)
    requires Known(c, w, ip) && InOrder(w, ip) && w.pc == Idle && Receivable(c, f, name)
    ensures InOrder(ReceiveStep(c, w, f, name), ip)
  {
    hide Dispatch, Receivable, Insert, Unlink, Lookup, Fill, Stamp, InOrder;
    if Dispatch(c, f, name).Learn? {
      UnlinkFind(c, w.requests, Dispatch(c, f, name).ip, ip);
    }
    QuietOrder(c, w, ReceiveStep(c, w, f, name), ip);
  }

  lemma QueueOrder(c: Config, w: World, ip: Ip)
    requires Known(c, w, ip) && InOrder(w, ip) && w.pc.Missed?
    ensures InOrder(QueueStep(w, w.pc.ip, w.pc.packet), ip)
  {
    hide Sends, Push;
    var w', q, p := QueueStep(w, w.pc.ip, w.pc.packet), w.pc.ip, w.pc.packet;
    var i := Find(w.requests, q);
    if i < |w.requests| {
      UpdateFind(w.requests, i, w.requests[i].(packets := Push(p, w.requests[i].packets)), ip);
      assert w'.log == w.log + [Enqueued(q, p)];
      QuietOrder(c, w, w', ip);
    } else {
      RequestForCons(Request(q, 0, 0, Push(p, [])), w.requests, ip);
      var mid := w.log + [Opened(q)];
      assert w'.log == mid + [Enqueued(q, p)];
      SendsStep(w.log, Opened(q), ip);
      SendsStep(mid, Enqueued(q, p), ip);
    }
  }

  lemma SendOrder(c: Config, w: World, ip: Ip)
    requires Known(c, w, ip) && InOrder(w, ip) && w.pc.Sending?
    ensures InOrder(SendStep(c, w, w.pc.ip, w.pc.iface), ip)
  {
    hide Sends, ArpRequest;
    var w' := SendStep(c, w, w.pc.ip, w.pc.iface);
    assert w'.log == w.log + [w'.log[|w.log|]];
    SendsStep(w.log, w'.log[|w.log|], ip);
  }

  lemma MarkOrder(c: Config, w: World, ip: Ip)
    requires Known(c, w, ip) && InOrder(w, ip) && w.pc.Marking?
    ensures InOrder(w.(requests := Mark(w.requests, w.pc.ip, w.now), pc := Idle), ip)
  {
    hide Sends;
    var i := Find(w.requests, w.pc.ip);
    if i < |w.requests| {
      UpdateFind(w.requests, i, w.requests[i].(sent := w.now, timesSent := 1), ip);
    }
  }

  lemma ProceedOrder(c: Config, w: World, stale: bool, ip: Ip)
    requires Known(c, w, ip) && InOrder(w, ip)
    ensures InOrder(ProceedStep(c, w, stale), ip)
  {
    hide Sends, Mark, QueueStep, SendStep, Fill, Safe, Accounted;
    match w.pc
    case Idle =>
    case Missed(_, _) => QueueOrder(c, w, ip);
    case Holding(_, _) =>
    case Sending(_, _) => SendOrder(c, w, ip);
    case Marking(_) => MarkOrder(c, w, ip);
    case Flushing(_, _, _) => QuietOrder(c, w, ProceedStep(c, w, stale), ip);
  }

  /** One step loses the order exactly when it is a tick that spoils it. */
  lemma OrderLostIff(c: Config, w: World, s: Step, ip: Ip)
    requires Known(c, w, ip) && InOrder(w, ip)
    ensures !InOrder(Apply(c, w, s), ip) <==> s.Tick? && Spoils(w, ip)
  {
    hide TickStep, ReceiveStep, ProceedStep, Receivable, Sends, Accounted, Spoils;
    match s
    case Advance(_) =>
    case Tick =>
      OkIsQuotable(c, w.requests);
      TickOrder(c, w, ip);
    case Receive(f, name) =>
      if w.pc == Idle && Receivable(c, f, name) {
        ReceiveOrder(c, w, f, name, ip);
      }
    case Proceed(stale) => ProceedOrder(c, w, stale, ip);
  }

  lemma {:induction false} CalmKeepsOrder(c: Config, w: World, steps: seq<Step>, ip: Ip)
    requires Known(c, w, ip) && InOrder(w, ip) && Undisturbed(c, w, steps)
    ensures Known(c, Exec(c, w, steps), ip) && InOrder(Exec(c, w, steps), ip)
  {
    hide Apply, Known, InOrder;
    if steps != [] {
      var init, s := steps[..|steps| - 1], steps[|steps| - 1];
      CalmKeepsOrder(c, w, init, ip);
      StepKnown(c, Exec(c, w, init), s, ip);
      OrderLostIff(c, Exec(c, w, init), s, ip);
    }
  }

  // ---------------------------------------------------------------------
  // Ticks, and how far they go
  // ---------------------------------------------------------------------

  /** The time at which the request falls due. */
  ghost function Wait(w: World, ip: Ip): nat
    requires Pending(w.requests, ip)
  {
    var r := RequestFor(w.requests, ip);
    if r.sent + 1 <= w.now then 0 else r.sent + 1 - w.now
  }

  /** Wait until the request is due, then tick. */
  ghost function DueTick(c: Config, w: World, ip: Ip): World
    requires Pending(w.requests, ip)
  {
    Apply(c, Apply(c, w, Advance(Wait(w, ip))), Tick)
  }

  lemma DueTickReaches(c: Config, w: World, ip: Ip, calm: bool)
    requires Pending(w.requests, ip) && (calm ==> !InWindow(w.pc))
    ensures Reaches(c, w, DueTick(c, w, ip), calm)
  {
    hide Reaches, TickStep;
    ReachesStep(c, w, Advance(Wait(w, ip)), calm);
    ReachesNext(c, w, Apply(c, w, Advance(Wait(w, ip))), Tick, calm);
  }

  /** A due tick sends once and counts once below the limit, and destroys at it. */
  lemma DueTickDoes(c: Config, w: World, ip: Ip)
    requires Safe(c, w) && Pending(w.requests, ip)
    ensures var v, t := DueTick(c, w, ip), RequestFor(w.requests, ip).timesSent;
            && Safe(c, v) && v.pc == w.pc
            && (Pending(v.requests, ip) <==> t < MAX_SENDS)
            && Sends(v.log, ip) == Sends(w.log, ip) + (if t < MAX_SENDS then 1 else 0)
            && (t < MAX_SENDS ==> RequestFor(v.requests, ip).timesSent == t + 1)
  {
    hide SweepList, SweepEvents, Expire, Sends;
    var d := Wait(w, ip);
    var u := w.(now := w.now + d);
    ApplySafe(c, w, Advance(d));
    OkIsQuotable(c, w.requests);
    ApplySafe(c, u, Tick);
    SweepAsks(c, Expire(u.entries, u.now), u.requests, u.now, u.log, ip);
    SweepFind(c, u.requests, u.now, ip);
    LimitOk(c, w, ip);
  }

  /** Left to the ticks, any pending request is repeated until its count is five,
      and sent as often as its count goes up. */
  lemma {:induction false} ReachesLimit(c: Config, w: World, ip: Ip, calm: bool) returns (v: World)
    requires Safe(c, w) && Pending(w.requests, ip) && (calm ==> !InWindow(w.pc))
    ensures Reaches(c, w, v, calm) && Safe(c, v) && v.pc == w.pc
    ensures Pending(v.requests, ip) && RequestFor(v.requests, ip).timesSent == MAX_SENDS
    ensures Sends(v.log, ip) == Sends(w.log, ip) + MAX_SENDS - RequestFor(w.requests, ip).timesSent
    decreases MAX_SENDS - RequestFor(w.requests, ip).timesSent
  {
    hide Safe, DueTick, Reaches, Sends;
    LimitOk(c, w, ip);
    if RequestFor(w.requests, ip).timesSent == MAX_SENDS {
      v := w;
      ReachesSelf(c, w, calm);
    } else {
      var u := DueTick(c, w, ip);
      DueTickDoes(c, w, ip);
      DueTickReaches(c, w, ip, calm);
      v := ReachesLimit(c, u, ip, calm);
      ReachesThen(c, w, u, v, calm);
    }
  }

  // ---------------------------------------------------------------------
  // The exact condition
  // ---------------------------------------------------------------------

  ghost function StepsLeft(pc: Pc): nat {
    match pc
    case Holding(_, _) => 3
    case Sending(_, _) => 2
    case Marking(_) => 1
    case _ => 0
  }

  /** Letting the packet thread leave its window does nothing to a request that is
      underway. */
  lemma {:induction false} LeavesWindow(c: Config, w: World, ip: Ip) returns (v: World)
    requires Safe(c, w) && Underway(w, ip)
    ensures Reaches(c, w, v, true) && Safe(c, v) && Underway(v, ip) && !InWindow(v.pc)
    ensures RequestFor(v.requests, ip).timesSent == RequestFor(w.requests, ip).timesSent
    ensures Sends(v.log, ip) == Sends(w.log, ip)
    decreases StepsLeft(w.pc)
  {
    hide Safe, Reaches, Sends, Apply;
    if !InWindow(w.pc) {
      v := w;
      ReachesSelf(c, w, true);
    } else {
      var u := Apply(c, w, Proceed(false));
      WindowMoves(c, w, ip);
      ApplySafe(c, w, Proceed(false));
      StepSends(c, w, Proceed(false), ip);
      StepCounts(c, w, Proceed(false), ip);
      ReachesStep(c, w, Proceed(false), true);
      v := LeavesWindow(c, u, ip);
      ReachesThen(c, w, u, v, true);
    }
  }

  lemma WindowMoves(c: Config, w: World, ip: Ip)
    requires Safe(c, w) && Underway(w, ip) && InWindow(w.pc)
    ensures StepsLeft(Apply(c, w, Proceed(false)).pc) < StepsLeft(w.pc)
    ensures Pending(Apply(c, w, Proceed(false)).requests, ip)
  {
    ProceedCounts(c, w, false, ip);
  }

  /** The next step of a packet thread that is about to send. */
  lemma SendsOnce(c: Config, w: World, ip: Ip)
    requires Safe(c, w) && Mine(w.pc, ip) && w.pc.Sending?
    ensures var v := Apply(c, w, Proceed(false));
            Safe(c, v) && v.pc == Marking(ip) && v.requests == w.requests && Sends(v.log, ip) == Sends(w.log, ip) + 1
  {
    hide Sends, ArpRequest;
    ApplySafe(c, w, Proceed(false));
    var v := Apply(c, w, Proceed(false));
    assert v.log == w.log + [v.log[|w.log|]];
    SendsStep(w.log, v.log[|w.log|], ip);
  }

  /** The write that follows. */
  lemma MarksOnce(c: Config, w: World, ip: Ip)
    requires Safe(c, w) && w.pc == Marking(ip) && Pending(w.requests, ip)
    ensures var v := Apply(c, w, Proceed(false));
            && Safe(c, v) && Underway(v, ip) && v.pc == Idle && v.log == w.log
            && RequestFor(v.requests, ip).timesSent == 1
  {
    ApplySafe(c, w, Proceed(false));
    var i := Find(w.requests, ip);
    UpdateFind(w.requests, i, w.requests[i].(sent := w.now, timesSent := 1), ip);
  }

  /** Too many sends for the count, and the ticks alone go over the limit. */
  lemma TooManyBreaks(c: Config, w: World, ip: Ip) returns (v: World)
    requires Safe(c, w) && Underway(w, ip) && Sends(w.log, ip) > RequestFor(w.requests, ip).timesSent
    ensures Reaches(c, w, v, true) && Sends(v.log, ip) > MAX_SENDS
  {
    hide Safe, Reaches, Sends;
    var u := LeavesWindow(c, w, ip);
    v := ReachesLimit(c, u, ip, true);
    ReachesThen(c, w, u, v, true);
  }

  lemma MarkingBreaks(c: Config, w: World, ip: Ip) returns (v: World)
    requires Known(c, w, ip) && w.pc == Marking(ip) && Pending(w.requests, ip)
    requires RequestFor(w.requests, ip).timesSent > 0
    ensures Reaches(c, w, v, true) && Sends(v.log, ip) > MAX_SENDS
  {
    hide Safe, Reaches, Sends, Apply;
    var u := Apply(c, w, Proceed(false));
    MarksOnce(c, w, ip);
    ReachesStep(c, w, Proceed(false), true);
    v := TooManyBreaks(c, u, ip);
    ReachesThen(c, w, u, v, true);
  }

  lemma SendingBreaks(c: Config, w: World, ip: Ip) returns (v: World)
    requires Known(c, w, ip) && Mine(w.pc, ip) && w.pc.Sending?
    requires Pending(w.requests, ip) ==> RequestFor(w.requests, ip).timesSent > 0
    ensures Reaches(c, w, v, true) && Sends(v.log, ip) > MAX_SENDS
  {
    hide Safe, Reaches, Sends, Apply, Accounted;
    var u := Apply(c, w, Proceed(false));
    SendsOnce(c, w, ip);
    StepKnown(c, w, Proceed(false), ip);
    ReachesStep(c, w, Proceed(false), true);
    if Pending(w.requests, ip) {
      v := MarkingBreaks(c, u, ip);
      ReachesThen(c, w, u, v, true);
    } else {
      v := u;
    }
  }

  /** A read of a destroyed request that yields zero. */
  lemma HoldingBreaks(c: Config, w: World, ip: Ip) returns (v: World)
    requires Known(c, w, ip) && Mine(w.pc, ip) && w.pc.Holding? && !Pending(w.requests, ip)
    ensures Reaches(c, w, v, true) && Sends(v.log, ip) > MAX_SENDS
  {
    hide Safe, Reaches, Sends, Accounted;
    var u := Apply(c, w, Proceed(true));
    StepKnown(c, w, Proceed(true), ip);
    ReachesStep(c, w, Proceed(true), true);
    v := SendingBreaks(c, u, ip);
    ReachesThen(c, w, u, v, true);
  }

  /** Out of order, the limit is broken by some run without a further disturbance. */
  lemma DisorderBreaks(c: Config, w: World, ip: Ip) returns (v: World)
    requires Known(c, w, ip) && !InOrder(w, ip)
    ensures Reaches(c, w, v, true) && Sends(v.log, ip) > MAX_SENDS
  {
    hide Safe, Reaches, Sends;
    var here := Mine(w.pc, ip);
    if here && w.pc.Sending? {
      v := SendingBreaks(c, w, ip);
    } else if here && w.pc.Marking? && Pending(w.requests, ip) {
      v := MarkingBreaks(c, w, ip);
    } else if Pending(w.requests, ip) {
      v := TooManyBreaks(c, w, ip);
    } else if here && w.pc.Holding? {
      v := HoldingBreaks(c, w, ip);
    } else {
      v := w;
      ReachesSelf(c, w, true);
    }
  }

  /** However the run goes on, as long as no further tick falls into a window, no
      request for `ip` is sent more than five times. */
  ghost predicate KeepsLimit(c: Config, w: World, ip: Ip) {
    forall more :: Undisturbed(c, w, more) ==> Sends(Exec(c, w, more).log, ip) <= MAX_SENDS
  }

  lemma NotKept(c: Config, w: World, v: World, ip: Ip)
    requires Reaches(c, w, v, true) && Sends(v.log, ip) > MAX_SENDS
    ensures !KeepsLimit(c, w, ip)
  {
  }

  /** In every state that can be reached: all ways to go on without a tick in a
      window keep the limit of five if and only if the state is in order. */
  lemma LimitKeptIff(c: Config, w0: World, before: seq<Step>, ip: Ip)
    requires Initial(w0)
    ensures KeepsLimit(c, Exec(c, w0, before), ip) <==> InOrder(Exec(c, w0, before), ip)
  {
    hide Exec, Known, InOrder, Sends, Undisturbed;
    var w := Exec(c, w0, before);
    AlwaysKnown(c, w0, before, ip);
    if InOrder(w, ip) {
      forall more | Undisturbed(c, w, more)
        ensures Sends(Exec(c, w, more).log, ip) <= MAX_SENDS
      {
        CalmKeepsOrder(c, w, more, ip);
        OrderIsWithin(c, Exec(c, w, more), ip);
      }
    } else {
      var v := DisorderBreaks(c, w, ip);
      NotKept(c, w, v, ip);
    }
  }

  /** For every run: from each of its states all ways to go on without a tick in a
      window keep the limit, if and only if none of its ticks spoiled the request,
      that is, came when it was due and the packet thread was about to send or
      write for it, or destroyed it while the packet thread held it. */
  lemma LimitKeptOverRun(c: Config, w0: World, steps: seq<Step>, ip: Ip)
    requires Initial(w0)
    ensures (forall k :: 0 <= k <= |steps| ==> KeepsLimit(c, Exec(c, w0, steps[..k]), ip))
            <==> (forall k :: 0 <= k < |steps| && steps[k].Tick? ==> !Spoils(Exec(c, w0, steps[..k]), ip))
  {
    hide Exec, InOrder, KeepsLimit, Spoils;
    forall k | 0 <= k <= |steps|
      ensures KeepsLimit(c, Exec(c, w0, steps[..k]), ip) <==> InOrder(Exec(c, w0, steps[..k]), ip)
    {
      LimitKeptIff(c, w0, steps[..k], ip);
    }
    OrderOverRun(c, w0, steps, ip);
  }

  lemma {:induction false} OrderOverRun(c: Config, w0: World, steps: seq<Step>, ip: Ip)
    requires Initial(w0)
    ensures (forall k :: 0 <= k <= |steps| ==> InOrder(Exec(c, w0, steps[..k]), ip))
            <==> (forall k :: 0 <= k < |steps| && steps[k].Tick? ==> !Spoils(Exec(c, w0, steps[..k]), ip))
  {
    hide Apply, Known, InOrder, Spoils, Exec;
    var n := |steps|;
    if n == 0 {
      StartsInOrder(c, w0, ip);
      assert steps[..0] == [];
    } else {
      var init := steps[..n - 1];
      OrderOverRun(c, w0, init, ip);
      assert forall k :: 0 <= k <= n - 1 ==> steps[..k] == init[..k];
      assert forall k :: 0 <= k < n - 1 ==> steps[k] == init[k];
      var v := Exec(c, w0, init);
      AlwaysKnown(c, w0, init, ip);
      assert init + [steps[n - 1]] == steps == steps[..n] && init[..n - 1] == init;
      ExecOne(c, w0, init, steps[n - 1]);
      if InOrder(v, ip) {
        OrderLostIff(c, v, steps[n - 1], ip);
      }
    }
  }

  lemma StartsInOrder(c: Config, w: World, ip: Ip)
    requires Initial(w)
    ensures Exec(c, w, []) == w && InOrder(w, ip)
  {
    PendingIff(w.requests, ip);
  }

  // ---------------------------------------------------------------------
  // The two states a run over the limit passes through
  // ---------------------------------------------------------------------

  /** About to overwrite a count that is not zero, or to send for a request that
      has been destroyed. */
  ghost predicate Breaks(w: World, ip: Ip) {
    || (w.pc == Marking(ip) && Pending(w.requests, ip) && RequestFor(w.requests, ip).timesSent > 0)
    || (w.pc.Sending? && w.pc.ip == ip && !Pending(w.requests, ip))
  }

  /** Count and log agree; only a first send may not be written down yet. */
  ghost predicate Agrees(w: World, ip: Ip) {
    if !Pending(w.requests, ip) then Sends(w.log, ip) <= MAX_SENDS
    else w.pc == Marking(ip) || Sends(w.log, ip) == RequestFor(w.requests, ip).timesSent
  }

  /** Either of them can be taken over the limit without a further disturbance. */
  lemma BreakIsFatal(c: Config, w0: World, before: seq<Step>, ip: Ip)
    requires Initial(w0) && Breaks(Exec(c, w0, before), ip)
    ensures !KeepsLimit(c, Exec(c, w0, before), ip)
  {
    hide Exec, KeepsLimit;
    LimitKeptIff(c, w0, before, ip);
  }

  lemma TickAgrees(c: Config, w: World, ip: Ip)
    requires Known(c, w, ip) && Agrees(w, ip) && !Breaks(w, ip) && Quotable(w.requests)
    ensures Agrees(TickStep(c, w), ip)
  {
    hide SweepList, SweepEvents, Expire, Sends;
    SweepAsks(c, Expire(w.entries, w.now), w.requests, w.now, w.log, ip);
    SweepFind(c, w.requests, w.now, ip);
    if Pending(w.requests, ip) {
      LimitOk(c, w, ip);
    }
  }

  lemma ProceedAgrees(c: Config, w: World, stale: bool, ip: Ip)
    requires Known(c, w, ip) && Agrees(w, ip) && !Breaks(w, ip)
    ensures Agrees(ProceedStep(c, w, stale), ip)
  {
    hide Sends, Mark, QueueStep, SendStep, Fill, Accounted, Safe;
    if InOrder(w, ip) {
      ProceedOrder(c, w, stale, ip);
    } else if w.pc.Sending? {
      SendAgrees(c, w, ip);
    }
  }

  lemma SendAgrees(c: Config, w: World, ip: Ip)
    requires w.pc.Sending? && Agrees(w, ip) && !Breaks(w, ip)
    ensures Agrees(SendStep(c, w, w.pc.ip, w.pc.iface), ip)
  {
    hide Sends, ArpRequest;
    var w' := SendStep(c, w, w.pc.ip, w.pc.iface);
    if w.pc.ip != ip {
      assert w'.log == w.log + w'.log[|w.log|..];
      SendsFrame(w.log, w'.log[|w.log|..], ip);
    }
  }

  lemma StepAgrees(c: Config, w: World, s: Step, ip: Ip)
    requires Known(c, w, ip) && Agrees(w, ip) && !Breaks(w, ip)
    ensures Agrees(Apply(c, w, s), ip)
  {
    hide TickStep, ReceiveStep, ProceedStep, Receivable, Sends, Accounted;
    match s
    case Advance(_) =>
    case Tick =>
      OkIsQuotable(c, w.requests);
      TickAgrees(c, w, ip);
    case Receive(f, name) =>
      if w.pc == Idle && Receivable(c, f, name) {
        ReceiveOrder(c, w, f, name, ip);
        ReceiveLeavesWindow(c, w, f, name);
      }
    case Proceed(stale) => ProceedAgrees(c, w, stale, ip);
  }

  lemma AgreesIsWithin(c: Config, w: World, ip: Ip)
    requires Known(c, w, ip) && Agrees(w, ip) && !Breaks(w, ip)
    ensures Sends(w.log, ip) <= MAX_SENDS
  {
    hide Sends;
    if Pending(w.requests, ip) {
      LimitOk(c, w, ip);
    }
  }

  /** A run that goes over the limit has passed through one of them. */
  lemma {:induction false} BreachNeedsBreak(c: Config, w0: World, steps: seq<Step>, ip: Ip)
    requires Initial(w0)
    requires forall k :: 0 <= k <= |steps| ==> !Breaks(Exec(c, w0, steps[..k]), ip)
    ensures Agrees(Exec(c, w0, steps), ip) && Sends(Exec(c, w0, steps).log, ip) <= MAX_SENDS
  {
    hide Apply, Breaks, Exec, Known;
    var n := |steps|;
    if n == 0 {
      StartsInOrder(c, w0, ip);
    } else {
      var init := steps[..n - 1];
      assert forall k :: 0 <= k <= n - 1 ==> init[..k] == steps[..k];
      BreachNeedsBreak(c, w0, init, ip);
      AlwaysKnown(c, w0, init, ip);
      StepAgrees(c, Exec(c, w0, init), steps[n - 1], ip);
      assert init + [steps[n - 1]] == steps;
      ExecOne(c, w0, init, steps[n - 1]);
    }
    AlwaysKnown(c, w0, steps, ip);
    assert steps[..n] == steps;
    AgreesIsWithin(c, Exec(c, w0, steps), ip);
  }

  // ---------------------------------------------------------------------
  // Runs that go over the limit
  // ---------------------------------------------------------------------

  /** The frame needs `ip` resolved. */
  ghost predicate Needs(c: Config, f: Frame, name: Name, ip: Ip) {
    Receivable(c, f, name) && Dispatch(c, f, name).Resolve? && Dispatch(c, f, name).nextHop == ip
  }

  lemma Misses(c: Config, w: World, f: Frame, name: Name, ip: Ip)
    requires Safe(c, w) && w.pc == Idle && Needs(c, f, name, ip) && !Cached(w.entries, ip)
    ensures var v := Apply(c, w, Receive(f, name));
            && Safe(c, v) && v.pc.Missed? && v.pc.ip == ip && v.requests == w.requests
            && Sends(v.log, ip) == Sends(w.log, ip)
  {
    hide Dispatch, Receivable, Lookup, Fill, Stamp, Sends;
    ApplySafe(c, w, Receive(f, name));
    DispatchIsResolvable(c, f, name);
    SendsStep(w.log, Arrived(f, name), ip);
  }

  lemma Queues(c: Config, w: World, ip: Ip)
    requires Safe(c, w) && w.pc.Missed? && w.pc.ip == ip
    ensures var v := Apply(c, w, Proceed(false));
            && Safe(c, v) && v.pc.Holding? && v.pc.ip == ip && Pending(v.requests, ip)
            && RequestFor(v.requests, ip).timesSent ==
               (if Pending(w.requests, ip) then RequestFor(w.requests, ip).timesSent else 0)
            && Sends(v.log, ip) == if Pending(w.requests, ip) then Sends(w.log, ip) else 0
  {
    hide Sends, Push;
    ApplySafe(c, w, Proceed(false));
    var p, i, v := w.pc.packet, Find(w.requests, ip), Apply(c, w, Proceed(false));
    if i < |w.requests| {
      UpdateFind(w.requests, i, w.requests[i].(packets := Push(p, w.requests[i].packets)), ip);
      assert v.log == w.log + [Enqueued(ip, p)];
      SendsStep(w.log, Enqueued(ip, p), ip);
    } else {
      RequestForCons(Request(ip, 0, 0, Push(p, [])), w.requests, ip);
      assert v.log == w.log + [Opened(ip)] + [Enqueued(ip, p)];
      SendsStep(w.log, Opened(ip), ip);
      SendsStep(w.log + [Opened(ip)], Enqueued(ip, p), ip);
    }
  }

  /** A frame received and queued; the packet thread holds its request. */
  lemma Holds(c: Config, w: World, f: Frame, name: Name, ip: Ip) returns (v: World)
    requires Safe(c, w) && w.pc == Idle && Needs(c, f, name, ip) && !Cached(w.entries, ip)
    ensures Reaches(c, w, v, false) && Safe(c, v) && Mine(v.pc, ip) && v.pc.Holding? && Pending(v.requests, ip)
    ensures RequestFor(v.requests, ip).timesSent ==
            if Pending(w.requests, ip) then RequestFor(w.requests, ip).timesSent else 0
    ensures Sends(v.log, ip) == if Pending(w.requests, ip) then Sends(w.log, ip) else 0
  {
    hide Apply, Safe, Sends, Reaches, Needs;
    var u := Apply(c, w, Receive(f, name));
    Misses(c, w, f, name, ip);
    Queues(c, u, ip);
    v := Apply(c, u, Proceed(false));
    ReachesStep(c, w, Receive(f, name), false);
    ReachesNext(c, w, u, Proceed(false), false);
  }

  lemma TestsZero(c: Config, w: World, stale: bool, ip: Ip)
    requires Safe(c, w) && Mine(w.pc, ip) && w.pc.Holding?
    requires if Pending(w.requests, ip) then RequestFor(w.requests, ip).timesSent == 0 else stale
    ensures var v := Apply(c, w, Proceed(stale));
            && Safe(c, v) && Mine(v.pc, ip) && v.pc.Sending?
            && v.requests == w.requests && v.log == w.log
  {
    ApplySafe(c, w, Proceed(stale));
  }

  /** A fresh router that has queued its first frame is about to send for it. */
  lemma FirstSend(c: Config, w: World, f: Frame, name: Name, ip: Ip) returns (v: World)
    requires Initial(w) && Needs(c, f, name, ip)
    ensures Reaches(c, w, v, false) && Safe(c, v) && Mine(v.pc, ip) && v.pc.Sending?
    ensures Pending(v.requests, ip) && RequestFor(v.requests, ip).timesSent == 0 && Sends(v.log, ip) == 0
  {
    hide Apply, Safe, Sends, Reaches, Needs;
    InitialSafe(c, w);
    PendingIff(w.requests, ip);
    var u := Holds(c, w, f, name, ip);
    TestsZero(c, u, false, ip);
    v := Apply(c, u, Proceed(false));
    ReachesNext(c, w, u, Proceed(false), false);
  }

  lemma InitialSafe(c: Config, w: World)
    requires Initial(w)
    ensures Safe(c, w)
  {
    AlwaysSafe(c, w, []);
  }

  /** The send and the write. */
  lemma SendsAndMarks(c: Config, w: World, ip: Ip) returns (v: World)
    requires Safe(c, w) && Mine(w.pc, ip) && w.pc.Sending? && Pending(w.requests, ip)
    ensures Reaches(c, w, v, false) && Safe(c, v) && v.pc == Idle && Pending(v.requests, ip)
    ensures RequestFor(v.requests, ip).timesSent == 1 && Sends(v.log, ip) == Sends(w.log, ip) + 1
  {
    hide Apply, Safe, Sends, Reaches;
    var u := Apply(c, w, Proceed(false));
    SendsOnce(c, w, ip);
    MarksOnce(c, u, ip);
    v := Apply(c, u, Proceed(false));
    ReachesStep(c, w, Proceed(false), false);
    ReachesNext(c, w, u, Proceed(false), false);
  }

  /** A packet that joins a request at its limit, and the tick that destroys the
      request while the packet thread holds it: a read of the freed count that
      yields zero brings the packet thread to send for a request that is gone. */
  lemma HeldAndDestroyed(c: Config, w: World, f: Frame, name: Name, ip: Ip) returns (v: World)
    requires Safe(c, w) && w.pc == Idle && Needs(c, f, name, ip)
    requires Pending(w.requests, ip) && RequestFor(w.requests, ip).timesSent == MAX_SENDS
    ensures Reaches(c, w, v, false) && Safe(c, v) && Mine(v.pc, ip) && v.pc.Sending?
    ensures !Pending(v.requests, ip) && Sends(v.log, ip) == Sends(w.log, ip)
  {
    hide Apply, Safe, Sends, Reaches, Needs, DueTick;
    PendingIsUncached(c, w, ip);
    var u := Holds(c, w, f, name, ip);
    DueTickDoes(c, u, ip);
    DueTickReaches(c, u, ip, false);
    var x := DueTick(c, u, ip);
    TestsZero(c, x, true, ip);
    v := Apply(c, x, Proceed(true));
    ReachesThen(c, w, u, x, false);
    ReachesNext(c, w, x, Proceed(true), false);
  }

  lemma PendingIsUncached(c: Config, w: World, ip: Ip)
    requires Safe(c, w) && Pending(w.requests, ip)
    ensures !Cached(w.entries, ip)
  {
    assert !Cached(w.entries, w.requests[Find(w.requests, ip)].ip);
  }

  /** Ticks between test and write alone: every frame a fresh router has to
      resolve can lead to ten requests for its next hop. */
  lemma InterleavingBreaksLimit(c: Config, w: World, f: Frame, name: Name, ip: Ip) returns (v: World)
    requires Initial(w) && Needs(c, f, name, ip)
    ensures Reaches(c, w, v, false) && Safe(c, v) && v.pc == Idle
    ensures Pending(v.requests, ip) && RequestFor(v.requests, ip).timesSent == MAX_SENDS
    ensures Sends(v.log, ip) == 2 * MAX_SENDS
  {
    hide Safe, Sends, Reaches, Needs;
    var a := FirstSend(c, w, f, name, ip);
    var b := ReachesLimit(c, a, ip, false);
    var d := SendsAndMarks(c, b, ip);
    v := ReachesLimit(c, d, ip, false);
    ReachesThen(c, w, a, b, false);
    ReachesThen(c, w, b, d, false);
    ReachesThen(c, w, d, v, false);
  }

  /** A stale read alone: no count is overwritten, and the sixth request is sent
      for a request that has been destroyed after five. */
  lemma StaleReadBreaksLimit(c: Config, w: World, f: Frame, name: Name, ip: Ip) returns (v: World)
    requires Initial(w) && Needs(c, f, name, ip)
    ensures Reaches(c, w, v, false) && v.pc.Sending? && v.pc.ip == ip && !Pending(v.requests, ip)
    ensures Sends(v.log, ip) == MAX_SENDS
    ensures Sends(Apply(c, v, Proceed(false)).log, ip) == MAX_SENDS + 1
  {
    hide Safe, Sends, Reaches, Needs, Apply;
    var a := FirstSend(c, w, f, name, ip);
    var b := SendsAndMarks(c, a, ip);
    var d := ReachesLimit(c, b, ip, false);
    v := HeldAndDestroyed(c, d, f, name, ip);
    ReachesThen(c, w, a, b, false);
    ReachesThen(c, w, b, d, false);
    ReachesThen(c, w, d, v, false);
    SendsOnce(c, v, ip);
  }

  /** Both together: eleven is reached, so no smaller bound holds. */
  lemma ElevenIsReached(c: Config, w: World, f: Frame, name: Name, ip: Ip)
    requires Initial(w) && Needs(c, f, name, ip)
    ensures exists steps :: Sends(Exec(c, w, steps).log, ip) == 2 * MAX_SENDS + 1
  {
    hide Safe, Sends, Needs, Apply, Exec, Undisturbed;
    var a := InterleavingBreaksLimit(c, w, f, name, ip);
    var b := HeldAndDestroyed(c, a, f, name, ip);
    SendsOnce(c, b, ip);
    ReachesThen(c, w, a, b, false);
    ReachesNext(c, w, b, Proceed(false), false);
    var steps :| Exec(c, w, steps) == Apply(c, b, Proceed(false));
    assert Sends(Exec(c, w, steps).log, ip) == 2 * MAX_SENDS + 1;
  }
}
