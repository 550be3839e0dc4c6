/**
 What the table does to a router in the end: runs in which an address just
 learned is not the one a lookup gives, because an older entry lies in a higher
 slot or because there is no slot left.
 */
module ArpTable {
  import opened Bytes
  import opened Routing
  import opened Frames
  import opened ArpMachine
  import opened ArpSafety
  import opened ArpTraffic

  /** An ARP reply that gives `mac` for `ip`. */
  function Reply(ip: Ip, mac: Mac): Frame {
    ArpFrame(2, mac, Interface([], mac, ip), mac, ip)
  }

  /** A router with nothing pending takes it into its table. */
  lemma ReplyTeaches(c: Config, w: World, name: Name, ip: Ip, mac: Mac)
    requires ByName(c.ifaces, name).Some? && w.pc == Idle && w.requests == []
    ensures Apply(c, w, Receive(Reply(ip, mac), name)) ==
            w.(entries := Insert(w.entries, ip, mac, w.now),
               log := w.log + [Arrived(Reply(ip, mac), name)] + [Learned(ip, mac, w.now)])
  {
    hide Insert, ArpFrame, HandleIp;
    ArpFields(2, mac, Interface([], mac, ip), mac, ip);
    var f := Reply(ip, mac);
    assert Dispatch(c, f, name) == Learn(ip, mac);
    assert !Pending(w.requests, ip);
  }

  /** Whatever is pending, its table takes the entry. */
  lemma ReplyInserts(c: Config, w: World, name: Name, ip: Ip, mac: Mac)
    requires ByName(c.ifaces, name).Some? && w.pc == Idle
    ensures var w' := Apply(c, w, Receive(Reply(ip, mac), name));
            w'.entries == Insert(w.entries, ip, mac, w.now) && w'.now == w.now
  {
    hide Insert, ArpFrame, HandleIp, Unlink;
    ArpFields(2, mac, Interface([], mac, ip), mac, ip);
    assert Dispatch(c, Reply(ip, mac), name) == Learn(ip, mac);
  }

  lemma TickExpires(c: Config, w: World)
    requires w.requests == []
    ensures Apply(c, w, Tick) == w.(entries := Expire(w.entries, w.now), lastTick := w.now)
  {
    hide Expire;
    assert w.log + [] == w.log;
  }

  // ---------------------------------------------------------------------
  // A newer entry hidden by an older one
  // ---------------------------------------------------------------------

  /** Two addresses learned a second apart, and the tick at which the first has
      just expired: the slot below the second is free again. */
  lemma {:induction false} FreedBelow(c: Config, w: World, name: Name, a: Ip, b: Ip, ma: Mac, mb: Mac) returns (steps: seq<Step>)
    requires Initial(w) && ByName(c.ifaces, name).Some?
    ensures var v := Exec(c, w, steps);
            && v.pc == Idle && v.requests == [] && |v.entries| == SLOTS
            && !v.entries[0].valid && v.entries[1] == Entry(mb, b, w.now + 1, true)
            && forall i :: 2 <= i < SLOTS ==> !v.entries[i].valid
  {
    hide Apply, Reply, FreeSlot, Insert;
    var w1 := Apply(c, w, Receive(Reply(a, ma), name));
    ReplyTeaches(c, w, name, a, ma);
    InsertAt(w.entries, 0, a, ma, w.now);
    var w2 := w1.(now := w1.now + 1);
    Waits(c, w1, 1);
    var w3 := Apply(c, w2, Receive(Reply(b, mb), name));
    ReplyTeaches(c, w2, name, b, mb);
    InsertAt(w2.entries, 1, b, mb, w2.now);
    var w4 := w3.(now := w3.now + 15);
    Waits(c, w3, 15);
    TickExpires(c, w4);
    steps := [Receive(Reply(a, ma), name)] +
             ([Advance(1)] + ([Receive(Reply(b, mb), name)] + ([Advance(15)] + ([Tick] + []))));
    ExecPrepend(c, w, Receive(Reply(a, ma), name),
                [Advance(1)] + ([Receive(Reply(b, mb), name)] + ([Advance(15)] + ([Tick] + []))));
    ExecPrepend(c, w1, Advance(1), [Receive(Reply(b, mb), name)] + ([Advance(15)] + ([Tick] + [])));
    ExecPrepend(c, w2, Receive(Reply(b, mb), name), [Advance(15)] + ([Tick] + []));
    ExecPrepend(c, w3, Advance(15), [Tick] + []);
    ExecPrepend(c, w4, Tick, []);
  }

  lemma Waits(c: Config, w: World, d: nat)
    ensures Apply(c, w, Advance(d)) == w.(now := w.now + d)
  {
  }

  /** An insert goes to the first free slot. */
  lemma InsertAt(entries: seq<Entry>, i: nat, ip: Ip, mac: Mac, now: int)
    requires i < |entries| && !entries[i].valid && forall j :: 0 <= j < i ==> entries[j].valid
    ensures FreeSlot(entries) == i && Insert(entries, ip, mac, now) == entries[i := Entry(mac, ip, now, true)]
  {
  }

  /** The entry that a lookup gives is the last valid one for its address. */
  lemma {:induction false} LastMatch(entries: seq<Entry>, ip: Ip, i: nat)
    requires i < |entries| && Holds(entries[i], ip) && forall j :: i < j < |entries| ==> !Holds(entries[j], ip)
    ensures Lookup(entries, ip) == Some(entries[i])
    decreases |entries|
  {
    if i < |entries| - 1 {
      LastMatch(entries[..|entries| - 1], ip, i);
    }
  }

  /** On every router with an interface, for every two addresses and every two
      hardware addresses: some run ends with a reply that gives `m'` for `b` and is
      taken into a free slot, and the next lookup for `b` still gives `m`. */
  lemma {:induction false} NewerIsHidden(c: Config, w: World, name: Name, a: Ip, b: Ip, m: Mac, m': Mac)
    requires Initial(w) && ByName(c.ifaces, name).Some?
    ensures exists steps ::
              var u := Exec(c, w, steps);
              var v := Apply(c, u, Receive(Reply(b, m'), name));
              && FreeSlot(u.entries) < SLOTS == |v.entries| && v.entries[FreeSlot(u.entries)] == Entry(m', b, u.now, true)
              && v.log == u.log + [Arrived(Reply(b, m'), name)] + [Learned(b, m', v.now)]
              && Lookup(v.entries, b).Some? && Lookup(v.entries, b).value.mac == m
  {
    hide Exec, Apply, Reply, FreeSlot, Lookup;
    var steps := FreedBelow(c, w, name, a, b, m', m);
    var u := Exec(c, w, steps);
    InsertAt(u.entries, 0, b, m', u.now);
    ReplyTeaches(c, u, name, b, m');
    LastMatch(Insert(u.entries, b, m', u.now), b, 1);
  }

  // ---------------------------------------------------------------------
  // A full table
  // ---------------------------------------------------------------------

  datatype Pair = Pair(ip: Ip, mac: Mac)

  function Replies(ps: seq<Pair>, name: Name): (r: seq<Step>)
    ensures |r| == |ps|
  {
    if ps == [] then [] else Replies(ps[..|ps| - 1], name) + [Receive(Reply(ps[|ps| - 1].ip, ps[|ps| - 1].mac), name)]
  }

  lemma NoReplies(c: Config, w: World, name: Name)
    ensures Exec(c, w, Replies([], name)) == w
  {
  }

  /** Replies fill the slots in order, whether or not they are for one address. */
  lemma {:induction false} RepliesFill(c: Config, w: World, name: Name, ps: seq<Pair>)
    requires Initial(w) && ByName(c.ifaces, name).Some? && |ps| <= SLOTS
    ensures var v := Exec(c, w, Replies(ps, name));
            && v.pc == Idle && v.requests == [] && v.now == w.now && |v.entries| == SLOTS
            && (forall i :: 0 <= i < |ps| ==> v.entries[i] == Entry(ps[i].mac, ps[i].ip, w.now, true))
            && (forall i :: |ps| <= i < SLOTS ==> !v.entries[i].valid)
  {
    hide Apply, Reply, FreeSlot, Insert, Exec;
    if ps == [] {
      NoReplies(c, w, name);
    } else {
      var n := |ps| - 1;
      var v := Exec(c, w, Replies(ps[..n], name));
      RepliesFill(c, w, name, ps[..n]);
      ReplyTeaches(c, v, name, ps[n].ip, ps[n].mac);
      InsertAt(v.entries, n, ps[n].ip, ps[n].mac, v.now);
      ExecOne(c, w, Replies(ps[..n], name), Receive(Reply(ps[n].ip, ps[n].mac), name));
    }
  }

  lemma NoneFree(entries: seq<Entry>)
    requires forall j :: 0 <= j < |entries| ==> entries[j].valid
    ensures FreeSlot(entries) == |entries|
  {
  }

  /** After any hundred replies, a reply for any other address is lost: it is
      logged as learned, the table stays as it is, and the next lookup finds
      nothing. */
  lemma {:induction false} FullTableDrops(c: Config, w: World, name: Name, ps: seq<Pair>, ip: Ip, mac: Mac)
    requires Initial(w) && ByName(c.ifaces, name).Some? && |ps| == SLOTS
    requires forall i :: 0 <= i < |ps| ==> ps[i].ip != ip
    ensures var u := Exec(c, w, Replies(ps, name));
            var v := Apply(c, u, Receive(Reply(ip, mac), name));
            && v.log == u.log + [Arrived(Reply(ip, mac), name)] + [Learned(ip, mac, v.now)]
            && v.entries == u.entries && Lookup(v.entries, ip).None?
  {
    hide Exec, Apply, Reply, FreeSlot;
    var u := Exec(c, w, Replies(ps, name));
    RepliesFill(c, w, name, ps);
    NoneFree(u.entries);
    ReplyTeaches(c, u, name, ip, mac);
  }

  // ---------------------------------------------------------------------
  // How long an answer stays
  // ---------------------------------------------------------------------

  /** What a step does to the table. */
  lemma StepEntries(c: Config, w: World, s: Step)
    ensures var w' := Apply(c, w, s);
      || w'.entries == w.entries
      || (s.Tick? && w'.entries == Expire(w.entries, w.now))
      || (exists ip: Ip, mac: Mac ::
            && w'.entries == Insert(w.entries, ip, mac, w.now)
            && |w.log| < |w'.log| && w'.log[|w'.log| - 1] == Learned(ip, mac, w.now))
  {
    hide SweepList, SweepEvents, Expire, Insert, Dispatch, Receivable, Unlink, Queue, Mark, Fill, Stamp, ArpRequest, Lookup;
    if s.Receive? && w.pc == Idle && Receivable(c, s.frame, s.iface) && Dispatch(c, s.frame, s.iface).Learn? {
      var a := Dispatch(c, s.frame, s.iface);
      assert Apply(c, w, s).entries == Insert(w.entries, a.ip, a.mac, w.now);
    }
  }

  lemma {:induction false} LookupOther(entries: seq<Entry>, i: nat, x: Entry, ip: Ip)
    requires i < |entries| && !Holds(entries[i], ip) && !Holds(x, ip)
    ensures Lookup(entries[i := x], ip) == Lookup(entries, ip)
  {
    var n := |entries| - 1;
    if i < n {
      LookupOther(entries[..n], i, x, ip);
      assert entries[i := x][..n] == entries[..n][i := x];
    } else {
      assert entries[i := x][..n] == entries[..n];
    }
  }

  lemma InsertOther(entries: seq<Entry>, other: Ip, mac: Mac, now: int, ip: Ip)
    requires other != ip
    ensures Lookup(Insert(entries, other, mac, now), ip) == Lookup(entries, ip)
  {
    hide Lookup;
    var i := FreeSlot(entries);
    if i < |entries| {
      LookupOther(entries, i, Entry(mac, other, now, true), ip);
    }
  }

  lemma {:induction false} ExpireKeeps(entries: seq<Entry>, now: int, ip: Ip)
    requires Lookup(entries, ip).Some? && now - Lookup(entries, ip).value.added <= 15
    ensures Lookup(Expire(entries, now), ip) == Lookup(entries, ip)
  {
    hide Lookup, Expire;
    var n, after := |entries| - 1, Expire(entries, now);
    LookupLast(entries, ip);
    LookupLast(after, ip);
    if !Holds(entries[n], ip) {
      ExpireKeeps(entries[..n], now, ip);
      assert after[..n] == Expire(entries[..n], now);
    }
  }

  lemma StepKeepsAnswer(c: Config, w: World, s: Step, ip: Ip)
    requires Lookup(w.entries, ip).Some? && w.now - Lookup(w.entries, ip).value.added <= 15
    requires forall k :: |w.log| <= k < |Apply(c, w, s).log| ==> !(Apply(c, w, s).log[k].Learned? && Apply(c, w, s).log[k].ip == ip)
    ensures Lookup(Apply(c, w, s).entries, ip) == Lookup(w.entries, ip)
  {
    hide Apply, Lookup, Expire, Insert;
    var w' := Apply(c, w, s);
    StepEntries(c, w, s);
    if w'.entries != w.entries {
      if s.Tick? && w'.entries == Expire(w.entries, w.now) {
        ExpireKeeps(w.entries, w.now, ip);
      } else {
        var other: Ip, mac: Mac :|
          && w'.entries == Insert(w.entries, other, mac, w.now)
          && |w.log| < |w'.log| && w'.log[|w'.log| - 1] == Learned(other, mac, w.now);
        InsertOther(w.entries, other, mac, w.now, ip);
      }
    }
  }

  /** An answer stays the same for 15 seconds, whatever else happens, as long as no
      other reply for its address comes. */
  lemma {:induction false} AnswerStays(c: Config, w: World, steps: seq<Step>, ip: Ip)
    requires Lookup(w.entries, ip).Some?
    requires Exec(c, w, steps).now - Lookup(w.entries, ip).value.added <= 15
    requires var log := Exec(c, w, steps).log;
             forall k :: |w.log| <= k < |log| ==> !(log[k].Learned? && log[k].ip == ip)
    ensures Lookup(Exec(c, w, steps).entries, ip) == Lookup(w.entries, ip) && w.log <= Exec(c, w, steps).log
  {
    hide Apply, Lookup;
    if steps != [] {
      var init, s := steps[..|steps| - 1], steps[|steps| - 1];
      var v := Exec(c, w, init);
      LogGrows(c, v, s);
      assert forall k :: 0 <= k < |v.log| ==> v.log[k] == Apply(c, v, s).log[k];
      AnswerStays(c, w, init, ip);
      StepKeepsAnswer(c, v, s, ip);
    }
  }

  /** An address learned into a free slot, with no valid entry for it above, is the
      answer for 15 seconds, until another reply for it comes. */
  lemma LearnedStays15(c: Config, w: World, name: Name, ip: Ip, mac: Mac, steps: seq<Step>)
    requires ByName(c.ifaces, name).Some? && w.pc == Idle
    requires FreeSlot(w.entries) < |w.entries| && !Cached(w.entries[FreeSlot(w.entries) + 1..], ip)
    requires var u := Apply(c, w, Receive(Reply(ip, mac), name));
             && Exec(c, u, steps).now - w.now <= 15
             && forall k :: |u.log| <= k < |Exec(c, u, steps).log| ==>
                  !(Exec(c, u, steps).log[k].Learned? && Exec(c, u, steps).log[k].ip == ip)
    ensures var u := Apply(c, w, Receive(Reply(ip, mac), name));
            Lookup(Exec(c, u, steps).entries, ip) == Some(Entry(mac, ip, w.now, true))
  {
    hide Apply, Exec, Reply, Lookup, Insert, FreeSlot, Cached;
    var u := Apply(c, w, Receive(Reply(ip, mac), name));
    ReplyInserts(c, w, name, ip, mac);
    LookupAfterInsert(w.entries, ip, mac, w.now);
    AnswerStays(c, u, steps, ip);
  }
}
