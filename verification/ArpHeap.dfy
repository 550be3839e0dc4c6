/**
 The ARP cache as the source holds it: a fixed table of entries written in
 place, and a linked list of request nodes that is searched, relinked and freed
 through pointers. Each method is proved to do to the nodes what the functions
 of the state machine do to the sequence of requests.
 */
module ArpHeap {
  import opened Bytes
  import opened Routing
  import opened Frames
  import opened ArpMachine
  import opened Links

  /** The first search position is where the requests say it is. */
  lemma FoundAt(rs: seq<Request>, ip: Ip, i: nat)
    requires i <= |rs| && (forall j :: 0 <= j < i ==> rs[j].ip != ip) && (i < |rs| ==> rs[i].ip == ip)
    ensures Find(rs, ip) == i
  {
  }

  class Cache {
    const entries: array<Entry>
    var requests: Node?<Request>
    ghost var nodes: seq<Node<Request>>

    ghost predicate Valid()
      reads this, nodes
    {
      entries.Length == SLOTS && Chain(nodes, requests)
    }

    ghost function List(): seq<Request>
      reads this, nodes
    {
      Values(nodes)
    }

    /** `sr_arpcache_init`: `memset` leaves every entry invalid. */
    constructor ()
      ensures Valid() && List() == [] && fresh(entries)
      ensures forall i :: 0 <= i < SLOTS ==> !entries[i].valid
    {
      entries := new Entry[SLOTS](_ => Entry([0, 0, 0, 0, 0, 0], [0, 0, 0, 0], 0, false));
      requests := null;
      nodes := [];
    }

    /** `sr_arpcache_lookup`. */
    method LookupEntry(ip: Ip) returns (r: Option<Entry>)
      requires Valid()
      ensures r == Lookup(entries[..], ip)
    {
      r := None;
      for i := 0 to SLOTS
        invariant r == Lookup(entries[..i], ip)
      {
        assert entries[..i + 1][..i] == entries[..i];
        if entries[i].valid && entries[i].ip == ip {
          r := Some(entries[i]);
        }
      }
      assert entries[..SLOTS] == entries[..];
    }

    /** The search loops of `sr_arpcache_queuereq` and `sr_arpcache_insert`. */
    method Search(ip: Ip) returns (prev: Node?<Request>, req: Node?<Request>)
      requires Valid()
      ensures var i := Find(List(), ip); req == NodeAt(nodes, i) && prev == (if i == 0 then null else nodes[i - 1])
    {
      req, prev := requests, null;
      ghost var i := 0;
      while req != null && req.value.ip != ip
        invariant 0 <= i <= |nodes| && req == NodeAt(nodes, i)
        invariant prev == if i == 0 then null else nodes[i - 1]
        invariant forall j :: 0 <= j < i ==> nodes[j].value.ip != ip
        decreases |nodes| - i
      {
        prev, req := req, req.next;
        i := i + 1;
      }
      FoundAt(List(), ip, i);
    }

    /** A new request at the head of the list. */
    method AddReq(ip: Ip) returns (req: Node<Request>)
      requires Valid()
      modifies this
      ensures Valid() && fresh(req) && nodes == [req] + old(nodes)
      ensures List() == [Request(ip, 0, 0, [])] + old(List())
    {
      hide Values;
      req := new Node(Request(ip, 0, 0, []), requests);
      requests := req;
      ChainCons(req, nodes);
      nodes := [req] + nodes;
      assert Values(old(nodes)) == old(List());
    }

    /** A new packet at the head of a request's list. */
    method AddPacket(ghost i: nat, req: Node<Request>, p: Packet)
      requires Valid() && i < |nodes| && nodes[i] == req
      modifies req`value
      ensures Valid() && List() == old(List())[i := old(List())[i].(packets := Push(p, old(List())[i].packets))]
      ensures req.value.packets == (if p.buf == [] then [] else [p]) + old(req.value.packets)
    {
      if p.buf != [] {
        req.value := req.value.(packets := [p] + req.value.packets);
      }
    }

    /** The two writes after an ARP request has been sent. */
    method Touch(ghost i: nat, req: Node<Request>, now: int, times: nat)
      requires Valid() && i < |nodes| && nodes[i] == req
      modifies req`value
      ensures Valid() && List() == old(List())[i := old(List())[i].(sent := now, timesSent := times)]
    {
      req.value := req.value.(sent := now);
      req.value := req.value.(timesSent := times);
    }

    /** `sr_arpcache_queuereq`. */
    method QueueReq(ip: Ip, p: Packet) returns (req: Node<Request>)
      requires Valid()
      modifies this, nodes
      ensures Valid() && List() == Queue(old(List()), ip, p)
      ensures Find(List(), ip) < |nodes| && req == nodes[Find(List(), ip)]
      ensures forall n :: n in nodes ==> n in old(nodes) || fresh(n)
    {
      hide Chain, Values, Find;
      ghost var i := Find(List(), ip);
      var _, found := Search(ip);
      if found == null {
        req := AddReq(ip);
        i := 0;
      } else {
        req := found;
      }
      AddPacket(i, req, p);
      FoundAt(List(), ip, i);
    }

    /** Taking the node at `i` out of the list, given its predecessor. */
    method RemoveAt(ghost i: nat, prev: Node?<Request>, req: Node<Request>)
      requires Valid() && i < |nodes| && req == nodes[i]
      requires prev == if i == 0 then null else nodes[i - 1]
      modifies this, nodes
      ensures Valid() && nodes == Without(old(nodes), i) && req !in nodes
      ensures forall n :: n in old(nodes) ==> n.value == old(n.value)
    {
      if prev != null {
        prev.next := req.next;
      } else {
        requests := req.next;
      }
      ChainWithout(nodes, i, requests);
      nodes := Without(nodes, i);
    }

    /** The list half of `sr_arpcache_insert`: the request, unlinked. */
    method UnlinkReq(ip: Ip) returns (req: Node?<Request>)
      requires Valid()
      modifies this, nodes
      ensures Valid() && List() == Unlink(old(List()), ip)
      ensures nodes == Without(old(nodes), Find(old(List()), ip))
      ensures req == NodeAt(old(nodes), Find(old(List()), ip)) && (req != null ==> req !in nodes)
      ensures forall n :: n in old(nodes) ==> n.value == old(n.value)
    {
      hide Chain, Values, Find;
      ghost var i := Find(List(), ip);
      var prev, found := Search(ip);
      req := found;
      if req != null {
        RemoveAt(i, prev, req);
        ValuesWithout(old(nodes), old(List()), i);
      }
    }

    /** The table half of `sr_arpcache_insert`. */
    method InsertEntry(mac: Mac, ip: Ip, now: int)
      requires Valid()
      modifies entries
      ensures entries[..] == Insert(old(entries[..]), ip, mac, now)
    {
      var i := 0;
      while i < SLOTS && entries[i].valid
        invariant 0 <= i <= SLOTS
        invariant forall j :: 0 <= j < i ==> entries[j].valid
      {
        i := i + 1;
      }
      if i != SLOTS {
        entries[i] := Entry(mac, ip, now, true);
      }
    }

    /** The search loop of `sr_arpreq_destroy`, by pointer. */
    method SearchNode(entry: Node<Request>) returns (prev: Node?<Request>, req: Node?<Request>, ghost i: nat)
      requires Valid()
      ensures i <= |nodes| && req == NodeAt(nodes, i) && prev == (if i == 0 then null else nodes[i - 1])
      ensures i < |nodes| ==> nodes[i] == entry
      ensures forall j :: 0 <= j < |nodes| && nodes[j] == entry ==> j == i
    {
      req, prev, i := requests, null, 0;
      while req != null && req != entry
        invariant 0 <= i <= |nodes| && req == NodeAt(nodes, i)
        invariant prev == if i == 0 then null else nodes[i - 1]
        invariant forall j :: 0 <= j < i ==> nodes[j] != entry
        decreases |nodes| - i
      {
        prev, req := req, req.next;
        i := i + 1;
      }
    }

    /** The list part of `sr_arpreq_destroy`: no effect when the request has been
        unlinked already. */
    method Destroy(entry: Node<Request>)
      requires Valid()
      modifies this, nodes
      ensures Valid()
      ensures entry !in old(nodes) ==> nodes == old(nodes) && List() == old(List())
      ensures forall i :: 0 <= i < |old(nodes)| && old(nodes)[i] == entry ==> nodes == Without(old(nodes), i)
      ensures forall n :: n in old(nodes) ==> n.value == old(n.value)
    {
      hide Chain;
      var prev, req, i := SearchNode(entry);
      if req != null {
        RemoveAt(i, prev, req);
      } else {
        assert entry !in nodes;
      }
    }

    /** The expiry loop of `sr_arpcache_timeout`. */
    method ExpireEntries(now: int)
      requires Valid()
      modifies entries
      ensures entries[..] == Expire(old(entries[..]), now)
    {
      for i := 0 to SLOTS
        invariant forall j :: 0 <= j < i ==> entries[j] == Aged(old(entries[j]), now)
        invariant forall j :: i <= j < SLOTS ==> entries[j] == old(entries[j])
      {
        if entries[i].valid && now - entries[i].added > TIMEOUT {
          entries[i] := entries[i].(valid := false);
        }
      }
    }
  }
}
