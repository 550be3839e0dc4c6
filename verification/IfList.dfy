/**
 The interface list as the source holds it: nodes linked in order, searched by
 name, extended at the end, and updated in the last node.
 */
module IfList {
  import opened Bytes
  import opened Routing
  import opened Links

  /** The search can skip what does not match. */
  lemma {:induction false} SkipByName(ifaces: seq<Interface>, i: nat, name: Name)
    requires i <= |ifaces| && forall j :: 0 <= j < i ==> !SameName(ifaces[j].name, name)
    ensures ByName(ifaces, name) == ByName(ifaces[i..], name)
    decreases i
  {
    if i > 0 {
      assert ifaces[1..][i - 1..] == ifaces[i..];
      SkipByName(ifaces[1..], i - 1, name);
    } else {
      assert ifaces[0..] == ifaces;
    }
  }

  class InterfaceList {
    var head: Node?<Interface>
    ghost var nodes: seq<Node<Interface>>

    ghost predicate Valid()
      reads this, nodes
    {
      Chain(nodes, head)
    }

    ghost function List(): seq<Interface>
      reads this, nodes
    {
      Values(nodes)
    }

    constructor ()
      ensures Valid() && List() == [] && nodes == []
    {
      head, nodes := null, [];
    }

    /** `sr_get_interface`: the first node of that name. */
    method Get(name: Name) returns (r: Node?<Interface>)
      requires Valid()
      ensures r == null ==> ByName(List(), name) == None
      ensures r != null ==> r in nodes && ByName(List(), name) == Some(r.value)
    {
      r := head;
      ghost var i := 0;
      while r != null && !SameName(r.value.name, name)
        invariant 0 <= i <= |nodes| && r == NodeAt(nodes, i)
        invariant forall j :: 0 <= j < i ==> !SameName(nodes[j].value.name, name)
        decreases |nodes| - i
      {
        r := r.next;
        i := i + 1;
      }
      SkipByName(List(), i, name);
    }

    /** The walk to the end that the three writers share. */
    method Last() returns (n: Node<Interface>)
      requires Valid() && nodes != []
      ensures n == nodes[|nodes| - 1]
    {
      n := head;
      ghost var i := 0;
      while n.next != null
        invariant 0 <= i < |nodes| && n == nodes[i]
        decreases |nodes| - i
      {
        n := n.next;
        i := i + 1;
      }
    }

    /** `sr_add_interface`: `malloc` leaves whatever `memory` holds in the fields
        that are not written. */
    method Add(name: Name, memory: Interface)
      requires Valid()
      modifies this, nodes
      ensures Valid() && List() == old(List()) + [memory.(name := Clip(name, NAME_LEN))]
      ensures forall n :: n in nodes ==> n in old(nodes) || fresh(n)
    {
      hide Values;
      var node := new Node(memory.(name := Clip(name, NAME_LEN)), null);
      if head == null {
        head := node;
      } else {
        var walker := Last();
        walker.next := node;
      }
      ChainSnoc(nodes, node, head);
      assert Values(nodes) == old(List());
      nodes := nodes + [node];
    }

    /** `sr_set_ether_addr`: the last interface, and no other. */
    method SetEtherAddr(mac: Mac)
      requires Valid() && nodes != []
      modifies nodes
      ensures Valid()
      ensures var n := |old(List())| - 1; List() == old(List())[n := old(List())[n].(mac := mac)]
    {
      var walker := Last();
      walker.value := walker.value.(mac := mac);
    }

    /** `sr_set_ether_ip`: the last interface, and no other. */
    method SetEtherIp(ip: Ip)
      requires Valid() && nodes != []
      modifies nodes
      ensures Valid()
      ensures var n := |old(List())| - 1; List() == old(List())[n := old(List())[n].(ip := ip)]
    {
      var walker := Last();
      walker.value := walker.value.(ip := ip);
    }
  }
}
