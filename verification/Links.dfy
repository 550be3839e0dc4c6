/**
 Singly linked lists as the source keeps them: a node holds a record and a
 pointer to the next node. A sequence of nodes says what the list is, and the
 lemmas say what appending, prepending and bypassing a node make of it.
 */
module Links {

  class Node<T> {
    var value: T
    var next: Node?<T>

    constructor (value: T, next: Node?<T>)
      ensures this.value == value && this.next == next
    {
      this.value, this.next := value, next;
    }
  }

  ghost function NodeAt<T>(ns: seq<Node<T>>, i: nat): Node?<T> {
    if i < |ns| then ns[i] else null
  }

  /** `ns` is the list that starts at `head`, each node once. */
  ghost predicate Chain<T>(ns: seq<Node<T>>, head: Node?<T>)
    reads ns
  {
    && head == NodeAt(ns, 0)
    && (forall i {:trigger ns[i].next} :: 0 <= i < |ns| ==> ns[i].next == NodeAt(ns, i + 1))
    && (forall i, j :: 0 <= i < j < |ns| ==> ns[i] != ns[j])
  }

  /** The records in the list. */
  ghost function Values<T>(ns: seq<Node<T>>): (r: seq<T>)
    reads ns
    ensures |r| == |ns| && forall i :: 0 <= i < |ns| ==> r[i] == ns[i].value
  {
    seq(|ns|, i requires 0 <= i < |ns| reads ns => ns[i].value)
  }

  ghost function Without<T>(ns: seq<Node<T>>, i: nat): seq<Node<T>> {
    if i < |ns| then ns[..i] + ns[i + 1..] else ns
  }

  lemma ChainCons<T>(node: Node<T>, ns: seq<Node<T>>)
    requires Chain(ns, node.next) && node !in ns
    ensures Chain([node] + ns, node) && Values([node] + ns) == [node.value] + Values(ns)
  {
    var all := [node] + ns;
    forall i | 0 <= i < |all|
      ensures all[i].next == NodeAt(all, i + 1)
    {
      assert i > 0 ==> all[i] == ns[i - 1];
    }
  }

  lemma ChainSnoc<T>(ns: seq<Node<T>>, node: Node<T>, head: Node?<T>)
    requires node !in ns && node.next == null && (forall i, j :: 0 <= i < j < |ns| ==> ns[i] != ns[j])
    requires forall i {:trigger ns[i].next} :: 0 <= i < |ns| ==> ns[i].next == if i + 1 < |ns| then ns[i + 1] else node
    requires head == if ns == [] then node else ns[0]
    ensures Chain(ns + [node], head) && Values(ns + [node]) == Values(ns) + [node.value]
  {
    var all := ns + [node];
    forall i | 0 <= i < |all|
      ensures all[i].next == NodeAt(all, i + 1)
    {
      if i < |ns| {
        assert all[i] == ns[i];
      }
    }
  }

  /** The list with the node at `i` bypassed. */
  lemma ChainWithout<T>(ns: seq<Node<T>>, i: nat, head: Node?<T>)
    requires i < |ns| && (forall j, k :: 0 <= j < k < |ns| ==> ns[j] != ns[k])
    requires head == NodeAt(ns, if i == 0 then 1 else 0)
    requires forall j {:trigger ns[j].next} :: 0 <= j < |ns| && j != i ==> ns[j].next == NodeAt(ns, if j + 1 == i then i + 1 else j + 1)
    ensures Chain(Without(ns, i), head) && ns[i] !in Without(ns, i)
  {
    hide Without;
    var all := Without(ns, i);
    forall j | 0 <= j < |all|
      ensures all[j].next == NodeAt(all, j + 1)
    {
      WithoutAt(ns, i, j);
      WithoutAt(ns, i, j + 1);
    }
    forall j, k | 0 <= j < k < |all|
      ensures all[j] != all[k]
    {
      WithoutAt(ns, i, j);
      WithoutAt(ns, i, k);
    }
    forall j | 0 <= j < |all|
      ensures all[j] != ns[i]
    {
      WithoutAt(ns, i, j);
    }
    WithoutAt(ns, i, 0);
  }

  lemma WithoutAt<T>(ns: seq<Node<T>>, i: nat, j: nat)
    requires i < |ns|
    ensures |Without(ns, i)| == |ns| - 1
    ensures NodeAt(Without(ns, i), j) == NodeAt(ns, if j < i then j else j + 1)
  {
  }

  lemma ValuesWithout<T>(ns: seq<Node<T>>, vs: seq<T>, i: nat)
    requires i < |ns| == |vs| && forall j :: 0 <= j < |ns| ==> ns[j].value == vs[j]
    ensures Values(Without(ns, i)) == vs[..i] + vs[i + 1..]
  {
  }

  lemma SameValues<T>(ns: seq<Node<T>>, vs: seq<T>)
    requires |ns| == |vs| && forall i :: 0 <= i < |ns| ==> ns[i].value == vs[i]
    ensures Values(ns) == vs
  {
  }

  lemma ValuesSnoc<T>(ns: seq<Node<T>>, n: Node<T>)
    ensures Values(ns + [n]) == Values(ns) + [n.value]
  {
  }

  lemma TailOfValues<T>(ns: seq<Node<T>>)
    requires ns != []
    ensures Values(ns[1..]) == Values(ns)[1..]
  {
  }
}
