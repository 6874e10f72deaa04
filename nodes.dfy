/** The two node shapes of the library (package `node`) and the ghost
    predicates that say when a sequence of nodes is a well-formed chain. */
module Nodes {

  /** A node of the singly linked and of the circular list. Go code never
      writes `Data` after a node is built, so it is a constant here. */
  class Node<T> {
    const data: T
    var next: Node?<T>

    constructor (data: T, next: Node?<T>)
      ensures this.data == data && this.next == next
    {
      this.data := data;
      this.next := next;
    }
  }

  /** A node of the doubly linked list. */
  class Node2<T> {
    var prev: Node2?<T>
    const data: T
    var next: Node2?<T>

    constructor (prev: Node2?<T>, data: T, next: Node2?<T>)
      ensures this.prev == prev && this.data == data && this.next == next
    {
      this.prev := prev;
      this.data := data;
      this.next := next;
    }
  }

  /** The data of a sequence of nodes, in the same order. */
  function Values<T>(nodes: seq<Node<T>>): seq<T>
  {
    seq(|nodes|, i requires 0 <= i < |nodes| => nodes[i].data)
  }

  function Values2<T>(nodes: seq<Node2<T>>): seq<T>
  {
    seq(|nodes|, i requires 0 <= i < |nodes| => nodes[i].data)
  }

  /** No node occurs twice. */
  ghost predicate Distinct<N>(nodes: seq<N>)
  {
    forall i, j :: 0 <= i < j < |nodes| ==> nodes[i] != nodes[j]
  }

  /** No node of `a` is a node of `b`. */
  ghost predicate Disjoint<N>(a: seq<N>, b: seq<N>)
  {
    forall j :: 0 <= j < |b| ==> b[j] !in a
  }

  /** Two node sequences whose data a predicate tells apart share no node. */
  lemma SeparatedDisjoint<T>(a: seq<Node<T>>, b: seq<Node<T>>, f: T -> bool)
    requires forall k :: 0 <= k < |a| ==> f(a[k].data)
    requires forall k :: 0 <= k < |b| ==> !f(b[k].data)
    ensures Disjoint(a, b)
  {
  }

  /** `nodes` is exactly what one reaches from `head` by following `next`
      until nil. */
  ghost predicate IsChain<T>(head: Node?<T>, nodes: seq<Node<T>>)
    reads nodes
  {
    && (nodes == [] ==> head == null)
    && (nodes != [] ==> head == nodes[0] && nodes[|nodes| - 1].next == null)
    && (forall i :: 0 <= i < |nodes| - 1 ==> nodes[i].next == nodes[i + 1])
  }

  /** A nil-terminated chain cannot revisit a node: two equal nodes would
      have equal successors all the way to the last one, whose successor
      is nil while the other's is not. */
  lemma ChainDistinct<T>(head: Node?<T>, nodes: seq<Node<T>>)
    requires IsChain(head, nodes)
    ensures Distinct(nodes)
  {
    forall i, j | 0 <= i < j < |nodes|
      ensures nodes[i] != nodes[j]
    {
      ChainNoRepeat(nodes, i, j);
    }
  }

  lemma {:induction false} ChainNoRepeat<T>(nodes: seq<Node<T>>, i: nat, j: nat)
    requires i < j < |nodes|
    requires nodes[|nodes| - 1].next == null
    requires forall k :: 0 <= k < |nodes| - 1 ==> nodes[k].next == nodes[k + 1]
    ensures nodes[i] != nodes[j]
    decreases |nodes| - j
  {
    assert nodes[i].next == nodes[i + 1];
    if j < |nodes| - 1 {
      ChainNoRepeat(nodes, i + 1, j + 1);
      assert nodes[j].next == nodes[j + 1];
    }
  }

  /** Only the last node of a chain has no successor. */
  lemma ChainEnd<T>(head: Node?<T>, nodes: seq<Node<T>>, k: nat)
    requires IsChain(head, nodes) && k < |nodes|
    ensures nodes[k].next == null <==> k == |nodes| - 1
  {
    if k < |nodes| - 1 {
      assert nodes[k].next == nodes[k + 1];
    }
  }

  /** The same along the `next` pointers of doubly linked nodes. */
  ghost predicate IsChain2<T>(head: Node2?<T>, nodes: seq<Node2<T>>)
    reads nodes
  {
    && (nodes == [] ==> head == null)
    && (nodes != [] ==> head == nodes[0] && nodes[|nodes| - 1].next == null)
    && (forall i :: 0 <= i < |nodes| - 1 ==> nodes[i].next == nodes[i + 1])
  }

  /** The `prev` pointers mirror the `next` chain: the first node has no
      predecessor and every other node points back to the one before it. */
  ghost predicate PrevLinked<T>(nodes: seq<Node2<T>>)
    reads nodes
  {
    && (nodes != [] ==> nodes[0].prev == null)
    && (forall i :: 0 < i < |nodes| ==> nodes[i].prev == nodes[i - 1])
  }

  lemma ChainDistinct2<T>(head: Node2?<T>, nodes: seq<Node2<T>>)
    requires IsChain2(head, nodes)
    ensures Distinct(nodes)
  {
    forall i, j | 0 <= i < j < |nodes|
      ensures nodes[i] != nodes[j]
    {
      ChainNoRepeat2(nodes, i, j);
    }
  }

  lemma {:induction false} ChainNoRepeat2<T>(nodes: seq<Node2<T>>, i: nat, j: nat)
    requires i < j < |nodes|
    requires nodes[|nodes| - 1].next == null
    requires forall k :: 0 <= k < |nodes| - 1 ==> nodes[k].next == nodes[k + 1]
    ensures nodes[i] != nodes[j]
    decreases |nodes| - j
  {
    assert nodes[i].next == nodes[i + 1];
    if j < |nodes| - 1 {
      ChainNoRepeat2(nodes, i + 1, j + 1);
      assert nodes[j].next == nodes[j + 1];
    }
  }

  lemma ChainEnd2<T>(head: Node2?<T>, nodes: seq<Node2<T>>, k: nat)
    requires IsChain2(head, nodes) && k < |nodes|
    ensures nodes[k].next == null <==> k == |nodes| - 1
  {
    if k < |nodes| - 1 {
      assert nodes[k].next == nodes[k + 1];
    }
  }

  lemma SeparatedDisjoint2<T>(a: seq<Node2<T>>, b: seq<Node2<T>>, f: T -> bool)
    requires forall k :: 0 <= k < |a| ==> f(a[k].data)
    requires forall k :: 0 <= k < |b| ==> !f(b[k].data)
    ensures Disjoint(a, b)
  {
  }

  /** `nodes` is one lap of a ring: `head` is the first node, `tail` the
      last, every node points to the next one and the tail back to the
      head; the empty ring has neither head nor tail. */
  ghost predicate IsRing<T>(head: Node?<T>, tail: Node?<T>, nodes: seq<Node<T>>)
    reads nodes
  {
    && (nodes == [] ==> head == null && tail == null)
    && (nodes != [] ==> head == nodes[0] && tail == nodes[|nodes| - 1] && tail.next == head)
    && (forall i :: 0 <= i < |nodes| - 1 ==> nodes[i].next == nodes[i + 1])
    && Distinct(nodes)
  }
}
