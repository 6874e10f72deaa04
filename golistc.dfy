/** Package `golistc`: the singly linked circular list. A `GoListC` holds
    its first and last node; the last node's `Next` leads back to the
    first, so the chain from `Head` is a ring that one lap reads in
    order. Only construction and conversion to a slice are provided. */
module Golistc {
  import opened Nodes

  class GoListC<T> {
    var Head: Node?<T>
    var Tail: Node?<T>
    /** The ring from `Head` to `Tail`, head first; also the list's
        footprint. */
    ghost var Nodes: seq<Node<T>>

    ghost predicate Valid()
      reads this, Nodes
    {
      IsRing(Head, Tail, Nodes)
    }

    /** The data of one lap from `Head`. */
    ghost function Contents(): seq<T>
      reads this
    {
      Values(Nodes)
    }

    /** The zero value `var list GoListC[T]`: the empty list. */
    constructor ()
      ensures Valid() && Nodes == []
    {
      Head := null;
      Tail := null;
      Nodes := [];
    }

    /** `append`: a fresh node after `Tail`, closing the ring back to
        `Head`. On an empty list the node is both ends and its own
        successor. */
    method append(value: T)
      requires Valid()
      modifies this, Tail
      ensures Valid() && fresh(Tail) && Nodes == old(Nodes) + [Tail]
      ensures Contents() == old(Contents()) + [value]
      ensures old(Head) == null ==> Head == Tail && Head.next == Head
      ensures old(Head) != null ==> Head == old(Head) && old(Tail).next == Tail && Tail.next == Head
    {
      var node := new Node(value, null);
      if Head != null {
        node.next := Head;
        Tail.next := node;
        Tail := node;
      } else {
        Head := node;
        Tail := node;
        node.next := node;
      }
      Nodes := Nodes + [node];
    }
  }

  /** The loop shared by `New` and `FromSlice`: each value is appended in
      turn. */
  method AppendAll<T>(list: GoListC<T>, values: seq<T>)
    requires list.Valid() && list.Nodes == []
    modifies list
    ensures list.Valid() && fresh(list.Nodes)
    ensures list.Contents() == values
  {
    for k := 0 to |values|
      invariant list.Valid() && fresh(list.Nodes)
      invariant list.Contents() == values[..k]
    {
      assert values[..k + 1] == values[..k] + [values[k]];
      list.append(values[k]);
    }
    assert values[..|values|] == values;
  }

  method New<T>(values: seq<T>) returns (list: GoListC<T>)
    ensures list.Valid() && fresh(list)
    ensures list.Contents() == values
  {
    list := new GoListC();
    AppendAll(list, values);
  }

  method FromSlice<T>(values: seq<T>) returns (list: GoListC<T>)
    ensures list.Valid() && fresh(list)
    ensures list.Contents() == values
  {
    list := new GoListC();
    AppendAll(list, values);
  }

  /** One lap of the ring from `Head`, a do-while that stops on coming
      back to `Head`: each node is visited exactly once. `Head` is read
      before the first test, so the list must not be empty. */
  method ToSlice<T>(list: GoListC<T>) returns (result: seq<T>)
    requires list.Valid() && list.Nodes != []
    ensures |result| == |list.Nodes|
    ensures result == list.Contents()
  {
    ghost var ns := list.Nodes;
    result := [];
    var node := list.Head;
    ghost var i := 0;
    while true
      invariant 0 <= i < |ns| && node == ns[i]
      invariant result == list.Contents()[..i]
      decreases |ns| - i
    {
      result := result + [node.data];
      assert i + 1 < |ns| ==> ns[i + 1] != ns[0];
      node := node.next;
      if node == list.Head {
        break;
      }
      i := i + 1;
    }
    assert result == list.Contents()[..|ns|];
  }

  /** Converting a non-empty slice to a ring and back gives the slice. */
  method RoundTrip<T>(values: seq<T>) returns (result: seq<T>)
    requires values != []
    ensures result == values
  {
    var list := FromSlice(values);
    result := ToSlice(list);
  }

  /** The same through `New`. */
  method RoundTripNew<T>(values: seq<T>) returns (result: seq<T>)
    requires values != []
    ensures result == values
  {
    var list := New(values);
    result := ToSlice(list);
  }
}
