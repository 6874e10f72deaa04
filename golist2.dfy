/** Package `golist2`: the doubly linked list. The exported operations are
    those of `golist`, line for line; only the two primitives differ:
    `appendHead` also points the old head's `Prev` at the new node, and
    `reverse` swaps `Prev` and `Next` at every node. Every operation reads
    only `Next` pointers of its inputs, so it asks no more of them than a
    well-formed `Next` chain (`Valid`); results built by `appendHead` and
    `reverse` also have consistent `Prev` pointers (`Linked`). */
module Golist2 {
  import opened ListTypes
  import opened Nodes
  import ListSpec
  import SortSpec

  class GoList2<T> {
    var Head: Node2?<T>
    /** The chain from `Head` along `Next`, head first; also the list's
        footprint. */
    ghost var Nodes: seq<Node2<T>>

    ghost predicate Valid()
      reads this, Nodes
    {
      IsChain2(Head, Nodes)
    }

    /** Every `Prev` pointer mirrors the `Next` chain. */
    ghost predicate Linked()
      reads this, Nodes
    {
      PrevLinked(Nodes)
    }

    /** The data along the chain, head first. */
    ghost function Contents(): seq<T>
      reads this
    {
      Values2(Nodes)
    }

    /** The zero value `var list GoList2[T]`: the empty list. */
    constructor ()
      ensures Valid() && Linked() && Nodes == []
    {
      Head := null;
      Nodes := [];
    }

    /** `appendHead`: a fresh node in front of the old head, which now
        points back to it. */
    method appendHead(value: T)
      requires Valid()
      modifies this, Nodes
      ensures Valid() && fresh(Head) && Nodes == [Head] + old(Nodes)
      ensures Head.prev == null
      ensures old(Linked()) ==> Linked()
      ensures Contents() == [value] + old(Contents())
    {
      ChainDistinct2(Head, Nodes);
      var node := new Node2(null, value, Head);
      if Head != null {
        Head.prev := node;
      }
      Head := node;
      Nodes := [node] + Nodes;
    }

    /** `reverse`: walks the old `Next` chain (reached through `Prev` once
        the pointers are swapped) and swaps `Prev` and `Next` at every
        node; the old last node becomes the head. The swap yields the
        reversed chain only because `Prev` mirrored `Next`. */
    method reverse()
      requires Valid() && Linked()
      modifies this, Nodes
      ensures Valid() && Linked() && Nodes == ListSpec.Reversed(old(Nodes))
      ensures Contents() == ListSpec.Reversed(old(Contents()))
    {
      ghost var ns := Nodes;
      var last := swapLinks();
      ghost var r := ListSpec.Reversed(ns);
      ListSpec.ReversedIndex(ns);
      ListSpec.ReversedIndex(Values2(ns));
      if ns != [] {
        assert r[0] == ns[|ns| - 1] && r[|r| - 1] == ns[0];
      }
      forall k | 0 <= k < |r| - 1
        ensures r[k].next == r[k + 1]
      {
        assert r[k] == ns[|ns| - 1 - k] && r[k + 1] == ns[|ns| - 1 - (k + 1)];
      }
      forall k | 0 < k < |r|
        ensures r[k].prev == r[k - 1]
      {
        assert r[k] == ns[|ns| - 1 - k] && r[k - 1] == ns[|ns| - 1 - (k - 1)];
      }
      Head := last;
      Nodes := r;
    }

    /** The loop of `reverse`: after it every node's `Next` is its old
        `Prev` and its `Prev` its old `Next`; it returns the old last
        node. */
    method swapLinks() returns (last: Node2?<T>)
      requires Valid() && Linked()
      modifies Nodes
      ensures Nodes == old(Nodes)
      ensures last == if Nodes == [] then null else Nodes[|Nodes| - 1]
      ensures Nodes != [] ==> Nodes[0].next == null && Nodes[|Nodes| - 1].prev == null
      ensures forall k :: 0 < k < |Nodes| ==> Nodes[k].next == Nodes[k - 1]
      ensures forall k :: 0 <= k < |Nodes| - 1 ==> Nodes[k].prev == Nodes[k + 1]
    {
      ghost var ns := Nodes;
      ChainDistinct2(Head, ns);
      last := null;
      var node := Head;
      ghost var i := 0;
      while node != null
        invariant 0 <= i <= |ns|
        invariant node == if i < |ns| then ns[i] else null
        invariant last == if i == 0 then null else ns[i - 1]
        invariant 0 < i ==> ns[0].next == null
        invariant forall k :: 0 < k < i ==> ns[k].next == ns[k - 1]
        invariant forall k :: 0 <= k < i && k < |ns| - 1 ==> ns[k].prev == ns[k + 1]
        invariant 0 < i == |ns| ==> ns[i - 1].prev == null
        invariant forall k :: i <= k < |ns| - 1 ==> ns[k].next == ns[k + 1]
        invariant i < |ns| ==> ns[|ns| - 1].next == null
        invariant forall k :: i <= k < |ns| && 0 < k ==> ns[k].prev == ns[k - 1]
        invariant i == 0 < |ns| ==> ns[0].prev == null
        decreases |ns| - i
      {
        assert forall k :: 0 <= k < |ns| && k != i ==> ns[k] != node;
        node.prev, node.next := node.next, node.prev;
        last := node;
        node := node.prev;
        i := i + 1;
      }
    }
  }

  /** The contents of each list, in argument order. */
  ghost function ContentsOf<T>(lists: seq<GoList2<T>>): (r: seq<seq<T>>)
    reads lists
    ensures |r| == |lists|
    ensures forall k :: 0 <= k < |lists| ==> r[k] == lists[k].Contents()
  {
    if lists == [] then [] else [lists[0].Contents()] + ContentsOf(lists[1..])
  }

  /** `return *list1.reverse(), *list2.reverse()`: reverses two lists
      that share no node. */
  method ReverseBoth<T>(list1: GoList2<T>, list2: GoList2<T>)
    requires list1.Valid() && list1.Linked() && list2.Valid() && list2.Linked()
    requires Disjoint(list1.Nodes, list2.Nodes)
    modifies list1, list1.Nodes, list2, list2.Nodes
    ensures list1.Linked() && list2.Linked()
    ensures list1.Valid() && list1.Nodes == ListSpec.Reversed(old(list1.Nodes))
    ensures list2.Valid() && list2.Nodes == ListSpec.Reversed(old(list2.Nodes))
    ensures list1.Contents() == ListSpec.Reversed(old(list1.Contents()))
    ensures list2.Contents() == ListSpec.Reversed(old(list2.Contents()))
    ensures forall k :: 0 <= k < |list1.Nodes| ==> list1.Nodes[k] in old(list1.Nodes)
    ensures forall k :: 0 <= k < |list2.Nodes| ==> list2.Nodes[k] in old(list2.Nodes)
  {
    list1.reverse();
    assert Disjoint(list2.Nodes, list1.Nodes);
    list2.reverse();
  }

  /** The copy loop that ends most operations: from the cursor `node`,
      which sits at position `i` of `list`, to the end of the chain, each
      element is pushed onto the head of `result`, which so far holds
      `acc` reversed. Every node `result` holds afterwards is either new or
      one it held before. */
  method PushRest<T>(result: GoList2<T>, list: GoList2<T>, node: Node2?<T>, ghost i: nat, ghost acc: seq<T>)
    requires result.Valid() && result.Linked() && list.Valid() && result != list
    requires Disjoint(result.Nodes, list.Nodes)
    requires i <= |list.Nodes| && node == if i < |list.Nodes| then list.Nodes[i] else null
    requires result.Contents() == ListSpec.Reversed(acc)
    modifies result, result.Nodes
    ensures result.Valid() && result.Linked()
    ensures forall k :: 0 <= k < |result.Nodes| ==> fresh(result.Nodes[k]) || result.Nodes[k] in old(result.Nodes)
    ensures old(result.Nodes) == [] ==> fresh(result.Nodes)
    ensures result.Contents() == ListSpec.Reversed(acc + list.Contents()[i..])
  {
    ghost var s := list.Contents();
    ghost var n0 := result.Nodes;
    ghost var pushed := acc;
    var node := node;
    ghost var j := i;
    while node != null
      invariant i <= j <= |list.Nodes|
      invariant node == if j < |list.Nodes| then list.Nodes[j] else null
      invariant result.Valid() && result.Linked() && list.Valid()
      invariant forall k :: 0 <= k < |result.Nodes| ==> fresh(result.Nodes[k]) || result.Nodes[k] in n0
      invariant pushed == acc + s[i..j]
      invariant result.Contents() == ListSpec.Reversed(pushed)
      decreases |list.Nodes| - j
    {
      var next := node.next;
      assert s[i..j + 1] == s[i..j] + [node.data];
      ListSpec.ReversedSnoc(pushed, node.data);
      result.appendHead(node.data);
      pushed := pushed + [node.data];
      node := next;
      j := j + 1;
    }
    assert s[i..j] == s[i..];
  }

  /** The `for _, v := range values { result.appendHead(v) }` loops: each
      value is pushed onto the head of `result`, which so far holds `acc`
      reversed. Every node `result` holds afterwards is either new or one
      it held before. */
  method PushValues<T>(result: GoList2<T>, values: seq<T>, ghost acc: seq<T>)
    requires result.Valid() && result.Linked() && result.Contents() == ListSpec.Reversed(acc)
    modifies result, result.Nodes
    ensures result.Valid() && result.Linked()
    ensures forall k :: 0 <= k < |result.Nodes| ==> fresh(result.Nodes[k]) || result.Nodes[k] in old(result.Nodes)
    ensures old(result.Nodes) == [] ==> fresh(result.Nodes)
    ensures result.Contents() == ListSpec.Reversed(acc + values)
  {
    ghost var n0 := result.Nodes;
    for k := 0 to |values|
      invariant result.Valid() && result.Linked()
      invariant forall j :: 0 <= j < |result.Nodes| ==> fresh(result.Nodes[j]) || result.Nodes[j] in n0
      invariant result.Contents() == ListSpec.Reversed(acc + values[..k])
    {
      assert acc + values[..k + 1] == (acc + values[..k]) + [values[k]];
      ListSpec.ReversedSnoc(acc + values[..k], values[k]);
      result.appendHead(values[k]);
    }
    assert values[..|values|] == values;
  }

  /** The common ending `for ...; node != nil; ... { result.appendHead(...) }
      return *result.reverse()`: the rest of `list` is pushed and the
      chain is then turned around, so `result` holds `acc` followed by the
      rest of `list`, in order. */
  method PushRestAndReverse<T>(result: GoList2<T>, list: GoList2<T>, node: Node2?<T>, ghost i: nat, ghost acc: seq<T>)
    requires result.Valid() && result.Linked() && list.Valid() && result != list
    requires Disjoint(result.Nodes, list.Nodes)
    requires i <= |list.Nodes| && node == if i < |list.Nodes| then list.Nodes[i] else null
    requires result.Contents() == ListSpec.Reversed(acc)
    modifies result, result.Nodes
    ensures result.Valid() && result.Linked()
    ensures forall k :: 0 <= k < |result.Nodes| ==> fresh(result.Nodes[k]) || result.Nodes[k] in old(result.Nodes)
    ensures old(result.Nodes) == [] ==> fresh(result.Nodes)
    ensures result.Contents() == acc + list.Contents()[i..]
  {
    PushRest(result, list, node, i, acc);
    ListSpec.ReversedIndex(result.Nodes);
    result.reverse();
    ListSpec.ReversedInvolution(acc + list.Contents()[i..]);
  }

  /** The cursor loops that only walk: `n` steps along `list` from its head
      (`NthTail`, `Sublist`). */
  method Skip<T>(list: GoList2<T>, n: nat) returns (node: Node2?<T>)
    requires list.Valid() && n <= |list.Nodes|
    ensures node == if n < |list.Nodes| then list.Nodes[n] else null
  {
    node := list.Head;
    var i := 0;
    while node != null && i < n
      invariant 0 <= i <= n
      invariant node == if i < |list.Nodes| then list.Nodes[i] else null
      decreases n - i
    {
      node := node.next;
      i := i + 1;
    }
  }

  /** The walk of `DropWhile`: past every leading element `fun` accepts.
      `i` is where the cursor stops. */
  method SkipWhile<T>(list: GoList2<T>, fun: T -> bool) returns (node: Node2?<T>, ghost i: nat)
    requires list.Valid()
    ensures i <= |list.Nodes| && node == if i < |list.Nodes| then list.Nodes[i] else null
    ensures ListSpec.TakeWhile(list.Contents(), fun) == list.Contents()[..i]
    ensures ListSpec.DropWhile(list.Contents(), fun) == list.Contents()[i..]
  {
    ghost var s := list.Contents();
    node := list.Head;
    i := 0;
    while node != null
      invariant 0 <= i <= |list.Nodes|
      invariant node == if i < |list.Nodes| then list.Nodes[i] else null
      invariant forall k :: 0 <= k < i ==> fun(s[k])
      decreases |list.Nodes| - i
    {
      if !fun(node.data) {
        break;
      }
      node := node.next;
      i := i + 1;
    }
    ListSpec.TakeDropWhileAt(s, fun, i);
  }

  /** The pushing loop of `TakeWhile` and `SplitWith`: every leading
      element `fun` accepts goes onto the head of the empty `result`; the
      cursor stops at the first element `fun` rejects, position `i`. */
  method PushWhile<T>(result: GoList2<T>, list: GoList2<T>, fun: T -> bool) returns (node: Node2?<T>, ghost i: nat)
    requires result.Valid() && list.Valid() && result != list && result.Nodes == []
    modifies result
    ensures i <= |list.Nodes| && node == if i < |list.Nodes| then list.Nodes[i] else null
    ensures result.Valid() && result.Linked() && fresh(result.Nodes)
    ensures result.Contents() == ListSpec.Reversed(ListSpec.TakeWhile(list.Contents(), fun))
    ensures ListSpec.TakeWhile(list.Contents(), fun) == list.Contents()[..i]
    ensures ListSpec.DropWhile(list.Contents(), fun) == list.Contents()[i..]
  {
    ghost var s := list.Contents();
    node := list.Head;
    i := 0;
    while node != null
      invariant 0 <= i <= |list.Nodes|
      invariant node == if i < |list.Nodes| then list.Nodes[i] else null
      invariant result.Valid() && result.Linked() && fresh(result.Nodes)
      invariant result.Contents() == ListSpec.Reversed(s[..i])
      invariant forall k :: 0 <= k < i ==> fun(s[k])
      modifies result
      decreases |list.Nodes| - i
    {
      var next := node.next;
      if fun(node.data) {
        assert ListSpec.Reversed(s[..i + 1]) == [node.data] + ListSpec.Reversed(s[..i]) by {
          assert s[..i + 1] == s[..i] + [node.data];
          ListSpec.ReversedSnoc(s[..i], node.data);
        }
        result.appendHead(node.data);
      } else {
        break;
      }
      node := next;
      i := i + 1;
    }
    ListSpec.TakeDropWhileAt(s, fun, i);
  }

  /** The bounded copy loop of `Split` and `Sublist`: from the cursor
      `node` at position `i`, at most `count` elements go onto the head of
      the empty `result`; the copy also stops at the end of the chain.
      `end` is where the returned cursor sits. */
  method PushUpTo<T>(result: GoList2<T>, list: GoList2<T>, node: Node2?<T>, ghost i: nat, count: int)
    returns (rest: Node2?<T>, ghost end: nat)
    requires result.Valid() && list.Valid() && result != list && result.Nodes == [] && 0 <= count
    requires i <= |list.Nodes| && node == if i < |list.Nodes| then list.Nodes[i] else null
    modifies result
    ensures end == if i + count <= |list.Nodes| then i + count else |list.Nodes|
    ensures rest == if end < |list.Nodes| then list.Nodes[end] else null
    ensures result.Valid() && result.Linked() && fresh(result.Nodes)
    ensures result.Contents() == ListSpec.Reversed(list.Contents()[i..end])
  {
    ghost var s := list.Contents();
    rest := node;
    var j := 0;
    end := i;
    while rest != null && j < count
      invariant 0 <= j <= count && end == i + j <= |list.Nodes|
      invariant rest == if end < |list.Nodes| then list.Nodes[end] else null
      invariant result.Valid() && result.Linked() && fresh(result.Nodes)
      invariant result.Contents() == ListSpec.Reversed(s[i..end])
      modifies result
      decreases count - j
    {
      var next := rest.next;
      assert ListSpec.Reversed(s[i..end + 1]) == [rest.data] + ListSpec.Reversed(s[i..end]) by {
        assert s[i..end + 1] == s[i..end] + [rest.data];
        ListSpec.ReversedSnoc(s[i..end], rest.data);
      }
      result.appendHead(rest.data);
      rest := next;
      j := j + 1;
      end := end + 1;
    }
  }

  /* ---------------------------------------------------------------------
   * Construction and conversion
   * --------------------------------------------------------------------- */

  method New<T>(values: seq<T>) returns (list: GoList2<T>)
    ensures list.Valid() && list.Linked() && fresh(list) && fresh(list.Nodes)
    ensures list.Contents() == values
  {
    list := new GoList2();
    PushValues(list, values, []);
    list.reverse();
    ListSpec.ReversedInvolution(values);
  }

  method FromSlice<T>(values: seq<T>) returns (list: GoList2<T>)
    ensures list.Valid() && list.Linked() && fresh(list) && fresh(list.Nodes)
    ensures list.Contents() == values
  {
    list := new GoList2();
    PushValues(list, values, []);
    list.reverse();
    ListSpec.ReversedInvolution(values);
  }

  method ToSlice<T>(list: GoList2<T>) returns (result: seq<T>)
    requires list.Valid()
    ensures result == list.Contents()
  {
    result := [];
    var node := list.Head;
    ghost var i := 0;
    while node != null
      invariant 0 <= i <= |list.Nodes|
      invariant node == if i < |list.Nodes| then list.Nodes[i] else null
      invariant result == list.Contents()[..i]
      decreases |list.Nodes| - i
    {
      result := result + [node.data];
      node := node.next;
      i := i + 1;
    }
  }

  /** Converting a slice to a list and back gives the slice. */
  method RoundTrip<T>(values: seq<T>) returns (result: seq<T>)
    ensures result == values
  {
    var list := FromSlice(values);
    result := ToSlice(list);
  }

  /** The same through `New`. */
  method RoundTripNew<T>(values: seq<T>) returns (result: seq<T>)
    ensures result == values
  {
    var list := New(values);
    result := ToSlice(list);
  }

  /* ---------------------------------------------------------------------
   * Queries
   * --------------------------------------------------------------------- */

  method All<T>(list: GoList2<T>, fun: T -> bool) returns (r: bool)
    requires list.Valid()
    ensures r <==> forall k :: 0 <= k < |list.Contents()| ==> fun(list.Contents()[k])
  {
    var node := list.Head;
    ghost var i := 0;
    while node != null
      invariant 0 <= i <= |list.Nodes|
      invariant node == if i < |list.Nodes| then list.Nodes[i] else null
      invariant forall k :: 0 <= k < i ==> fun(list.Contents()[k])
      decreases |list.Nodes| - i
    {
      if !fun(node.data) {
        assert list.Contents()[i] == node.data;
        return false;
      }
      node := node.next;
      i := i + 1;
    }
    return true;
  }

  method Any<T>(list: GoList2<T>, fun: T -> bool) returns (r: bool)
    requires list.Valid()
    ensures r <==> exists k :: 0 <= k < |list.Contents()| && fun(list.Contents()[k])
  {
    var node := list.Head;
    ghost var i := 0;
    while node != null
      invariant 0 <= i <= |list.Nodes|
      invariant node == if i < |list.Nodes| then list.Nodes[i] else null
      invariant forall k :: 0 <= k < i ==> !fun(list.Contents()[k])
      decreases |list.Nodes| - i
    {
      if fun(node.data) {
        assert list.Contents()[i] == node.data;
        return true;
      }
      node := node.next;
      i := i + 1;
    }
    return false;
  }

  method Equal<T(==)>(list1: GoList2<T>, list2: GoList2<T>) returns (r: bool)
    requires list1.Valid() && list2.Valid()
    ensures r <==> list1.Contents() == list2.Contents()
  {
    var node2 := list2.Head;
    var node1 := list1.Head;
    ghost var i := 0;
    while node1 != null
      invariant 0 <= i <= |list1.Nodes| && i <= |list2.Nodes|
      invariant node1 == if i < |list1.Nodes| then list1.Nodes[i] else null
      invariant node2 == if i < |list2.Nodes| then list2.Nodes[i] else null
      invariant list1.Contents()[..i] == list2.Contents()[..i]
      decreases |list1.Nodes| - i
    {
      if node2 == null || node1.data != node2.data {
        assert list1.Contents()[i] == node1.data;
        assert node2 != null ==> list2.Contents()[i] == node2.data;
        return false;
      }
      node2 := node2.next;
      node1 := node1.next;
      i := i + 1;
    }
    if node2 != null {
      return false;
    }
    assert list1.Contents() == list1.Contents()[..i] && list2.Contents() == list2.Contents()[..i];
    return true;
  }

  /** Position of the first element equal to `value`, or -1. */
  method Find<T(==)>(list: GoList2<T>, value: T) returns (r: int)
    requires list.Valid()
    ensures r == ListSpec.IndexOf(list.Contents(), value)
  {
    var i := 0;
    var node := list.Head;
    while node != null
      invariant 0 <= i <= |list.Nodes|
      invariant node == if i < |list.Nodes| then list.Nodes[i] else null
      invariant value !in list.Contents()[..i]
      decreases |list.Nodes| - i
    {
      if node.data == value {
        ListSpec.IndexOfAt(list.Contents(), value, i);
        return i;
      }
      assert list.Contents()[..i + 1] == list.Contents()[..i] + [node.data];
      i := i + 1;
      node := node.next;
    }
    assert list.Contents()[..i] == list.Contents();
    return -1;
  }

  /** The last element, or None for the empty list (Go returns nil). */
  method Last<T>(list: GoList2<T>) returns (r: Option<T>)
    requires list.Valid()
    ensures r.None? <==> list.Contents() == []
    ensures r.Some? ==> r.value == list.Contents()[|list.Contents()| - 1]
  {
    if list.Head == null {
      return None;
    }
    if list.Head.next == null {
      ChainEnd2(list.Head, list.Nodes, 0);
      return Some(list.Head.data);
    }
    var node := list.Head;
    ghost var i := 0;
    while node.next != null
      invariant 0 <= i < |list.Nodes| && node == list.Nodes[i]
      decreases |list.Nodes| - i
    {
      node := node.next;
      i := i + 1;
    }
    ChainEnd2(list.Head, list.Nodes, i);
    return Some(node.data);
  }

  method Len<T>(list: GoList2<T>) returns (len: int)
    requires list.Valid()
    ensures len == |list.Contents()|
  {
    len := 0;
    var node := list.Head;
    while node != null
      invariant 0 <= len <= |list.Nodes|
      invariant node == if len < |list.Nodes| then list.Nodes[len] else null
      decreases |list.Nodes| - len
    {
      len := len + 1;
      node := node.next;
    }
  }

  /** The greatest element, or None for the empty list (Go returns nil). */
  method Max(list: GoList2<int>) returns (r: Option<int>)
    requires list.Valid()
    ensures r.None? <==> list.Contents() == []
    ensures r.Some? ==> r.value in list.Contents()
    ensures r.Some? ==> forall k :: 0 <= k < |list.Contents()| ==> list.Contents()[k] <= r.value
  {
    var node := list.Head;
    var max := node;
    ghost var s := list.Contents();
    ghost var i := 0;
    ghost var m := 0;
    while node != null
      invariant 0 <= i <= |list.Nodes|
      invariant node == if i < |list.Nodes| then list.Nodes[i] else null
      invariant list.Nodes != [] ==> 0 <= m < |list.Nodes| && max == list.Nodes[m] && m <= i
      invariant list.Nodes == [] ==> max == null
      invariant list.Nodes != [] ==> max.data == s[m]
      invariant forall k :: 0 <= k < i ==> s[k] <= s[m]
      decreases |list.Nodes| - i
    {
      if node.data > max.data {
        max := node;
        m := i;
      }
      node := node.next;
      i := i + 1;
    }
    if max == null {
      return None;
    }
    return Some(max.data);
  }

  /** The least element, or None for the empty list (Go returns nil). */
  method Min(list: GoList2<int>) returns (r: Option<int>)
    requires list.Valid()
    ensures r.None? <==> list.Contents() == []
    ensures r.Some? ==> r.value in list.Contents()
    ensures r.Some? ==> forall k :: 0 <= k < |list.Contents()| ==> r.value <= list.Contents()[k]
  {
    var node := list.Head;
    var min := node;
    ghost var s := list.Contents();
    ghost var i := 0;
    ghost var m := 0;
    while node != null
      invariant 0 <= i <= |list.Nodes|
      invariant node == if i < |list.Nodes| then list.Nodes[i] else null
      invariant list.Nodes != [] ==> 0 <= m < |list.Nodes| && min == list.Nodes[m] && m <= i
      invariant list.Nodes == [] ==> min == null
      invariant list.Nodes != [] ==> min.data == s[m]
      invariant forall k :: 0 <= k < i ==> s[m] <= s[k]
      decreases |list.Nodes| - i
    {
      if node.data < min.data {
        min := node;
        m := i;
      }
      node := node.next;
      i := i + 1;
    }
    if min == null {
      return None;
    }
    return Some(min.data);
  }

  method Member<T(==)>(list: GoList2<T>, elem: T) returns (r: bool)
    requires list.Valid()
    ensures r <==> elem in list.Contents()
  {
    var node := list.Head;
    ghost var i := 0;
    while node != null
      invariant 0 <= i <= |list.Nodes|
      invariant node == if i < |list.Nodes| then list.Nodes[i] else null
      invariant elem !in list.Contents()[..i]
      decreases |list.Nodes| - i
    {
      if node.data == elem {
        assert list.Contents()[i] == node.data;
        return true;
      }
      assert list.Contents()[..i + 1] == list.Contents()[..i] + [node.data];
      node := node.next;
      i := i + 1;
    }
    assert list.Contents()[..i] == list.Contents();
    return false;
  }

  /** The element at the normalised index; panics outside [0, len). */
  method Nth<T>(list: GoList2<T>, index: int) returns (r: Result<T>)
    requires list.Valid()
    ensures r == ListSpec.Nth(list.Contents(), index)
  {
    var len := Len(list);
    var index := index;
    if index < 0 {
      index := len + index;
    }
    if index < 0 || index >= len {
      return Panic(ListSpec.NthPanic);
    }
    var node := list.Head;
    for i := 0 to index
      invariant node == list.Nodes[i]
    {
      node := node.next;
    }
    return Ok(node.data);
  }

  /** Whether `list1` is a prefix of `list2`. */
  method Prefix<T(==)>(list1: GoList2<T>, list2: GoList2<T>) returns (r: bool)
    requires list1.Valid() && list2.Valid()
    ensures r <==> ListSpec.IsPrefix(list1.Contents(), list2.Contents())
  {
    var node1 := list1.Head;
    var node2 := list2.Head;
    ghost var i := 0;
    while node1 != null
      invariant 0 <= i <= |list1.Nodes| && i <= |list2.Nodes|
      invariant node1 == if i < |list1.Nodes| then list1.Nodes[i] else null
      invariant node2 == if i < |list2.Nodes| then list2.Nodes[i] else null
      invariant list1.Contents()[..i] == list2.Contents()[..i]
      decreases |list1.Nodes| - i
    {
      if node2 == null || node1.data != node2.data {
        assert list1.Contents()[i] == node1.data;
        assert node2 != null ==> list2.Contents()[i] == node2.data;
        return false;
      }
      node1 := node1.next;
      node2 := node2.next;
      i := i + 1;
    }
    assert list1.Contents() == list1.Contents()[..i];
    return true;
  }

  /** Position and data of the first element `fun` accepts, or (-1, None). */
  method Search<T>(list: GoList2<T>, fun: T -> bool) returns (index: int, found: Option<T>)
    requires list.Valid()
    ensures index == ListSpec.SearchIndex(list.Contents(), fun)
    ensures index == -1 ==> found == None
    ensures 0 <= index ==> found == Some(list.Contents()[index])
  {
    var i := 0;
    var node := list.Head;
    while node != null
      invariant 0 <= i <= |list.Nodes|
      invariant node == if i < |list.Nodes| then list.Nodes[i] else null
      invariant forall k :: 0 <= k < i ==> !fun(list.Contents()[k])
      decreases |list.Nodes| - i
    {
      if fun(node.data) {
        assert list.Contents()[i] == node.data;
        ListSpec.SearchIndexAt(list.Contents(), fun, i);
        return i, Some(node.data);
      }
      i := i + 1;
      node := node.next;
    }
    return -1, None;
  }

  /** Whether `list1` is a suffix of `list2`: the reversed lists are
      compared with `Prefix`. */
  method Suffix<T(==)>(list1: GoList2<T>, list2: GoList2<T>) returns (r: bool)
    requires list1.Valid() && list2.Valid()
    ensures r <==> ListSpec.IsSuffix(list1.Contents(), list2.Contents())
  {
    var reverse1 := Reverse(list1);
    var reverse2 := Reverse(list2);
    r := Prefix(reverse1, reverse2);
    ListSpec.SuffixIsPrefixOfReversed(list1.Contents(), list2.Contents());
  }

  method Sum(list: GoList2<int>) returns (sum: int)
    requires list.Valid()
    ensures sum == ListSpec.Sum(list.Contents())
  {
    sum := 0;
    var node := list.Head;
    ghost var i := 0;
    while node != null
      invariant 0 <= i <= |list.Nodes|
      invariant node == if i < |list.Nodes| then list.Nodes[i] else null
      invariant sum + ListSpec.Sum(list.Contents()[i..]) == ListSpec.Sum(list.Contents())
      decreases |list.Nodes| - i
    {
      assert list.Contents()[i..][1..] == list.Contents()[i + 1..];
      sum := sum + node.data;
      node := node.next;
      i := i + 1;
    }
  }

  /* ---------------------------------------------------------------------
   * Folds and traversal
   * --------------------------------------------------------------------- */

  method Foldl<T, A>(list: GoList2<T>, acc0: A, fun: (T, A) -> A) returns (acc: A)
    requires list.Valid()
    ensures acc == ListSpec.Foldl(list.Contents(), acc0, fun)
  {
    acc := acc0;
    var node := list.Head;
    ghost var i := 0;
    while node != null
      invariant 0 <= i <= |list.Nodes|
      invariant node == if i < |list.Nodes| then list.Nodes[i] else null
      invariant ListSpec.Foldl(list.Contents()[i..], acc, fun) == ListSpec.Foldl(list.Contents(), acc0, fun)
      decreases |list.Nodes| - i
    {
      assert list.Contents()[i..][1..] == list.Contents()[i + 1..];
      acc := fun(node.data, acc);
      node := node.next;
      i := i + 1;
    }
  }

  /** Folds the reversed copy from its head, so `fun` sees the elements from
      the tail of `list` to its head. */
  method Foldr<T, A>(list: GoList2<T>, acc0: A, fun: (T, A) -> A) returns (acc: A)
    requires list.Valid()
    ensures acc == ListSpec.Foldr(list.Contents(), acc0, fun)
  {
    var reverse := Reverse(list);
    acc := acc0;
    var node := reverse.Head;
    ghost var i := 0;
    while node != null
      invariant 0 <= i <= |reverse.Nodes|
      invariant node == if i < |reverse.Nodes| then reverse.Nodes[i] else null
      invariant ListSpec.Foldl(reverse.Contents()[i..], acc, fun) == ListSpec.Foldl(reverse.Contents(), acc0, fun)
      decreases |reverse.Nodes| - i
    {
      assert reverse.Contents()[i..][1..] == reverse.Contents()[i + 1..];
      acc := fun(node.data, acc);
      node := node.next;
      i := i + 1;
    }
    ListSpec.FoldrIsFoldlOfReversed(list.Contents(), acc0, fun);
  }

  /** `fun` is applied to every element from head to tail; with a pure
      `fun` nothing else is observable, so the model returns the arguments
      of those calls in call order. */
  method ForEach<T, U>(list: GoList2<T>, fun: T -> U) returns (calls: seq<T>)
    requires list.Valid()
    ensures calls == list.Contents()
  {
    calls := [];
    var node := list.Head;
    ghost var i := 0;
    while node != null
      invariant 0 <= i <= |list.Nodes|
      invariant node == if i < |list.Nodes| then list.Nodes[i] else null
      invariant calls == list.Contents()[..i]
      decreases |list.Nodes| - i
    {
      var _ := fun(node.data);
      calls := calls + [node.data];
      node := node.next;
      i := i + 1;
    }
  }

  /* ---------------------------------------------------------------------
   * Copying transformations
   * --------------------------------------------------------------------- */

  method Append<T>(list: GoList2<T>, values: seq<T>) returns (result: GoList2<T>)
    requires list.Valid()
    ensures result.Valid() && result.Linked() && fresh(result) && fresh(result.Nodes)
    ensures result.Contents() == list.Contents() + values
  {
    result := new GoList2();
    ghost var s := list.Contents();
    PushRest(result, list, list.Head, 0, []);
    assert [] + s[0..] == s;
    PushValues(result, values, s);
    result.reverse();
    ListSpec.ReversedInvolution(s + values);
  }

  method AppendHead<T>(list: GoList2<T>, values: seq<T>) returns (result: GoList2<T>)
    requires list.Valid()
    ensures result.Valid() && result.Linked() && fresh(result) && fresh(result.Nodes)
    ensures result.Contents() == values + list.Contents()
  {
    result := new GoList2();
    ghost var s := list.Contents();
    PushValues(result, values, []);
    assert [] + values == values;
    PushRest(result, list, list.Head, 0, values);
    assert s[0..] == s;
    result.reverse();
    ListSpec.ReversedInvolution(values + s);
  }

  method Concat<T>(lists: seq<GoList2<T>>) returns (result: GoList2<T>)
    requires forall k :: 0 <= k < |lists| ==> lists[k].Valid()
    ensures result.Valid() && result.Linked() && fresh(result) && fresh(result.Nodes)
    ensures result.Contents() == ListSpec.Flatten(ContentsOf(lists))
  {
    result := new GoList2();
    PushEach(result, lists);
    result.reverse();
    ListSpec.ReversedInvolution(ListSpec.Flatten(ContentsOf(lists)));
  }

  /** The loop of `Concat`: the elements of every list, in order, are pushed
      onto the head of the empty `result`. */
  method PushEach<T>(result: GoList2<T>, lists: seq<GoList2<T>>)
    requires result.Valid() && result.Nodes == []
    requires forall k :: 0 <= k < |lists| ==> lists[k].Valid() && lists[k] != result
    modifies result
    ensures result.Valid() && result.Linked() && fresh(result.Nodes)
    ensures result.Contents() == ListSpec.Reversed(ListSpec.Flatten(ContentsOf(lists)))
  {
    ghost var all := ContentsOf(lists);
    ghost var acc: seq<T> := [];
    for k := 0 to |lists|
      invariant result.Valid() && result.Linked() && fresh(result.Nodes)
      invariant result.Contents() == ListSpec.Reversed(acc)
      invariant acc == ListSpec.Flatten(all[..k])
    {
      var list := lists[k];
      assert list.Valid() && list.Contents() == all[k];
      assert Disjoint(result.Nodes, list.Nodes);
      PushRest(result, list, list.Head, 0, acc);
      assert list.Contents()[0..] == all[k];
      acc := acc + all[k];
      assert all[..k + 1] == all[..k] + [all[k]];
      ListSpec.FlattenSnoc(all[..k], all[k]);
    }
    assert all[..|lists|] == all;
  }

  /** A copy without the first element equal to `value`. */
  method Delete<T(==)>(list: GoList2<T>, value: T) returns (result: GoList2<T>)
    requires list.Valid()
    ensures result.Valid() && result.Linked() && fresh(result) && fresh(result.Nodes)
    ensures result.Contents() == ListSpec.DeleteFirst(list.Contents(), value)
  {
    result := new GoList2();
    if list.Head == null {
      return;
    }
    var node;
    ghost var i, acc;
    node, i, acc := PushUntil(result, list, value);
    PushRestAndReverse(result, list, node, i, acc);
  }

  /** The first loop of `Delete`: elements before the first one equal to
      `value` are pushed onto the head of `result`, and that one is skipped;
      the cursor is left after it. */
  method PushUntil<T(==)>(result: GoList2<T>, list: GoList2<T>, value: T) returns (node: Node2?<T>, ghost i: nat, ghost acc: seq<T>)
    requires list.Valid() && result.Valid() && result.Nodes == [] && result != list
    modifies result
    ensures result.Valid() && result.Linked() && fresh(result.Nodes)
    ensures result.Contents() == ListSpec.Reversed(acc)
    ensures i <= |list.Nodes| && node == if i < |list.Nodes| then list.Nodes[i] else null
    ensures acc + list.Contents()[i..] == ListSpec.DeleteFirst(list.Contents(), value)
  {
    ghost var s := list.Contents();
    acc := [];
    node := list.Head;
    i := 0;
    while node != null
      invariant 0 <= i <= |list.Nodes|
      invariant node == if i < |list.Nodes| then list.Nodes[i] else null
      invariant result.Valid() && result.Linked() && fresh(result.Nodes)
      invariant result.Contents() == ListSpec.Reversed(acc)
      invariant acc == s[..i] && value !in acc
      decreases |list.Nodes| - i
    {
      var next := node.next;
      if node.data != value {
        ListSpec.ReversedSnoc(acc, node.data);
        result.appendHead(node.data);
        acc := acc + [node.data];
        assert acc == s[..i + 1];
        node := next;
        i := i + 1;
      } else {
        ListSpec.DeleteFirstAt(s, value, i);
        node := next;
        i := i + 1;
        break;
      }
    }
    if acc == s {
      ListSpec.DeleteFirstAbsent(s, value);
    }
    assert acc + s[i..] == ListSpec.DeleteFirst(s, value);
  }

  /** Permissive delete by index: a copy without the element at the
      normalised index, or a plain copy when that index is out of range. */
  method DeleteAt<T>(list: GoList2<T>, index: int) returns (result: GoList2<T>)
    requires list.Valid()
    ensures result.Valid() && result.Linked() && fresh(result) && fresh(result.Nodes)
    ensures result.Contents() == ListSpec.DeleteAt(list.Contents(), index)
  {
    result := new GoList2();
    var len := Len(list);
    if list.Head == null {
      return;
    }
    var index := index;
    if index < 0 {
      index := len + index;
    }
    if index < 0 || index >= len {
      PushRestAndReverse(result, list, list.Head, 0, []);
    } else {
      DeleteAtLoop(result, list, index);
    }
  }

  /** The loop of `DeleteAt` for an index in range, and the final reverse. */
  method DeleteAtLoop<T>(result: GoList2<T>, list: GoList2<T>, index: int)
    requires list.Valid() && result.Valid() && result.Nodes == [] && result != list
    requires 0 <= index < |list.Nodes|
    modifies result
    ensures result.Valid() && result.Linked()
    ensures fresh(result.Nodes)
    ensures result.Contents() == ListSpec.DeleteAt(list.Contents(), index)
  {
    ghost var s := list.Contents();
    DeleteAtPushing(result, list, index);
    ListSpec.ReversedIndex(result.Nodes);
    result.reverse();
    ListSpec.ReversedInvolution(ListSpec.DeleteAt(s, index));
  }

  /** The copying loop of `DeleteAt`: every element but the one at `index`
      is pushed onto the head of `result`. */
  method DeleteAtPushing<T>(result: GoList2<T>, list: GoList2<T>, index: int)
    requires list.Valid() && result.Valid() && result.Nodes == [] && result != list
    requires 0 <= index < |list.Nodes|
    modifies result
    ensures result.Valid() && result.Linked() && fresh(result.Nodes)
    ensures result.Contents() == ListSpec.Reversed(ListSpec.DeleteAt(list.Contents(), index))
  {
    ghost var s := list.Contents();
    ghost var acc: seq<T> := [];
    var node := list.Head;
    var i := 0;
    while node != null
      invariant 0 <= i <= |list.Nodes|
      invariant node == if i < |list.Nodes| then list.Nodes[i] else null
      invariant result.Valid() && result.Linked() && fresh(result.Nodes)
      invariant result.Contents() == ListSpec.Reversed(acc)
      invariant acc == ListSpec.DeleteAt(s[..i], index)
      decreases |list.Nodes| - i
    {
      var next := node.next;
      assert ListSpec.DeleteAt(s[..i + 1], index) == if i == index then acc else acc + [node.data] by {
        assert s[..i + 1] == s[..i] + [node.data];
        ListSpec.DeleteAtSnoc(s[..i], node.data, index);
      }
      if i != index {
        ListSpec.ReversedSnoc(acc, node.data);
        result.appendHead(node.data);
        acc := acc + [node.data];
      }
      i := i + 1;
      node := next;
    }
    assert s[..i] == s;
  }

  /** A copy without the last element. The loop looks at `node.Next.Next`
      before `node.Next`, so on a one-element list it follows a nil
      pointer; that panic is the `Panic` result. */
  method DropLast<T>(list: GoList2<T>) returns (r: Result<GoList2<T>>)
    requires list.Valid()
    ensures r.Panic? <==> ListSpec.DropLast(list.Contents()).Panic?
    ensures r.Panic? ==> r.message == ListSpec.NilDereference
    ensures r.Ok? ==> r.value.Valid() && r.value.Linked() && fresh(r.value) && fresh(r.value.Nodes)
    ensures r.Ok? ==> ListSpec.DropLast(list.Contents()) == Ok(r.value.Contents())
  {
    var result := new GoList2();
    var panicked := DropLastPushing(result, list);
    if panicked {
      return Panic(ListSpec.NilDereference);
    }
    result.reverse();
    ListSpec.ReversedInvolution(ListSpec.DropLast(list.Contents()).value);
    return Ok(result);
  }

  /** The loop of `DropLast`: each element whose successor has a successor
      is pushed onto the head of `result`; `panicked` reports the nil
      dereference a one-element list leads to. */
  method DropLastPushing<T>(result: GoList2<T>, list: GoList2<T>) returns (panicked: bool)
    requires list.Valid() && result.Valid() && result.Nodes == [] && result != list
    modifies result
    ensures panicked <==> ListSpec.DropLast(list.Contents()).Panic?
    ensures result.Valid() && result.Linked() && fresh(result.Nodes)
    ensures !panicked ==> result.Contents() == ListSpec.Reversed(ListSpec.DropLast(list.Contents()).value)
  {
    ghost var s := list.Contents();
    ghost var acc: seq<T> := [];
    var node := list.Head;
    ghost var i := 0;
    while node != null
      invariant 0 <= i <= |list.Nodes|
      invariant node == if i < |list.Nodes| then list.Nodes[i] else null
      invariant |s| >= 2 ==> i <= |s| - 2
      invariant |s| == 1 ==> i == 0
      invariant result.Valid() && result.Linked() && fresh(result.Nodes)
      invariant result.Contents() == ListSpec.Reversed(acc)
      invariant acc == s[..i]
      decreases |list.Nodes| - i
    {
      var next := node.next;
      if next == null {
        ChainEnd2(list.Head, list.Nodes, i);
        return true;
      }
      ChainEnd2(list.Head, list.Nodes, i + 1);
      assert s[..i + 1] == s[..i] + [node.data];
      ListSpec.ReversedSnoc(acc, node.data);
      result.appendHead(node.data);
      acc := acc + [node.data];
      if next.next == null {
        break;
      }
      node := next;
      i := i + 1;
    }
    return false;
  }

  /** Drops the elements `fun` accepts up to the first one it rejects. */
  method DropWhile<T>(list: GoList2<T>, fun: T -> bool) returns (result: GoList2<T>)
    requires list.Valid()
    ensures result.Valid() && result.Linked() && fresh(result) && fresh(result.Nodes)
    ensures result.Contents() == ListSpec.DropWhile(list.Contents(), fun)
  {
    result := new GoList2();
    var node;
    ghost var i;
    node, i := SkipWhile(list, fun);
    PushRestAndReverse(result, list, node, i, []);
  }

  /** `n` copies of `elem`; none when `n <= 0`. */
  method Duplicate<T>(n: int, elem: T) returns (result: GoList2<T>)
    ensures result.Valid() && result.Linked() && fresh(result) && fresh(result.Nodes)
    ensures |result.Contents()| == if n > 0 then n else 0
    ensures forall k :: 0 <= k < |result.Contents()| ==> result.Contents()[k] == elem
  {
    result := new GoList2();
    var i := 0;
    while i < n
      invariant 0 <= i && (0 < n ==> i <= n) && (n <= 0 ==> i == 0)
      invariant result.Valid() && result.Linked() && fresh(result) && fresh(result.Nodes)
      invariant |result.Contents()| == i
      invariant forall k :: 0 <= k < i ==> result.Contents()[k] == elem
      decreases n - i
    {
      result.appendHead(elem);
      i := i + 1;
    }
  }

  method Filter<T>(list: GoList2<T>, fun: T -> bool) returns (result: GoList2<T>)
    requires list.Valid()
    ensures result.Valid() && result.Linked() && fresh(result) && fresh(result.Nodes)
    ensures result.Contents() == ListSpec.Filter(list.Contents(), fun)
  {
    result := new GoList2();
    if list.Head == null {
      return;
    }
    ghost var s := list.Contents();
    ghost var acc: seq<T> := [];
    var node := list.Head;
    ghost var i := 0;
    while node != null
      invariant 0 <= i <= |list.Nodes|
      invariant node == if i < |list.Nodes| then list.Nodes[i] else null
      invariant result.Valid() && result.Linked() && fresh(result) && fresh(result.Nodes)
      invariant result.Contents() == ListSpec.Reversed(acc)
      invariant acc == ListSpec.Filter(s[..i], fun)
      decreases |list.Nodes| - i
    {
      assert s[..i + 1] == s[..i] + [node.data];
      ListSpec.FilterSnoc(s[..i], node.data, fun);
      if fun(node.data) {
        ListSpec.ReversedSnoc(acc, node.data);
        result.appendHead(node.data);
        acc := acc + [node.data];
      }
      node := node.next;
      i := i + 1;
    }
    result.reverse();
    ListSpec.ReversedInvolution(acc);
    assert s[..i] == s;
  }

  /** Keeps `value` for every element where `fun` returns `(true, value)`. */
  method FilterMap<T>(list: GoList2<T>, fun: T -> (bool, T)) returns (result: GoList2<T>)
    requires list.Valid()
    ensures result.Valid() && result.Linked() && fresh(result) && fresh(result.Nodes)
    ensures result.Contents() == ListSpec.FilterMap(list.Contents(), fun)
  {
    result := new GoList2();
    if list.Head == null {
      return;
    }
    ghost var s := list.Contents();
    ghost var acc: seq<T> := [];
    var node := list.Head;
    ghost var i := 0;
    while node != null
      invariant 0 <= i <= |list.Nodes|
      invariant node == if i < |list.Nodes| then list.Nodes[i] else null
      invariant result.Valid() && result.Linked() && fresh(result) && fresh(result.Nodes)
      invariant result.Contents() == ListSpec.Reversed(acc)
      invariant acc == ListSpec.FilterMap(s[..i], fun)
      decreases |list.Nodes| - i
    {
      assert s[..i + 1] == s[..i] + [node.data];
      ListSpec.FilterMapSnoc(s[..i], node.data, fun);
      var kv := fun(node.data);
      if kv.0 {
        ListSpec.ReversedSnoc(acc, kv.1);
        result.appendHead(kv.1);
        acc := acc + [kv.1];
      }
      node := node.next;
      i := i + 1;
    }
    result.reverse();
    ListSpec.ReversedInvolution(acc);
    assert s[..i] == s;
  }

  /** Strict insert: panics unless the normalised index is in [0, len];
      index len appends. */
  method InsertAt<T>(list: GoList2<T>, index: int, val: T) returns (r: Result<GoList2<T>>)
    requires list.Valid()
    ensures r.Panic? ==> ListSpec.InsertAt(list.Contents(), index, val) == Panic(r.message)
    ensures r.Ok? ==> ListSpec.InsertAt(list.Contents(), index, val).Ok?
    ensures r.Ok? ==> r.value.Valid() && r.value.Linked() && fresh(r.value) && fresh(r.value.Nodes)
    ensures r.Ok? ==> r.value.Contents() == ListSpec.InsertAt(list.Contents(), index, val).value
  {
    var len := Len(list);
    var index := index;
    if index < 0 {
      index := len + index;
    }
    if index < 0 || index > len {
      return Panic(ListSpec.InsertAtPanic);
    }
    var result := new GoList2();
    if index == len {
      InsertAtEnd(result, list, val);
    } else {
      InsertAtLoop(result, list, index, val);
    }
    return Ok(result);
  }

  /** The `index == len` branch of `InsertAt`: a copy, then `val` pushed
      last, then the reverse. */
  method InsertAtEnd<T>(result: GoList2<T>, list: GoList2<T>, val: T)
    requires list.Valid() && result.Valid() && result.Nodes == [] && result != list
    modifies result
    ensures result.Valid() && result.Linked()
    ensures fresh(result.Nodes)
    ensures result.Contents() == list.Contents() + [val]
  {
    ghost var s := list.Contents();
    PushRest(result, list, list.Head, 0, []);
    assert [] + s[0..] == s;
    ListSpec.ReversedSnoc(s, val);
    result.appendHead(val);
    ListSpec.ReversedIndex(result.Nodes);
    result.reverse();
    ListSpec.ReversedInvolution(s + [val]);
  }

  /** The other branch of `InsertAt`: every element is copied and `val` is
      pushed just before the element at `index`; then the reverse. */
  method InsertAtLoop<T>(result: GoList2<T>, list: GoList2<T>, index: nat, val: T)
    requires list.Valid() && result.Valid() && result.Nodes == [] && result != list
    requires index < |list.Nodes|
    modifies result
    ensures result.Valid() && result.Linked()
    ensures fresh(result.Nodes)
    ensures result.Contents() == list.Contents()[..index] + [val] + list.Contents()[index..]
  {
    ghost var s := list.Contents();
    InsertPushing(result, list, index, val);
    ListSpec.InsertPushedReversed(s, index, val);
    ListSpec.ReversedIndex(result.Nodes);
    result.reverse();
    ListSpec.ReversedInvolution(s[..index] + [val] + s[index..]);
  }

  /** The copying loop of `InsertAt`: every element is pushed onto the head
      of `result`, and `val` just before the element at `index`. */
  method InsertPushing<T>(result: GoList2<T>, list: GoList2<T>, index: nat, val: T)
    requires list.Valid() && result.Valid() && result.Nodes == [] && result != list
    modifies result
    ensures result.Valid() && result.Linked() && fresh(result.Nodes)
    ensures result.Contents() == ListSpec.InsertPushed(list.Contents(), index, val)
  {
    ghost var s := list.Contents();
    var node := list.Head;
    var i := 0;
    while node != null
      invariant 0 <= i <= |list.Nodes|
      invariant node == if i < |list.Nodes| then list.Nodes[i] else null
      invariant result.Valid() && result.Linked() && fresh(result.Nodes)
      invariant result.Contents() == ListSpec.InsertPushed(s[..i], index, val)
      decreases |list.Nodes| - i
    {
      var next := node.next;
      assert s[..i + 1][..i] == s[..i];
      PushInserting(result, i == index, val, node.data);
      i := i + 1;
      node := next;
    }
    assert s[..i] == s;
  }

  /** The body of the loop of `InsertAt`: `val` is pushed first when the
      cursor is at the index, then the element itself. */
  method PushInserting<T>(result: GoList2<T>, here: bool, val: T, x: T)
    requires result.Valid() && result.Linked()
    modifies result, result.Nodes
    ensures result.Valid() && result.Linked()
    ensures result.Contents() == [x] + (if here then [val] else []) + old(result.Contents())
    ensures forall k :: 0 <= k < |result.Nodes| ==> fresh(result.Nodes[k]) || result.Nodes[k] in old(result.Nodes)
  {
    if here {
      result.appendHead(val);
    }
    result.appendHead(x);
  }

  /** `sep` between every two neighbours. */
  method Join<T>(list: GoList2<T>, sep: T) returns (result: GoList2<T>)
    requires list.Valid()
    ensures result.Valid() && result.Linked() && fresh(result) && fresh(result.Nodes)
    ensures result.Contents() == ListSpec.Join(list.Contents(), sep)
  {
    result := new GoList2();
    JoinPushing(result, list, sep);
    ghost var s := list.Contents();
    ListSpec.JoinPushedReversed(s, sep, |s|);
    result.reverse();
    ListSpec.ReversedInvolution(ListSpec.Join(s, sep));
  }

  /** The loop of `Join`: each element, then `sep` when a successor
      follows, pushed onto the head of `result`. */
  method JoinPushing<T>(result: GoList2<T>, list: GoList2<T>, sep: T)
    requires list.Valid() && result.Valid() && result.Nodes == [] && result != list
    modifies result
    ensures result.Valid() && result.Linked() && fresh(result.Nodes)
    ensures result.Contents() == ListSpec.JoinPushed(list.Contents(), sep, |list.Nodes|)
  {
    ghost var s := list.Contents();
    var node := list.Head;
    ghost var i := 0;
    while node != null
      invariant 0 <= i <= |list.Nodes|
      invariant node == if i < |list.Nodes| then list.Nodes[i] else null
      invariant result.Valid() && result.Linked() && fresh(result.Nodes)
      invariant result.Contents() == ListSpec.JoinPushed(s[..i], sep, |s|)
      decreases |list.Nodes| - i
    {
      var next := node.next;
      assert s[..i + 1][..i] == s[..i];
      assert next == if i + 1 < |list.Nodes| then list.Nodes[i + 1] else null;
      PushJoining(result, node.data, next != null, sep);
      node := next;
      i := i + 1;
    }
    assert s[..i] == s;
  }

  /** The body of the loop of `Join`: the element is pushed, then `sep`
      when another element follows. */
  method PushJoining<T>(result: GoList2<T>, x: T, more: bool, sep: T)
    requires result.Valid() && result.Linked()
    modifies result, result.Nodes
    ensures result.Valid() && result.Linked()
    ensures result.Contents() == (if more then [sep] else []) + [x] + old(result.Contents())
    ensures forall k :: 0 <= k < |result.Nodes| ==> fresh(result.Nodes[k]) || result.Nodes[k] in old(result.Nodes)
  {
    result.appendHead(x);
    if more {
      result.appendHead(sep);
    }
  }

  method Map<T>(list: GoList2<T>, fun: T -> T) returns (result: GoList2<T>)
    requires list.Valid()
    ensures result.Valid() && result.Linked() && fresh(result) && fresh(result.Nodes)
    ensures result.Contents() == ListSpec.Map(list.Contents(), fun)
  {
    result := new GoList2();
    ghost var s := list.Contents();
    ghost var acc: seq<T> := [];
    var node := list.Head;
    ghost var i := 0;
    while node != null
      invariant 0 <= i <= |list.Nodes|
      invariant node == if i < |list.Nodes| then list.Nodes[i] else null
      invariant result.Valid() && result.Linked() && fresh(result) && fresh(result.Nodes)
      invariant result.Contents() == ListSpec.Reversed(acc)
      invariant acc == ListSpec.Map(s[..i], fun)
      decreases |list.Nodes| - i
    {
      assert s[..i + 1] == s[..i] + [node.data];
      ListSpec.MapSnoc(s[..i], node.data, fun);
      ListSpec.ReversedSnoc(acc, fun(node.data));
      result.appendHead(fun(node.data));
      acc := acc + [fun(node.data)];
      node := node.next;
      i := i + 1;
    }
    result.reverse();
    ListSpec.ReversedInvolution(acc);
    assert s[..i] == s;
  }

  /** Map and Foldl in one pass from head to tail. */
  method MapFoldl<T, A>(list: GoList2<T>, acc0: A, fun: (T, A) -> (T, A)) returns (result: GoList2<T>, acc: A)
    requires list.Valid()
    ensures result.Valid() && result.Linked() && fresh(result) && fresh(result.Nodes)
    ensures (result.Contents(), acc) == ListSpec.MapFoldl(list.Contents(), acc0, fun)
  {
    var value: T;
    result := new GoList2();
    acc := acc0;
    ghost var s := list.Contents();
    ghost var pushed: seq<T> := [];
    var node := list.Head;
    ghost var i := 0;
    while node != null
      invariant 0 <= i <= |list.Nodes|
      invariant node == if i < |list.Nodes| then list.Nodes[i] else null
      invariant result.Valid() && result.Linked() && fresh(result) && fresh(result.Nodes)
      invariant result.Contents() == ListSpec.Reversed(pushed)
      invariant (pushed, acc) == ListSpec.MapFoldl(s[..i], acc0, fun)
      decreases |list.Nodes| - i
    {
      assert s[..i + 1] == s[..i] + [node.data];
      ListSpec.MapFoldlSnoc(s[..i], node.data, acc0, fun);
      var step := fun(node.data, acc);
      value, acc := step.0, step.1;
      ListSpec.ReversedSnoc(pushed, value);
      result.appendHead(value);
      pushed := pushed + [value];
      node := node.next;
      i := i + 1;
    }
    result.reverse();
    ListSpec.ReversedInvolution(pushed);
    assert s[..i] == s;
  }

  /** Map and Foldr in one pass: walks a reversed copy and pushes every
      mapped value onto the head, so the result is in list order without a
      final reversal. */
  method MapFoldr<T, A>(list: GoList2<T>, acc0: A, fun: (T, A) -> (T, A)) returns (result: GoList2<T>, acc: A)
    requires list.Valid()
    ensures result.Valid() && result.Linked() && fresh(result) && fresh(result.Nodes)
    ensures (result.Contents(), acc) == ListSpec.MapFoldr(list.Contents(), acc0, fun)
  {
    result := new GoList2();
    var reverse := Reverse(list);
    acc := MapFoldrPushing(result, reverse, list.Contents(), acc0, fun);
  }

  /** The loop of `MapFoldr` over the reversed copy: the last element is
      mapped first, with the accumulator threaded from `acc0`, and each
      value is pushed onto the head of `result`. */
  method MapFoldrPushing<T, A>(result: GoList2<T>, reverse: GoList2<T>, ghost s: seq<T>, acc0: A, fun: (T, A) -> (T, A))
    returns (acc: A)
    requires result.Valid() && result.Nodes == [] && reverse.Valid() && result != reverse
    requires reverse.Contents() == ListSpec.Reversed(s)
    modifies result
    ensures result.Valid() && result.Linked()
    ensures fresh(result.Nodes)
    ensures (result.Contents(), acc) == ListSpec.MapFoldr(s, acc0, fun)
  {
    var value: T;
    acc := acc0;
    ListSpec.ReversedIndex(s);
    var node := reverse.Head;
    ghost var i := 0;
    assert s[|s| - i..] == [];
    assert result.Contents() == [];
    assert ListSpec.MapFoldr(s[|s| - i..], acc0, fun) == ([], acc0);
    while node != null
      invariant 0 <= i <= |reverse.Nodes| == |s|
      invariant node == if i < |reverse.Nodes| then reverse.Nodes[i] else null
      invariant result.Valid() && result.Linked() && fresh(result.Nodes)
      invariant fresh(result.Nodes)
      invariant (result.Contents(), acc) == ListSpec.MapFoldr(s[|s| - i..], acc0, fun)
      decreases |reverse.Nodes| - i
    {
      assert node.data == reverse.Contents()[i] == s[|s| - 1 - i];
      assert s[|s| - 1 - i..][1..] == s[|s| - i..];
      var step := fun(node.data, acc);
      value, acc := step.0, step.1;
      result.appendHead(value);
      node := node.next;
      i := i + 1;
    }
    assert s[|s| - i..] == s;
  }

  /** Copy from the normalised index to the end; panics unless that index
      is in [0, len). */
  method NthTail<T>(list: GoList2<T>, index: int) returns (r: Result<GoList2<T>>)
    requires list.Valid()
    ensures r.Panic? ==> ListSpec.NthTail(list.Contents(), index) == Panic(r.message)
    ensures r.Ok? ==> ListSpec.NthTail(list.Contents(), index).Ok?
    ensures r.Ok? ==> r.value.Valid() && r.value.Linked() && fresh(r.value) && fresh(r.value.Nodes)
    ensures r.Ok? ==> r.value.Contents() == ListSpec.NthTail(list.Contents(), index).value
  {
    var len := Len(list);
    var index := index;
    if index < 0 {
      index := len + index;
    }
    if index < 0 || index >= len {
      return Panic(ListSpec.NthTailPanic);
    }
    var result := new GoList2();
    var node := Skip(list, index);
    PushRestAndReverse(result, list, node, index, []);
    return Ok(result);
  }

  /** (elements `fun` accepts, elements it rejects), both in list order. */
  method Partition<T>(list: GoList2<T>, fun: T -> bool) returns (list1: GoList2<T>, list2: GoList2<T>)
    requires list.Valid()
    ensures list1.Valid() && list1.Linked() && fresh(list1) && fresh(list1.Nodes)
    ensures list2.Valid() && list2.Linked() && fresh(list2) && fresh(list2.Nodes)
    ensures (list1.Contents(), list2.Contents()) == ListSpec.Partition(list.Contents(), fun)
  {
    list1, list2 := PartitionReversed(list, fun);
    ghost var p := ListSpec.Partition(list.Contents(), fun);
    ListSpec.PartitionSides(list.Contents(), fun);
    ReversedSides(list1.Nodes, p.0, fun, true);
    ReversedSides(list2.Nodes, p.1, fun, false);
    SeparatedDisjoint2(list1.Nodes, list2.Nodes, fun);
    ListSpec.ReversedInvolution(p.0);
    ListSpec.ReversedInvolution(p.1);
    ReverseBoth(list1, list2);
  }

  /** The loop of `Partition`: each element is pushed onto the head of the
      list it belongs to, so both come out reversed. */
  method PartitionReversed<T>(list: GoList2<T>, fun: T -> bool) returns (list1: GoList2<T>, list2: GoList2<T>)
    requires list.Valid()
    ensures list1.Valid() && list1.Linked() && fresh(list1) && fresh(list1.Nodes)
    ensures list2.Valid() && list2.Linked() && fresh(list2) && fresh(list2.Nodes)
    ensures list1.Contents() == ListSpec.Reversed(ListSpec.Partition(list.Contents(), fun).0)
    ensures list2.Contents() == ListSpec.Reversed(ListSpec.Partition(list.Contents(), fun).1)
  {
    list1 := new GoList2();
    list2 := new GoList2();
    PartitionPushing(list, fun, list1, list2);
    ListSpec.PartitionPushedReversed(list.Contents(), fun);
  }

  /** The loop of `PartitionReversed`: each element goes onto the head of
      `list1` or of `list2`, as `fun` says. */
  method PartitionPushing<T>(list: GoList2<T>, fun: T -> bool, list1: GoList2<T>, list2: GoList2<T>)
    requires list.Valid() && list1.Valid() && list2.Valid()
    requires list1.Nodes == [] && list2.Nodes == []
    requires list1 != list2 && list != list1 && list != list2
    modifies list1, list2
    ensures list1.Valid() && list1.Linked() && fresh(list1.Nodes)
    ensures list2.Valid() && list2.Linked() && fresh(list2.Nodes)
    ensures list1.Contents() == ListSpec.PartitionPushed(list.Contents(), fun, true)
    ensures list2.Contents() == ListSpec.PartitionPushed(list.Contents(), fun, false)
  {
    ghost var s := list.Contents();
    var node := list.Head;
    ghost var i := 0;
    while node != null
      invariant 0 <= i <= |list.Nodes|
      invariant node == if i < |list.Nodes| then list.Nodes[i] else null
      invariant list1.Valid() && list1.Linked() && fresh(list1.Nodes)
      invariant list2.Valid() && list2.Linked() && fresh(list2.Nodes)
      invariant Disjoint(list1.Nodes, list2.Nodes)
      invariant list1.Contents() == ListSpec.PartitionPushed(s[..i], fun, true)
      invariant list2.Contents() == ListSpec.PartitionPushed(s[..i], fun, false)
      decreases |list.Nodes| - i
    {
      var next := node.next;
      var x := node.data;
      assert x == s[i];
      ListSpec.PartitionPushedSnoc(s, i, fun, true);
      ListSpec.PartitionPushedSnoc(s, i, fun, false);
      PushBySide(list1, list2, fun, x);
      node := next;
      i := i + 1;
    }
    assert s[..i] == s;
  }

  /** The body of the loop of `Partition`: `x` goes onto the head of `list1`
      when `fun` accepts it and onto the head of `list2` otherwise. */
  method PushBySide<T>(list1: GoList2<T>, list2: GoList2<T>, fun: T -> bool, x: T)
    requires list1.Valid() && list1.Linked() && list2.Valid() && list2.Linked() && list1 != list2
    requires Disjoint(list1.Nodes, list2.Nodes)
    modifies list1, list1.Nodes, list2, list2.Nodes
    ensures list1.Valid() && list1.Linked() && list2.Valid() && list2.Linked()
    ensures Disjoint(list1.Nodes, list2.Nodes)
    ensures list1.Contents() == (if fun(x) then [x] else []) + old(list1.Contents())
    ensures list2.Contents() == (if fun(x) then [] else [x]) + old(list2.Contents())
    ensures fun(x) ==> fresh(list1.Head) && list1.Nodes == [list1.Head] + old(list1.Nodes) && list2.Nodes == old(list2.Nodes)
    ensures !fun(x) ==> fresh(list2.Head) && list2.Nodes == [list2.Head] + old(list2.Nodes) && list1.Nodes == old(list1.Nodes)
  {
    if fun(x) {
      list1.appendHead(x);
    } else {
      list2.appendHead(x);
    }
  }

  /** A chain holding a sequence backwards holds only what that sequence
      holds: here, data on one side of a predicate. */
  lemma ReversedSides<T>(nodes: seq<Node2<T>>, part: seq<T>, f: T -> bool, side: bool)
    requires Values2(nodes) == ListSpec.Reversed(part)
    requires forall k :: 0 <= k < |part| ==> f(part[k]) == side
    ensures forall k :: 0 <= k < |nodes| ==> f(nodes[k].data) == side
  {
    forall k | 0 <= k < |nodes|
      ensures f(nodes[k].data) == side
    {
      assert nodes[k].data == Values2(nodes)[k];
      assert ListSpec.Reversed(part)[k] == part[|part| - 1 - k];
    }
  }

  /** Permissive replace: `val` at the normalised index, a plain copy when
      that index is out of range. */
  method ReplaceAt<T>(list: GoList2<T>, index: int, val: T) returns (result: GoList2<T>)
    requires list.Valid()
    ensures result.Valid() && result.Linked() && fresh(result) && fresh(result.Nodes)
    ensures result.Contents() == ListSpec.ReplaceAt(list.Contents(), index, val)
  {
    ghost var target := ListSpec.ReplaceAt(list.Contents(), index, val);
    var len := Len(list);
    var index := index;
    if index < 0 {
      index := len + index;
    }
    result := new GoList2();
    ReplacePushing(result, list, index, val);
    result.reverse();
    ListSpec.ReversedInvolution(target);
  }

  /** The copying loop of `ReplaceAt`, at an index already normalised:
      each element is pushed onto the head of `result`, `val` in place of
      the one at `index`. */
  method ReplacePushing<T>(result: GoList2<T>, list: GoList2<T>, index: int, val: T)
    requires list.Valid() && result.Valid() && result.Nodes == [] && result != list
    modifies result
    ensures result.Valid() && result.Linked() && fresh(result.Nodes)
    ensures result.Contents() == ListSpec.Reversed(if 0 <= index < |list.Nodes| then list.Contents()[index := val] else list.Contents())
  {
    ghost var s := list.Contents();
    ghost var acc: seq<T> := [];
    var i := 0;
    var node := list.Head;
    while node != null
      invariant 0 <= i <= |list.Nodes|
      invariant node == if i < |list.Nodes| then list.Nodes[i] else null
      invariant result.Valid() && result.Linked() && fresh(result.Nodes)
      invariant result.Contents() == ListSpec.Reversed(acc)
      invariant |acc| == i
      invariant forall k :: 0 <= k < i ==> acc[k] == if k == index then val else s[k]
      decreases |list.Nodes| - i
    {
      var value := if i == index then val else node.data;
      ListSpec.ReversedSnoc(acc, value);
      result.appendHead(value);
      acc := acc + [value];
      i := i + 1;
      node := node.next;
    }
    assert acc == if 0 <= index < |list.Nodes| then s[index := val] else s;
  }

  /** Permissive update: `fun` applied at the normalised index, a plain copy
      when that index is out of range. */
  method UpdateAt<T>(list: GoList2<T>, index: int, fun: T -> T) returns (result: GoList2<T>)
    requires list.Valid()
    ensures result.Valid() && result.Linked() && fresh(result) && fresh(result.Nodes)
    ensures result.Contents() == ListSpec.UpdateAt(list.Contents(), index, fun)
  {
    ghost var target := ListSpec.UpdateAt(list.Contents(), index, fun);
    var len := Len(list);
    var index := index;
    if index < 0 {
      index := len + index;
    }
    result := new GoList2();
    UpdatePushing(result, list, index, fun);
    result.reverse();
    ListSpec.ReversedInvolution(target);
  }

  /** The copying loop of `UpdateAt`, at an index already normalised:
      each element is pushed onto the head of `result`, passed through
      `fun` at `index`. */
  method UpdatePushing<T>(result: GoList2<T>, list: GoList2<T>, index: int, fun: T -> T)
    requires list.Valid() && result.Valid() && result.Nodes == [] && result != list
    modifies result
    ensures result.Valid() && result.Linked() && fresh(result.Nodes)
    ensures result.Contents() == ListSpec.Reversed(if 0 <= index < |list.Nodes| then list.Contents()[index := fun(list.Contents()[index])] else list.Contents())
  {
    ghost var s := list.Contents();
    ghost var acc: seq<T> := [];
    var i := 0;
    var node := list.Head;
    while node != null
      invariant 0 <= i <= |list.Nodes|
      invariant node == if i < |list.Nodes| then list.Nodes[i] else null
      invariant result.Valid() && result.Linked() && fresh(result.Nodes)
      invariant result.Contents() == ListSpec.Reversed(acc)
      invariant |acc| == i
      invariant forall k :: 0 <= k < i ==> acc[k] == if k == index then fun(s[k]) else s[k]
      decreases |list.Nodes| - i
    {
      var value := if i == index then fun(node.data) else node.data;
      ListSpec.ReversedSnoc(acc, value);
      result.appendHead(value);
      acc := acc + [value];
      i := i + 1;
      node := node.next;
    }
    assert acc == if 0 <= index < |list.Nodes| then s[index := fun(s[index])] else s;
  }

  /** A reversed copy, built node by node in front of the previous head;
      the input chain is only read. The new nodes' `Prev` stay nil, so
      only the `Next` chain of the result is specified. */
  method Reverse<T>(list: GoList2<T>) returns (result: GoList2<T>)
    requires list.Valid()
    ensures result.Valid() && fresh(result) && fresh(result.Nodes)
    ensures result.Contents() == ListSpec.Reversed(list.Contents())
  {
    ghost var s := list.Contents();
    var head: Node2?<T> := null;
    ghost var built: seq<Node2<T>> := [];
    var curr := list.Head;
    ghost var i := 0;
    while curr != null
      invariant 0 <= i <= |list.Nodes|
      invariant curr == if i < |list.Nodes| then list.Nodes[i] else null
      invariant IsChain2(head, built) && fresh(built)
      invariant Values2(built) == ListSpec.Reversed(s[..i])
      decreases |list.Nodes| - i
    {
      var node := new Node2(null, curr.data, head);
      head := node;
      assert s[..i + 1] == s[..i] + [curr.data];
      ListSpec.ReversedSnoc(s[..i], curr.data);
      built := [node] + built;
      curr := curr.next;
      i := i + 1;
    }
    assert s[..i] == s;
    result := new GoList2();
    result.Head := head;
    result.Nodes := built;
  }

  /** from, from + incr, ... up to `to`. When `from > to` the loop body
      never runs, whatever `incr`; otherwise Go loops forever for
      `incr <= 0`. */
  method Seq(from: int, to: int, incr: int) returns (result: GoList2<int>)
    requires incr > 0 || from > to
    ensures result.Valid() && result.Linked() && fresh(result) && fresh(result.Nodes)
    ensures result.Contents() == ListSpec.Progression(from, to, incr)
  {
    result := new GoList2();
    SeqPushing(result, from, to, incr);
    result.reverse();
    ListSpec.ReversedInvolution(ListSpec.Progression(from, to, incr));
  }

  /** The loop of `Seq`: from, from + incr, ... up to `to` pushed onto the
      head of `result`. */
  method SeqPushing(result: GoList2<int>, from: int, to: int, incr: int)
    requires incr > 0 || from > to
    requires result.Valid() && result.Nodes == []
    modifies result
    ensures result.Valid() && result.Linked() && fresh(result.Nodes)
    ensures result.Contents() == ListSpec.Reversed(ListSpec.Progression(from, to, incr))
  {
    ghost var acc: seq<int> := [];
    var i := from;
    assert acc + ListSpec.Progression(i, to, incr) == ListSpec.Progression(from, to, incr);
    while i <= to
      invariant result.Valid() && result.Linked() && fresh(result.Nodes)
      invariant result.Contents() == ListSpec.Reversed(acc)
      invariant incr > 0 || i > to
      invariant acc + ListSpec.Progression(i, to, incr) == ListSpec.Progression(from, to, incr)
      decreases if i <= to then to - i + 1 else 0
    {
      ListSpec.ProgressionStep(acc, i, to, incr);
      ListSpec.ReversedSnoc(acc, i);
      result.appendHead(i);
      acc := acc + [i];
      i := i + incr;
    }
  }

  /** Strict split: the first n elements and the rest; panics unless the
      normalised n is in [0, len). */
  method Split<T>(list: GoList2<T>, n: int) returns (r: Result<(GoList2<T>, GoList2<T>)>)
    requires list.Valid()
    ensures r.Panic? ==> ListSpec.Split(list.Contents(), n) == Panic(r.message)
    ensures r.Ok? ==> ListSpec.Split(list.Contents(), n).Ok?
    ensures r.Ok? ==> r.value.0.Valid() && r.value.0.Linked() && fresh(r.value.0) && fresh(r.value.0.Nodes)
    ensures r.Ok? ==> r.value.1.Valid() && r.value.1.Linked() && fresh(r.value.1) && fresh(r.value.1.Nodes)
    ensures r.Ok? ==> (r.value.0.Contents(), r.value.1.Contents()) == ListSpec.Split(list.Contents(), n).value
  {
    var len := Len(list);
    var n := n;
    if n < 0 {
      n := len + n;
    }
    if n < 0 || n >= len {
      return Panic(ListSpec.SplitPanic);
    }
    var list1, list2 := SplitAt(list, n);
    return Ok((list1, list2));
  }

  /** The two loops of `Split` once `n` is known to be in range: the first
      `n` elements are pushed onto `list1`, the rest onto `list2`, and both
      are reversed (the two chains share no node, so reversing `list1`
      before `list2` is built gives the same pair). */
  method SplitAt<T>(list: GoList2<T>, n: nat) returns (list1: GoList2<T>, list2: GoList2<T>)
    requires list.Valid() && n <= |list.Nodes|
    ensures list1.Valid() && list1.Linked() && fresh(list1) && list2.Valid() && list2.Linked() && fresh(list2)
    ensures fresh(list1.Nodes) && fresh(list2.Nodes)
    ensures list1.Contents() == list.Contents()[..n] && list2.Contents() == list.Contents()[n..]
  {
    ghost var s := list.Contents();
    var node;
    ghost var end;
    list1, node, end := CopyUpTo(list, list.Head, 0, n);
    assert s[0..end] == s[..n];
    list2 := new GoList2();
    PushRestAndReverse(list2, list, node, n, []);
    assert [] + s[n..] == s[n..];
  }

  /** The counting loops of `SplitAt` and `Sublist` and their reverse: a
      new list holding at most `count` elements from position `i` on, and
      the cursor left after them. */
  method CopyUpTo<T>(list: GoList2<T>, node: Node2?<T>, ghost i: nat, count: int) returns (result: GoList2<T>, rest: Node2?<T>, ghost end: nat)
    requires list.Valid() && 0 <= count
    requires i <= |list.Nodes| && node == if i < |list.Nodes| then list.Nodes[i] else null
    ensures end == if i + count <= |list.Nodes| then i + count else |list.Nodes|
    ensures rest == if end < |list.Nodes| then list.Nodes[end] else null
    ensures result.Valid() && result.Linked() && fresh(result) && fresh(result.Nodes)
    ensures result.Contents() == list.Contents()[i..end]
  {
    result := new GoList2();
    rest, end := PushUpTo(result, list, node, i, count);
    result.reverse();
    ListSpec.ReversedInvolution(list.Contents()[i..end]);
  }

  /** (TakeWhile, DropWhile) in one pass. */
  method SplitWith<T>(list: GoList2<T>, fun: T -> bool) returns (list1: GoList2<T>, list2: GoList2<T>)
    requires list.Valid()
    ensures list1.Valid() && list1.Linked() && fresh(list1) && fresh(list1.Nodes)
    ensures list2.Valid() && list2.Linked() && fresh(list2) && fresh(list2.Nodes)
    ensures list1.Contents() == ListSpec.TakeWhile(list.Contents(), fun)
    ensures list2.Contents() == ListSpec.DropWhile(list.Contents(), fun)
  {
    var node;
    ghost var i;
    list1, node, i := CopyWhile(list, fun);
    list2 := new GoList2();
    PushRestAndReverse(list2, list, node, i, []);
    assert [] + list.Contents()[i..] == list.Contents()[i..];
  }

  /** At most `len` elements from the normalised start; panics on a
      negative `len` (checked first) and on a start outside [0, len). */
  method Sublist<T>(list: GoList2<T>, start: int, len: int) returns (r: Result<GoList2<T>>)
    requires list.Valid()
    ensures r.Panic? ==> ListSpec.Sublist(list.Contents(), start, len) == Panic(r.message)
    ensures r.Ok? ==> ListSpec.Sublist(list.Contents(), start, len).Ok?
    ensures r.Ok? ==> r.value.Valid() && r.value.Linked() && fresh(r.value) && fresh(r.value.Nodes)
    ensures r.Ok? ==> r.value.Contents() == ListSpec.Sublist(list.Contents(), start, len).value
  {
    if len < 0 {
      return Panic(ListSpec.SublistLenPanic);
    }
    var listLen := Len(list);
    var start := start;
    if start < 0 {
      start := listLen + start;
    }
    if start < 0 || start >= listLen {
      return Panic(ListSpec.SublistStartPanic);
    }
    var node := Skip(list, start);
    var result;
    ghost var end;
    result, node, end := CopyUpTo(list, node, start, len);
    return Ok(result);
  }

  /** Unlinking `ns[j + 1]` from a chain leaves the chain without it. */
  lemma ChainAfterUnlink<T>(head: Node2<T>, ns: seq<Node2<T>>, j: nat)
    requires j + 1 < |ns| && head == ns[0]
    requires ns[j].next == if j + 2 < |ns| then ns[j + 2] else null
    requires forall k :: 0 <= k < |ns| - 1 && k != j ==> ns[k].next == ns[k + 1]
    requires ns[|ns| - 1].next == null
    ensures IsChain2(head, ns[..j + 1] + ns[j + 2..])
  {
    var ms := ns[..j + 1] + ns[j + 2..];
    forall k | 0 <= k < |ms| - 1 ensures ms[k].next == ms[k + 1] {
      if k < j {
        assert ms[k] == ns[k] && ms[k + 1] == ns[k + 1];
      } else if k == j {
        assert ms[k] == ns[j] && ms[k + 1] == ns[j + 2];
      } else {
        assert ms[k] == ns[k + 1] && ms[k + 1] == ns[k + 2];
      }
    }
  }

  /** A copy of `list1` from which, for each element of `list2` in turn,
      the first equal element is unlinked in place. Go reads
      `result.Head.Data` for every element of `list2`, so a non-empty
      `list1` must not run out before `list2` does. Unlinking rewrites
      only `Next`, so only the `Next` chain of the result is specified. */
  method Subtract<T(==)>(list1: GoList2<T>, list2: GoList2<T>) returns (result: GoList2<T>)
    requires list1.Valid() && list2.Valid()
    requires list1.Contents() == [] || ListSpec.SubtractDefined(list1.Contents(), list2.Contents())
    ensures result.Valid() && fresh(result) && fresh(result.Nodes)
    ensures result.Contents() == ListSpec.Subtract(list1.Contents(), list2.Contents())
  {
    result := new GoList2();
    ghost var s := list1.Contents();
    ghost var t := list2.Contents();
    if list1.Head == null {
      ListSpec.SubtractEmpty(t);
      return;
    }
    PushRestAndReverse(result, list1, list1.Head, 0, []);
    assert [] + s[0..] == s;
    DeleteEach(result, list2);
  }

  /** The outer loop of `Subtract`: for each value of `list2`, in order, the
      first node of `result` holding it is unlinked. */
  method DeleteEach<T(==)>(result: GoList2<T>, list2: GoList2<T>)
    requires result.Valid() && list2.Valid() && result != list2
    requires Disjoint(result.Nodes, list2.Nodes)
    requires ListSpec.SubtractDefined(result.Contents(), list2.Contents())
    modifies result, result.Nodes
    ensures result.Valid()
    ensures forall k :: 0 <= k < |result.Nodes| ==> result.Nodes[k] in old(result.Nodes)
    ensures result.Contents() == ListSpec.Subtract(old(result.Contents()), list2.Contents())
  {
    ghost var ns := result.Nodes;
    ghost var s := result.Contents();
    ghost var t := list2.Contents();
    var node2 := list2.Head;
    ghost var i := 0;
    while node2 != null
      invariant 0 <= i <= |list2.Nodes|
      invariant node2 == if i < |list2.Nodes| then list2.Nodes[i] else null
      invariant result.Valid()
      invariant forall k :: 0 <= k < |result.Nodes| ==> result.Nodes[k] in ns
      invariant ListSpec.Subtract(result.Contents(), t[i..]) == ListSpec.Subtract(s, t)
      invariant ListSpec.SubtractDefined(result.Contents(), t[i..])
      decreases |list2.Nodes| - i
    {
      var next := node2.next;
      assert t[i..][0] == node2.data && t[i..][1..] == t[i + 1..];
      ListSpec.SubtractStep(result.Contents(), t[i..]);
      DeleteFirstNode(result, node2.data);
      node2 := next;
      i := i + 1;
    }
  }

  /** The body of the outer loop of `Subtract`: the first node of `result`
      holding `v` is unlinked, either by moving the head or by pointing its
      predecessor past it; nothing changes when no node holds `v`. */
  method DeleteFirstNode<T(==)>(result: GoList2<T>, v: T)
    requires result.Valid() && result.Nodes != []
    modifies result, result.Nodes
    ensures result.Valid()
    ensures forall k :: 0 <= k < |result.Nodes| ==> result.Nodes[k] in old(result.Nodes)
    ensures result.Contents() == ListSpec.DeleteFirst(old(result.Contents()), v)
  {
    if result.Head.data == v {
      result.Head := result.Head.next;
      result.Nodes := result.Nodes[1..];
      assert result.Contents() == old(result.Contents())[1..];
      return;
    }
    UnlinkFirstAfterHead(result, v);
  }

  /** The inner loop of `Subtract`, once the head is known not to hold `v`:
      `node3` walks the chain and the first successor holding `v` is
      unlinked from it. */
  method UnlinkFirstAfterHead<T(==)>(result: GoList2<T>, v: T)
    requires result.Valid() && result.Nodes != [] && result.Head.data != v
    modifies result, result.Nodes
    ensures result.Valid()
    ensures forall k :: 0 <= k < |result.Nodes| ==> result.Nodes[k] in old(result.Nodes)
    ensures result.Contents() == ListSpec.DeleteFirst(old(result.Contents()), v)
  {
    ghost var c := result.Contents();
    ghost var ns := result.Nodes;
    var node3 := result.Head;
    ghost var j := 0;
    ghost var deleted := false;
    while node3.next != null
      invariant 0 <= j < |ns| && node3 == ns[j]
      invariant result.Valid() && result.Nodes == ns
      invariant v !in c[..j + 1]
      invariant !deleted
      decreases |ns| - j
    {
      if node3.next.data == v {
        ChainDistinct2(result.Head, ns);
        node3.next := node3.next.next;
        ChainAfterUnlink(result.Head, ns, j);
        result.Nodes := ns[..j + 1] + ns[j + 2..];
        ListSpec.DeleteFirstAt(c, v, j + 1);
        assert result.Contents() == c[..j + 1] + c[j + 2..];
        deleted := true;
        break;
      }
      assert c[..j + 2] == c[..j + 1] + [c[j + 1]];
      node3 := node3.next;
      j := j + 1;
    }
    if !deleted {
      ChainEnd2(result.Head, ns, j);
      assert c[..j + 1] == c;
      ListSpec.DeleteFirstAbsent(c, v);
    }
  }

  method TakeWhile<T>(list: GoList2<T>, fun: T -> bool) returns (result: GoList2<T>)
    requires list.Valid()
    ensures result.Valid() && result.Linked() && fresh(result) && fresh(result.Nodes)
    ensures result.Contents() == ListSpec.TakeWhile(list.Contents(), fun)
  {
    var node;
    ghost var i;
    result, node, i := CopyWhile(list, fun);
  }

  /** The loop of `TakeWhile` and `SplitWith` and the reverse of what it
      built: a new list holding the accepted prefix, and the cursor left on
      the first rejected element. */
  method CopyWhile<T>(list: GoList2<T>, fun: T -> bool) returns (result: GoList2<T>, node: Node2?<T>, ghost i: nat)
    requires list.Valid()
    ensures result.Valid() && result.Linked() && fresh(result) && fresh(result.Nodes)
    ensures result.Contents() == ListSpec.TakeWhile(list.Contents(), fun)
    ensures i <= |list.Nodes| && node == if i < |list.Nodes| then list.Nodes[i] else null
    ensures ListSpec.DropWhile(list.Contents(), fun) == list.Contents()[i..]
  {
    result := new GoList2();
    node, i := PushWhile(result, list, fun);
    result.reverse();
    ListSpec.ReversedInvolution(ListSpec.TakeWhile(list.Contents(), fun));
  }

  /** Three distinct lists that share no node. */
  ghost predicate Apart<T>(a: GoList2<T>, b: GoList2<T>, c: GoList2<T>)
    reads a, b, c
  {
    && a != b && a != c && b != c
    && Disjoint(a.Nodes, b.Nodes) && Disjoint(a.Nodes, c.Nodes) && Disjoint(b.Nodes, c.Nodes)
  }

  /** `list` is unchanged or has one new node in front. */
  twostate predicate Grown<T>(list: GoList2<T>)
    reads list
  {
    || list.Nodes == old(list.Nodes)
    || (fresh(list.Head) && list.Nodes == [list.Head] + old(list.Nodes))
  }

  /* ---------------------------------------------------------------------
   * Sorting
   * --------------------------------------------------------------------- */

  /** `quickSort`: partitions around the head's data into three buckets
      filled by `appendHead`, sorts the outer buckets recursively and
      concatenates. A list of at most one element is returned as it is,
      not copied. */
  method quickSort(list: GoList2<int>) returns (result: GoList2<int>)
    requires list.Valid()
    ensures result.Valid()
    ensures result == list || (fresh(result) && fresh(result.Nodes) && result.Linked())
    ensures result.Contents() == SortSpec.QuickSort(list.Contents())
    decreases |list.Nodes|
  {
    if list.Head != null {
      ChainEnd2(list.Head, list.Nodes, 0);
    }
    if list.Head == null || list.Head.next == null {
      return list;
    }
    ghost var s := list.Contents();
    var pivot := list.Head.data;
    assert pivot == s[0];
    var less, equal, greater := PartitionAround(list, pivot);
    SortSpec.BucketPushedReversed(s, pivot, SortSpec.Less);
    SortSpec.BucketPushedReversed(s, pivot, SortSpec.Equal);
    SortSpec.BucketPushedReversed(s, pivot, SortSpec.Greater);
    SortSpec.BucketsShrink(s);
    var sortedLess := quickSort(less);
    var sortedGreater := quickSort(greater);
    result := ConcatThree(sortedLess, equal, sortedGreater);
    SortSpec.QuickSortUnfold(s);
  }

  /** `Concat(sortedLess, equal, sortedGreater)`, the last step of both
      quicksorts. */
  method ConcatThree<T>(a: GoList2<T>, b: GoList2<T>, c: GoList2<T>) returns (result: GoList2<T>)
    requires a.Valid() && b.Valid() && c.Valid()
    ensures result.Valid() && result.Linked() && fresh(result) && fresh(result.Nodes)
    ensures result.Contents() == a.Contents() + b.Contents() + c.Contents()
  {
    var parts := [a, b, c];
    result := Concat(parts);
    assert ContentsOf(parts) == [a.Contents(), b.Contents(), c.Contents()];
    ListSpec.FlattenThree(a.Contents(), b.Contents(), c.Contents());
  }

  /** The partitioning loop of `quickSort`: each element is pushed onto the
      head of the bucket its comparison with the pivot selects. */
  method PartitionAround(list: GoList2<int>, pivot: int) returns (less: GoList2<int>, equal: GoList2<int>, greater: GoList2<int>)
    requires list.Valid()
    ensures less.Valid() && equal.Valid() && greater.Valid()
    ensures less.Contents() == SortSpec.BucketPushed(list.Contents(), pivot, SortSpec.Less)
    ensures equal.Contents() == SortSpec.BucketPushed(list.Contents(), pivot, SortSpec.Equal)
    ensures greater.Contents() == SortSpec.BucketPushed(list.Contents(), pivot, SortSpec.Greater)
  {
    less := new GoList2();
    equal := new GoList2();
    greater := new GoList2();
    PartitionInto(list, pivot, less, equal, greater);
  }

  /** The loop of `quickSort`: every element of `list` is pushed onto the
      bucket its comparison with the pivot selects. */
  method PartitionInto(list: GoList2<int>, pivot: int, less: GoList2<int>, equal: GoList2<int>, greater: GoList2<int>)
    requires list.Valid() && less.Valid() && equal.Valid() && greater.Valid()
    requires less.Nodes == [] && equal.Nodes == [] && greater.Nodes == []
    requires less != equal && less != greater && equal != greater
    requires list != less && list != equal && list != greater
    modifies less, equal, greater
    ensures less.Valid() && equal.Valid() && greater.Valid()
    ensures less.Contents() == SortSpec.BucketPushed(list.Contents(), pivot, SortSpec.Less)
    ensures equal.Contents() == SortSpec.BucketPushed(list.Contents(), pivot, SortSpec.Equal)
    ensures greater.Contents() == SortSpec.BucketPushed(list.Contents(), pivot, SortSpec.Greater)
  {
    ghost var s := list.Contents();
    var node := list.Head;
    ghost var i := 0;
    while node != null
      invariant 0 <= i <= |list.Nodes|
      invariant node == if i < |list.Nodes| then list.Nodes[i] else null
      invariant less.Valid() && equal.Valid() && greater.Valid()
      invariant Apart(less, equal, greater)
      invariant fresh(less.Nodes) && fresh(equal.Nodes) && fresh(greater.Nodes)
      invariant less.Contents() == SortSpec.BucketPushed(s[..i], pivot, SortSpec.Less)
      invariant equal.Contents() == SortSpec.BucketPushed(s[..i], pivot, SortSpec.Equal)
      invariant greater.Contents() == SortSpec.BucketPushed(s[..i], pivot, SortSpec.Greater)
      decreases |list.Nodes| - i
    {
      var next := node.next;
      var x := node.data;
      assert x == s[i];
      SortSpec.BucketPushedSnoc(s, i, pivot, SortSpec.Less);
      SortSpec.BucketPushedSnoc(s, i, pivot, SortSpec.Equal);
      SortSpec.BucketPushedSnoc(s, i, pivot, SortSpec.Greater);
      PushByOrder(less, equal, greater, pivot, x);
      node := next;
      i := i + 1;
    }
    assert s[..i] == s;
  }

  /** The `switch` of the partitioning loops: `x` is pushed onto the head
      of the bucket its comparison with the pivot selects. */
  method PushByOrder(less: GoList2<int>, equal: GoList2<int>, greater: GoList2<int>, pivot: int, x: int)
    requires less.Valid() && equal.Valid() && greater.Valid()
    requires Apart(less, equal, greater)
    modifies less, less.Nodes, equal, equal.Nodes, greater, greater.Nodes
    ensures less.Valid() && equal.Valid() && greater.Valid()
    ensures Apart(less, equal, greater)
    ensures Grown(less) && Grown(equal) && Grown(greater)
    ensures less.Contents() == (if SortSpec.Compare(x, pivot) == SortSpec.Less then [x] else []) + old(less.Contents())
    ensures equal.Contents() == (if SortSpec.Compare(x, pivot) == SortSpec.Equal then [x] else []) + old(equal.Contents())
    ensures greater.Contents() == (if SortSpec.Compare(x, pivot) == SortSpec.Greater then [x] else []) + old(greater.Contents())
  {
    if x < pivot {
      less.appendHead(x);
    } else if x == pivot {
      equal.appendHead(x);
    } else if x > pivot {
      greater.appendHead(x);
    }
  }

  /** The body of the partitioning loop of `uniqueQuickSort`, after the
      elements `p`: a value already in `seen` is skipped; otherwise it is
      recorded and pushed onto the head of its bucket. */
  method PushUnseen(less: GoList2<int>, equal: GoList2<int>, greater: GoList2<int>, pivot: int,
                    ghost p: seq<int>, x: int, seen: set<int>)
    returns (seen': set<int>)
    requires less.Valid() && equal.Valid() && greater.Valid()
    requires Apart(less, equal, greater)
    requires forall y :: y in seen <==> y in p
    requires less.Contents() == SortSpec.UBucketPushed(p, pivot, SortSpec.Less)
    requires equal.Contents() == SortSpec.UBucketPushed(p, pivot, SortSpec.Equal)
    requires greater.Contents() == SortSpec.UBucketPushed(p, pivot, SortSpec.Greater)
    modifies less, less.Nodes, equal, equal.Nodes, greater, greater.Nodes
    ensures forall y :: y in seen' <==> y in p + [x]
    ensures less.Valid() && equal.Valid() && greater.Valid()
    ensures Apart(less, equal, greater)
    ensures Grown(less) && Grown(equal) && Grown(greater)
    ensures less.Contents() == SortSpec.UBucketPushed(p + [x], pivot, SortSpec.Less)
    ensures equal.Contents() == SortSpec.UBucketPushed(p + [x], pivot, SortSpec.Equal)
    ensures greater.Contents() == SortSpec.UBucketPushed(p + [x], pivot, SortSpec.Greater)
  {
    assert (p + [x])[..|p|] == p;
    if x in seen {
      return seen;
    }
    seen' := seen + {x};
    PushByOrder(less, equal, greater, pivot, x);
  }

  /** `uniqueQuickSort`: as `quickSort`, but an element whose value was
      already seen in this partition pass is skipped. */
  method uniqueQuickSort(list: GoList2<int>) returns (result: GoList2<int>)
    requires list.Valid()
    ensures result.Valid()
    ensures result == list || (fresh(result) && fresh(result.Nodes) && result.Linked())
    ensures result.Contents() == SortSpec.UniqueQuickSort(list.Contents())
    decreases |list.Nodes|
  {
    if list.Head != null {
      ChainEnd2(list.Head, list.Nodes, 0);
    }
    if list.Head == null || list.Head.next == null {
      return list;
    }
    ghost var s := list.Contents();
    var pivot := list.Head.data;
    assert pivot == s[0];
    var less, equal, greater := UniquePartitionAround(list, pivot);
    SortSpec.UBucketPushedReversed(s, pivot, SortSpec.Less);
    SortSpec.UBucketPushedReversed(s, pivot, SortSpec.Equal);
    SortSpec.UBucketPushedReversed(s, pivot, SortSpec.Greater);
    SortSpec.BucketsShrink(s);
    var sortedLess := uniqueQuickSort(less);
    var sortedGreater := uniqueQuickSort(greater);
    result := ConcatThree(sortedLess, equal, sortedGreater);
    SortSpec.UniqueQuickSortUnfold(s);
  }

  /** The partitioning loop of `uniqueQuickSort`; `seen` is the Go
      `map[T]bool`, whose stored values are all `true`. */
  method UniquePartitionAround(list: GoList2<int>, pivot: int) returns (less: GoList2<int>, equal: GoList2<int>, greater: GoList2<int>)
    requires list.Valid()
    ensures less.Valid() && equal.Valid() && greater.Valid()
    ensures less.Contents() == SortSpec.UBucketPushed(list.Contents(), pivot, SortSpec.Less)
    ensures equal.Contents() == SortSpec.UBucketPushed(list.Contents(), pivot, SortSpec.Equal)
    ensures greater.Contents() == SortSpec.UBucketPushed(list.Contents(), pivot, SortSpec.Greater)
  {
    less := new GoList2();
    equal := new GoList2();
    greater := new GoList2();
    UniquePartitionInto(list, pivot, less, equal, greater);
  }

  /** The loop of `uniqueQuickSort`: every element of `list` not seen
      before is pushed onto the bucket its comparison with the pivot selects. */
  method UniquePartitionInto(list: GoList2<int>, pivot: int, less: GoList2<int>, equal: GoList2<int>, greater: GoList2<int>)
    requires list.Valid() && less.Valid() && equal.Valid() && greater.Valid()
    requires less.Nodes == [] && equal.Nodes == [] && greater.Nodes == []
    requires less != equal && less != greater && equal != greater
    requires list != less && list != equal && list != greater
    modifies less, equal, greater
    ensures less.Valid() && equal.Valid() && greater.Valid()
    ensures less.Contents() == SortSpec.UBucketPushed(list.Contents(), pivot, SortSpec.Less)
    ensures equal.Contents() == SortSpec.UBucketPushed(list.Contents(), pivot, SortSpec.Equal)
    ensures greater.Contents() == SortSpec.UBucketPushed(list.Contents(), pivot, SortSpec.Greater)
  {
    ghost var s := list.Contents();
    var seen: set<int> := {};
    var node := list.Head;
    ghost var i := 0;
    while node != null
      invariant 0 <= i <= |list.Nodes|
      invariant node == if i < |list.Nodes| then list.Nodes[i] else null
      invariant forall x :: x in seen <==> x in s[..i]
      invariant less.Valid() && equal.Valid() && greater.Valid()
      invariant Apart(less, equal, greater)
      invariant fresh(less.Nodes) && fresh(equal.Nodes) && fresh(greater.Nodes)
      invariant less.Contents() == SortSpec.UBucketPushed(s[..i], pivot, SortSpec.Less)
      invariant equal.Contents() == SortSpec.UBucketPushed(s[..i], pivot, SortSpec.Equal)
      invariant greater.Contents() == SortSpec.UBucketPushed(s[..i], pivot, SortSpec.Greater)
      decreases |list.Nodes| - i
    {
      var next := node.next;
      var x := node.data;
      assert x == s[i];
      assert s[..i + 1] == s[..i] + [x];
      seen := PushUnseen(less, equal, greater, pivot, s[..i], x, seen);
      node := next;
      i := i + 1;
    }
    assert s[..i] == s;
  }

  method Sort(list: GoList2<int>) returns (result: GoList2<int>)
    requires list.Valid()
    ensures result.Valid()
    ensures result == list || (fresh(result) && fresh(result.Nodes) && result.Linked())
    ensures SortSpec.Sorted(result.Contents())
    ensures multiset(result.Contents()) == multiset(list.Contents())
    ensures result.Contents() == SortSpec.QuickSort(list.Contents())
  {
    result := quickSort(list);
    SortSpec.QuickSortSorts(list.Contents());
  }

  method USort(list: GoList2<int>) returns (result: GoList2<int>)
    requires list.Valid()
    ensures result.Valid()
    ensures result == list || (fresh(result) && fresh(result.Nodes) && result.Linked())
    ensures SortSpec.StrictlyIncreasing(result.Contents())
    ensures forall x :: x in result.Contents() <==> x in list.Contents()
    ensures result.Contents() == SortSpec.UniqueQuickSort(list.Contents())
  {
    result := uniqueQuickSort(list);
    SortSpec.UniqueQuickSortSorts(list.Contents());
  }

  /** Sort of the concatenation. */
  method Merge(lists: seq<GoList2<int>>) returns (result: GoList2<int>)
    requires forall k :: 0 <= k < |lists| ==> lists[k].Valid()
    ensures result.Valid() && result.Linked() && fresh(result) && fresh(result.Nodes)
    ensures result.Contents() == SortSpec.QuickSort(ListSpec.Flatten(ContentsOf(lists)))
  {
    var all := Concat(lists);
    result := Sort(all);
  }

  /** Unique sort of the concatenation. */
  method UMerge(lists: seq<GoList2<int>>) returns (result: GoList2<int>)
    requires forall k :: 0 <= k < |lists| ==> lists[k].Valid()
    ensures result.Valid() && result.Linked() && fresh(result) && fresh(result.Nodes)
    ensures result.Contents() == SortSpec.UniqueQuickSort(ListSpec.Flatten(ContentsOf(lists)))
  {
    var all := Concat(lists);
    result := USort(all);
  }
}
