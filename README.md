# go-linkedlist in Dafny

A model of the three list packages of go-linkedlist, a generic Go library
of linked lists with an Erlang-`lists`-style function set:

- `golist`: a singly linked list (`GoList` holds `Head`);
- `golist2`: a doubly linked list (`GoList2` holds `Head`; nodes carry
  `Prev` and `Next`) with the same exported functions;
- `golistc`: a singly linked circular list (`GoListC` holds `Head` and
  `Tail`, and `Tail.Next` is `Head`), with construction and conversion only.

Most exported functions that return a list walk their input chain with a
node cursor and build a fresh result by pushing onto the head
(`appendHead`); most of them then reverse that chain in place (`reverse`).
The exceptions: `Seq` pushes without reading an input chain, `Duplicate`
pushes its copies without reversing, `Reverse` links new nodes directly
without `appendHead`, `MapFoldr` pushes over a reversed copy and keeps the
pushed order, and the sorts return a list of at most one element as it
is; the queries build no list. The inputs are only read (except the nodes
`Subtract` unlinks, which belong to its own fresh copy). The model keeps
that shape: the lists are classes over `Node`/`Node2` objects, each
operation is a method with the Go loop, and a ghost sequence `Nodes` (the
chain from `Head`, head first) is the list's footprint. Most methods are
proved to produce the value of a pure specification function over
sequences (module `ListSpec`, sorting in `SortSpec`); the queries `Max`,
`Min`, `Last`, `All`, `Any`, `Member`, `Equal` and `ForEach`, and the
constructor `Duplicate`, state their results directly. The properties the
library promises are proved as lemmas about those functions.

Files:

- `nodes.dfy` (`Nodes`): the node classes of `node/node.go` and
  `node/node2.go`, and what a well-formed chain, a consistent doubly linked
  chain (`PrevLinked`) and a ring are;
- `list_types.dfy` (`ListTypes`): `Option` for queries that return a nil
  node, `Result` for operations that panic;
- `list_spec.dfy` (`ListSpec`), `sort_spec.dfy` (`SortSpec`): the
  specification functions and their lemmas;
- `golist.dfy` (`Golist`), `golist2.dfy` (`Golist2`), `golistc.dfy`
  (`Golistc`): the three packages.

Modelling choices:

- `constraints.Ordered` is `int`; `cmp.Equal` is `==` on an equality type.
- Callbacks (`fun`) are pure total Dafny functions. `ForEach` returns the
  sequence of arguments it passed to `fun`, which is all a pure callback
  can observe.
- A Go `panic` is a `Panic(message)` result carrying the Go message; the
  node-returning queries (`Nth`, `Last`, `Max`, `Min`, `Search`) return
  the node's data (or index) and `None` where Go returns nil.
- `DropLast` on a one-element list dereferences a nil `Next` in Go; the
  model returns `Panic` with the runtime's message rather than excluding
  that input.
- In `golist2`, `Valid` is a well-formed `Next` chain: every operation
  reads only `Next`, so that is all it requires of its inputs. `Linked`
  (`Prev` mirrors `Next`) is proved of every result built by `appendHead`
  and `reverse`, and is what `reverse` requires: its swap makes each old
  `Prev` the new `Next`, so the reversed `Next` chain is right only when
  the old `Prev` links mirrored the old `Next` links.
- The circular `ToSlice` reads `Head.Data` before its first test, so it
  requires a non-empty ring; the round trip through the circular list
  therefore holds for non-empty input only: Go's `ToSlice` panics on an
  empty ring.
- Internal loops are split into helper methods (`PushRest`, `PushValues`,
  the `...Pushing` methods, `swapLinks` and others): each holds one Go loop
  or one loop body, so every proof obligation stays small. These helpers
  have contracts but no row below; they are part of the exported method
  that calls them.

## Model

| member | source | states |
|---|---|---|
| Golist.GoList.constructor | golist/golist.go:19-21 | the zero value is the empty list |
| Golist.GoList.appendHead | golist/golist.go:770-774 | a fresh node in front: contents gain `value` at the head, every old node is kept in order |
| Golist.GoList.reverse | golist/golist.go:777-788 | the node chain, and so the contents, come out reversed, in place |
| Golist.New | golist/golist.go:30-36 | the list holds the values in argument order |
| Golist.FromSlice | golist/golist.go:39-45 | the list holds the slice in order |
| Golist.ToSlice | golist/golist.go:48-54 | the slice is the list contents, head first |
| Golist.RoundTrip | golist/golist.go:39-45 | `ToSlice(FromSlice(s)) == s` for every `s` |
| Golist.RoundTripNew | golist/golist.go:30-36 | `ToSlice(New(s...)) == s` for every `s` |
| Golist.All | golist/golist.go:58-65 | true exactly when `fun` accepts every element (true on the empty list) |
| Golist.Any | golist/golist.go:69-76 | true exactly when `fun` accepts some element (false on the empty list) |
| Golist.Equal | golist/golist.go:212-224 | true exactly when both lists hold the same sequence |
| Golist.Find | golist/golist.go:258-267 | the index of the first element equal to `value`, -1 when there is none (`ListSpec.IndexOf`) |
| Golist.Last | golist/golist.go:341-350 | None on the empty list, otherwise the last element |
| Golist.Len | golist/golist.go:353-359 | the number of elements |
| Golist.Max | golist/golist.go:395-405 | None on the empty list, otherwise an element no smaller than any other |
| Golist.Min | golist/golist.go:425-435 | None on the empty list, otherwise an element no larger than any other |
| Golist.Member | golist/golist.go:408-415 | true exactly when some element equals `elem` |
| Golist.Nth | golist/golist.go:439-455 | `ListSpec.Nth`: the element at the normalised index, or the Go panic message when it is out of range |
| Golist.Prefix | golist/golist.go:497-508 | true exactly when `list1` is a prefix of `list2` |
| Golist.Search | golist/golist.go:545-555 | the first index `fun` accepts and its element, or -1 and None |
| Golist.Suffix | golist/golist.go:675-679 | true exactly when `list1` is a suffix of `list2` |
| Golist.Sum | golist/golist.go:682-688 | the sum of the elements |
| Golist.Foldl | golist/golist.go:272-277 | the left fold from `acc0`, head first |
| Golist.Foldr | golist/golist.go:282-288 | the right fold from `acc0`, tail first |
| Golist.ForEach | golist/golist.go:291-295 | `fun` is applied to every element once, head to tail |
| Golist.Append | golist/golist.go:79-88 | a fresh list: the input followed by `values` |
| Golist.AppendHead | golist/golist.go:91-100 | a fresh list: `values` followed by the input |
| Golist.Concat | golist/golist.go:103-111 | a fresh list: the concatenation of all inputs in argument order |
| Golist.Delete | golist/golist.go:114-134 | a fresh list without the first element equal to `value` (a copy when there is none) |
| Golist.DeleteAt | golist/golist.go:139-168 | a fresh list without the element at the normalised index; a copy when that index is out of range |
| Golist.DropLast | golist/golist.go:171-181 | all but the last element; the nil-dereference panic on a one-element list; empty stays empty |
| Golist.DropWhile | golist/golist.go:184-198 | the suffix after the longest prefix `fun` accepts |
| Golist.Duplicate | golist/golist.go:202-208 | `max(n, 0)` copies of `elem` |
| Golist.Filter | golist/golist.go:227-238 | the elements `fun` accepts, in order |
| Golist.FilterMap | golist/golist.go:243-254 | the mapped values whose flag is true, in order |
| Golist.InsertAt | golist/golist.go:299-326 | `val` inserted at the normalised index when it is in `[0, len]`, otherwise the Go panic message |
| Golist.Join | golist/golist.go:329-338 | `sep` between every two neighbours |
| Golist.Map | golist/golist.go:362-368 | `fun` applied to every element, in order |
| Golist.MapFoldl | golist/golist.go:371-379 | mapped list and accumulator threaded head to tail (`ListSpec.MapFoldl`) |
| Golist.MapFoldr | golist/golist.go:382-391 | mapped list in list order with the accumulator threaded tail to head (`ListSpec.MapFoldr`) |
| Golist.NthTail | golist/golist.go:460-479 | the suffix from the normalised index, or the Go panic message when it is out of range |
| Golist.Partition | golist/golist.go:483-494 | the accepted and the rejected elements, each in list order |
| Golist.ReplaceAt | golist/golist.go:513-531 | the element at the normalised index replaced by `val`; a copy when that index is out of range |
| Golist.UpdateAt | golist/golist.go:718-736 | the element at the normalised index replaced by `fun` of it; a copy when that index is out of range |
| Golist.Reverse | golist/golist.go:534-541 | a fresh list holding the elements in reverse order; the input is only read |
| Golist.Seq | golist/golist.go:559-565 | `from, from+incr, ...` while at most `to` |
| Golist.Split | golist/golist.go:575-597 | the first `n` (normalised) elements and the rest, or the Go panic message unless `0 <= n < len` |
| Golist.SplitWith | golist/golist.go:601-618 | the longest prefix `fun` accepts and the rest |
| Golist.Sublist | golist/golist.go:623-646 | at most `len` elements from the normalised start; the Go panic messages for a negative `len` or a start out of range |
| Golist.Subtract | golist/golist.go:650-672 | the first occurrence of each element of `list2` removed in turn from a copy of `list1` (`ListSpec.Subtract`) |
| Golist.TakeWhile | golist/golist.go:691-701 | the longest prefix `fun` accepts |
| Golist.Sort | golist/golist.go:568-570 | sorted, a permutation of the input, and equal to `SortSpec.QuickSort` |
| Golist.USort | golist/golist.go:711-713 | strictly increasing, with the same set of values as the input |
| Golist.Merge | golist/golist.go:418-421 | `Sort` of the concatenation |
| Golist.UMerge | golist/golist.go:705-708 | `USort` of the concatenation |
| Golist.quickSort | golist/golist.go:791-819 | the buckets below, at and above the head pivot, the outer two sorted recursively, concatenated (`SortSpec.QuickSort`); a list of at most one element is returned as it is |
| Golist.uniqueQuickSort | golist/golist.go:822-856 | as `quickSort`, but each value is kept only at its first occurrence in a pass (`SortSpec.UniqueQuickSort`) |
| Golist2.GoList2.constructor | golist2/golist2.go:19-21 | the zero value is the empty list, trivially `Linked` |
| Golist2.GoList2.appendHead | golist2/golist2.go:788-795 | a fresh node in front with nil `Prev`, the old head points back to it: `Linked` is preserved |
| Golist2.GoList2.reverse | golist2/golist2.go:798-806 | on a `Linked` list, swapping `Prev` and `Next` at every node reverses the chain and keeps it `Linked`; the old last node is the head |
| Golist2.GoList2.swapLinks | golist2/golist2.go:800-804 | after the loop every node's `Next` is its predecessor and its `Prev` its successor; the old last node is returned |
| Golist2.New | golist2/golist2.go:30-36 | the list holds the values in argument order; its `Prev` links are consistent (`Linked`) |
| Golist2.FromSlice | golist2/golist2.go:39-45 | the list holds the slice in order; its `Prev` links are consistent (`Linked`) |
| Golist2.ToSlice | golist2/golist2.go:48-54 | the slice is the list contents, head first |
| Golist2.RoundTrip | golist2/golist2.go:39-45 | `ToSlice(FromSlice(s)) == s` for every `s` |
| Golist2.RoundTripNew | golist2/golist2.go:30-36 | `ToSlice(New(s...)) == s` for every `s` |
| Golist2.All | golist2/golist2.go:58-65 | true exactly when `fun` accepts every element (true on the empty list) |
| Golist2.Any | golist2/golist2.go:69-76 | true exactly when `fun` accepts some element (false on the empty list) |
| Golist2.Equal | golist2/golist2.go:213-225 | true exactly when both lists hold the same sequence |
| Golist2.Find | golist2/golist2.go:259-268 | the index of the first element equal to `value`, -1 when there is none (`ListSpec.IndexOf`) |
| Golist2.Last | golist2/golist2.go:347-356 | None on the empty list, otherwise the last element |
| Golist2.Len | golist2/golist2.go:359-365 | the number of elements |
| Golist2.Max | golist2/golist2.go:402-412 | None on the empty list, otherwise an element no smaller than any other |
| Golist2.Min | golist2/golist2.go:433-443 | None on the empty list, otherwise an element no larger than any other |
| Golist2.Member | golist2/golist2.go:415-422 | true exactly when some element equals `elem` |
| Golist2.Nth | golist2/golist2.go:447-463 | `ListSpec.Nth`: the element at the normalised index, or the Go panic message when it is out of range |
| Golist2.Prefix | golist2/golist2.go:506-517 | true exactly when `list1` is a prefix of `list2` |
| Golist2.Search | golist2/golist2.go:554-564 | the first index `fun` accepts and its element, or -1 and None |
| Golist2.Suffix | golist2/golist2.go:689-693 | true exactly when `list1` is a suffix of `list2` |
| Golist2.Sum | golist2/golist2.go:697-703 | the sum of the elements |
| Golist2.Foldl | golist2/golist2.go:274-279 | the left fold from `acc0`, head first |
| Golist2.Foldr | golist2/golist2.go:285-291 | the right fold from `acc0`, tail first |
| Golist2.ForEach | golist2/golist2.go:296-300 | `fun` is applied to every element once, head to tail |
| Golist2.Append | golist2/golist2.go:79-88 | a fresh list: the input followed by `values`; its `Prev` links are consistent (`Linked`) |
| Golist2.AppendHead | golist2/golist2.go:91-100 | a fresh list: `values` followed by the input; its `Prev` links are consistent (`Linked`) |
| Golist2.Concat | golist2/golist2.go:103-111 | a fresh list: the concatenation of all inputs in argument order; its `Prev` links are consistent (`Linked`) |
| Golist2.Delete | golist2/golist2.go:115-135 | a fresh list without the first element equal to `value` (a copy when there is none); its `Prev` links are consistent (`Linked`) |
| Golist2.DeleteAt | golist2/golist2.go:140-168 | a fresh list without the element at the normalised index; a copy when that index is out of range; its `Prev` links are consistent (`Linked`) |
| Golist2.DropLast | golist2/golist2.go:172-182 | all but the last element; the nil-dereference panic on a one-element list; empty stays empty; its `Prev` links are consistent (`Linked`) |
| Golist2.DropWhile | golist2/golist2.go:185-199 | the suffix after the longest prefix `fun` accepts; its `Prev` links are consistent (`Linked`) |
| Golist2.Duplicate | golist2/golist2.go:203-209 | `max(n, 0)` copies of `elem`; its `Prev` links are consistent (`Linked`) |
| Golist2.Filter | golist2/golist2.go:228-239 | the elements `fun` accepts, in order; its `Prev` links are consistent (`Linked`) |
| Golist2.FilterMap | golist2/golist2.go:244-255 | the mapped values whose flag is true, in order; its `Prev` links are consistent (`Linked`) |
| Golist2.InsertAt | golist2/golist2.go:304-331 | `val` inserted at the normalised index when it is in `[0, len]`, otherwise the Go panic message; its `Prev` links are consistent (`Linked`) |
| Golist2.Join | golist2/golist2.go:335-344 | `sep` between every two neighbours; its `Prev` links are consistent (`Linked`) |
| Golist2.Map | golist2/golist2.go:369-375 | `fun` applied to every element, in order; its `Prev` links are consistent (`Linked`) |
| Golist2.MapFoldl | golist2/golist2.go:378-386 | mapped list and accumulator threaded head to tail (`ListSpec.MapFoldl`); its `Prev` links are consistent (`Linked`) |
| Golist2.MapFoldr | golist2/golist2.go:389-398 | mapped list in list order with the accumulator threaded tail to head (`ListSpec.MapFoldr`); its `Prev` links are consistent (`Linked`) |
| Golist2.NthTail | golist2/golist2.go:467-486 | the suffix from the normalised index, or the Go panic message when it is out of range; its `Prev` links are consistent (`Linked`) |
| Golist2.Partition | golist2/golist2.go:490-501 | the accepted and the rejected elements, each in list order; its `Prev` links are consistent (`Linked`) |
| Golist2.ReplaceAt | golist2/golist2.go:522-540 | the element at the normalised index replaced by `val`; a copy when that index is out of range; its `Prev` links are consistent (`Linked`) |
| Golist2.UpdateAt | golist2/golist2.go:736-754 | the element at the normalised index replaced by `fun` of it; a copy when that index is out of range; its `Prev` links are consistent (`Linked`) |
| Golist2.Reverse | golist2/golist2.go:543-550 | a fresh list holding the elements in reverse order; the input is only read |
| Golist2.Seq | golist2/golist2.go:569-575 | `from, from+incr, ...` while at most `to`; its `Prev` links are consistent (`Linked`) |
| Golist2.Split | golist2/golist2.go:586-608 | the first `n` (normalised) elements and the rest, or the Go panic message unless `0 <= n < len`; its `Prev` links are consistent (`Linked`) |
| Golist2.SplitWith | golist2/golist2.go:612-629 | the longest prefix `fun` accepts and the rest; its `Prev` links are consistent (`Linked`) |
| Golist2.Sublist | golist2/golist2.go:635-658 | at most `len` elements from the normalised start; the Go panic messages for a negative `len` or a start out of range; its `Prev` links are consistent (`Linked`) |
| Golist2.Subtract | golist2/golist2.go:662-684 | the first occurrence of each element of `list2` removed in turn from a copy of `list1` (`ListSpec.Subtract`) |
| Golist2.TakeWhile | golist2/golist2.go:707-717 | the longest prefix `fun` accepts; its `Prev` links are consistent (`Linked`) |
| Golist2.Sort | golist2/golist2.go:579-581 | sorted, a permutation of the input, and equal to `SortSpec.QuickSort` |
| Golist2.USort | golist2/golist2.go:729-731 | strictly increasing, with the same set of values as the input |
| Golist2.Merge | golist2/golist2.go:426-429 | `Sort` of the concatenation; its `Prev` links are consistent (`Linked`) |
| Golist2.UMerge | golist2/golist2.go:721-724 | `USort` of the concatenation; its `Prev` links are consistent (`Linked`) |
| Golist2.quickSort | golist2/golist2.go:809-837 | the buckets below, at and above the head pivot, the outer two sorted recursively, concatenated (`SortSpec.QuickSort`); a list of at most one element is returned as it is |
| Golist2.uniqueQuickSort | golist2/golist2.go:840-874 | as `quickSort`, but each value is kept only at its first occurrence in a pass (`SortSpec.UniqueQuickSort`) |
| Golistc.GoListC.constructor | golistc/golistc.go:20-23 | the zero value is the empty ring |
| Golistc.GoListC.append | golistc/golistc.go:100-112 | on an empty list one node that is both ends and its own successor; otherwise `Head` unchanged, the old tail points to the new `Tail`, whose `Next` is `Head`; one lap reads the old contents then `value` |
| Golistc.AppendAll | golistc/golistc.go:34-36 | appending each value in turn yields a ring holding exactly the values |
| Golistc.New | golistc/golistc.go:32-38 | a ring holding the values in order |
| Golistc.FromSlice | golistc/golistc.go:41-47 | a ring holding the slice in order |
| Golistc.ToSlice | golistc/golistc.go:50-62 | on a non-empty ring, one lap from `Head`: each node once, so the length is the ring size and the slice is the contents |
| Golistc.RoundTrip | golistc/golistc.go:41-62 | `ToSlice(FromSlice(s)) == s` for non-empty `s` |
| Golistc.RoundTripNew | golistc/golistc.go:32-62 | `ToSlice(New(s...)) == s` for non-empty `s` |
| ListSpec.NormalizeOffsetFromEnd | golist/golist.go:439-455 | index `-k` counts from the end, a non-negative index is kept |
| ListSpec.ReversedInvolution | golist/golist.go:534-541 | reversing twice gives the input back |
| ListSpec.ReversedMultiset | golist/golist.go:534-541 | reversal is a permutation |
| ListSpec.ReversedAppend | golist/golist.go:534-541 | the reverse of `a + b` is `reverse(b) + reverse(a)` |
| ListSpec.FlattenMultiset | golist/golist.go:103-111 | the concatenation is as long as all inputs together and holds each of them |
| ListSpec.FlattenThree | golist/golist.go:103-111 | concatenating three lists is `a + b + c` |
| ListSpec.MapIndex | golist/golist.go:362-368 | position `i` of the result is `f` of position `i` |
| ListSpec.FilterMultiset | golist/golist.go:227-238 | an accepted value keeps its multiplicity; a rejected one disappears |
| ListSpec.FilterMembers | golist/golist.go:227-238 | `x` is in the result exactly when it is in the input and accepted |
| ListSpec.FilterAppend | golist/golist.go:227-238 | filtering distributes over concatenation |
| ListSpec.FilterMapIsFilterOfMap | golist/golist.go:243-254 | with a flag computed from the mapped value, `FilterMap` is `Filter` after `Map` |
| ListSpec.FoldrIsFoldlOfReversed | golist/golist.go:282-288 | `Foldr(l, a, f) == Foldl(Reverse(l), a, f)` |
| ListSpec.MapFoldlThreadsLeftToRight | golist/golist.go:371-379 | the final accumulator is the left fold; element `i` is mapped with the accumulator of the first `i` elements |
| ListSpec.MapFoldrThreadsRightToLeft | golist/golist.go:382-391 | the final accumulator is the right fold; element `i` is mapped with the accumulator of the elements after it |
| ListSpec.SumAppend | golist/golist.go:682-688 | the sum of a concatenation is the sum of the sums |
| ListSpec.PartitionMultiset | golist/golist.go:483-494 | the two sides together are a permutation of the input |
| ListSpec.PartitionSides | golist/golist.go:483-494 | every element of the first side is accepted and every one of the second rejected |
| ListSpec.PartitionIsTwoFilters | golist/golist.go:483-494 | the sides are `Filter(fun)` and `Filter(not fun)` |
| ListSpec.TakeWhileThenDropWhile | golist/golist.go:601-618 | `TakeWhile` and `DropWhile` split the input; the prefix is accepted and the next element rejected |
| ListSpec.TakeDropWhileAt | golist/golist.go:601-618 | a cut after an accepted prefix and before a rejected element is the `TakeWhile`/`DropWhile` split |
| ListSpec.IndexOf | golist/golist.go:258-267 | -1 exactly when the value is absent; otherwise an index holding it with no earlier occurrence |
| ListSpec.IndexOfAt | golist/golist.go:258-267 | the first occurrence is the index returned |
| ListSpec.SearchIndex | golist/golist.go:545-555 | -1 exactly when `fun` rejects all; otherwise an accepted index with no accepted one before it |
| ListSpec.DeleteFirstMultiset | golist/golist.go:114-134 | deleting removes one occurrence of the value, if any |
| ListSpec.DeleteFirstAt | golist/golist.go:114-134 | the element removed is the first occurrence |
| ListSpec.DeleteFirstAbsent | golist/golist.go:114-134 | deleting an absent value leaves the list unchanged |
| ListSpec.SubtractStep | golist/golist.go:650-672 | one step deletes the first occurrence of the head of `list2`; the walk stays defined exactly while `list1` has elements left |
| ListSpec.SubtractMultiset | golist/golist.go:650-672 | the result is the multiset difference |
| ListSpec.SubtractDefinedWhenContained | golist/golist.go:650-672 | when `list2` is contained in `list1` as a multiset, the walk never runs out |
| ListSpec.SubtractEmpty | golist/golist.go:650-672 | an empty `list1` yields the empty list |
| ListSpec.DeleteAt | golist/golist.go:139-168 | one element shorter exactly when the normalised index is in range |
| ListSpec.DeleteAtIndex | golist/golist.go:139-168 | elements before the index stay, those after it move down by one |
| ListSpec.ReplaceUpdateIndex | golist/golist.go:513-531 | only the element at the normalised index changes |
| ListSpec.PermissiveOutOfBounds | golist/golist.go:139-168 | `DeleteAt`, `ReplaceAt` and `UpdateAt` with an out-of-range index return the input unchanged |
| ListSpec.DropLast | golist/golist.go:171-181 | a panic exactly for one element; otherwise the input minus its last element; empty stays empty |
| ListSpec.InsertAt | golist/golist.go:299-326 | a panic exactly when the normalised index is outside `[0, len]`; otherwise one longer with `val` at the index |
| ListSpec.InsertAtIndex | golist/golist.go:299-326 | elements before the index stay, those after it move up by one |
| ListSpec.Nth | golist/golist.go:439-455 | a panic exactly when the normalised index is out of range; otherwise an element of the list |
| ListSpec.NthFromEnd | golist/golist.go:439-455 | index -1 is the last element; index `-len` is the first |
| ListSpec.NthTail | golist/golist.go:460-479 | a panic exactly when the normalised index is out of range; otherwise the suffix of length `len - k` for the normalised index `k` |
| ListSpec.NthIsHeadOfNthTail | golist/golist.go:439-479 | `Nth` and `NthTail` panic on the same indices, and `Nth`'s element is the head of `NthTail`'s suffix: the element at the normalised index |
| ListSpec.Split | golist/golist.go:575-597 | a panic exactly unless `0 <= n < len` after normalising; otherwise the two parts concatenate to the input, the first of length `n`, the second non-empty |
| ListSpec.Sublist | golist/golist.go:623-646 | a panic exactly for a negative `len` or a start out of range; otherwise the slice from the start of length `min(len, rest)` |
| ListSpec.Join | golist/golist.go:329-338 | empty stays empty; `n >= 1` elements give `2n-1` |
| ListSpec.JoinIndex | golist/golist.go:329-338 | element `i` sits at position `2i`, `sep` at every odd position |
| ListSpec.Progression | golist/golist.go:559-565 | empty when `from > to`, otherwise starts at `from` |
| ListSpec.ProgressionIndex | golist/golist.go:559-565 | element `i` is `from + i*incr <= to`, and the next step would pass `to` |
| ListSpec.SuffixIsPrefixOfReversed | golist/golist.go:675-679 | `Suffix(a, b) == Prefix(Reverse a, Reverse b)` |
| SortSpec.BucketMembers | golist/golist.go:791-819 | a bucket holds exactly the input values on its side of the pivot |
| SortSpec.BucketsPartition | golist/golist.go:791-819 | the three buckets together are a permutation of the input |
| SortSpec.QuickSortSorts | golist/golist.go:791-819 | the result is sorted and a permutation of the input |
| SortSpec.SortedPermutationUnique | golist/golist.go:568-570 | two sorted permutations of the same values are equal: `Sort` is determined by its spec |
| SortSpec.QuickSortIdempotent | golist/golist.go:568-570 | sorting a sorted list changes nothing |
| SortSpec.UBucketMembers | golist/golist.go:822-856 | a unique bucket holds each unseen value of its side once |
| SortSpec.UBucketEqualIsPivot | golist/golist.go:822-856 | the equal bucket holds exactly the pivot |
| SortSpec.UniqueQuickSortSorts | golist/golist.go:822-856 | the result is strictly increasing with the same set of values |

## Left out

- The `String` methods of the three packages and of the node types: text formatting through `fmt`.
- `constraints/constraints.go`: floating-point and string element types; `Sum`, `Max`, `Min`, `Sort`, `USort`, `Merge`, `UMerge` and `Seq` are over `int` only.
- Go's fixed-width integer overflow in `Sum`, `Len` and `Seq`: integers are unbounded here.
- Golist.Seq: requires `incr > 0 || from > to`, because the Go loop never ends for `incr <= 0` when `from <= to`; the same for Golist2.Seq.
- Golist.Subtract: requires that a non-empty `list1` does not run out before `list2` is exhausted (`ListSpec.SubtractDefined`), because otherwise Go dereferences a nil head; the same for Golist2.Subtract.
- Golistc.ToSlice: requires a non-empty ring, because Go dereferences the nil `Head` of an empty one.
- Golist2.Reverse: its result is specified over `Next` only, because the Go code leaves every new node's `Prev` nil.
- Golist2.Subtract: its result is specified over `Next` only, because unlinking rewrites `Next` and leaves the `Prev` of the following node stale.
- Golist2.Sort: a list of at most one element is returned as it is, so `Linked` is claimed only for a fresh result; the same for Golist2.USort, Golist2.quickSort and Golist2.uniqueQuickSort.
- Golist.SplitAt: the first half is reversed before the second is built, where Go builds both and then reverses both; the two chains share no node, so the results are the same. The same for Golist.SplitWith and the `Golist2` versions.
- Side effects of callbacks in `ForEach`, `Any`, `All` and the other higher-order functions: callbacks are pure.
- The returned `*Node` of `Nth`, `Last`, `Max`, `Min` and `Search`: only its data (and for `Search` its index) is returned, so node identity and aliasing into the input list are not modelled.
- The repository's example driver program and its tests: not part of this model.
