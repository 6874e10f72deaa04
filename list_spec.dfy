/** The meaning of every exported list operation, stated over `seq`.
    Each imperative operation of the three list packages is proved to
    produce exactly the value of the function here that carries its name;
    the lemmas state what the operations promise to their callers. */
module ListSpec {
  import opened ListTypes

  /* ---------------------------------------------------------------------
   * Index normalisation
   * --------------------------------------------------------------------- */

  /** A negative index counts back from the end of a list of length `len`. */
  function Normalize(len: int, index: int): int
  {
    if index < 0 then len + index else index
  }

  /** Index normalisation lands on `len - k` for `index == -k`, and leaves
      non-negative indices alone. */
  lemma NormalizeOffsetFromEnd(len: int, k: int)
    requires 0 < k
    ensures Normalize(len, -k) == len - k
    ensures Normalize(len, k - 1) == k - 1
  {
  }

  /* ---------------------------------------------------------------------
   * Reversal
   * --------------------------------------------------------------------- */

  /** The list read back to front: each element is pushed onto the head of
      the result, as `Reverse` does. */
  function Reversed<T>(s: seq<T>): (r: seq<T>)
    ensures |r| == |s|
  {
    seq(|s|, i requires 0 <= i < |s| => s[|s| - 1 - i])
  }

  lemma ReversedIndex<T>(s: seq<T>)
    ensures forall k :: 0 <= k < |s| ==> Reversed(s)[k] == s[|s| - 1 - k]
  {
  }

  lemma ReversedSnoc<T>(s: seq<T>, x: T)
    ensures Reversed(s + [x]) == [x] + Reversed(s)
  {
  }

  lemma ReversedAppend<T>(a: seq<T>, b: seq<T>)
    ensures Reversed(a + b) == Reversed(b) + Reversed(a)
  {
  }

  lemma ReversedInvolution<T>(s: seq<T>)
    ensures Reversed(Reversed(s)) == s
  {
  }

  lemma {:induction false} ReversedMultiset<T>(s: seq<T>)
    ensures multiset(Reversed(s)) == multiset(s)
  {
    if s != [] {
      ReversedMultiset(s[1..]);
      assert s == [s[0]] + s[1..];
      assert Reversed(s) == Reversed(s[1..]) + [s[0]];
    }
  }

  /* ---------------------------------------------------------------------
   * Concatenation
   * --------------------------------------------------------------------- */

  /** All lists of `lists`, one after the other, in argument order. */
  function Flatten<T>(lists: seq<seq<T>>): (r: seq<T>)
  {
    if lists == [] then [] else lists[0] + Flatten(lists[1..])
  }

  /** Every element of every list ends up in the concatenation, with its
      multiplicity, and the length is the sum of the lengths. */
  lemma {:induction false} FlattenMultiset<T>(lists: seq<seq<T>>)
    ensures |Flatten(lists)| == SumLengths(lists)
    ensures forall k :: 0 <= k < |lists| ==> multiset(lists[k]) <= multiset(Flatten(lists))
  {
    if lists != [] {
      FlattenMultiset(lists[1..]);
      assert multiset(Flatten(lists)) == multiset(lists[0]) + multiset(Flatten(lists[1..]));
      forall k | 1 <= k < |lists|
        ensures multiset(lists[k]) <= multiset(Flatten(lists))
      {
        assert lists[k] == lists[1..][k - 1];
      }
    }
  }

  lemma FlattenThree<T>(a: seq<T>, b: seq<T>, c: seq<T>)
    ensures Flatten([a, b, c]) == a + b + c
  {
    assert [c][1..] == [];
    assert Flatten([c]) == c;
    assert [b, c][1..] == [c];
    assert Flatten([b, c]) == b + c;
    assert [a, b, c][1..] == [b, c];
  }

  /** Total length of the lists. */
  function SumLengths<T>(lists: seq<seq<T>>): nat
  {
    if lists == [] then 0 else |lists[0]| + SumLengths(lists[1..])
  }

  lemma {:induction false} FlattenSnoc<T>(lists: seq<seq<T>>, s: seq<T>)
    ensures Flatten(lists + [s]) == Flatten(lists) + s
  {
    if lists == [] {
      assert [] + [s] == [s];
    } else {
      assert (lists + [s])[1..] == lists[1..] + [s];
      FlattenSnoc(lists[1..], s);
    }
  }

  /* ---------------------------------------------------------------------
   * Map, filter, fold
   * --------------------------------------------------------------------- */

  function Map<T, U>(s: seq<T>, f: T -> U): (r: seq<U>)
    ensures |r| == |s|
  {
    if s == [] then [] else [f(s[0])] + Map(s[1..], f)
  }

  /** Mapping one more element appends its image. */
  lemma {:induction false} MapSnoc<T, U>(s: seq<T>, x: T, f: T -> U)
    ensures Map(s + [x], f) == Map(s, f) + [f(x)]
  {
    if s != [] {
      assert (s + [x])[1..] == s[1..] + [x];
      MapSnoc(s[1..], x, f);
    }
  }

  /** Element i of the mapped list is fun applied to element i. */
  lemma {:induction false} MapIndex<T, U>(s: seq<T>, f: T -> U)
    ensures forall i :: 0 <= i < |s| ==> Map(s, f)[i] == f(s[i])
  {
    if s != [] {
      MapIndex(s[1..], f);
      forall i | 1 <= i < |s| ensures Map(s, f)[i] == f(s[i]) {
        assert Map(s, f)[i] == Map(s[1..], f)[i - 1];
      }
    }
  }

  function Filter<T>(s: seq<T>, p: T -> bool): seq<T>
  {
    if s == [] then [] else (if p(s[0]) then [s[0]] else []) + Filter(s[1..], p)
  }

  /** Filter keeps every element p accepts, with its multiplicity, and
      drops every element p rejects. */
  lemma {:induction false} FilterMultiset<T>(s: seq<T>, p: T -> bool)
    ensures forall x :: p(x) ==> multiset(Filter(s, p))[x] == multiset(s)[x]
    ensures forall x :: !p(x) ==> multiset(Filter(s, p))[x] == 0
  {
    if s != [] {
      FilterMultiset(s[1..], p);
      assert s == [s[0]] + s[1..];
    }
  }

  /** Hence an element is kept exactly when it occurs and p accepts it. */
  lemma FilterMembers<T>(s: seq<T>, p: T -> bool)
    ensures forall x :: x in Filter(s, p) <==> x in s && p(x)
  {
    FilterMultiset(s, p);
    forall x ensures x in Filter(s, p) <==> x in s && p(x) {
      assert x in Filter(s, p) <==> multiset(Filter(s, p))[x] > 0;
      assert x in s <==> multiset(s)[x] > 0;
    }
  }

  lemma {:induction false} FilterAppend<T>(a: seq<T>, b: seq<T>, p: T -> bool)
    ensures Filter(a + b, p) == Filter(a, p) + Filter(b, p)
  {
    if a != [] {
      assert (a + b)[0] == a[0] && (a + b)[1..] == a[1..] + b;
      FilterAppend(a[1..], b, p);
    } else {
      assert a + b == b;
    }
  }

  /** Filtering one more element appends it when it is kept. */
  lemma FilterSnoc<T>(s: seq<T>, x: T, p: T -> bool)
    ensures Filter(s + [x], p) == Filter(s, p) + (if p(x) then [x] else [])
  {
    FilterAppend(s, [x], p);
    assert [x][1..] == [];
  }

  /** `fun` returns (keep, value); the values kept, in list order. */
  function FilterMap<T, U>(s: seq<T>, f: T -> (bool, U)): seq<U>
  {
    if s == [] then [] else (if f(s[0]).0 then [f(s[0]).1] else []) + FilterMap(s[1..], f)
  }

  lemma {:induction false} FilterMapSnoc<T, U>(s: seq<T>, x: T, f: T -> (bool, U))
    ensures FilterMap(s + [x], f) == FilterMap(s, f) + (if f(x).0 then [f(x).1] else [])
  {
    if s != [] {
      assert (s + [x])[1..] == s[1..] + [x];
      FilterMapSnoc(s[1..], x, f);
    }
  }

  /** FilterMap is filter after map, done in one traversal. */
  lemma {:induction false} FilterMapIsFilterOfMap<T, U>(s: seq<T>, f: T -> U, p: U -> bool)
    ensures FilterMap(s, x => (p(f(x)), f(x))) == Filter(Map(s, f), p)
  {
    if s != [] {
      FilterMapIsFilterOfMap(s[1..], f, p);
      assert Map(s, f)[1..] == Map(s[1..], f);
    }
  }

  /** fun(elem, acc) from head to tail. */
  function Foldl<T, A>(s: seq<T>, acc: A, f: (T, A) -> A): A
  {
    if s == [] then acc else Foldl(s[1..], f(s[0], acc), f)
  }

  /** fun(elem, acc) from tail to head. */
  function Foldr<T, A>(s: seq<T>, acc: A, f: (T, A) -> A): A
  {
    if s == [] then acc else f(s[0], Foldr(s[1..], acc, f))
  }

  lemma {:induction false} FoldlSnoc<T, A>(s: seq<T>, x: T, acc: A, f: (T, A) -> A)
    ensures Foldl(s + [x], acc, f) == f(x, Foldl(s, acc, f))
  {
    if s != [] {
      assert (s + [x])[1..] == s[1..] + [x];
      FoldlSnoc(s[1..], x, f(s[0], acc), f);
    }
  }

  /** Folding from the right is folding the reversed list from the left,
      which is how `Foldr` is computed. */
  lemma {:induction false} FoldrIsFoldlOfReversed<T, A>(s: seq<T>, acc: A, f: (T, A) -> A)
    ensures Foldr(s, acc, f) == Foldl(Reversed(s), acc, f)
  {
    if s != [] {
      FoldrIsFoldlOfReversed(s[1..], acc, f);
      FoldlSnoc(Reversed(s[1..]), s[0], acc, f);
      assert Reversed(s) == Reversed(s[1..]) + [s[0]];
    }
  }

  /** Map and Foldl in one pass: the mapped list and the final accumulator. */
  function MapFoldl<T, A>(s: seq<T>, acc: A, f: (T, A) -> (T, A)): (r: (seq<T>, A))
    ensures |r.0| == |s|
  {
    if s == [] then ([], acc)
    else
      var step := f(s[0], acc);
      var rest := MapFoldl(s[1..], step.1, f);
      ([step.0] + rest.0, rest.1)
  }

  /** One more element is mapped with the accumulator left by the others. */
  lemma {:induction false} MapFoldlSnoc<T, A>(s: seq<T>, x: T, acc: A, f: (T, A) -> (T, A))
    ensures MapFoldl(s + [x], acc, f)
      == (MapFoldl(s, acc, f).0 + [f(x, MapFoldl(s, acc, f).1).0], f(x, MapFoldl(s, acc, f).1).1)
  {
    if s != [] {
      assert (s + [x])[0] == s[0] && (s + [x])[1..] == s[1..] + [x];
      MapFoldlSnoc(s[1..], x, f(s[0], acc).1, f);
      var r := MapFoldl(s[1..], f(s[0], acc).1, f);
      var last := f(x, r.1);
      assert [f(s[0], acc).0] + (r.0 + [last.0]) == ([f(s[0], acc).0] + r.0) + [last.0];
    } else {
      var step := f(x, acc);
      assert s + [x] == [x] && [x][0] == x && [x][1..] == [];
      assert MapFoldl([x][1..], step.1, f) == ([], step.1);
      assert [step.0] + [] == [step.0] == [] + [step.0];
      assert MapFoldl(s + [x], acc, f) == ([step.0], step.1);
    }
  }

  /** MapFoldl threads the accumulator from head to tail: element i is
      mapped with the accumulator Foldl leaves after the first i elements,
      and the final accumulator is Foldl's. */
  lemma {:induction false} MapFoldlThreadsLeftToRight<T, A>(s: seq<T>, acc: A, f: (T, A) -> (T, A))
    ensures MapFoldl(s, acc, f).1 == Foldl(s, acc, (x, a) => f(x, a).1)
    ensures forall i :: 0 <= i < |s| ==>
      MapFoldl(s, acc, f).0[i] == f(s[i], Foldl(s[..i], acc, (x, a) => f(x, a).1)).0
  {
    if s != [] {
      var g := (x, a) => f(x, a).1;
      var a1 := f(s[0], acc).1;
      MapFoldlThreadsLeftToRight(s[1..], a1, f);
      forall i | 1 <= i < |s|
        ensures MapFoldl(s, acc, f).0[i] == f(s[i], Foldl(s[..i], acc, g)).0
      {
        assert s[..i][1..] == s[1..][..i - 1];
        assert Foldl(s[..i], acc, g) == Foldl(s[1..][..i - 1], a1, g);
      }
    }
  }

  /** Map and Foldr in one pass: the mapped list in list order and the
      final accumulator, threaded from tail to head. */
  function MapFoldr<T, A>(s: seq<T>, acc: A, f: (T, A) -> (T, A)): (r: (seq<T>, A))
    ensures |r.0| == |s|
  {
    if s == [] then ([], acc)
    else
      var rest := MapFoldr(s[1..], acc, f);
      var step := f(s[0], rest.1);
      ([step.0] + rest.0, step.1)
  }

  /** MapFoldr threads the accumulator from tail to head: element i is
      mapped with the accumulator Foldr leaves after the elements behind
      it, and the final accumulator is Foldr's. */
  lemma {:induction false} MapFoldrThreadsRightToLeft<T, A>(s: seq<T>, acc: A, f: (T, A) -> (T, A))
    ensures MapFoldr(s, acc, f).1 == Foldr(s, acc, (x, a) => f(x, a).1)
    ensures forall i :: 0 <= i < |s| ==>
      MapFoldr(s, acc, f).0[i] == f(s[i], Foldr(s[i + 1..], acc, (x, a) => f(x, a).1)).0
  {
    if s != [] {
      MapFoldrThreadsRightToLeft(s[1..], acc, f);
      forall i | 1 <= i < |s|
        ensures MapFoldr(s, acc, f).0[i] == f(s[i], Foldr(s[i + 1..], acc, (x, a) => f(x, a).1)).0
      {
        assert s[1..][i - 1 + 1..] == s[i + 1..];
      }
    }
  }

  function Sum(s: seq<int>): int
  {
    if s == [] then 0 else s[0] + Sum(s[1..])
  }

  lemma {:induction false} SumAppend(a: seq<int>, b: seq<int>)
    ensures Sum(a + b) == Sum(a) + Sum(b)
  {
    if a != [] {
      assert (a + b)[0] == a[0] && (a + b)[1..] == a[1..] + b;
      SumAppend(a[1..], b);
    } else {
      assert a + b == b;
    }
  }

  /* ---------------------------------------------------------------------
   * Partition, take/drop while
   * --------------------------------------------------------------------- */

  /** (elements for which p holds, elements for which it does not), both in
      list order. */
  function Partition<T>(s: seq<T>, p: T -> bool): (seq<T>, seq<T>)
  {
    if s == [] then ([], [])
    else
      var rest := Partition(s[1..], p);
      if p(s[0]) then ([s[0]] + rest.0, rest.1) else (rest.0, [s[0]] + rest.1)
  }

  /** Every element lands in exactly one of the two lists. */
  lemma {:induction false} PartitionMultiset<T>(s: seq<T>, p: T -> bool)
    ensures multiset(Partition(s, p).0) + multiset(Partition(s, p).1) == multiset(s)
  {
    if s != [] {
      PartitionMultiset(s[1..], p);
      assert s == [s[0]] + s[1..];
    }
  }

  lemma {:induction false} PartitionSnoc<T>(s: seq<T>, x: T, p: T -> bool)
    ensures Partition(s + [x], p)
      == if p(x) then (Partition(s, p).0 + [x], Partition(s, p).1)
         else (Partition(s, p).0, Partition(s, p).1 + [x])
  {
    if s != [] {
      assert (s + [x])[0] == s[0] && (s + [x])[1..] == s[1..] + [x];
      PartitionSnoc(s[1..], x, p);
      var r := Partition(s[1..], p);
      assert [s[0]] + (r.0 + [x]) == ([s[0]] + r.0) + [x];
      assert [s[0]] + (r.1 + [x]) == ([s[0]] + r.1) + [x];
    } else {
      assert s + [x] == [x] && [x][0] == x && [x][1..] == [];
      assert Partition([x][1..], p) == ([], []);
      assert [x] + [] == [x];
    }
  }

  /** The first list holds only elements p accepts, the second only
      elements p rejects. */
  lemma {:induction false} PartitionSides<T>(s: seq<T>, p: T -> bool)
    ensures forall k :: 0 <= k < |Partition(s, p).0| ==> p(Partition(s, p).0[k])
    ensures forall k :: 0 <= k < |Partition(s, p).1| ==> !p(Partition(s, p).1[k])
  {
    if s != [] {
      PartitionSides(s[1..], p);
    }
  }

  /** One more element on the right of the input lands on the left of the
      reversed side p chooses for it. */
  lemma ReversedPartitionSnoc<T>(s: seq<T>, x: T, p: T -> bool)
    ensures Reversed(Partition(s + [x], p).0)
      == if p(x) then [x] + Reversed(Partition(s, p).0) else Reversed(Partition(s, p).0)
    ensures Reversed(Partition(s + [x], p).1)
      == if p(x) then Reversed(Partition(s, p).1) else [x] + Reversed(Partition(s, p).1)
  {
    PartitionSnoc(s, x, p);
    ReversedSnoc(Partition(s, p).0, x);
    ReversedSnoc(Partition(s, p).1, x);
  }

  /** One side of the partition read off from the last element backwards:
      what a list holds after every element of that side has been pushed
      onto its head in input order. */
  function PartitionPushed<T>(s: seq<T>, p: T -> bool, side: bool): seq<T>
  {
    if s == [] then []
    else (if p(s[|s| - 1]) == side then [s[|s| - 1]] else []) + PartitionPushed(s[..|s| - 1], p, side)
  }

  /** One step of the partitioning loop: visiting `s[i]` pushes it onto
      the side `p` selects and leaves the other side as it was. */
  lemma PartitionPushedSnoc<T>(s: seq<T>, i: int, p: T -> bool, side: bool)
    requires 0 <= i < |s|
    ensures PartitionPushed(s[..i + 1], p, side) == (if p(s[i]) == side then [s[i]] else []) + PartitionPushed(s[..i], p, side)
  {
    assert s[..i + 1][..i] == s[..i];
  }

  lemma {:induction false} PartitionPushedReversed<T>(s: seq<T>, p: T -> bool)
    ensures PartitionPushed(s, p, true) == Reversed(Partition(s, p).0)
    ensures PartitionPushed(s, p, false) == Reversed(Partition(s, p).1)
  {
    if s != [] {
      var x := s[|s| - 1];
      PartitionPushedReversed(s[..|s| - 1], p);
      assert s == s[..|s| - 1] + [x];
      ReversedPartitionSnoc(s[..|s| - 1], x, p);
    }
  }

  lemma {:induction false} PartitionIsTwoFilters<T>(s: seq<T>, p: T -> bool)
    ensures Partition(s, p).0 == Filter(s, p)
    ensures Partition(s, p).1 == Filter(s, x => !p(x))
  {
    if s != [] {
      PartitionIsTwoFilters(s[1..], p);
    }
  }

  /** The longest prefix whose elements all satisfy p. */
  function TakeWhile<T>(s: seq<T>, p: T -> bool): seq<T>
  {
    if s == [] || !p(s[0]) then [] else [s[0]] + TakeWhile(s[1..], p)
  }

  /** What remains after TakeWhile. */
  function DropWhile<T>(s: seq<T>, p: T -> bool): seq<T>
  {
    if s == [] || !p(s[0]) then s else DropWhile(s[1..], p)
  }

  /** TakeWhile and DropWhile cut the list at the first element p rejects:
      given the position i of that element (or the length, when p accepts
      every element), TakeWhile is the prefix before i and DropWhile the
      suffix from i. */
  lemma {:induction false} TakeDropWhileAt<T>(s: seq<T>, p: T -> bool, i: nat)
    requires i <= |s|
    requires forall k :: 0 <= k < i ==> p(s[k])
    requires i < |s| ==> !p(s[i])
    ensures TakeWhile(s, p) == s[..i]
    ensures DropWhile(s, p) == s[i..]
  {
    if i > 0 {
      assert p(s[0]);
      assert forall k :: 0 <= k < i - 1 ==> s[1..][k] == s[k + 1];
      TakeDropWhileAt(s[1..], p, i - 1);
      assert s[..i] == [s[0]] + s[1..][..i - 1];
      assert s[1..][i - 1..] == s[i..];
    }
  }

  /** Such a position always exists, so TakeWhile is a prefix of elements p
      accepts, the next element (if any) is rejected, and the two parts put
      together give back the list. */
  lemma {:induction false} TakeWhileThenDropWhile<T>(s: seq<T>, p: T -> bool)
    ensures TakeWhile(s, p) + DropWhile(s, p) == s
    ensures TakeWhile(s, p) == s[..|TakeWhile(s, p)|]
    ensures forall k :: 0 <= k < |TakeWhile(s, p)| ==> p(s[k])
    ensures |TakeWhile(s, p)| < |s| ==> !p(s[|TakeWhile(s, p)|])
  {
    var i := FirstRejected(s, p);
    TakeDropWhileAt(s, p, i);
    assert s[..i] + s[i..] == s;
  }

  /** The position of the first element p rejects, or the length. */
  function FirstRejected<T>(s: seq<T>, p: T -> bool): (i: nat)
    ensures i <= |s|
    ensures forall k :: 0 <= k < i ==> p(s[k])
    ensures i < |s| ==> !p(s[i])
  {
    if s == [] || !p(s[0]) then 0
    else
      var i := FirstRejected(s[1..], p) + 1;
      assert forall k :: 1 <= k < i ==> s[k] == s[1..][k - 1];
      i
  }

  /* ---------------------------------------------------------------------
   * Element search and removal
   * --------------------------------------------------------------------- */

  /** Position of the first element equal to v, or -1 when there is none. */
  function IndexOf<T(==)>(s: seq<T>, v: T): (r: int)
    ensures -1 <= r < |s|
    ensures r == -1 <==> v !in s
    ensures 0 <= r ==> s[r] == v && v !in s[..r]
  {
    if s == [] then -1
    else if s[0] == v then 0
    else
      var k := IndexOf(s[1..], v);
      assert s[1..][..k + 1] == s[1..k + 2] && s[..k + 2] == [s[0]] + s[1..k + 2] by {
        if k >= 0 {
          assert s[..k + 2] == [s[0]] + s[1..][..k + 1];
        }
      }
      if k == -1 then -1 else k + 1
  }

  /** The first occurrence is the only position IndexOf can return. */
  lemma {:induction false} IndexOfAt<T>(s: seq<T>, v: T, i: int)
    requires 0 <= i < |s| && s[i] == v && v !in s[..i]
    ensures IndexOf(s, v) == i
  {
    if i > 0 {
      assert s[0] == s[..i][0];
      assert s[1..][..i - 1] == s[..i][1..];
      IndexOfAt(s[1..], v, i - 1);
    }
  }

  /** Position of the first element p accepts, or -1 when there is none. */
  function SearchIndex<T>(s: seq<T>, p: T -> bool): (r: int)
    ensures -1 <= r < |s|
    ensures r == -1 <==> forall i :: 0 <= i < |s| ==> !p(s[i])
    ensures 0 <= r ==> p(s[r]) && forall i :: 0 <= i < r ==> !p(s[i])
  {
    if s == [] then -1
    else if p(s[0]) then 0
    else
      var k := SearchIndex(s[1..], p);
      if k == -1 then -1 else k + 1
  }

  /** The first accepted position is the only one SearchIndex can return. */
  lemma SearchIndexAt<T>(s: seq<T>, p: T -> bool, i: int)
    requires 0 <= i < |s| && p(s[i])
    requires forall k :: 0 <= k < i ==> !p(s[k])
    ensures SearchIndex(s, p) == i
  {
  }

  /** The list without the first element equal to v (unchanged if none). */
  function DeleteFirst<T(==)>(s: seq<T>, v: T): seq<T>
  {
    if s == [] then []
    else if s[0] == v then s[1..]
    else [s[0]] + DeleteFirst(s[1..], v)
  }

  /** Delete removes one occurrence of v, if there is one, and nothing else. */
  lemma {:induction false} DeleteFirstMultiset<T>(s: seq<T>, v: T)
    ensures multiset(DeleteFirst(s, v)) == multiset(s) - multiset{v}
  {
    if s != [] {
      assert multiset(s) == multiset{s[0]} + multiset(s[1..]) by {
        assert s == [s[0]] + s[1..];
      }
      if s[0] != v {
        DeleteFirstMultiset(s[1..], v);
        assert multiset(DeleteFirst(s, v)) == multiset{s[0]} + multiset(DeleteFirst(s[1..], v)) by {
          assert DeleteFirst(s, v) == [s[0]] + DeleteFirst(s[1..], v);
        }
      }
    }
  }

  /** Delete removes exactly the first occurrence and keeps the rest in
      order; with no occurrence it changes nothing. */
  lemma {:induction false} DeleteFirstAt<T>(s: seq<T>, v: T, k: nat)
    requires k < |s| && s[k] == v && v !in s[..k]
    ensures DeleteFirst(s, v) == s[..k] + s[k + 1..]
  {
    if k > 0 {
      assert s[0] != v by { assert s[0] == s[..k][0]; }
      assert s[1..][..k - 1] == s[..k][1..];
      DeleteFirstAt(s[1..], v, k - 1);
      assert s[..k] == [s[0]] + s[1..][..k - 1];
    }
  }

  lemma {:induction false} DeleteFirstAbsent<T>(s: seq<T>, v: T)
    requires v !in s
    ensures DeleteFirst(s, v) == s
  {
    if s != [] {
      DeleteFirstAbsent(s[1..], v);
    }
  }

  /** `Subtract(l1, l2)`: for each element of l2 in turn, delete its first
      occurrence from what is left of l1. */
  function Subtract<T(==)>(s: seq<T>, t: seq<T>): seq<T>
    decreases |t|
  {
    if t == [] then s
    else Subtract(DeleteFirst(s, t[0]), t[1..])
  }

  /** Nothing is left when l1 is empty, whatever l2 holds. */
  lemma {:induction false} SubtractEmpty<T>(t: seq<T>)
    ensures Subtract([], t) == []
    decreases |t|
  {
    if t != [] {
      assert DeleteFirst([], t[0]) == [];
      SubtractEmpty(t[1..]);
    }
  }

  /** One step of `Subtract`: the first element of l2 is deleted first;
      the Go loop can take the step only while l1 is not exhausted. */
  lemma SubtractStep<T>(s: seq<T>, t: seq<T>)
    requires t != []
    ensures Subtract(s, t) == Subtract(DeleteFirst(s, t[0]), t[1..])
    ensures SubtractDefined(s, t) <==> s != [] && SubtractDefined(DeleteFirst(s, t[0]), t[1..])
  {
  }

  /** Subtract is multiset difference, with the order of l1 kept. */
  lemma {:induction false} SubtractMultiset<T>(s: seq<T>, t: seq<T>)
    ensures multiset(Subtract(s, t)) == multiset(s) - multiset(t)
    decreases |t|
  {
    if t != [] {
      var rest := DeleteFirst(s, t[0]);
      DeleteFirstMultiset(s, t[0]);
      SubtractMultiset(rest, t[1..]);
      assert multiset(t) == multiset{t[0]} + multiset(t[1..]) by {
        assert t == [t[0]] + t[1..];
      }
      calc {
        multiset(Subtract(s, t));
        multiset(Subtract(rest, t[1..]));
        multiset(rest) - multiset(t[1..]);
        multiset(s) - multiset{t[0]} - multiset(t[1..]);
        { MinusMinus(multiset(s), multiset{t[0]}, multiset(t[1..])); }
        multiset(s) - multiset(t);
      }
    }
  }

  lemma MinusMinus<T>(a: multiset<T>, b: multiset<T>, c: multiset<T>)
    ensures a - b - c == a - (b + c)
  {
  }

  /** The Go code reads `result.Head.Data` for every element of l2, so it
      needs what is left of l1 to be non-empty whenever an element of l2
      is still to be processed. */
  predicate SubtractDefined<T(==)>(s: seq<T>, t: seq<T>)
    decreases |t|
  {
    t == [] || (s != [] && SubtractDefined(DeleteFirst(s, t[0]), t[1..]))
  }

  /** Subtracting elements that all occur, as a multiset, in l1 never
      exhausts l1 before l2. */
  lemma {:induction false} SubtractDefinedWhenContained<T>(s: seq<T>, t: seq<T>)
    requires multiset(t) <= multiset(s)
    ensures SubtractDefined(s, t)
    decreases |t|
  {
    if t != [] {
      assert t == [t[0]] + t[1..];
      assert t[0] in multiset(s);
      DeleteFirstMultiset(s, t[0]);
      SubtractDefinedWhenContained(DeleteFirst(s, t[0]), t[1..]);
    }
  }

  /* ---------------------------------------------------------------------
   * Index-addressed operations
   * --------------------------------------------------------------------- */

  /** Permissive: out of bounds leaves the list as it is. */
  function DeleteAt<T>(s: seq<T>, index: int): (r: seq<T>)
    ensures |r| == if 0 <= Normalize(|s|, index) < |s| then |s| - 1 else |s|
  {
    var k := Normalize(|s|, index);
    if 0 <= k < |s| then s[..k] + s[k + 1..] else s
  }

  /** Extending the list behind a non-negative index: the new element
      is the one removed exactly when it sits at that index. */
  lemma DeleteAtSnoc<T>(s: seq<T>, x: T, index: int)
    requires 0 <= index
    ensures DeleteAt(s + [x], index) == if index == |s| then s else DeleteAt(s, index) + [x]
  {
    if index < |s| {
      assert (s + [x])[..index] == s[..index];
      assert (s + [x])[index + 1..] == s[index + 1..] + [x];
    }
  }

  /** DeleteAt shifts every element behind the removed one down by one. */
  lemma DeleteAtIndex<T>(s: seq<T>, index: int)
    requires 0 <= Normalize(|s|, index) < |s|
    ensures forall j :: 0 <= j < Normalize(|s|, index) ==> DeleteAt(s, index)[j] == s[j]
    ensures forall j :: Normalize(|s|, index) <= j < |s| - 1 ==> DeleteAt(s, index)[j] == s[j + 1]
  {
  }

  /** Permissive: out of bounds leaves the list as it is. */
  function ReplaceAt<T>(s: seq<T>, index: int, v: T): (r: seq<T>)
    ensures |r| == |s|
  {
    var k := Normalize(|s|, index);
    if 0 <= k < |s| then s[k := v] else s
  }

  /** Permissive: out of bounds leaves the list as it is. */
  function UpdateAt<T>(s: seq<T>, index: int, f: T -> T): (r: seq<T>)
    ensures |r| == |s|
  {
    var k := Normalize(|s|, index);
    if 0 <= k < |s| then s[k := f(s[k])] else s
  }

  /** Only the element at the normalised index changes. */
  lemma ReplaceUpdateIndex<T>(s: seq<T>, index: int, v: T, f: T -> T)
    ensures forall j :: 0 <= j < |s| ==>
      ReplaceAt(s, index, v)[j] == if j == Normalize(|s|, index) then v else s[j]
    ensures forall j :: 0 <= j < |s| ==>
      UpdateAt(s, index, f)[j] == if j == Normalize(|s|, index) then f(s[j]) else s[j]
  {
  }

  /** An index that normalises outside [0, len) leaves DeleteAt, ReplaceAt
      and UpdateAt without effect. */
  lemma PermissiveOutOfBounds<T>(s: seq<T>, index: int, v: T, f: T -> T)
    requires !(0 <= Normalize(|s|, index) < |s|)
    ensures DeleteAt(s, index) == s
    ensures ReplaceAt(s, index, v) == s
    ensures UpdateAt(s, index, f) == s
  {
  }

  const InsertAtPanic := "InsertAt, index is out of bound!"
  const NthPanic := "Nth, index is out of bound!"
  const NthTailPanic := "NthTail, index is out of bound!"
  const SplitPanic := "Split, n is out of bound!"
  const SublistLenPanic := "Sublist, input len must not be negative!"
  const SublistStartPanic := "Sublist, start is out of bound!"
  /** What the Go runtime reports when code follows a nil `Next`. */
  const NilDereference := "runtime error: invalid memory address or nil pointer dereference"

  /** `DropLast` as written: everything but the last element, except that
      the second node is dereferenced before anyone checks it exists, so a
      one-element list panics. */
  function DropLast<T>(s: seq<T>): (r: Result<seq<T>>)
    ensures r.Panic? <==> |s| == 1
    ensures r.Ok? && s != [] ==> r.value + [s[|s| - 1]] == s
    ensures r.Ok? && s == [] ==> r.value == []
  {
    if s == [] then Ok([])
    else if |s| == 1 then Panic(NilDereference)
    else Ok(s[..|s| - 1])
  }

  /** Strict: the normalised index must be in [0, len]; len appends. */
  function InsertAt<T>(s: seq<T>, index: int, v: T): (r: Result<seq<T>>)
    ensures r.Panic? <==> !(0 <= Normalize(|s|, index) <= |s|)
    ensures r.Panic? ==> r.message == InsertAtPanic
    ensures r.Ok? ==> |r.value| == |s| + 1 && r.value[Normalize(|s|, index)] == v
  {
    var k := Normalize(|s|, index);
    if 0 <= k <= |s| then Ok(s[..k] + [v] + s[k..]) else Panic(InsertAtPanic)
  }

  /** The elements before the index stay where they were and those from
      the index on move up by one. */
  lemma InsertAtIndex<T>(s: seq<T>, index: int, v: T)
    requires 0 <= Normalize(|s|, index) <= |s|
    ensures forall j :: 0 <= j < Normalize(|s|, index) ==> InsertAt(s, index, v).value[j] == s[j]
    ensures forall j :: Normalize(|s|, index) < j <= |s| ==> InsertAt(s, index, v).value[j] == s[j - 1]
  {
  }

  /** What the loop of `InsertAt` has pushed onto the head of its result
      after visiting the elements `p`: each element in turn, and `v` just
      before the element at `index`. */
  function InsertPushed<T>(p: seq<T>, index: nat, v: T): seq<T>
  {
    if p == [] then []
    else [p[|p| - 1]] + (if |p| - 1 == index then [v] else []) + InsertPushed(p[..|p| - 1], index, v)
  }

  /** Before the index is reached the loop has only reversed a copy. */
  lemma {:induction false} InsertPushedBefore<T>(p: seq<T>, index: nat, v: T)
    requires |p| <= index
    ensures InsertPushed(p, index, v) == Reversed(p)
  {
    if p != [] {
      InsertPushedBefore(p[..|p| - 1], index, v);
      assert p == p[..|p| - 1] + [p[|p| - 1]];
      ReversedSnoc(p[..|p| - 1], p[|p| - 1]);
    }
  }

  /** Once past the index, the pushed elements are the insertion read back
      to front. */
  lemma {:induction false} InsertPushedReversed<T>(s: seq<T>, index: nat, v: T)
    requires index < |s|
    ensures InsertPushed(s, index, v) == Reversed(s[..index] + [v] + s[index..])
  {
    var q, x := s[..|s| - 1], s[|s| - 1];
    if |s| - 1 == index {
      InsertPushedBefore(q, index, v);
      assert s[..index] + [v] + s[index..] == q + [v] + [x];
      ReversedSnoc(q + [v], x);
      ReversedSnoc(q, v);
    } else {
      InsertPushedReversed(q, index, v);
      assert s[..index] + [v] + s[index..] == (q[..index] + [v] + q[index..]) + [x];
      ReversedSnoc(q[..index] + [v] + q[index..], x);
    }
  }

  /** Strict: the element at the normalised index, which must be in [0, len). */
  function Nth<T>(s: seq<T>, index: int): (r: Result<T>)
    ensures r.Panic? <==> !(0 <= Normalize(|s|, index) < |s|)
    ensures r.Panic? ==> r.message == NthPanic
    ensures r.Ok? ==> r.value in s
  {
    var k := Normalize(|s|, index);
    if 0 <= k < |s| then Ok(s[k]) else Panic(NthPanic)
  }

  /** Index -1 is the last element and index -len the first. */
  lemma NthFromEnd<T>(s: seq<T>)
    requires s != []
    ensures Nth(s, -1) == Ok(s[|s| - 1])
    ensures Nth(s, -|s|) == Nth(s, 0)
  {
  }

  /** Strict: the suffix from the normalised index, which must be in [0, len). */
  function NthTail<T>(s: seq<T>, index: int): (r: Result<seq<T>>)
    ensures r.Panic? <==> !(0 <= Normalize(|s|, index) < |s|)
    ensures r.Panic? ==> r.message == NthTailPanic
    ensures r.Ok? ==> 0 < |r.value| <= |s| && s[..|s| - |r.value|] + r.value == s
    ensures r.Ok? ==> |r.value| == |s| - Normalize(|s|, index)
  {
    var k := Normalize(|s|, index);
    if 0 <= k < |s| then Ok(s[k..]) else Panic(NthTailPanic)
  }

  /** `Nth` and `NthTail` agree: they panic on the same indices, and the
      element `Nth` returns is the first of the suffix `NthTail` returns. */
  lemma NthIsHeadOfNthTail<T>(s: seq<T>, index: int)
    ensures Nth(s, index).Ok? <==> NthTail(s, index).Ok?
    ensures Nth(s, index).Ok? ==> Nth(s, index).value == NthTail(s, index).value[0]
  {
  }

  /** Strict: the first n elements and the rest; n must normalise into
      [0, len), so the second part is never empty. */
  function Split<T>(s: seq<T>, n: int): (r: Result<(seq<T>, seq<T>)>)
    ensures r.Panic? <==> !(0 <= Normalize(|s|, n) < |s|)
    ensures r.Panic? ==> r.message == SplitPanic
    ensures r.Ok? ==> r.value.0 + r.value.1 == s && |r.value.0| == Normalize(|s|, n) && r.value.1 != []
  {
    var k := Normalize(|s|, n);
    if 0 <= k < |s| then Ok((s[..k], s[k..])) else Panic(SplitPanic)
  }

  /** Strict on `len < 0` (checked first) and on the start; at most `len`
      elements from the start, fewer when the list ends first. */
  function Sublist<T>(s: seq<T>, start: int, len: int): (r: Result<seq<T>>)
    ensures r.Panic? <==> len < 0 || !(0 <= Normalize(|s|, start) < |s|)
    ensures r.Panic? ==> r.message == if len < 0 then SublistLenPanic else SublistStartPanic
    ensures r.Ok? ==>
      var k := Normalize(|s|, start);
      && |r.value| == (if len < |s| - k then len else |s| - k)
      && r.value == s[k..k + |r.value|]
  {
    if len < 0 then Panic(SublistLenPanic)
    else
      var k := Normalize(|s|, start);
      if !(0 <= k < |s|) then Panic(SublistStartPanic)
      else if len < |s| - k then Ok(s[k..k + len]) else Ok(s[k..])
  }

  /* ---------------------------------------------------------------------
   * Construction helpers
   * --------------------------------------------------------------------- */

  /** `sep` between each pair of neighbours. */
  function Join<T>(s: seq<T>, sep: T): (r: seq<T>)
    ensures s == [] ==> r == []
    ensures s != [] ==> |r| == 2 * |s| - 1
  {
    if |s| <= 1 then s else [s[0], sep] + Join(s[1..], sep)
  }

  /** Joining one more element appends the separator and the element. */
  lemma {:induction false} JoinSnoc<T>(s: seq<T>, x: T, sep: T)
    ensures Join(s + [x], sep) == Join(s, sep) + (if s == [] then [x] else [sep, x])
  {
    if |s| == 1 {
      assert s + [x] == [s[0], x];
    } else if |s| > 1 {
      assert (s + [x])[1..] == s[1..] + [x];
      JoinSnoc(s[1..], x, sep);
    }
  }

  /** What the loop of `Join` has pushed onto the head of its result after
      visiting the first elements `p` of a list of length n: each element,
      and `sep` after every element that has a successor. */
  function JoinPushed<T>(p: seq<T>, sep: T, n: nat): seq<T>
  {
    if p == [] then []
    else (if |p| < n then [sep] else []) + [p[|p| - 1]] + JoinPushed(p[..|p| - 1], sep, n)
  }

  /** The pushed elements are the join so far read back to front, behind
      the separator still owed to the next element. */
  lemma {:induction false} JoinPushedReversed<T>(p: seq<T>, sep: T, n: nat)
    requires |p| <= n
    ensures JoinPushed(p, sep, n) == (if p != [] && |p| < n then [sep] else []) + Reversed(Join(p, sep))
  {
    if p != [] {
      var q, x := p[..|p| - 1], p[|p| - 1];
      JoinPushedReversed(q, sep, n);
      assert p == q + [x];
      JoinSnoc(q, x, sep);
      ReversedAppend(Join(q, sep), if q == [] then [x] else [sep, x]);
    }
  }

  /** The elements sit at the even positions, in order, and `sep` fills
      every odd position. */
  lemma JoinIndex<T>(s: seq<T>, sep: T)
    ensures forall i :: 0 <= i < |s| ==> Join(s, sep)[2 * i] == s[i]
    ensures forall i :: 0 <= i < |s| - 1 ==> Join(s, sep)[2 * i + 1] == sep
  {
    forall i | 0 <= i < |s| ensures Join(s, sep)[2 * i] == s[i] {
      JoinAt(s, sep, i);
    }
    forall i | 0 <= i < |s| - 1 ensures Join(s, sep)[2 * i + 1] == sep {
      JoinAt(s, sep, i);
    }
  }

  lemma {:induction false} JoinAt<T>(s: seq<T>, sep: T, i: nat)
    requires i < |s|
    ensures Join(s, sep)[2 * i] == s[i]
    ensures i < |s| - 1 ==> Join(s, sep)[2 * i + 1] == sep
  {
    if i > 0 {
      JoinAt(s[1..], sep, i - 1);
      assert Join(s, sep) == [s[0], sep] + Join(s[1..], sep);
    }
  }

  /** from, from + incr, ... while not above `to`. */
  function Progression(from: int, to: int, incr: int): (r: seq<int>)
    requires incr > 0 || from > to
    ensures from > to ==> r == []
    ensures from <= to ==> r != [] && r[0] == from
    decreases if from <= to then to - from + 1 else 0
  {
    if from > to then [] else [from] + Progression(from + incr, to, incr)
  }

  /** One step of `Seq`'s loop: `i` moves from the pending progression to
      the values already pushed. */
  lemma ProgressionStep(acc: seq<int>, i: int, to: int, incr: int)
    requires incr > 0 && i <= to
    ensures (acc + [i]) + Progression(i + incr, to, incr) == acc + Progression(i, to, incr)
  {
    assert Progression(i, to, incr) == [i] + Progression(i + incr, to, incr);
  }

  /** Element i is from + i * incr; every element is at most `to`, and the
      next step would pass it. */
  lemma ProgressionIndex(from: int, to: int, incr: int)
    requires incr > 0 || from > to
    ensures forall i :: 0 <= i < |Progression(from, to, incr)| ==>
      Progression(from, to, incr)[i] == from + i * incr <= to
    ensures from + |Progression(from, to, incr)| * incr > to
  {
    forall i | 0 <= i < |Progression(from, to, incr)|
      ensures Progression(from, to, incr)[i] == from + i * incr <= to
    {
      ProgressionAt(from, to, incr, i);
    }
    ProgressionEnd(from, to, incr);
  }

  lemma {:induction false} ProgressionAt(from: int, to: int, incr: int, i: nat)
    requires (incr > 0 || from > to) && i < |Progression(from, to, incr)|
    ensures Progression(from, to, incr)[i] == from + i * incr <= to
    decreases i
  {
    if i > 0 {
      var rest := Progression(from + incr, to, incr);
      assert Progression(from, to, incr) == [from] + rest;
      ProgressionAt(from + incr, to, incr, i - 1);
      assert (i - 1) * incr + incr == i * incr;
    }
  }

  lemma {:induction false} ProgressionEnd(from: int, to: int, incr: int)
    requires incr > 0 || from > to
    ensures from + |Progression(from, to, incr)| * incr > to
    decreases if from <= to then to - from + 1 else 0
  {
    if from <= to {
      var rest := Progression(from + incr, to, incr);
      assert Progression(from, to, incr) == [from] + rest;
      ProgressionEnd(from + incr, to, incr);
      assert |rest| * incr + incr == (|rest| + 1) * incr;
    }
  }

  /* ---------------------------------------------------------------------
   * Prefix and suffix
   * --------------------------------------------------------------------- */

  predicate IsPrefix<T(==)>(a: seq<T>, b: seq<T>)
  {
    |a| <= |b| && a == b[..|a|]
  }

  predicate IsSuffix<T(==)>(a: seq<T>, b: seq<T>)
  {
    |a| <= |b| && a == b[|b| - |a|..]
  }

  /** `Suffix` compares the reversed lists with `Prefix`, which decides the
      suffix relation. */
  lemma SuffixIsPrefixOfReversed<T>(a: seq<T>, b: seq<T>)
    ensures IsPrefix(Reversed(a), Reversed(b)) <==> IsSuffix(a, b)
  {
    if |a| <= |b| {
      if IsPrefix(Reversed(a), Reversed(b)) {
        forall j | 0 <= j < |a| ensures a[j] == b[|b| - |a| + j] {
          assert Reversed(a)[|a| - 1 - j] == Reversed(b)[|a| - 1 - j];
        }
      }
      if IsSuffix(a, b) {
        forall j | 0 <= j < |a| ensures Reversed(a)[j] == Reversed(b)[j] {
          assert a[|a| - 1 - j] == b[|b| - |a| + (|a| - 1 - j)];
        }
      }
    }
  }
}
