/** The two quicksorts of the library, stated over `seq<int>` exactly as
    the Go code computes them: three-way partition around the first
    element, buckets filled by pushing onto their head (so each bucket
    holds its elements in reverse list order), recursive sort of the outer
    buckets, and concatenation `less + equal + greater`. The unique variant
    skips every value already seen during the partition pass. */
module SortSpec {
  import opened ListSpec

  /** Which bucket an element falls into relative to the pivot. */
  datatype Order = Less | Equal | Greater

  function Compare(x: int, pivot: int): Order
  {
    if x < pivot then Less else if x == pivot then Equal else Greater
  }

  ghost predicate Sorted(s: seq<int>)
  {
    forall i, j :: 0 <= i < j < |s| ==> s[i] <= s[j]
  }

  ghost predicate StrictlyIncreasing(s: seq<int>)
  {
    forall i, j :: 0 <= i < j < |s| ==> s[i] < s[j]
  }

  /* ---------------------------------------------------------------------
   * Sort
   * --------------------------------------------------------------------- */

  /** The elements of `s` that fall into bucket `c`, in list order. */
  function Bucket(s: seq<int>, pivot: int, c: Order): seq<int>
  {
    if s == [] then []
    else (if Compare(s[0], pivot) == c then [s[0]] else []) + Bucket(s[1..], pivot, c)
  }

  lemma {:induction false} BucketShorter(s: seq<int>, pivot: int, c: Order)
    ensures |Bucket(s, pivot, c)| <= |s|
  {
    if s != [] {
      BucketShorter(s[1..], pivot, c);
    }
  }

  /** A bucket holds exactly the elements of the list that fall into it. */
  lemma {:induction false} BucketMembers(s: seq<int>, pivot: int, c: Order)
    ensures forall x :: x in Bucket(s, pivot, c) <==> x in s && Compare(x, pivot) == c
  {
    if s != [] {
      BucketMembers(s[1..], pivot, c);
      assert forall x :: x in s <==> x == s[0] || x in s[1..];
    }
  }

  /** One more element lands at the end of its bucket. */
  lemma {:induction false} BucketSnoc(s: seq<int>, x: int, pivot: int, c: Order)
    ensures Bucket(s + [x], pivot, c) == Bucket(s, pivot, c) + (if Compare(x, pivot) == c then [x] else [])
  {
    if s != [] {
      assert (s + [x])[0] == s[0] && (s + [x])[1..] == s[1..] + [x];
      BucketSnoc(s[1..], x, pivot, c);
      var head := if Compare(s[0], pivot) == c then [s[0]] else [];
      var tail := if Compare(x, pivot) == c then [x] else [];
      assert head + (Bucket(s[1..], pivot, c) + tail) == (head + Bucket(s[1..], pivot, c)) + tail;
    } else {
      assert s + [x] == [x] && [x][0] == x && [x][1..] == [];
    }
  }

  /** The three buckets split the list: every element lands in exactly one. */
  lemma {:induction false} BucketsPartition(s: seq<int>, pivot: int)
    ensures multiset(Bucket(s, pivot, Less)) + multiset(Bucket(s, pivot, Equal))
      + multiset(Bucket(s, pivot, Greater)) == multiset(s)
  {
    if s != [] {
      var t := s[1..];
      BucketsPartition(t, pivot);
      assert multiset(s) == multiset{s[0]} + multiset(t) by {
        assert s == [s[0]] + t;
      }
      BucketCons(s, pivot, Less);
      BucketCons(s, pivot, Equal);
      BucketCons(s, pivot, Greater);
    }
  }

  /** The first element goes to its own bucket and to no other. */
  lemma BucketCons(s: seq<int>, pivot: int, c: Order)
    requires s != []
    ensures multiset(Bucket(s, pivot, c))
      == (if Compare(s[0], pivot) == c then multiset{s[0]} else multiset{}) + multiset(Bucket(s[1..], pivot, c))
  {
    var head := if Compare(s[0], pivot) == c then [s[0]] else [];
    assert Bucket(s, pivot, c) == head + Bucket(s[1..], pivot, c);
  }

  /** What the partition loop has pushed onto the head of bucket `c` after
      visiting the elements `p`. */
  function BucketPushed(p: seq<int>, pivot: int, c: Order): seq<int>
  {
    if p == [] then []
    else (if Compare(p[|p| - 1], pivot) == c then [p[|p| - 1]] else []) + BucketPushed(p[..|p| - 1], pivot, c)
  }

  /** One step of the partitioning loop: visiting `s[i]` pushes it onto
      its own bucket and leaves the other two as they were. */
  lemma BucketPushedSnoc(s: seq<int>, i: int, pivot: int, c: Order)
    requires 0 <= i < |s|
    ensures BucketPushed(s[..i + 1], pivot, c) == (if Compare(s[i], pivot) == c then [s[i]] else []) + BucketPushed(s[..i], pivot, c)
  {
    assert s[..i + 1][..i] == s[..i];
  }

  /** Pushing onto the head builds each bucket back to front. */
  lemma {:induction false} BucketPushedReversed(p: seq<int>, pivot: int, c: Order)
    ensures BucketPushed(p, pivot, c) == Reversed(Bucket(p, pivot, c))
  {
    if p != [] {
      var q, x := p[..|p| - 1], p[|p| - 1];
      BucketPushedReversed(q, pivot, c);
      assert p == q + [x];
      BucketSnoc(q, x, pivot, c);
      ReversedAppend(Bucket(q, pivot, c), if Compare(x, pivot) == c then [x] else []);
    }
  }

  /** `quickSort`: buckets are read back to front because they were built by
      pushing onto their head. */
  function QuickSort(s: seq<int>): (r: seq<int>)
    decreases |s|
  {
    if |s| <= 1 then s
    else
      var pivot := s[0];
      var less := Reversed(Bucket(s, pivot, Less));
      var equal := Reversed(Bucket(s, pivot, Equal));
      var greater := Reversed(Bucket(s, pivot, Greater));
      BucketsShrink(s);
      QuickSort(less) + equal + QuickSort(greater)
  }

  /** `quickSort` sorts: its result is ordered and a permutation of the
      list. */
  lemma {:induction false} QuickSortSorts(s: seq<int>)
    ensures Sorted(QuickSort(s))
    ensures multiset(QuickSort(s)) == multiset(s)
    decreases |s|
  {
    if |s| > 1 {
      var pivot := s[0];
      BucketsShrink(s);
      QuickSortSorts(Reversed(Bucket(s, pivot, Less)));
      QuickSortSorts(Reversed(Bucket(s, pivot, Greater)));
      ReversedMultiset(Bucket(s, pivot, Less));
      ReversedMultiset(Bucket(s, pivot, Greater));
      QuickSortStep(s, QuickSort(Reversed(Bucket(s, pivot, Less))), QuickSort(Reversed(Bucket(s, pivot, Greater))));
    }
  }

  /** One level of the recursion of `QuickSort`, spelled out. */
  lemma QuickSortUnfold(s: seq<int>)
    requires |s| > 1
    ensures QuickSort(s) == QuickSort(Reversed(Bucket(s, s[0], Less)))
      + Reversed(Bucket(s, s[0], Equal)) + QuickSort(Reversed(Bucket(s, s[0], Greater)))
  {
  }

  /** The pivot lands in the equal bucket, so the outer buckets are shorter
      than the list. */
  lemma BucketsShrink(s: seq<int>)
    requires s != []
    ensures |Reversed(Bucket(s, s[0], Less))| < |s|
    ensures |Reversed(Bucket(s, s[0], Greater))| < |s|
    ensures |Reversed(UBucket(s, {}, s[0], Less))| < |s|
    ensures |Reversed(UBucket(s, {}, s[0], Greater))| < |s|
  {
    assert Bucket(s, s[0], Less) == Bucket(s[1..], s[0], Less);
    assert Bucket(s, s[0], Greater) == Bucket(s[1..], s[0], Greater);
    BucketShorter(s[1..], s[0], Less);
    BucketShorter(s[1..], s[0], Greater);
  }

  /** One level of `quickSort`: given sorted permutations of the outer
      buckets, `less + equal + greater` is a sorted permutation of the list. */
  lemma QuickSortStep(s: seq<int>, sortedLess: seq<int>, sortedGreater: seq<int>)
    requires s != []
    requires Sorted(sortedLess) && multiset(sortedLess) == multiset(Bucket(s, s[0], Less))
    requires Sorted(sortedGreater) && multiset(sortedGreater) == multiset(Bucket(s, s[0], Greater))
    ensures Sorted(sortedLess + Reversed(Bucket(s, s[0], Equal)) + sortedGreater)
    ensures multiset(sortedLess + Reversed(Bucket(s, s[0], Equal)) + sortedGreater) == multiset(s)
  {
    var pivot := s[0];
    var equal := Reversed(Bucket(s, pivot, Equal));
    BucketsPartition(s, pivot);
    ReversedMultiset(Bucket(s, pivot, Equal));
    InBucket(sortedLess, s, pivot, Less);
    InBucket(equal, s, pivot, Equal);
    InBucket(sortedGreater, s, pivot, Greater);
    SortedThree(sortedLess, equal, sortedGreater, pivot);
  }

  /** A permutation of a bucket holds only elements of that bucket. */
  lemma InBucket(t: seq<int>, s: seq<int>, pivot: int, c: Order)
    requires multiset(t) == multiset(Bucket(s, pivot, c))
    ensures forall x :: x in t ==> Compare(x, pivot) == c
  {
    BucketMembers(s, pivot, c);
    forall x | x in t ensures Compare(x, pivot) == c {
      assert x in multiset(t);
      assert x in Bucket(s, pivot, c);
    }
  }

  /** Concatenating a sorted run below the pivot, a run of pivots and a
      sorted run above the pivot gives a sorted list. */
  lemma SortedThree(a: seq<int>, b: seq<int>, c: seq<int>, pivot: int)
    requires Sorted(a) && Sorted(c)
    requires forall x :: x in a ==> Compare(x, pivot) == Less
    requires forall x :: x in b ==> Compare(x, pivot) == Equal
    requires forall x :: x in c ==> Compare(x, pivot) == Greater
    ensures Sorted(a + b + c)
  {
    var s := a + b + c;
    forall i, j | 0 <= i < j < |s| ensures s[i] <= s[j] {
      if i < |a| {
        assert s[i] in a;
      } else if i < |a| + |b| {
        assert s[i] in b;
      }
      if j >= |a| + |b| {
        assert s[j] in c;
      } else if j >= |a| {
        assert s[j] in b;
      }
    }
  }

  /** The first element of a sorted list is its least. */
  lemma SortedHeadIsLeast(a: seq<int>, x: int)
    requires Sorted(a) && x in a
    ensures a[0] <= x
  {
    var i :| 0 <= i < |a| && a[i] == x;
  }

  /** Dropping the first element keeps a list sorted and removes one
      occurrence of that element. */
  lemma SortedTail(a: seq<int>)
    requires Sorted(a) && a != []
    ensures Sorted(a[1..])
    ensures multiset(a[1..]) == multiset(a) - multiset{a[0]}
  {
    assert a == [a[0]] + a[1..];
  }

  /** A sorted permutation is unique, so `QuickSort` agrees with every other
      way of sorting. */
  lemma {:induction false} SortedPermutationUnique(a: seq<int>, b: seq<int>)
    requires Sorted(a) && Sorted(b) && multiset(a) == multiset(b)
    ensures a == b
    decreases |a|
  {
    if a != [] {
      SortedHeadsEqual(a, b);
      SortedTail(a);
      SortedTail(b);
      SortedPermutationUnique(a[1..], b[1..]);
      assert a == [a[0]] + a[1..] && b == [b[0]] + b[1..];
    } else {
      assert |b| == |multiset(b)| == 0;
    }
  }

  /** Two sorted permutations of a non-empty list start with its least
      element. */
  lemma SortedHeadsEqual(a: seq<int>, b: seq<int>)
    requires Sorted(a) && Sorted(b) && multiset(a) == multiset(b) && a != []
    ensures b != [] && a[0] == b[0]
  {
    assert a[0] in multiset(a);
    assert b != [];
    assert b[0] in multiset(b);
    SortedHeadIsLeast(a, b[0]);
    SortedHeadIsLeast(b, a[0]);
  }

  /** Sorting a list that is already sorted changes nothing. */
  lemma QuickSortIdempotent(s: seq<int>)
    ensures QuickSort(QuickSort(s)) == QuickSort(s)
  {
    QuickSortSorts(s);
    QuickSortSorts(QuickSort(s));
    SortedPermutationUnique(QuickSort(QuickSort(s)), QuickSort(s));
  }

  /* ---------------------------------------------------------------------
   * Unique sort
   * --------------------------------------------------------------------- */

  /** The elements of `s` that fall into bucket `c` and were not seen
      before, in list order; `seen` is the set of values the partition pass
      has already met. */
  function UBucket(s: seq<int>, seen: set<int>, pivot: int, c: Order): (r: seq<int>)
    ensures |r| <= |s|
  {
    if s == [] then []
    else if s[0] in seen then UBucket(s[1..], seen, pivot, c)
    else
      var rest := UBucket(s[1..], seen + {s[0]}, pivot, c);
      (if Compare(s[0], pivot) == c then [s[0]] else []) + rest
  }

  /** A bucket of the unique partition holds each value of its bucket that
      was not seen before exactly once. */
  lemma {:induction false} UBucketMembers(s: seq<int>, seen: set<int>, pivot: int, c: Order)
    ensures forall x :: x in UBucket(s, seen, pivot, c) <==> x in s && x !in seen && Compare(x, pivot) == c
    ensures forall i, j :: 0 <= i < j < |UBucket(s, seen, pivot, c)| ==>
      UBucket(s, seen, pivot, c)[i] != UBucket(s, seen, pivot, c)[j]
  {
    if s != [] {
      if s[0] in seen {
        UBucketMembers(s[1..], seen, pivot, c);
      } else {
        UBucketMembers(s[1..], seen + {s[0]}, pivot, c);
      }
      assert forall x :: x in s <==> x == s[0] || x in s[1..];
    }
  }

  /** One more element lands at the end of its bucket unless it was seen
      before, either in `seen` or earlier in the list. */
  lemma {:induction false} UBucketSnoc(s: seq<int>, x: int, seen: set<int>, pivot: int, c: Order)
    ensures UBucket(s + [x], seen, pivot, c)
      == UBucket(s, seen, pivot, c) + (if x !in s && x !in seen && Compare(x, pivot) == c then [x] else [])
  {
    if s == [] {
      assert s + [x] == [x] && [x][0] == x && [x][1..] == [];
    } else {
      var t := s[1..];
      assert (s + [x])[0] == s[0] && (s + [x])[1..] == t + [x];
      assert x in s <==> x == s[0] || x in t by {
        assert s == [s[0]] + t;
      }
      if s[0] in seen {
        UBucketSnoc(t, x, seen, pivot, c);
      } else {
        var seen' := seen + {s[0]};
        UBucketSnoc(t, x, seen', pivot, c);
        var head := if Compare(s[0], pivot) == c then [s[0]] else [];
        var rest := UBucket(t, seen', pivot, c);
        var tail := if x !in t && x !in seen' && Compare(x, pivot) == c then [x] else [];
        assert head + (rest + tail) == (head + rest) + tail;
      }
    }
  }

  /** Once the pivot has been seen, no further element reaches the equal
      bucket. */
  lemma {:induction false} UBucketEqualAfterPivot(s: seq<int>, seen: set<int>, pivot: int)
    requires pivot in seen
    ensures UBucket(s, seen, pivot, Equal) == []
  {
    if s != [] {
      if s[0] in seen {
        UBucketEqualAfterPivot(s[1..], seen, pivot);
      } else {
        UBucketEqualAfterPivot(s[1..], seen + {s[0]}, pivot);
      }
    }
  }

  /** The equal bucket of the unique sort holds exactly the pivot. */
  lemma UBucketEqualIsPivot(s: seq<int>)
    requires s != []
    ensures UBucket(s, {}, s[0], Equal) == [s[0]]
  {
    assert {} + {s[0]} == {s[0]};
    UBucketEqualAfterPivot(s[1..], {s[0]}, s[0]);
  }

  /** What the unique partition loop has pushed onto the head of bucket `c`
      after visiting the elements `p`: an element is pushed only when no
      earlier element had its value. */
  function UBucketPushed(p: seq<int>, pivot: int, c: Order): seq<int>
  {
    if p == [] then []
    else
      var q, x := p[..|p| - 1], p[|p| - 1];
      (if x !in q && Compare(x, pivot) == c then [x] else []) + UBucketPushed(q, pivot, c)
  }

  lemma {:induction false} UBucketPushedReversed(p: seq<int>, pivot: int, c: Order)
    ensures UBucketPushed(p, pivot, c) == Reversed(UBucket(p, {}, pivot, c))
  {
    if p != [] {
      var q, x := p[..|p| - 1], p[|p| - 1];
      UBucketPushedReversed(q, pivot, c);
      assert p == q + [x];
      UBucketSnoc(q, x, {}, pivot, c);
      ReversedAppend(UBucket(q, {}, pivot, c), if x !in q && Compare(x, pivot) == c then [x] else []);
    }
  }

  /** `uniqueQuickSort`. */
  function UniqueQuickSort(s: seq<int>): (r: seq<int>)
    decreases |s|
  {
    if |s| <= 1 then s
    else
      var pivot := s[0];
      var less := Reversed(UBucket(s, {}, pivot, Less));
      var equal := Reversed(UBucket(s, {}, pivot, Equal));
      var greater := Reversed(UBucket(s, {}, pivot, Greater));
      BucketsShrink(s);
      UniqueQuickSort(less) + equal + UniqueQuickSort(greater)
  }

  /** `uniqueQuickSort` sorts strictly: its result is strictly increasing
      and holds exactly the values of the list. */
  lemma {:induction false} UniqueQuickSortSorts(s: seq<int>)
    ensures StrictlyIncreasing(UniqueQuickSort(s))
    ensures forall x :: x in UniqueQuickSort(s) <==> x in s
    decreases |s|
  {
    if |s| > 1 {
      var pivot := s[0];
      BucketsShrink(s);
      UniqueQuickSortSorts(Reversed(UBucket(s, {}, pivot, Less)));
      UniqueQuickSortSorts(Reversed(UBucket(s, {}, pivot, Greater)));
      UniqueQuickSortStep(s, UniqueQuickSort(Reversed(UBucket(s, {}, pivot, Less))),
        UniqueQuickSort(Reversed(UBucket(s, {}, pivot, Greater))));
    }
  }

  /** One level of the recursion of `UniqueQuickSort`, spelled out. */
  lemma UniqueQuickSortUnfold(s: seq<int>)
    requires |s| > 1
    ensures UniqueQuickSort(s) == UniqueQuickSort(Reversed(UBucket(s, {}, s[0], Less)))
      + Reversed(UBucket(s, {}, s[0], Equal)) + UniqueQuickSort(Reversed(UBucket(s, {}, s[0], Greater)))
  {
  }

  /** One level of `uniqueQuickSort`: given strictly increasing lists with
      the values of the outer buckets, `less + equal + greater` is strictly
      increasing and holds exactly the values of the list. */
  lemma UniqueQuickSortStep(s: seq<int>, sortedLess: seq<int>, sortedGreater: seq<int>)
    requires s != []
    requires StrictlyIncreasing(sortedLess)
    requires forall x :: x in sortedLess <==> x in Reversed(UBucket(s, {}, s[0], Less))
    requires StrictlyIncreasing(sortedGreater)
    requires forall x :: x in sortedGreater <==> x in Reversed(UBucket(s, {}, s[0], Greater))
    ensures StrictlyIncreasing(sortedLess + Reversed(UBucket(s, {}, s[0], Equal)) + sortedGreater)
    ensures forall x :: x in sortedLess + Reversed(UBucket(s, {}, s[0], Equal)) + sortedGreater <==> x in s
  {
    var pivot := s[0];
    UBucketEqualIsPivot(s);
    assert Reversed(UBucket(s, {}, pivot, Equal)) == [pivot];
    InUBucket(sortedLess, s, Less);
    InUBucket(sortedGreater, s, Greater);
    StrictlyIncreasingThree(sortedLess, pivot, sortedGreater);
    forall x ensures x in sortedLess + [pivot] + sortedGreater <==> x in s {
      assert x in sortedLess + [pivot] + sortedGreater <==> x in sortedLess || x == pivot || x in sortedGreater;
    }
  }

  /** A list with the values of a bucket of the unique sort holds exactly
      the values of the list that fall into that bucket. */
  lemma InUBucket(t: seq<int>, s: seq<int>, c: Order)
    requires s != []
    requires forall x :: x in t <==> x in Reversed(UBucket(s, {}, s[0], c))
    ensures forall x :: x in t <==> x in s && Compare(x, s[0]) == c
  {
    var u := UBucket(s, {}, s[0], c);
    UBucketMembers(s, {}, s[0], c);
    ReversedMultiset(u);
    forall x ensures x in t <==> x in s && Compare(x, s[0]) == c {
      assert x in Reversed(u) <==> x in multiset(Reversed(u));
      assert x in u <==> x in multiset(u);
    }
  }

  /** A strictly increasing run below the pivot, the pivot once, and a
      strictly increasing run above it, form a strictly increasing list. */
  lemma StrictlyIncreasingThree(a: seq<int>, pivot: int, c: seq<int>)
    requires StrictlyIncreasing(a) && StrictlyIncreasing(c)
    requires forall x :: x in a ==> Compare(x, pivot) == Less
    requires forall x :: x in c ==> Compare(x, pivot) == Greater
    ensures StrictlyIncreasing(a + [pivot] + c)
  {
    var s := a + [pivot] + c;
    forall i, j | 0 <= i < j < |s| ensures s[i] < s[j] {
      if i < |a| {
        assert s[i] in a;
      }
      if j > |a| {
        assert s[j] in c;
      }
    }
  }
}
