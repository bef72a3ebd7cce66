/** Merge, quick and insertion sort over lists, and that each gives the one sorted permutation. */
module Sorts {
  import opened Collections

  ghost predicate Sorted(s: seq<int>) {
    forall i, j | 0 <= i < j < |s| :: s[i] <= s[j]
  }

  ghost predicate SortsTo(s: seq<int>, r: seq<int>) {
    Sorted(r) && multiset(r) == multiset(s)
  }

  // ---- Merge sort ----

  function Merge(a: seq<int>, b: seq<int>): seq<int>
    decreases |a| + |b|
  {
    if a == [] then b
    else if b == [] then a
    else if a[0] <= b[0] then [a[0]] + Merge(a[1..], b)
    else [b[0]] + Merge(a, b[1..])
  }

  function MergeSort(s: seq<int>): seq<int>
    decreases |s|
  {
    if |s| <= 1 then s
    else
      var mid := |s| / 2;
      Merge(MergeSort(s[..mid]), MergeSort(s[mid..]))
  }

  // ---- Quick sort ----

  function Less(s: seq<int>, pivot: int): (r: seq<int>)
    ensures |r| <= |s|
  {
    if s == [] then [] else (if s[0] < pivot then [s[0]] else []) + Less(s[1..], pivot)
  }

  function NotLess(s: seq<int>, pivot: int): (r: seq<int>)
    ensures |r| <= |s|
  {
    if s == [] then [] else (if s[0] < pivot then [] else [s[0]]) + NotLess(s[1..], pivot)
  }

  function QuickSort(s: seq<int>): seq<int>
    decreases |s|
  {
    if s == [] then []
    else QuickSort(Less(s[1..], s[0])) + [s[0]] + QuickSort(NotLess(s[1..], s[0]))
  }

  // ---- Insertion sort ----

  function Ins(x: int, s: seq<int>): seq<int> {
    if s == [] || x <= s[0] then [x] + s else [s[0]] + Ins(x, s[1..])
  }

  function InsertAll(s: seq<int>, acc: seq<int>): seq<int> {
    if s == [] then acc else InsertAll(s[1..], Ins(s[0], acc))
  }

  function InsertionSort(s: seq<int>): seq<int> {
    InsertAll(s, [])
  }

  // ---- Same elements ----

  ghost predicate SameCounts(a: seq<int>, b: seq<int>) {
    forall x :: Count(a, x) == Count(b, x)
  }

  lemma SameCountsIs(a: seq<int>, b: seq<int>)
    ensures SameCounts(a, b) <==> multiset(a) == multiset(b)
  {
    forall x ensures Count(a, x) == multiset(a)[x] && Count(b, x) == multiset(b)[x] {
      CountIs(a, x);
      CountIs(b, x);
    }
    if SameCounts(a, b) {
      forall x ensures multiset(a)[x] == multiset(b)[x] {
        assert Count(a, x) == Count(b, x);
      }
    }
  }

  // ---- One sorted permutation ----

  /** `x` is at most the first element, so at most every element of a sorted list. */
  ghost predicate AtMost(x: int, s: seq<int>) {
    s == [] || x <= s[0]
  }

  lemma SortedCons(x: int, s: seq<int>)
    requires Sorted(s) && AtMost(x, s)
    ensures Sorted([x] + s)
  {
  }

  lemma {:induction false} SortedUnique(a: seq<int>, b: seq<int>)
    requires Sorted(a) && Sorted(b) && SameCounts(a, b)
    ensures a == b
  {
    hide Count;
    if a == [] {
      EmptyUnique(a, b);
    } else if b == [] {
      EmptyUnique(b, a);
    } else {
      HeadIn(a, b);
      HeadIn(b, a);
      forall x ensures Count(a[1..], x) == Count(b[1..], x) {
        CountCons(a[0], a[1..], x);
        CountCons(b[0], b[1..], x);
        assert a == [a[0]] + a[1..] && b == [b[0]] + b[1..];
      }
      SortedUnique(a[1..], b[1..]);
      assert a == [a[0]] + a[1..] && b == [b[0]] + b[1..];
    }
  }

  lemma EmptyUnique(a: seq<int>, b: seq<int>)
    requires SameCounts(a, b) && a == []
    ensures b == []
  {
    if b != [] {
      CountPositive(a, b[0]);
      CountPositive(b, b[0]);
    }
  }

  lemma HeadIn(a: seq<int>, b: seq<int>)
    requires Sorted(b) && SameCounts(a, b) && a != [] && b != []
    ensures b[0] <= a[0]
  {
    CountPositive(a, a[0]);
    CountPositive(b, a[0]);
  }

  // ---- The three sorts ----

  lemma {:induction false} MergeCounts(a: seq<int>, b: seq<int>, x: int)
    ensures Count(Merge(a, b), x) == Count(a, x) + Count(b, x)
    decreases |a| + |b|
  {
    if a != [] && b != [] {
      if a[0] <= b[0] {
        MergeCounts(a[1..], b, x);
        CountCons(a[0], Merge(a[1..], b), x);
      } else {
        MergeCounts(a, b[1..], x);
        CountCons(b[0], Merge(a, b[1..]), x);
      }
    }
  }

  lemma {:induction false} MergeSorted(a: seq<int>, b: seq<int>)
    requires Sorted(a) && Sorted(b)
    ensures Sorted(Merge(a, b))
    ensures forall lo :: AtMost(lo, a) && AtMost(lo, b) ==> AtMost(lo, Merge(a, b))
    decreases |a| + |b|
  {
    if a != [] && b != [] {
      if a[0] <= b[0] {
        MergeSorted(a[1..], b);
        SortedCons(a[0], Merge(a[1..], b));
      } else {
        MergeSorted(a, b[1..]);
        SortedCons(b[0], Merge(a, b[1..]));
      }
    }
  }

  lemma {:induction false} MergeSortCounts(s: seq<int>, x: int)
    ensures Count(MergeSort(s), x) == Count(s, x)
    decreases |s|
  {
    if |s| > 1 {
      hide Count, Merge;
      var mid := |s| / 2;
      MergeSortCounts(s[..mid], x);
      MergeSortCounts(s[mid..], x);
      MergeCounts(MergeSort(s[..mid]), MergeSort(s[mid..]), x);
      CountAppend(s[..mid], s[mid..], x);
      assert s == s[..mid] + s[mid..];
    }
  }

  lemma {:induction false} MergeSortSorted(s: seq<int>)
    ensures Sorted(MergeSort(s))
    decreases |s|
  {
    if |s| > 1 {
      hide Merge, Sorted;
      var mid := |s| / 2;
      MergeSortSorted(s[..mid]);
      MergeSortSorted(s[mid..]);
      MergeSorted(MergeSort(s[..mid]), MergeSort(s[mid..]));
    }
  }

  lemma MergeSortSorts(s: seq<int>)
    ensures SortsTo(s, MergeSort(s)) && SameCounts(s, MergeSort(s))
  {
    hide MergeSort, Count;
    MergeSortSorted(s);
    forall x {
      MergeSortCounts(s, x);
    }
    SameCountsIs(s, MergeSort(s));
  }

  lemma {:induction false} SplitCounts(s: seq<int>, pivot: int, x: int)
    ensures Count(Less(s, pivot), x) == if x < pivot then Count(s, x) else 0
    ensures Count(NotLess(s, pivot), x) == if x < pivot then 0 else Count(s, x)
  {
    if s != [] {
      SplitCounts(s[1..], pivot, x);
      CountCons(s[0], Less(s[1..], pivot), x);
      CountCons(s[0], NotLess(s[1..], pivot), x);
      assert [] + Less(s[1..], pivot) == Less(s[1..], pivot);
      assert [] + NotLess(s[1..], pivot) == NotLess(s[1..], pivot);
    }
  }

  lemma {:induction false} QuickSortCounts(s: seq<int>, x: int)
    ensures Count(QuickSort(s), x) == Count(s, x)
    decreases |s|
  {
    if s != [] {
      hide Count;
      var pivot, rest := s[0], s[1..];
      var a, b := QuickSort(Less(rest, pivot)), QuickSort(NotLess(rest, pivot));
      QuickSortCounts(Less(rest, pivot), x);
      QuickSortCounts(NotLess(rest, pivot), x);
      SplitCounts(rest, pivot, x);
      CountCons(pivot, rest, x);
      assert s == [pivot] + rest;
      CountCons(pivot, b, x);
      CountAppend(a, [pivot] + b, x);
      assert a + [pivot] + b == a + ([pivot] + b);
    }
  }

  /** Sorting keeps the elements on their side of the pivot. */
  lemma QuickSide(s: seq<int>, pivot: int, y: int)
    ensures y in QuickSort(Less(s, pivot)) ==> y < pivot
    ensures y in QuickSort(NotLess(s, pivot)) ==> pivot <= y
  {
    hide Count, QuickSort;
    QuickSortCounts(Less(s, pivot), y);
    QuickSortCounts(NotLess(s, pivot), y);
    CountPositive(QuickSort(Less(s, pivot)), y);
    CountPositive(QuickSort(NotLess(s, pivot)), y);
    SplitCounts(s, pivot, y);
  }

  lemma {:induction false} QuickSortSorted(s: seq<int>)
    ensures Sorted(QuickSort(s))
    decreases |s|
  {
    if s != [] {
      var pivot, rest := s[0], s[1..];
      var a, b := QuickSort(Less(rest, pivot)), QuickSort(NotLess(rest, pivot));
      QuickSortSorted(Less(rest, pivot));
      QuickSortSorted(NotLess(rest, pivot));
      forall i | 0 <= i < |a| ensures a[i] < pivot {
        QuickSide(rest, pivot, a[i]);
      }
      forall i | 0 <= i < |b| ensures pivot <= b[i] {
        QuickSide(rest, pivot, b[i]);
      }
      SortedJoin(a, pivot, b);
    }
  }

  lemma SortedJoin(a: seq<int>, x: int, b: seq<int>)
    requires Sorted(a) && Sorted(b)
    requires forall i | 0 <= i < |a| :: a[i] <= x
    requires forall i | 0 <= i < |b| :: x <= b[i]
    ensures Sorted(a + [x] + b)
  {
  }

  lemma {:induction false} InsCounts(y: int, s: seq<int>, x: int)
    ensures Count(Ins(y, s), x) == (if y == x then 1 else 0) + Count(s, x)
  {
    CountCons(y, s, x);
    if s != [] && y > s[0] {
      InsCounts(y, s[1..], x);
      CountCons(s[0], Ins(y, s[1..]), x);
    }
  }

  lemma {:induction false} InsSorted(y: int, s: seq<int>)
    requires Sorted(s)
    ensures Sorted(Ins(y, s))
    ensures forall lo :: AtMost(lo, s) && lo <= y ==> AtMost(lo, Ins(y, s))
  {
    if s != [] && y > s[0] {
      InsSorted(y, s[1..]);
      SortedCons(s[0], Ins(y, s[1..]));
    }
  }

  lemma {:induction false} InsertAllCounts(s: seq<int>, acc: seq<int>, x: int)
    ensures Count(InsertAll(s, acc), x) == Count(s, x) + Count(acc, x)
  {
    if s != [] {
      InsCounts(s[0], acc, x);
      InsertAllCounts(s[1..], Ins(s[0], acc), x);
    }
  }

  lemma {:induction false} InsertAllSorted(s: seq<int>, acc: seq<int>)
    requires Sorted(acc)
    ensures Sorted(InsertAll(s, acc))
  {
    if s != [] {
      hide Sorted;
      InsSorted(s[0], acc);
      InsertAllSorted(s[1..], Ins(s[0], acc));
    }
  }

  /** The three sorts agree: each gives the sorted permutation of its input. */
  lemma SortsAgree(s: seq<int>)
    ensures SortsTo(s, MergeSort(s))
    ensures QuickSort(s) == MergeSort(s) && InsertionSort(s) == MergeSort(s)
  {
    hide MergeSort, QuickSort, InsertAll, Sorted;
    MergeSortSorts(s);
    QuickSortSorted(s);
    assert Sorted([]) by { SortedSmall(); }
    InsertAllSorted(s, []);
    forall x ensures Count(QuickSort(s), x) == Count(s, x) == Count(InsertionSort(s), x) {
      assert Count([], x) == 0 by { CountPositive([], x); }
      QuickSortCounts(s, x);
      InsertAllCounts(s, [], x);
    }
    SortedUnique(QuickSort(s), MergeSort(s));
    SortedUnique(InsertionSort(s), MergeSort(s));
  }

  lemma SortedSmall()
    ensures Sorted([])
  {
  }

  /** Merging two sorted runs sorts their concatenation. */
  lemma MergeIsSort(a: seq<int>, b: seq<int>)
    requires Sorted(a) && Sorted(b)
    ensures Merge(a, b) == MergeSort(a + b)
  {
    hide Merge, MergeSort, Sorted, Count;
    MergeSorted(a, b);
    MergeSortSorts(a + b);
    forall x ensures Count(Merge(a, b), x) == Count(a + b, x) {
      MergeCounts(a, b, x);
      CountAppend(a, b, x);
    }
    SortedUnique(Merge(a, b), MergeSort(a + b));
  }
}
