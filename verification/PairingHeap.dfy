/** The pairing heap, ordered by a projection of its elements. */
module PairingHeap {
  import opened Collections
  import opened Sorts

  datatype Heap<T> = Empty | Tree(value: T, children: seq<Heap<T>>)

  function Size<T>(h: Heap<T>): nat {
    if h.Empty? then 0 else 1 + SizeAll(h.children)
  }

  function SizeAll<T>(hs: seq<Heap<T>>): nat {
    if hs == [] then 0 else Size(hs[0]) + SizeAll(hs[1..])
  }

  function Merge<T>(h1: Heap<T>, h2: Heap<T>, key: T -> int): Heap<T> {
    if h1.Empty? then h2
    else if h2.Empty? then h1
    else if key(h1.value) <= key(h2.value) then Tree(h1.value, [h2] + h1.children)
    else Tree(h2.value, [h1] + h2.children)
  }

  function Insert<T>(h: Heap<T>, x: T, key: T -> int): Heap<T> {
    Merge(h, Tree(x, []), key)
  }

  function MergePairs<T>(hs: seq<Heap<T>>, key: T -> int): Heap<T> {
    if hs == [] then Empty
    else if |hs| == 1 then hs[0]
    else Merge(Merge(hs[0], hs[1], key), MergePairs(hs[2..], key), key)
  }

  function Build<T>(s: seq<T>, h: Heap<T>, key: T -> int): Heap<T> {
    if s == [] then h else Build(s[1..], Insert(h, s[0], key), key)
  }

  function Drain<T>(h: Heap<T>, acc: seq<T>, key: T -> int): seq<T>
    decreases Size(h)
  {
    if h.Empty? then Reverse(acc)
    else
      PairsSize(h.children, key);
      Drain(MergePairs(h.children, key), [h.value] + acc, key)
  }

  /** The `k` smallest. */
  function Take<T>(h: Heap<T>, k: nat, acc: seq<T>, key: T -> int): seq<T>
    decreases k
  {
    if h.Empty? || k == 0 then Reverse(acc)
    else Take(MergePairs(h.children, key), k - 1, [h.value] + acc, key)
  }

  // ---- Sizes ----

  lemma MergeSize<T>(h1: Heap<T>, h2: Heap<T>, key: T -> int)
    ensures Size(Merge(h1, h2, key)) == Size(h1) + Size(h2)
  {
    if h1.Tree? && h2.Tree? {
      assert ([h2] + h1.children)[1..] == h1.children;
      assert ([h1] + h2.children)[1..] == h2.children;
    }
  }

  lemma {:induction false} PairsSize<T>(hs: seq<Heap<T>>, key: T -> int)
    ensures Size(MergePairs(hs, key)) == SizeAll(hs)
  {
    if |hs| == 1 {
      assert hs[1..] == [];
    } else if |hs| > 1 {
      hide Size, Merge;
      assert hs[1..][0] == hs[1] && hs[1..][1..] == hs[2..];
      PairsSize(hs[2..], key);
      MergeSize(hs[0], hs[1], key);
      MergeSize(Merge(hs[0], hs[1], key), MergePairs(hs[2..], key), key);
    } else {
      assert Size(MergePairs(hs, key)) == 0;
    }
  }

  // ---- Elements ----

  function Occurs<T(==)>(h: Heap<T>, x: T): nat {
    if h.Empty? then 0 else (if h.value == x then 1 else 0) + OccursAll(h.children, x)
  }

  function OccursAll<T(==)>(hs: seq<Heap<T>>, x: T): nat {
    if hs == [] then 0 else Occurs(hs[0], x) + OccursAll(hs[1..], x)
  }

  lemma MergeOccurs<T>(h1: Heap<T>, h2: Heap<T>, key: T -> int, x: T)
    ensures Occurs(Merge(h1, h2, key), x) == Occurs(h1, x) + Occurs(h2, x)
  {
    if h1.Tree? && h2.Tree? {
      assert ([h2] + h1.children)[1..] == h1.children;
      assert ([h1] + h2.children)[1..] == h2.children;
    }
  }

  lemma {:induction false} PairsOccurs<T>(hs: seq<Heap<T>>, key: T -> int, x: T)
    ensures Occurs(MergePairs(hs, key), x) == OccursAll(hs, x)
  {
    if |hs| == 1 {
      assert hs[1..] == [];
    } else if |hs| > 1 {
      hide Occurs, Merge;
      assert hs[1..][0] == hs[1] && hs[1..][1..] == hs[2..];
      PairsOccurs(hs[2..], key, x);
      MergeOccurs(hs[0], hs[1], key, x);
      MergeOccurs(Merge(hs[0], hs[1], key), MergePairs(hs[2..], key), key, x);
    } else {
      assert Occurs(MergePairs(hs, key), x) == 0;
    }
  }

  lemma {:induction false} BuildOccurs<T>(s: seq<T>, h: Heap<T>, key: T -> int, x: T)
    ensures Occurs(Build(s, h, key), x) == Count(s, x) + Occurs(h, x)
  {
    if s != [] {
      MergeOccurs(h, Tree(s[0], []), key, x);
      BuildOccurs(s[1..], Insert(h, s[0], key), key, x);
    }
  }

  // ---- Order ----

  ghost predicate Below<T>(k: int, h: Heap<T>, key: T -> int) {
    h.Empty? || k <= key(h.value)
  }

  ghost predicate BelowAll<T>(k: int, hs: seq<Heap<T>>, key: T -> int) {
    forall i | 0 <= i < |hs| :: Below(k, hs[i], key)
  }

  ghost predicate Ordered<T>(h: Heap<T>, key: T -> int) {
    h.Empty? || (BelowAll(key(h.value), h.children, key) && OrderedAll(h.children, key))
  }

  ghost predicate OrderedAll<T>(hs: seq<Heap<T>>, key: T -> int) {
    forall i | 0 <= i < |hs| :: Ordered(hs[i], key)
  }

  lemma MergeOrdered<T>(h1: Heap<T>, h2: Heap<T>, key: T -> int)
    requires Ordered(h1, key) && Ordered(h2, key)
    ensures Ordered(Merge(h1, h2, key), key)
    ensures forall k :: Below(k, h1, key) && Below(k, h2, key) ==> Below(k, Merge(h1, h2, key), key)
  {
  }

  lemma {:induction false} PairsOrdered<T>(hs: seq<Heap<T>>, key: T -> int)
    requires OrderedAll(hs, key)
    ensures Ordered(MergePairs(hs, key), key)
    ensures forall k :: BelowAll(k, hs, key) ==> Below(k, MergePairs(hs, key), key)
  {
    if |hs| > 1 {
      hide Ordered, Merge;
      PairsOrdered(hs[2..], key);
      MergeOrdered(hs[0], hs[1], key);
      MergeOrdered(Merge(hs[0], hs[1], key), MergePairs(hs[2..], key), key);
      forall k | BelowAll(k, hs, key) ensures Below(k, MergePairs(hs, key), key) {
        assert BelowAll(k, hs[2..], key);
      }
    }
  }

  lemma {:induction false} BuildOrdered<T>(s: seq<T>, h: Heap<T>, key: T -> int)
    requires Ordered(h, key)
    ensures Ordered(Build(s, h, key), key)
  {
    if s != [] {
      MergeOrdered(h, Tree(s[0], []), key);
      BuildOrdered(s[1..], Insert(h, s[0], key), key);
    }
  }

  // ---- Draining ----

  function Drained<T>(h: Heap<T>, key: T -> int): seq<T>
    decreases Size(h)
  {
    if h.Empty? then []
    else
      PairsSize(h.children, key);
      [h.value] + Drained(MergePairs(h.children, key), key)
  }

  lemma {:induction false} DrainIs<T>(h: Heap<T>, acc: seq<T>, key: T -> int)
    ensures Drain(h, acc, key) == Reverse(acc) + Drained(h, key)
    decreases Size(h)
  {
    if h.Tree? {
      hide MergePairs, Reverse;
      PairsSize(h.children, key);
      DrainIs(MergePairs(h.children, key), [h.value] + acc, key);
      ReverseCons(h.value, acc);
    }
  }

  lemma {:induction false} TakeIs<T>(h: Heap<T>, k: nat, acc: seq<T>, key: T -> int)
    ensures var all := Drained(h, key);
      Take(h, k, acc, key) == Reverse(acc) + all[..if k < |all| then k else |all|]
    decreases k
  {
    if h.Tree? && k > 0 {
      hide MergePairs, Reverse;
      PairsSize(h.children, key);
      TakeIs(MergePairs(h.children, key), k - 1, [h.value] + acc, key);
      ReverseCons(h.value, acc);
    }
  }

  lemma {:induction false} DrainedCounts<T>(h: Heap<T>, key: T -> int, x: T)
    ensures Count(Drained(h, key), x) == Occurs(h, x)
    decreases Size(h)
  {
    if h.Tree? {
      hide MergePairs, Count;
      PairsSize(h.children, key);
      PairsOccurs(h.children, key, x);
      DrainedCounts(MergePairs(h.children, key), key, x);
      CountCons(h.value, Drained(MergePairs(h.children, key), key), x);
    } else {
      assert Drained(h, key) == [];
    }
  }

  /** The keys never go down. */
  ghost predicate SortedBy<T>(s: seq<T>, key: T -> int) {
    forall i, j | 0 <= i < j < |s| :: key(s[i]) <= key(s[j])
  }

  lemma {:induction false} DrainedSorted<T>(h: Heap<T>, key: T -> int)
    requires Ordered(h, key)
    ensures SortedBy(Drained(h, key), key)
    ensures forall k :: Below(k, h, key) && Drained(h, key) != [] ==> k <= key(Drained(h, key)[0])
    decreases Size(h)
  {
    if h.Tree? {
      hide MergePairs;
      PairsSize(h.children, key);
      PairsOrdered(h.children, key);
      var rest := Drained(MergePairs(h.children, key), key);
      DrainedSorted(MergePairs(h.children, key), key);
      assert Below(key(h.value), MergePairs(h.children, key), key);
      assert rest != [] ==> key(h.value) <= key(rest[0]);
    } else {
      assert Drained(h, key) == [];
    }
  }

  /** Draining a heap built from a list gives the list's elements with keys in order. */
  lemma DrainSortsBy<T>(s: seq<T>, key: T -> int)
    ensures var out := Drain(Build(s, Empty, key), [], key);
      SortedBy(out, key) && forall x :: multiset(out)[x] == multiset(s)[x]
  {
    hide Build, Drain, Drained, SortedBy, Occurs, Count;
    var h := Build(s, Empty, key);
    BuiltSorted(s, key);
    var out := Drained(h, key);
    DrainIs(h, [], key);
    assert Reverse<T>([]) + out == out;
    forall x ensures multiset(out)[x] == multiset(s)[x] {
      BuiltCounts(s, key, x);
      CountIs(out, x);
      CountIs(s, x);
    }
  }

  lemma BuiltSorted<T>(s: seq<T>, key: T -> int)
    ensures SortedBy(Drained(Build(s, Empty, key), key), key)
  {
    hide Build, Drained;
    BuildOrdered(s, Empty, key);
    DrainedSorted(Build(s, Empty, key), key);
  }

  lemma BuiltCounts<T>(s: seq<T>, key: T -> int, x: T)
    ensures Count(Drained(Build(s, Empty, key), key), x) == Count(s, x)
  {
    hide Build, Drained;
    BuildOccurs(s, Empty, key, x);
    DrainedCounts(Build(s, Empty, key), key, x);
  }

  /** On plain integers, draining sorts as the three sorts do, and taking `k` gives the first `k` of that. */
  lemma HeapSorts(s: seq<int>, k: nat)
    ensures var h := Build(s, Empty, (x: int) => x);
      && Drain(h, [], (x: int) => x) == MergeSort(s)
      && Take(h, k, [], (x: int) => x) == MergeSort(s)[..if k < |MergeSort(s)| then k else |MergeSort(s)|]
  {
    hide Build, Drain, Drained, Take, MergeSort, Count;
    var key := (x: int) => x;
    var h := Build(s, Empty, key);
    var out := Drained(h, key);
    BuiltSorted(s, key);
    DrainIs(h, [], key);
    TakeIs(h, k, [], key);
    assert Reverse<int>([]) + out == out;
    assert forall i | 0 <= i < |out| :: key(out[i]) == out[i];
    forall x {
      BuiltCounts(s, key, x);
    }
    MergeSortSorts(s);
    SortedUnique(out, MergeSort(s));
  }
}
