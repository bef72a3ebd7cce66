/** The leftist heap. */
module LeftistHeap {
  import opened Collections
  import opened Sorts

  datatype Heap = Leaf | Node(rank: nat, value: int, left: Heap, right: Heap)

  function Rank(h: Heap): nat {
    if h.Leaf? then 0 else h.rank
  }

  function Size(h: Heap): nat {
    if h.Leaf? then 0 else 1 + Size(h.left) + Size(h.right)
  }

  /** How often `x` is in the heap. */
  function Occurs(h: Heap, x: int): nat {
    if h.Leaf? then 0 else (if h.value == x then 1 else 0) + Occurs(h.left, x) + Occurs(h.right, x)
  }

  function Elements(h: Heap): multiset<int> {
    if h.Leaf? then multiset{} else multiset{h.value} + Elements(h.left) + Elements(h.right)
  }

  lemma {:induction false} ElementsAre(h: Heap, x: int)
    ensures Size(h) == |Elements(h)| && Occurs(h, x) == Elements(h)[x]
  {
    if h.Node? {
      ElementsAre(h.left, x);
      ElementsAre(h.right, x);
    }
  }

  function Make(x: int, a: Heap, b: Heap): Heap {
    if Rank(a) >= Rank(b) then Node(Rank(b) + 1, x, a, b) else Node(Rank(a) + 1, x, b, a)
  }

  function Merge(h1: Heap, h2: Heap): Heap
    decreases Size(h1) + Size(h2)
  {
    if h1.Leaf? then h2
    else if h2.Leaf? then h1
    else if h1.value <= h2.value then Make(h1.value, h1.left, Merge(h1.right, h2))
    else Make(h2.value, h2.left, Merge(h1, h2.right))
  }

  function Insert(h: Heap, x: int): Heap {
    Merge(h, Node(1, x, Leaf, Leaf))
  }

  function Build(s: seq<int>, h: Heap): Heap {
    if s == [] then h else Build(s[1..], Insert(h, s[0]))
  }

  function Drain(h: Heap, acc: seq<int>): seq<int>
    decreases Size(h)
  {
    if h.Leaf? then Reverse(acc)
    else
      MergeSize(h.left, h.right);
      Drain(Merge(h.left, h.right), [h.value] + acc)
  }

  lemma {:induction false} MergeSize(h1: Heap, h2: Heap)
    ensures Size(Merge(h1, h2)) == Size(h1) + Size(h2)
    decreases Size(h1) + Size(h2)
  {
    if h1.Node? && h2.Node? {
      if h1.value <= h2.value {
        MergeSize(h1.right, h2);
      } else {
        MergeSize(h1, h2.right);
      }
    }
  }

  // ---- Invariants ----

  ghost predicate Below(x: int, h: Heap) {
    h.Leaf? || x <= h.value
  }

  /** Every value is at most those below it. */
  ghost predicate Ordered(h: Heap) {
    h.Leaf? || (Below(h.value, h.left) && Below(h.value, h.right) && Ordered(h.left) && Ordered(h.right))
  }

  /** The number of nodes on the way down to the right. */
  ghost function RightSpine(h: Heap): nat {
    if h.Leaf? then 0 else 1 + RightSpine(h.right)
  }

  /** The rank is the length of the right spine, and never larger on the right than on the left. */
  ghost predicate Leftist(h: Heap) {
    h.Leaf? ||
      (h.rank == RightSpine(h) && RightSpine(h.left) >= RightSpine(h.right) && Leftist(h.left) && Leftist(h.right))
  }

  lemma {:induction false} Pow2Monotone(a: nat, b: nat)
    requires a <= b
    ensures Pow2(a) <= Pow2(b)
    decreases b
  {
    if a < b {
      Pow2Monotone(a, b - 1);
    }
  }

  /** A rank of `r` takes at least 2^r - 1 nodes, so ranks stay logarithmic. */
  lemma {:induction false} RankBound(h: Heap)
    requires Leftist(h)
    ensures Pow2(RightSpine(h)) <= Size(h) + 1
  {
    if h.Node? {
      RankBound(h.left);
      RankBound(h.right);
      Pow2Monotone(RightSpine(h.right), RightSpine(h.left));
    }
  }

  lemma {:induction false} MergeOccurs(h1: Heap, h2: Heap, x: int)
    ensures Occurs(Merge(h1, h2), x) == Occurs(h1, x) + Occurs(h2, x)
    decreases Size(h1) + Size(h2)
  {
    if h1.Node? && h2.Node? {
      if h1.value <= h2.value {
        MergeOccurs(h1.right, h2, x);
      } else {
        MergeOccurs(h1, h2.right, x);
      }
    }
  }

  lemma {:induction false} MergeOrdered(h1: Heap, h2: Heap)
    requires Ordered(h1) && Ordered(h2)
    ensures Ordered(Merge(h1, h2))
    ensures forall x :: Below(x, h1) && Below(x, h2) ==> Below(x, Merge(h1, h2))
    decreases Size(h1) + Size(h2)
  {
    if h1.Node? && h2.Node? {
      if h1.value <= h2.value {
        MergeOrdered(h1.right, h2);
        assert Below(h1.value, Merge(h1.right, h2));
      } else {
        MergeOrdered(h1, h2.right);
        assert Below(h2.value, Merge(h1, h2.right));
      }
    }
  }

  lemma {:induction false} MergeLeftist(h1: Heap, h2: Heap)
    requires Leftist(h1) && Leftist(h2)
    ensures Leftist(Merge(h1, h2))
    decreases Size(h1) + Size(h2)
  {
    if h1.Node? && h2.Node? {
      if h1.value <= h2.value {
        MergeLeftist(h1.right, h2);
      } else {
        MergeLeftist(h1, h2.right);
      }
    }
  }

  /** Merging keeps the elements, the heap order and the leftist ranks. */
  lemma MergeKeeps(h1: Heap, h2: Heap)
    requires Ordered(h1) && Ordered(h2) && Leftist(h1) && Leftist(h2)
    ensures var h := Merge(h1, h2);
      && (forall x :: Occurs(h, x) == Occurs(h1, x) + Occurs(h2, x))
      && Ordered(h) && Leftist(h)
      && Pow2(RightSpine(h)) <= |Elements(h)| + 1
  {
    hide Merge, Occurs, Ordered, Leftist, Pow2, Elements;
    forall x ensures Occurs(Merge(h1, h2), x) == Occurs(h1, x) + Occurs(h2, x) {
      MergeOccurs(h1, h2, x);
    }
    ElementsAre(Merge(h1, h2), 0);
    MergeOrdered(h1, h2);
    MergeLeftist(h1, h2);
    RankBound(Merge(h1, h2));
  }

  lemma OneKeeps(x: int)
    ensures var one := Node(1, x, Leaf, Leaf);
      Ordered(one) && Leftist(one) && forall y :: Occurs(one, y) == if x == y then 1 else 0
  {
  }

  lemma {:induction false} BuildKeeps(s: seq<int>, h: Heap)
    requires Ordered(h) && Leftist(h)
    ensures var b := Build(s, h);
      Ordered(b) && Leftist(b) && forall x :: Occurs(b, x) == Count(s, x) + Occurs(h, x)
  {
    if s != [] {
      hide Merge, Occurs, Ordered, Leftist, Pow2;
      OneKeeps(s[0]);
      MergeKeeps(h, Node(1, s[0], Leaf, Leaf));
      BuildKeeps(s[1..], Insert(h, s[0]));
    }
  }

  /** What draining gives, without the accumulator. */
  function Drained(h: Heap): seq<int>
    decreases Size(h)
  {
    if h.Leaf? then []
    else
      MergeSize(h.left, h.right);
      [h.value] + Drained(Merge(h.left, h.right))
  }

  lemma {:induction false} DrainIs(h: Heap, acc: seq<int>)
    ensures Drain(h, acc) == Reverse(acc) + Drained(h)
    decreases Size(h)
  {
    if h.Node? {
      hide Merge, Reverse;
      MergeSize(h.left, h.right);
      DrainIs(Merge(h.left, h.right), [h.value] + acc);
      ReverseCons(h.value, acc);
    }
  }

  lemma {:induction false} DrainedCounts(h: Heap, x: int)
    ensures Count(Drained(h), x) == Occurs(h, x)
    decreases Size(h)
  {
    if h.Node? {
      hide Merge, Count;
      MergeSize(h.left, h.right);
      MergeOccurs(h.left, h.right, x);
      DrainedCounts(Merge(h.left, h.right), x);
      CountCons(h.value, Drained(Merge(h.left, h.right)), x);
    } else {
      assert Drained(h) == [];
    }
  }

  lemma {:induction false} DrainedSorted(h: Heap)
    requires Ordered(h)
    ensures Sorted(Drained(h)) && forall lo :: Below(lo, h) ==> AtMost(lo, Drained(h))
    decreases Size(h)
  {
    if h.Node? {
      hide Merge, Sorted;
      MergeSize(h.left, h.right);
      MergeOrdered(h.left, h.right);
      DrainedSorted(Merge(h.left, h.right));
      SortedCons(h.value, Drained(Merge(h.left, h.right)));
    } else {
      assert Drained(h) == [];
    }
  }

  /** Inserting a list and draining the heap sorts the list, as the three sorts do. */
  lemma HeapSorts(s: seq<int>)
    ensures Drain(Build(s, Leaf), []) == MergeSort(s)
  {
    hide Build, Drain, Drained, MergeSort, Count, Sorted;
    BuildKeeps(s, Leaf);
    var h := Build(s, Leaf);
    DrainIs(h, []);
    assert Reverse<int>([]) + Drained(h) == Drained(h);
    DrainedSorted(h);
    forall x {
      DrainedCounts(h, x);
    }
    MergeSortSorts(s);
    SortedUnique(Drained(h), MergeSort(s));
  }
}
