/** Huffman coding: the tree build, the code assignment and what they promise together. */
module Huffman {
  import opened Collections
  import opened HuffmanOptimal

  type Sym = string
  type Freq = map<Sym, nat>

  datatype Tree = Leaf(sym: Sym) | Node(left: Tree, right: Tree)

  datatype Item = Item(w: nat, node: Tree)

  // ---- Order on items: weight, then the leftmost symbol ----

  function Tie(t: Tree): Sym {
    match t
    case Leaf(sym) => sym
    case Node(l, _) => Tie(l)
  }

  predicate SymLe(a: Sym, b: Sym) {
    a == [] || (b != [] && (a[0] < b[0] || (a[0] == b[0] && SymLe(a[1..], b[1..]))))
  }

  predicate ItemLe(a: Item, b: Item) {
    a.w < b.w || (a.w == b.w && SymLe(Tie(a.node), Tie(b.node)))
  }

  /** A stable sort by `ItemLe`. */
  function SortItems(items: seq<Item>): (r: seq<Item>)
    ensures |r| == |items| && multiset(r) == multiset(items)
  {
    if items == [] then []
    else
      assert items == [items[0]] + items[1..];
      InsertItem(items[0], SortItems(items[1..]))
  }

  function InsertItem(x: Item, items: seq<Item>): (r: seq<Item>)
    ensures multiset(r) == multiset([x]) + multiset(items) && |r| == |items| + 1
  {
    if items == [] then [x]
    else if ItemLe(x, items[0]) then [x] + items
    else
      assert items == [items[0]] + items[1..];
      [items[0]] + InsertItem(x, items[1..])
  }

  /** The two lightest items, which the sort put first, become one. */
  function MergeFirst(sorted: seq<Item>): (r: seq<Item>)
    requires |sorted| >= 2
    ensures |r| == |sorted| - 1
  {
    [Item(sorted[0].w + sorted[1].w, Node(sorted[0].node, sorted[1].node))] + sorted[2..]
  }

  function BuildTree(items: seq<Item>): Tree
    requires items != []
    decreases |items|
  {
    if |items| == 1 then items[0].node else BuildTree(MergeFirst(SortItems(items)))
  }

  // ---- Cost of a tree for given frequencies ----

  function Syms(t: Tree): multiset<Sym> {
    match t
    case Leaf(sym) => multiset{sym}
    case Node(l, r) => Syms(l) + Syms(r)
  }

  predicate Covers(freq: Freq, t: Tree) {
    match t
    case Leaf(sym) => sym in freq
    case Node(l, r) => Covers(freq, l) && Covers(freq, r)
  }

  /** Sum of frequency times depth, for a tree hanging at depth `d`. */
  function CostAt(t: Tree, freq: Freq, d: nat): nat
    requires Covers(freq, t)
  {
    match t
    case Leaf(sym) => freq[sym] * d
    case Node(l, r) => CostAt(l, freq, d + 1) + CostAt(r, freq, d + 1)
  }

  /** Forget the symbols, keep their weights. */
  function Weigh(t: Tree, freq: Freq): WTree
    requires Covers(freq, t)
  {
    match t
    case Leaf(sym) => W(freq[sym])
    case Node(l, r) => B(Weigh(l, freq), Weigh(r, freq))
  }

  lemma {:induction false} CostIsWeighed(t: Tree, freq: Freq, d: nat)
    requires Covers(freq, t)
    ensures CostAt(t, freq, d) == Cost(Weigh(t, freq)) + d * Weight(Weigh(t, freq))
  {
    match t
    case Leaf(sym) =>
    case Node(l, r) =>
      CostIsWeighed(l, freq, d + 1);
      CostIsWeighed(r, freq, d + 1);
      Spread(d, Weight(Weigh(l, freq)), Weight(Weigh(r, freq)));
  }

  lemma Spread(d: nat, a: nat, b: nat)
    ensures (d + 1) * a + (d + 1) * b == d * (a + b) + a + b
  {
  }

  // ---- The build as a sequence of merges ----

  /** Sum of the merged weights, which is what the build adds to the cost of the items it starts from. */
  function MergeCost(items: seq<Item>): nat
    requires items != []
    decreases |items|
  {
    if |items| == 1 then 0
    else
      var next := MergeFirst(SortItems(items));
      next[0].w + MergeCost(next)
  }

  ghost predicate ItemOk(freq: Freq, i: Item) {
    Covers(freq, i.node) && i.w == Weight(Weigh(i.node, freq))
  }

  ghost predicate ItemsOk(freq: Freq, items: seq<Item>) {
    forall i | i in items :: ItemOk(freq, i)
  }

  ghost function SumCost(freq: Freq, items: seq<Item>): nat
    requires ItemsOk(freq, items)
  {
    if items == [] then 0
    else
      assert items[0] in items && forall i | i in items[1..] :: i in items;
      Cost(Weigh(items[0].node, freq)) + SumCost(freq, items[1..])
  }

  ghost function Weights(items: seq<Item>): multiset<nat> {
    if items == [] then multiset{} else multiset{items[0].w} + Weights(items[1..])
  }

  ghost function AllSyms(items: seq<Item>): multiset<Sym> {
    if items == [] then multiset{} else Syms(items[0].node) + AllSyms(items[1..])
  }

  lemma {:induction false} InsertSums(freq: Freq, x: Item, items: seq<Item>)
    requires ItemOk(freq, x) && ItemsOk(freq, items)
    ensures ItemsOk(freq, InsertItem(x, items))
    ensures SumCost(freq, InsertItem(x, items)) == Cost(Weigh(x.node, freq)) + SumCost(freq, items)
  {
    var r := InsertItem(x, items);
    forall i | i in r ensures ItemOk(freq, i) { assert i in multiset(r); }
    if items != [] && !ItemLe(x, items[0]) {
      assert forall i | i in items[1..] :: i in items;
      InsertSums(freq, x, items[1..]);
      assert r[1..] == InsertItem(x, items[1..]);
    } else {
      assert r[1..] == items;
    }
  }

  lemma {:induction false} InsertKeeps(x: Item, items: seq<Item>)
    ensures Weights(InsertItem(x, items)) == multiset{x.w} + Weights(items)
    ensures AllSyms(InsertItem(x, items)) == Syms(x.node) + AllSyms(items)
  {
    var r := InsertItem(x, items);
    if items != [] && !ItemLe(x, items[0]) {
      InsertKeeps(x, items[1..]);
      assert r[1..] == InsertItem(x, items[1..]);
    } else {
      assert r[1..] == items;
    }
  }

  lemma {:induction false} SortKeeps(items: seq<Item>)
    ensures Weights(SortItems(items)) == Weights(items)
    ensures AllSyms(SortItems(items)) == AllSyms(items)
  {
    if items != [] {
      SortKeeps(items[1..]);
      InsertKeeps(items[0], SortItems(items[1..]));
    }
  }

  lemma {:induction false} SortSums(freq: Freq, items: seq<Item>)
    requires ItemsOk(freq, items)
    ensures ItemsOk(freq, SortItems(items)) && SumCost(freq, SortItems(items)) == SumCost(freq, items)
  {
    if items != [] {
      assert items[0] in items && forall i | i in items[1..] :: i in items;
      SortSums(freq, items[1..]);
      InsertSums(freq, items[0], SortItems(items[1..]));
    }
  }

  // ---- Sorting puts the two lightest first ----

  ghost predicate Ascending(items: seq<Item>) {
    forall i, j | 0 <= i < j < |items| :: items[i].w <= items[j].w
  }

  lemma {:induction false} InsertAscending(x: Item, items: seq<Item>)
    requires Ascending(items)
    ensures Ascending(InsertItem(x, items))
  {
    if items != [] && !ItemLe(x, items[0]) {
      InsertAscending(x, items[1..]);
      var rest := InsertItem(x, items[1..]);
      forall i | i in rest ensures items[0].w <= i.w {
        assert i in multiset(rest);
        assert i == x || i in items[1..];
      }
    }
  }

  lemma {:induction false} SortAscending(items: seq<Item>)
    ensures Ascending(SortItems(items))
  {
    if items != [] {
      SortAscending(items[1..]);
      InsertAscending(items[0], SortItems(items[1..]));
    }
  }

  lemma {:induction false} WeightsAtLeast(items: seq<Item>, low: nat)
    requires forall i | i in items :: low <= i.w
    ensures forall w | w in Weights(items) :: low <= w
  {
    if items != [] {
      assert items[0] in items && forall i | i in items[1..] :: i in items;
      WeightsAtLeast(items[1..], low);
    }
  }

  lemma SortedTwoLightest(items: seq<Item>)
    requires |items| >= 2 && Ascending(items)
    ensures TwoLightest(Weights(items), items[0].w, items[1].w)
  {
    var a, b, rest := items[0].w, items[1].w, items[2..];
    assert items[1..][1..] == rest && items[1..][0] == items[1];
    assert Weights(items) == multiset{a} + (multiset{b} + Weights(rest));
    WeightsAtLeast(rest, b);
  }

  // ---- Optimality ----

  /** No tree over leaves with these weights costs less than the merges. */
  lemma {:induction false} MergeOptimal(items: seq<Item>, t: WTree)
    requires items != [] && Leaves(t) == Weights(items)
    ensures MergeCost(items) <= Cost(t)
    decreases |items|
  {
    if |items| > 1 {
      hide SortItems, MergeFirst, Leaves, Cost, Weights, TwoLightest, Ascending, Merged;
      var sorted := SortItems(items);
      SortKeeps(items);
      SortAscending(items);
      SortedTwoLightest(sorted);
      var u := Contract(t, sorted[0].w, sorted[1].w);
      MergedWeights(sorted, Leaves(u));
      MergeOptimal(MergeFirst(sorted), u);
    }
  }

  lemma MergedWeights(sorted: seq<Item>, m: multiset<nat>)
    requires |sorted| >= 2
    requires Merged(Weights(sorted), m, sorted[0].w, sorted[1].w)
    ensures m == Weights(MergeFirst(sorted)) && MergeFirst(sorted)[0].w == sorted[0].w + sorted[1].w
  {
    var next, tail := MergeFirst(sorted), sorted[1..];
    assert tail[1..] == sorted[2..] && tail[0] == sorted[1] && next[1..] == sorted[2..];
    hide Weights;
    forall w ensures m[w] == Weights(next)[w] {
      WeightsHead(sorted, w);
      WeightsHead(tail, w);
      WeightsHead(next, w);
    }
    SameCounts(m, Weights(next));
  }

  lemma WeightsHead(items: seq<Item>, w: nat)
    requires items != []
    ensures Weights(items)[w] == One(items[0].w, w) + Weights(items[1..])[w]
  {
  }

  lemma SameCounts(m: multiset<nat>, n: multiset<nat>)
    requires forall w :: m[w] == n[w]
    ensures m == n
  {
  }

  /** The tree costs what its merges add to the items it was built from. */
  lemma {:induction false} BuildCosts(freq: Freq, items: seq<Item>)
    requires items != [] && ItemsOk(freq, items)
    ensures Covers(freq, BuildTree(items))
    ensures Cost(Weigh(BuildTree(items), freq)) == SumCost(freq, items) + MergeCost(items)
    ensures Syms(BuildTree(items)) == AllSyms(items)
    decreases |items|
  {
    if |items| == 1 {
      assert items[0] in items && items[1..] == [];
    } else {
      hide SortItems, MergeFirst, Syms, Weigh, Cost, Weight, AllSyms, SumCost, Covers, ItemsOk;
      SortSums(freq, items);
      SortKeeps(items);
      MergedSums(freq, SortItems(items));
      BuildCosts(freq, MergeFirst(SortItems(items)));
    }
  }

  lemma MergedSums(freq: Freq, sorted: seq<Item>)
    requires |sorted| >= 2 && ItemsOk(freq, sorted)
    ensures ItemsOk(freq, MergeFirst(sorted)) && AllSyms(MergeFirst(sorted)) == AllSyms(sorted)
    ensures SumCost(freq, MergeFirst(sorted)) == SumCost(freq, sorted) + MergeFirst(sorted)[0].w
  {
    var x, y, rest, next := sorted[0], sorted[1], sorted[2..], MergeFirst(sorted);
    assert x in sorted && y in sorted && (forall i | i in rest :: i in sorted) && forall i | i in sorted[1..] :: i in sorted;
    assert sorted[1..][1..] == rest && sorted[1..][0] == y && next[1..] == rest;
    assert ItemOk(freq, next[0]);
    assert forall i | i in next :: i == next[0] || i in rest;
    MergedSyms(Syms(x.node), Syms(y.node), AllSyms(rest));
  }

  lemma MergedSyms<T>(a: multiset<T>, b: multiset<T>, c: multiset<T>)
    ensures (a + b) + c == a + (b + c)
  {
  }

  /** The items `build_tree` starts from: one leaf per symbol. */
  ghost predicate LeafItems(freq: Freq, items: seq<Item>) {
    forall i | i in items :: i.node.Leaf? && i.node.sym in freq && i.w == freq[i.node.sym]
  }

  lemma {:induction false} LeafItemsOk(freq: Freq, items: seq<Item>)
    requires LeafItems(freq, items)
    ensures ItemsOk(freq, items) && SumCost(freq, items) == 0
  {
    if items != [] {
      assert items[0] in items && forall i | i in items[1..] :: i in items;
      LeafItemsOk(freq, items[1..]);
    }
  }

  // ---- Leaf weights depend on the symbols only ----

  function Flat(t: Tree): seq<Sym> {
    match t
    case Leaf(sym) => [sym]
    case Node(l, r) => Flat(l) + Flat(r)
  }

  ghost function Image(freq: Freq, syms: seq<Sym>): multiset<nat>
    requires forall s | s in syms :: s in freq
  {
    if syms == [] then multiset{}
    else
      assert syms[0] in syms && forall s | s in syms[1..] :: s in syms;
      multiset{freq[syms[0]]} + Image(freq, syms[1..])
  }

  lemma {:induction false} ImageSplit(freq: Freq, a: seq<Sym>, b: seq<Sym>)
    requires forall s | s in a + b :: s in freq
    ensures (forall s | s in a :: s in freq) && (forall s | s in b :: s in freq)
    ensures Image(freq, a + b) == Image(freq, a) + Image(freq, b)
  {
    assert forall s | s in a :: s in a + b;
    assert forall s | s in b :: s in a + b;
    if a == [] {
      assert a + b == b;
    } else {
      assert (a + b)[1..] == a[1..] + b && (a + b)[0] == a[0];
      assert forall s | s in a[1..] + b :: s in a + b;
      ImageSplit(freq, a[1..], b);
    }
  }

  lemma {:induction false} FlatIsSyms(t: Tree, freq: Freq)
    ensures multiset(Flat(t)) == Syms(t)
    ensures Covers(freq, t) ==> (forall s | s in Flat(t) :: s in freq) && Image(freq, Flat(t)) == Leaves(Weigh(t, freq))
  {
    match t
    case Leaf(sym) => if Covers(freq, t) { assert [sym][1..] == []; }
    case Node(l, r) =>
      FlatIsSyms(l, freq);
      FlatIsSyms(r, freq);
      if Covers(freq, t) { ImageSplit(freq, Flat(l), Flat(r)); }
  }

  lemma ImageHead(freq: Freq, syms: seq<Sym>)
    requires syms != [] && forall s | s in syms :: s in freq
    ensures forall s | s in syms[1..] :: s in freq
    ensures Image(freq, syms) == multiset{freq[syms[0]]} + Image(freq, syms[1..])
  {
    assert syms[0] in syms && forall s | s in syms[1..] :: s in syms;
  }

  lemma ImageRemove(freq: Freq, before: seq<Sym>, x: Sym, after: seq<Sym>)
    requires forall s | s in before + ([x] + after) :: s in freq
    ensures x in freq && forall s | s in before + after :: s in freq
    ensures Image(freq, before + ([x] + after)) == multiset{freq[x]} + Image(freq, before + after)
  {
    hide Image;
    var b := before + ([x] + after);
    assert x in [x] + after && x in b;
    assert forall s | s in before + after :: s in b;
    ImageSplit(freq, before, [x] + after);
    ImageSplit(freq, before, after);
    ImageHead(freq, [x] + after);
    assert ([x] + after)[1..] == after;
  }

  lemma {:induction false} ImagePermuted(freq: Freq, a: seq<Sym>, b: seq<Sym>)
    requires multiset(a) == multiset(b) && forall s | s in a :: s in freq
    ensures (forall s | s in b :: s in freq) && Image(freq, a) == Image(freq, b)
  {
    hide Image;
    forall s | s in b ensures s in a { assert s in multiset(b); }
    if a == [] {
      assert |multiset(a)| == 0 && |multiset(b)| == |b|;
    } else {
      assert a[0] in multiset(b);
      var k :| 0 <= k < |b| && b[k] == a[0];
      var before, after := b[..k], b[k + 1..];
      assert b == before + ([a[0]] + after);
      DropOne(a, before, after, a[0]);
      ImageRemove(freq, before, a[0], after);
      ImageHead(freq, a);
      ImagePermuted(freq, a[1..], before + after);
    }
  }

  ghost function ItemSyms(items: seq<Item>): seq<Sym>
    requires forall i | i in items :: i.node.Leaf?
  {
    if items == [] then []
    else
      assert items[0] in items && forall i | i in items[1..] :: i in items;
      [items[0].node.sym] + ItemSyms(items[1..])
  }

  lemma {:induction false} ItemSymsImage(freq: Freq, items: seq<Item>)
    requires LeafItems(freq, items)
    ensures forall s | s in ItemSyms(items) :: s in freq
    ensures Image(freq, ItemSyms(items)) == Weights(items) && multiset(ItemSyms(items)) == AllSyms(items)
  {
    if items != [] {
      assert items[0] in items && forall i | i in items[1..] :: i in items;
      ItemSymsImage(freq, items[1..]);
      assert ItemSyms(items)[1..] == ItemSyms(items[1..]);
    }
  }

  /**
   * The tree built from the frequency table has the table's symbols as leaves, and its total of
   * frequency times depth is minimal among all binary trees with those leaves.
   */
  lemma BuildTreeOptimal(freq: Freq, items: seq<Item>, other: Tree)
    requires items != [] && LeafItems(freq, items)
    requires Syms(other) == AllSyms(items)
    ensures Syms(BuildTree(items)) == AllSyms(items)
    ensures Covers(freq, BuildTree(items)) && Covers(freq, other)
    ensures CostAt(BuildTree(items), freq, 0) <= CostAt(other, freq, 0)
  {
    hide BuildTree, MergeCost, AllSyms, Weights, Image, CostAt, Cost, Weigh;
    LeafItemsOk(freq, items);
    BuildCosts(freq, items);
    ItemSymsImage(freq, items);
    FlatIsSyms(other, freq);
    ImagePermuted(freq, ItemSyms(items), Flat(other));
    FlatCovers(other, freq);
    MergeOptimal(items, Weigh(other, freq));
    CostIsWeighed(other, freq, 0);
    CostIsWeighed(BuildTree(items), freq, 0);
  }

  lemma {:induction false} FlatCovers(t: Tree, freq: Freq)
    requires forall s | s in Flat(t) :: s in freq
    ensures Covers(freq, t)
  {
    match t
    case Leaf(_) =>
    case Node(l, r) =>
      FlatCovers(l, freq);
      FlatCovers(r, freq);
  }
}
