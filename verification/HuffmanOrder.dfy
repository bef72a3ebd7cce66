/** Which of the many trees of least cost the build gives: the same one for any order of its items. */
module HuffmanOrder {
  import opened Collections
  import opened Dictionary
  import opened HuffmanOptimal
  import opened Huffman

  // ---- The order of symbols and items ----

  lemma {:induction false} SymLeIs(a: Sym, b: Sym)
    ensures SymLe(a, b) <==> a == b || Before(a, b)
  {
    if a != [] && b != [] {
      assert a == [a[0]] + a[1..] && b == [b[0]] + b[1..];
      if a[0] == b[0] {
        SymLeIs(a[1..], b[1..]);
        BeforeByRest(a, b);
      } else {
        BeforeByFirst(a, b);
      }
    }
  }

  lemma {:induction false} SymLeTotal(a: Sym, b: Sym)
    ensures SymLe(a, b) || SymLe(b, a)
    ensures SymLe(a, b) && SymLe(b, a) ==> a == b
  {
    if a != [] && b != [] {
      SymLeTotal(a[1..], b[1..]);
      assert a == [a[0]] + a[1..] && b == [b[0]] + b[1..];
    }
  }

  lemma {:induction false} SymLeTransitive(a: Sym, b: Sym, c: Sym)
    requires SymLe(a, b) && SymLe(b, c)
    ensures SymLe(a, c)
  {
    if a != [] {
      if a[0] == b[0] == c[0] { SymLeTransitive(a[1..], b[1..], c[1..]); }
    }
  }

  ghost predicate Ordered(items: seq<Item>) {
    forall i, j | 0 <= i < j < |items| :: ItemLe(items[i], items[j])
  }

  lemma ItemLeTransitive(a: Item, b: Item, c: Item)
    requires ItemLe(a, b) && ItemLe(b, c)
    ensures ItemLe(a, c)
  {
    if a.w == b.w == c.w { SymLeTransitive(Tie(a.node), Tie(b.node), Tie(c.node)); }
  }

  lemma {:induction false} InsertOrdered(x: Item, items: seq<Item>)
    requires Ordered(items)
    ensures Ordered(InsertItem(x, items))
  {
    if items != [] {
      hide ItemLe;
      if ItemLe(x, items[0]) {
        forall i | 0 < i < |items| ensures ItemLe(x, items[i]) { ItemLeTransitive(x, items[0], items[i]); }
      } else {
        InsertOrdered(x, items[1..]);
        var rest := InsertItem(x, items[1..]);
        EitherWay(x, items[0]);
        forall i | i in rest ensures ItemLe(items[0], i) {
          assert i in multiset(rest);
          assert i == x || i in items[1..];
        }
      }
    }
  }

  lemma EitherWay(a: Item, b: Item)
    ensures ItemLe(a, b) || ItemLe(b, a)
    ensures ItemLe(a, b) && ItemLe(b, a) ==> a.w == b.w && Tie(a.node) == Tie(b.node)
  {
    SymLeTotal(Tie(a.node), Tie(b.node));
  }

  lemma {:induction false} SortOrdered(items: seq<Item>)
    ensures Ordered(SortItems(items))
  {
    if items != [] {
      SortOrdered(items[1..]);
      InsertOrdered(items[0], SortItems(items[1..]));
    }
  }

  // ---- The lighter subtree is on the left ----

  ghost function TreeWeight(t: Tree, freq: Freq): nat
    requires Covers(freq, t)
  {
    match t
    case Leaf(sym) => freq[sym]
    case Node(l, r) => TreeWeight(l, freq) + TreeWeight(r, freq)
  }

  lemma {:induction false} TreeWeightIs(t: Tree, freq: Freq)
    requires Covers(freq, t)
    ensures TreeWeight(t, freq) == Weight(Weigh(t, freq))
  {
    if t.Node? {
      TreeWeightIs(t.left, freq);
      TreeWeightIs(t.right, freq);
    }
  }

  lemma {:induction false} TieIsFirst(t: Tree)
    ensures Flat(t) != [] && Tie(t) == Flat(t)[0]
  {
    if t.Node? { TieIsFirst(t.left); }
  }

  /** At every fork the left side is the lighter; of equal ones it is the one whose first symbol is the earlier. */
  ghost predicate LighterLeft(t: Tree, freq: Freq)
    requires Covers(freq, t)
  {
    match t
    case Leaf(_) => true
    case Node(l, r) =>
      var wl, wr := TreeWeight(l, freq), TreeWeight(r, freq);
      && LighterLeft(l, freq) && LighterLeft(r, freq)
      && Flat(l) != [] && Flat(r) != []
      && (wl < wr || (wl == wr && (Flat(l)[0] == Flat(r)[0] || Before(Flat(l)[0], Flat(r)[0]))))
  }

  ghost predicate AllLighterLeft(freq: Freq, items: seq<Item>)
    requires ItemsOk(freq, items)
  {
    forall i | i in items :: LighterLeft(i.node, freq)
  }

  lemma JoinLighterLeft(freq: Freq, a: Item, b: Item)
    requires ItemOk(freq, a) && ItemOk(freq, b) && ItemLe(a, b)
    requires LighterLeft(a.node, freq) && LighterLeft(b.node, freq)
    ensures var n := Item(a.w + b.w, Node(a.node, b.node));
      ItemOk(freq, n) && LighterLeft(n.node, freq)
  {
    TreeWeightIs(a.node, freq);
    TreeWeightIs(b.node, freq);
    TieIsFirst(a.node);
    TieIsFirst(b.node);
    SymLeIs(Tie(a.node), Tie(b.node));
  }

  lemma {:induction false} BuildLighterLeft(freq: Freq, items: seq<Item>)
    requires items != [] && ItemsOk(freq, items) && AllLighterLeft(freq, items)
    ensures Covers(freq, BuildTree(items)) && LighterLeft(BuildTree(items), freq)
    decreases |items|
  {
    if |items| == 1 {
      assert items[0] in items;
    } else {
      hide SortItems, LighterLeft, ItemOk, ItemLe;
      var sorted := SortItems(items);
      SortOrdered(items);
      forall i | i in sorted ensures i in items { assert i in multiset(sorted); }
      assert sorted[0] in sorted && sorted[1] in sorted;
      JoinLighterLeft(freq, sorted[0], sorted[1]);
      BuildLighterLeft(freq, MergeFirst(sorted));
    }
  }

  // ---- The order of the items does not matter ----

  /** No two items start with the same symbol. */
  ghost predicate Apart(items: seq<Item>) {
    && (forall x, y | x in items && y in items && Tie(x.node) == Tie(y.node) :: x == y)
    && (forall x :: multiset(items)[x] <= 1)
  }

  lemma ApartPermuted(a: seq<Item>, b: seq<Item>)
    requires Apart(a) && multiset(a) == multiset(b)
    ensures Apart(b)
  {
    forall x | x in b ensures x in a { assert x in multiset(b); }
  }

  lemma ApartCons(x: Item, rest: seq<Item>)
    ensures Apart([x] + rest) <==> Apart(rest) && forall y | y in rest :: Tie(y.node) != Tie(x.node)
  {
    var all := [x] + rest;
    assert multiset(all) == multiset{x} + multiset(rest);
    assert x in all && forall y | y in rest :: y in all;
    hide Tie;
    if Apart(all) {
      assert multiset(all)[x] == 1 + multiset(rest)[x];
      assert x !in rest;
      forall z ensures multiset(rest)[z] <= 1 { assert multiset(all)[z] <= 1; }
    }
    if Apart(rest) && forall y | y in rest :: Tie(y.node) != Tie(x.node) {
      forall z ensures multiset(all)[z] <= 1 { assert multiset(rest)[z] <= 1; }
    }
  }

  lemma {:induction false} OrderedUnique(a: seq<Item>, b: seq<Item>)
    requires Ordered(a) && Ordered(b) && Apart(a) && multiset(a) == multiset(b)
    ensures a == b
  {
    assert |multiset(a)| == |a| && |multiset(b)| == |b|;
    if a != [] {
      SameHead(a, b);
      assert a == [a[0]] + a[1..] && b == [b[0]] + b[1..];
      hide Ordered, Apart;
      ApartCons(a[0], a[1..]);
      TailOrdered(a);
      TailOrdered(b);
      assert b == [] + ([a[0]] + b[1..]) && [] + b[1..] == b[1..];
      DropOne(a, [], b[1..], a[0]);
      OrderedUnique(a[1..], b[1..]);
    }
  }

  lemma TailOrdered(a: seq<Item>)
    requires Ordered(a) && a != []
    ensures Ordered(a[1..])
  {
    hide ItemLe;
  }

  lemma HeadLeast(a: seq<Item>, x: Item)
    requires Ordered(a) && x in a
    ensures a[0] == x || ItemLe(a[0], x)
  {
    hide ItemLe;
  }

  lemma SameHead(a: seq<Item>, b: seq<Item>)
    requires Ordered(a) && Ordered(b) && Apart(a) && multiset(a) == multiset(b) && a != [] && b != []
    ensures a[0] == b[0]
  {
    hide Ordered, ItemLe, Tie;
    assert a[0] in multiset(b) && b[0] in multiset(a);
    HeadLeast(a, b[0]);
    HeadLeast(b, a[0]);
    EitherWay(a[0], b[0]);
  }

  lemma MergeApart(sorted: seq<Item>)
    requires |sorted| >= 2 && Apart(sorted)
    ensures Apart(MergeFirst(sorted))
  {
    hide Apart;
    var a, b, rest := sorted[0], sorted[1], sorted[2..];
    assert sorted == [a] + ([b] + rest);
    ApartCons(a, [b] + rest);
    ApartCons(b, rest);
    var n := Item(a.w + b.w, Node(a.node, b.node));
    assert forall y | y in rest :: y in [b] + rest;
    ApartCons(n, rest);
    assert MergeFirst(sorted) == [n] + rest;
  }

  lemma {:induction false} BuildPermuted(a: seq<Item>, b: seq<Item>)
    requires a != [] && Apart(a) && multiset(a) == multiset(b)
    ensures b != [] && BuildTree(a) == BuildTree(b)
    decreases |a|
  {
    assert |multiset(a)| == |a| && |multiset(b)| == |b|;
    if |a| == 1 {
      assert a == [a[0]] && b == [b[0]];
      assert b[0] in multiset(a);
    } else {
      hide SortItems, Apart, Ordered, MergeFirst;
      SortOrdered(a);
      SortOrdered(b);
      ApartPermuted(a, SortItems(a));
      OrderedUnique(SortItems(a), SortItems(b));
      MergeApart(SortItems(a));
    }
  }

  lemma {:induction false} LeavesApart(freq: Freq, items: seq<Item>)
    requires LeafItems(freq, items) && forall s :: AllSyms(items)[s] <= 1
    ensures Apart(items)
  {
    if items != [] {
      var rest := items[1..];
      assert items == [items[0]] + rest;
      assert items[0] in items && forall i | i in rest :: i in items;
      forall s ensures AllSyms(rest)[s] <= 1 { assert AllSyms(items)[s] >= AllSyms(rest)[s]; }
      LeavesApart(freq, rest);
      forall y | y in rest ensures Tie(y.node) != Tie(items[0].node) {
        LeafCounted(rest, y);
        assert AllSyms(items)[y.node.sym] == Syms(items[0].node)[y.node.sym] + AllSyms(rest)[y.node.sym];
      }
      ApartCons(items[0], rest);
    }
  }

  lemma {:induction false} LeafCounted(items: seq<Item>, y: Item)
    requires y in items && y.node.Leaf?
    ensures AllSyms(items)[y.node.sym] >= 1
  {
    if items[0] != y { LeafCounted(items[1..], y); }
  }

  /**
   * For one item per symbol the build gives the same tree in whatever order they come, and in that tree the lighter
   * subtree is always on the left, the one with the earlier first symbol when both weigh the same.
   */
  lemma BuildCanonical(freq: Freq, items: seq<Item>, shuffled: seq<Item>)
    requires items != [] && LeafItems(freq, items) && (forall s :: AllSyms(items)[s] <= 1)
    requires multiset(items) == multiset(shuffled)
    ensures shuffled != [] && BuildTree(shuffled) == BuildTree(items)
    ensures Covers(freq, BuildTree(items)) && LighterLeft(BuildTree(items), freq)
  {
    hide BuildTree, AllSyms, Apart;
    LeavesApart(freq, items);
    BuildPermuted(items, shuffled);
    LeafItemsOk(freq, items);
    BuildLighterLeft(freq, items);
  }
}
