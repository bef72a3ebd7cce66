/**
 * Weighted binary trees and the exchange argument: merging the two lightest
 * nodes never costs more than any other tree over the same leaves.
 */
module HuffmanOptimal {

  datatype WTree = W(w: nat) | B(l: WTree, r: WTree)

  function Weight(t: WTree): nat {
    match t
    case W(w) => w
    case B(l, r) => Weight(l) + Weight(r)
  }

  /** Total of leaf weight times leaf depth, counted once per inner node. */
  function Cost(t: WTree): nat {
    match t
    case W(_) => 0
    case B(l, r) => Cost(l) + Cost(r) + Weight(l) + Weight(r)
  }

  function Leaves(t: WTree): multiset<nat> {
    match t
    case W(w) => multiset{w}
    case B(l, r) => Leaves(l) + Leaves(r)
  }

  function Height(t: WTree): nat {
    match t
    case W(_) => 0
    case B(l, r) => 1 + if Height(l) >= Height(r) then Height(l) else Height(r)
  }

  // ---- Paths: false goes left, true goes right ----

  type Path = seq<bool>

  predicate IsPath(t: WTree, p: Path) {
    p == [] || (t.B? && IsPath(if p[0] then t.r else t.l, p[1..]))
  }

  function At(t: WTree, p: Path): WTree
    requires IsPath(t, p)
  {
    if p == [] then t else At(if p[0] then t.r else t.l, p[1..])
  }

  function Put(t: WTree, p: Path, u: WTree): WTree
    requires IsPath(t, p)
  {
    if p == [] then u
    else if p[0] then B(t.l, Put(t.r, p[1..], u))
    else B(Put(t.l, p[1..], u), t.r)
  }

  predicate LeafAt(t: WTree, p: Path) {
    IsPath(t, p) && At(t, p).W?
  }

  lemma {:induction false} PutLeaves(t: WTree, p: Path, u: WTree, w: nat)
    requires IsPath(t, p)
    ensures Leaves(At(t, p))[w] <= Leaves(t)[w]
    ensures Leaves(Put(t, p, u))[w] + Leaves(At(t, p))[w] == Leaves(t)[w] + Leaves(u)[w]
  {
    if p != [] {
      PutLeaves(if p[0] then t.r else t.l, p[1..], u, w);
    }
  }

  /** Replacing a subtree at depth |p| by one that is heavier by d costs |p| * d more above it. */
  lemma {:induction false} PutCost(t: WTree, p: Path, u: WTree)
    requires IsPath(t, p)
    ensures Weight(Put(t, p, u)) - Weight(t) == Weight(u) - Weight(At(t, p))
    ensures Cost(Put(t, p, u)) - Cost(t)
         == Cost(u) - Cost(At(t, p)) + |p| * (Weight(u) - Weight(At(t, p)))
  {
    if p != [] {
      var d := Weight(u) - Weight(At(t, p));
      PutCost(if p[0] then t.r else t.l, p[1..], u);
      assert |p| * d == d + |p[1..]| * d by { assert |p| == 1 + |p[1..]|; Distribute(|p[1..]|, d); }
    }
  }

  lemma Distribute(n: nat, d: int)
    ensures (1 + n) * d == d + n * d
  {
  }

  /** Replacing one leaf by a leaf moves nothing else. */
  lemma {:induction false} PutElsewhere(t: WTree, p: Path, q: Path, w: nat)
    requires LeafAt(t, p) && LeafAt(t, q) && p != q
    ensures LeafAt(Put(t, p, W(w)), q) && At(Put(t, p, W(w)), q) == At(t, q)
  {
    assert p != [] && q != [];
    if p[0] == q[0] {
      assert p == [p[0]] + p[1..] && q == [q[0]] + q[1..];
      PutElsewhere(if p[0] then t.r else t.l, p[1..], q[1..], w);
    }
  }

  lemma {:induction false} PutSame(t: WTree, p: Path, w: nat)
    requires LeafAt(t, p)
    ensures LeafAt(Put(t, p, W(w)), p) && At(Put(t, p, W(w)), p) == W(w)
    ensures Height(Put(t, p, W(w))) == Height(t)
  {
    if p != [] {
      PutSame(if p[0] then t.r else t.l, p[1..], w);
    }
  }

  lemma {:induction false} PathHeight(t: WTree, p: Path)
    requires IsPath(t, p)
    ensures |p| + Height(At(t, p)) <= Height(t)
  {
    if p != [] {
      PathHeight(if p[0] then t.r else t.l, p[1..]);
    }
  }

  // ---- Finding leaves ----

  lemma {:induction false} FindLeaf(t: WTree, w: nat) returns (p: Path)
    requires w in Leaves(t)
    ensures LeafAt(t, p) && At(t, p) == W(w)
  {
    if t.W? {
      p := [];
    } else if w in Leaves(t.l) {
      var p' := FindLeaf(t.l, w);
      p := [false] + p';
    } else {
      var p' := FindLeaf(t.r, w);
      p := [true] + p';
    }
  }

  /** A leaf of weight `w` other than the one at `q`. */
  lemma {:induction false} FindOther(t: WTree, q: Path, w: nat) returns (p: Path)
    requires LeafAt(t, q) && Leaves(t)[w] > Leaves(At(t, q))[w]
    ensures LeafAt(t, p) && At(t, p) == W(w) && p != q
  {
    var side, other := (if q[0] then t.r else t.l), (if q[0] then t.l else t.r);
    if w in Leaves(other) {
      var p' := FindLeaf(other, w);
      p := [!q[0]] + p';
    } else {
      var p' := FindOther(side, q[1..], w);
      p := [q[0]] + p';
      assert p[1..] == p';
    }
  }

  /** Somewhere at the bottom two leaves are siblings. */
  lemma {:induction false} DeepestPair(t: WTree) returns (q: Path)
    requires t.B?
    ensures IsPath(t, q) && At(t, q).B? && At(t, q).l.W? && At(t, q).r.W? && |q| + 1 == Height(t)
  {
    if Height(t) == 1 {
      q := [];
    } else {
      var right := Height(t.r) > Height(t.l);
      var q' := DeepestPair(if right then t.r else t.l);
      q := [right] + q';
      assert q[1..] == q';
    }
  }

  lemma {:induction false} PathAppend(t: WTree, q: Path, right: bool)
    requires IsPath(t, q) && At(t, q).B?
    ensures IsPath(t, q + [right]) && At(t, q + [right]) == if right then At(t, q).r else At(t, q).l
  {
    if q == [] {
      assert q + [right] == [right];
    } else {
      assert (q + [right])[1..] == q[1..] + [right];
      PathAppend(if q[0] then t.r else t.l, q[1..], right);
    }
  }

  // ---- Exchange ----

  function Swap(t: WTree, p: Path, q: Path): WTree
    requires LeafAt(t, p) && LeafAt(t, q) && p != q
  {
    PutElsewhere(t, p, q, At(t, q).w);
    Put(Put(t, p, At(t, q)), q, At(t, p))
  }

  /** Moving the lighter of two leaves down does not cost more. */
  lemma SwapCost(t: WTree, p: Path, q: Path)
    requires LeafAt(t, p) && LeafAt(t, q) && p != q
    requires At(t, p).w <= At(t, q).w && |p| <= |q|
    ensures Leaves(Swap(t, p, q)) == Leaves(t) && Cost(Swap(t, p, q)) <= Cost(t) && Height(Swap(t, p, q)) == Height(t)
    ensures LeafAt(Swap(t, p, q), q) && At(Swap(t, p, q), q) == At(t, p)
    ensures LeafAt(Swap(t, p, q), p) && At(Swap(t, p, q), p) == At(t, q)
  {
    var x, y := At(t, p).w, At(t, q).w;
    var m := Put(t, p, W(y));
    PutElsewhere(t, p, q, y);
    PutSame(t, p, y);
    PutSame(m, q, x);
    PutElsewhere(m, q, p, x);
    forall w ensures Leaves(Swap(t, p, q))[w] == Leaves(t)[w] { SwapLeaves(t, p, q, w); }
    assert Leaves(Swap(t, p, q)) == Leaves(t);
    hide Leaves;
    SwapSaves(t, p, q);
  }

  lemma SwapSaves(t: WTree, p: Path, q: Path)
    requires LeafAt(t, p) && LeafAt(t, q) && p != q
    requires At(t, p).w <= At(t, q).w && |p| <= |q|
    ensures Cost(Swap(t, p, q)) <= Cost(t)
  {
    var x: int, y: int := At(t, p).w, At(t, q).w;
    PutElsewhere(t, p, q, y);
    PutLeafCost(t, p, y);
    PutLeafCost(Put(t, p, W(y)), q, x);
    hide Cost, Put, At, IsPath;
    Shift(|p|, |q|, y - x);
    assert x - y == 0 - (y - x);
  }

  lemma PutLeafCost(t: WTree, p: Path, w: nat)
    requires LeafAt(t, p)
    ensures Cost(Put(t, p, W(w))) == Cost(t) + |p| * (w - At(t, p).w)
  {
    PutCost(t, p, W(w));
  }

  lemma PutAlikeCost(t: WTree, p: Path, u: WTree)
    requires IsPath(t, p) && Weight(u) == Weight(At(t, p))
    ensures Cost(Put(t, p, u)) == Cost(t) + Cost(u) - Cost(At(t, p))
  {
    PutCost(t, p, u);
    assert |p| * 0 == 0;
  }

  lemma SwapLeaves(t: WTree, p: Path, q: Path, w: nat)
    requires LeafAt(t, p) && LeafAt(t, q) && p != q
    ensures Leaves(Swap(t, p, q))[w] == Leaves(t)[w]
  {
    var x, y := At(t, p).w, At(t, q).w;
    PutElsewhere(t, p, q, y);
    PutLeaves(t, p, W(y), w);
    PutLeaves(Put(t, p, W(y)), q, W(x), w);
  }

  lemma Shift(a: nat, b: nat, d: int)
    requires a <= b && d >= 0
    ensures a * d + b * (0 - d) <= 0
  {
    assert (b - a) * d >= 0;
  }

  lemma SwapOther(t: WTree, p: Path, q: Path, o: Path)
    requires LeafAt(t, p) && LeafAt(t, q) && p != q && LeafAt(t, o) && o != p && o != q
    ensures LeafAt(Swap(t, p, q), o) && At(Swap(t, p, q), o) == At(t, o)
  {
    var m := Put(t, p, At(t, q));
    PutElsewhere(t, p, q, At(t, q).w);
    PutElsewhere(t, p, o, At(t, q).w);
    PutElsewhere(m, q, o, At(t, p).w);
  }

  /** The leaf at a deepest position `q` exchanged with a lightest one. */
  lemma BringDown(t: WTree, p: Path, q: Path) returns (r: WTree)
    requires LeafAt(t, p) && LeafAt(t, q) && |q| == Height(t) && At(t, p).w <= At(t, q).w
    ensures Leaves(r) == Leaves(t) && Cost(r) <= Cost(t) && Height(r) == Height(t)
    ensures LeafAt(r, q) && At(r, q) == At(t, p)
    ensures forall o | LeafAt(t, o) && o != q :: LeafAt(r, o) && (o != p ==> At(r, o) == At(t, o))
  {
    if p == q {
      r := t;
    } else {
      PathHeight(t, p);
      SwapCost(t, p, q);
      r := Swap(t, p, q);
      forall o | LeafAt(t, o) && o != q ensures LeafAt(r, o) && (o != p ==> At(r, o) == At(t, o)) {
        if o != p { SwapOther(t, p, q, o); }
      }
    }
  }

  /** `a` and `b` are the two lightest members of `m`, counting repetitions. */
  ghost predicate TwoLightest(m: multiset<nat>, a: nat, b: nat) {
    && a <= b && m[a] >= 1 && m[b] >= (if a == b then 2 else 1)
    && forall w | m[w] > (if w == a then 1 else 0) :: b <= w
  }

  /** Some tree no costlier than `t` has the two lightest leaves as siblings at `q`. */
  lemma PairLightest(t: WTree, a: nat, b: nat) returns (r: WTree, q: Path)
    requires TwoLightest(Leaves(t), a, b)
    ensures Leaves(r) == Leaves(t) && Cost(r) <= Cost(t)
    ensures IsPath(r, q) && At(r, q) == B(W(a), W(b))
  {
    TwoLeaves(t, a, b);
    hide Leaves, TwoLightest;
    q := DeepestPair(t);
    PathAppend(t, q, false);
    PathAppend(t, q, true);
    assert LeafAt(t, q + [false]) && LeafAt(t, q + [true]);
    hide Height, Cost, IsPath, At, LeafAt;
    var t1 := LightestAt(t, a, b, q + [false]);
    assert (q + [false])[|q|] != (q + [true])[|q|];
    r := SecondAt(t1, a, b, q + [false], q + [true]);
    SplitLast(r, q);
  }

  lemma TwoLeaves(t: WTree, a: nat, b: nat)
    requires TwoLightest(Leaves(t), a, b)
    ensures t.B?
  {
    match t
    case W(w) => OneLeaf(w, a, b);
    case B(_, _) =>
  }

  lemma OneLeaf(w: nat, a: nat, b: nat)
    ensures !TwoLightest(Leaves(W(w)), a, b)
  {
    assert forall x :: Leaves(W(w))[x] == if x == w then 1 else 0;
  }

  lemma LightestAt(t: WTree, a: nat, b: nat, ql: Path) returns (r: WTree)
    requires TwoLightest(Leaves(t), a, b) && LeafAt(t, ql) && |ql| == Height(t)
    ensures Leaves(r) == Leaves(t) && Cost(r) <= Cost(t) && Height(r) == Height(t)
    ensures LeafAt(r, ql) && At(r, ql) == W(a)
    ensures forall o | LeafAt(t, o) && o != ql :: LeafAt(r, o)
  {
    hide Leaves, Height, Cost, IsPath;
    var pa := FindLeaf(t, a);
    LeafMember(t, ql);
    r := BringDown(t, pa, ql);
  }

  lemma SecondAt(t: WTree, a: nat, b: nat, ql: Path, qr: Path) returns (r: WTree)
    requires TwoLightest(Leaves(t), a, b) && ql != qr
    requires LeafAt(t, ql) && At(t, ql) == W(a) && LeafAt(t, qr) && |qr| == Height(t)
    ensures Leaves(r) == Leaves(t) && Cost(r) <= Cost(t)
    ensures LeafAt(r, ql) && At(r, ql) == W(a) && LeafAt(r, qr) && At(r, qr) == W(b)
  {
    assert Leaves(t)[b] > Leaves(W(a))[b];
    hide Height, Cost, IsPath;
    var pb := FindOther(t, ql, b);
    SecondLeaf(t, ql, qr);
    r := BringDown(t, pb, qr);
  }

  lemma LeafMember(t: WTree, p: Path)
    requires LeafAt(t, p)
    ensures At(t, p).w in Leaves(t)
  {
    PutLeaves(t, p, W(0), At(t, p).w);
  }

  lemma {:induction false} SecondLeaf(t: WTree, p: Path, q: Path)
    requires LeafAt(t, p) && LeafAt(t, q) && p != q
    ensures Leaves(t)[At(t, q).w] > Leaves(At(t, p))[At(t, q).w]
  {
    var w := At(t, q).w;
    PutElsewhere(t, p, q, w + 1);
    LeafMember(Put(t, p, W(w + 1)), q);
    PutLeaves(t, p, W(w + 1), w);
  }

  lemma {:induction false} SplitLast(t: WTree, q: Path)
    requires LeafAt(t, q + [false]) && LeafAt(t, q + [true])
    ensures IsPath(t, q) && At(t, q) == B(At(t, q + [false]), At(t, q + [true]))
  {
    if q == [] {
      assert q + [false] == [false] && q + [true] == [true];
    } else {
      assert (q + [false])[1..] == q[1..] + [false] && (q + [true])[1..] == q[1..] + [true];
      SplitLast(if q[0] then t.r else t.l, q[1..]);
    }
  }

  function One(a: nat, w: nat): nat {
    if w == a then 1 else 0
  }

  /** `n` is `m` with one `a` and one `b` replaced by `a + b`. */
  ghost predicate Merged(m: multiset<nat>, n: multiset<nat>, a: nat, b: nat) {
    forall w :: n[w] + One(a, w) + One(b, w) == m[w] + One(a + b, w)
  }

  /** Merging the two lightest leaves into one leaf saves at least their sum. */
  lemma Contract(t: WTree, a: nat, b: nat) returns (u: WTree)
    requires TwoLightest(Leaves(t), a, b)
    ensures Merged(Leaves(t), Leaves(u), a, b)
    ensures Cost(u) + a + b <= Cost(t)
  {
    hide Leaves, Put, At, IsPath, TwoLightest;
    var r, q := PairLightest(t, a, b);
    u := Put(r, q, W(a + b));
    PutAlikeCost(r, q, W(a + b));
    forall w ensures Leaves(u)[w] + One(a, w) + One(b, w) == Leaves(t)[w] + One(a + b, w) {
      ContractLeaves(r, q, a, b, w);
    }
  }

  lemma ContractLeaves(r: WTree, q: Path, a: nat, b: nat, w: nat)
    requires IsPath(r, q) && At(r, q) == B(W(a), W(b))
    ensures Leaves(Put(r, q, W(a + b)))[w] + One(a, w) + One(b, w) == Leaves(r)[w] + One(a + b, w)
  {
    PutLeaves(r, q, W(a + b), w);
    PairLeaves(a, b, w);
  }

  lemma PairLeaves(a: nat, b: nat, w: nat)
    ensures Leaves(B(W(a), W(b)))[w] == One(a, w) + One(b, w)
  {
  }
}
