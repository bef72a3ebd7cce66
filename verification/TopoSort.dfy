/** Kahn's topological sort. */
module TopoSort {
  import opened Collections
  import opened Dijkstra
  import opened Sorts

  type Degrees = map<Node, int>

  // ---- The algorithm ----

  function CountEdges(edges: seq<Edge>, deg: Degrees): Degrees {
    if edges == [] then deg
    else
      var v := edges[0].0;
      CountEdges(edges[1..], deg[v := if v in deg then deg[v] + 1 else 1])
  }

  function CountAll(dag: Graph, nodes: seq<Node>, deg: Degrees): Degrees {
    if nodes == [] then deg else CountAll(dag, nodes[1..], CountEdges(Edges(dag, nodes[0]), deg))
  }

  function Zero(nodes: seq<Node>): Degrees {
    map v | v in nodes :: 0
  }

  /** Lower the degree of every target; the ones that reach zero come out, latest first. */
  function Lower(edges: seq<Edge>, deg: Degrees, newly: seq<Node>): (Degrees, seq<Node>)
    requires forall e | e in edges :: e.0 in deg
  {
    if edges == [] then (deg, newly)
    else
      var v := edges[0].0;
      var d := deg[v] - 1;
      Lower(edges[1..], deg[v := d], if d == 0 then [v] + newly else newly)
  }

  /** Every edge leads to a node whose degree is kept. */
  ghost predicate Tracked(dag: Graph, deg: Degrees) {
    forall u, e | e in Edges(dag, u) :: e.0 in deg
  }

  function Positive(deg: Degrees): set<Node> {
    set v | v in deg && deg[v] > 0
  }

  function DoTopo(dag: Graph, ready: seq<Node>, deg: Degrees, acc: seq<Node>): seq<Node>
    requires Tracked(dag, deg)
    decreases |ready| + |Positive(deg)|
  {
    if ready == [] then Reverse(acc)
    else
      var u, rest := ready[0], ready[1..];
      LowerMeasure(Edges(dag, u), deg, []);
      var (deg2, newly) := Lower(Edges(dag, u), deg, []);
      var next := MergeSort(rest + MergeSort(newly));
      SortLength(rest, newly);
      DoTopo(dag, next, deg2, [u] + acc)
  }

  lemma {:induction false} LowerMeasure(edges: seq<Edge>, deg: Degrees, newly: seq<Node>)
    requires forall e | e in edges :: e.0 in deg
    ensures Lower(edges, deg, newly).0.Keys == deg.Keys
    ensures |Lower(edges, deg, newly).1| + |Positive(Lower(edges, deg, newly).0)| <= |newly| + |Positive(deg)|
  {
    if edges != [] {
      var v := edges[0].0;
      var d := deg[v] - 1;
      var deg2 := deg[v := d];
      assert edges[0] in edges;
      LowerMeasure(edges[1..], deg2, if d == 0 then [v] + newly else newly);
      assert deg2.Keys == deg.Keys;
      if d == 0 {
        assert Positive(deg) == Positive(deg2) + {v} && v !in Positive(deg2);
      } else {
        assert Positive(deg2) == Positive(deg);
      }
    }
  }

  lemma SortLength(rest: seq<Node>, newly: seq<Node>)
    ensures |MergeSort(rest + MergeSort(newly))| == |rest| + |newly|
  {
    hide MergeSort;
    MergeSortSorts(newly);
    MergeSortSorts(rest + MergeSort(newly));
    SameLength(newly, MergeSort(newly));
    SameLength(rest + MergeSort(newly), MergeSort(rest + MergeSort(newly)));
  }

  lemma SameLength(a: seq<Node>, b: seq<Node>)
    requires multiset(a) == multiset(b)
    ensures |a| == |b|
  {
    assert |multiset(a)| == |a| && |multiset(b)| == |b|;
  }

  function Ready(nodes: seq<Node>, deg: Degrees): seq<Node> {
    if nodes == [] then []
    else (if nodes[0] in deg && deg[nodes[0]] == 0 then [nodes[0]] else []) + Ready(nodes[1..], deg)
  }

  function TopoSort(dag: Graph, nodes: seq<Node>): seq<Node>
    requires Covers(dag, nodes)
  {
    var deg := CountAll(dag, nodes, Zero(nodes));
    CountTracks(dag, nodes);
    DoTopo(dag, MergeSort(Ready(nodes, deg)), deg, [])
  }

  // ---- Graphs it is for ----

  /** Every edge starts at a listed node; it may end anywhere. */
  ghost predicate Covers(dag: Graph, nodes: seq<Node>) {
    forall u, e | e in Edges(dag, u) :: u in nodes
  }

  // ---- Degrees ----

  function Times(edges: seq<Edge>, v: Node): nat {
    if edges == [] then 0 else (if edges[0].0 == v then 1 else 0) + Times(edges[1..], v)
  }

  ghost predicate HasEdge(dag: Graph, u: Node, v: Node) {
    Times(Edges(dag, u), v) > 0
  }

  /** A listed node, or one that an edge leads to. */
  ghost predicate IsNode(dag: Graph, nodes: seq<Node>, v: Node) {
    v in nodes || exists u | u in nodes :: HasEdge(dag, u, v)
  }

  /** How many edges lead to `v` from the nodes listed and not yet done. */
  ghost function Incoming(dag: Graph, nodes: seq<Node>, done: seq<Node>, v: Node): nat {
    if nodes == [] then 0
    else (if nodes[0] in done then 0 else Times(Edges(dag, nodes[0]), v)) + Incoming(dag, nodes[1..], done, v)
  }

  lemma {:induction false} TimesIs(edges: seq<Edge>, v: Node)
    ensures Times(edges, v) > 0 <==> exists e | e in edges :: e.0 == v
  {
    if edges != [] {
      TimesIs(edges[1..], v);
      assert edges == [edges[0]] + edges[1..];
    }
  }

  lemma {:induction false} CountEdgesIs(edges: seq<Edge>, deg: Degrees, v: Node)
    ensures var counted := CountEdges(edges, deg);
      && (v in counted <==> v in deg || Times(edges, v) > 0)
      && (v in counted ==> counted[v] == (if v in deg then deg[v] else 0) + Times(edges, v))
  {
    if edges != [] {
      var w := edges[0].0;
      CountEdgesIs(edges[1..], deg[w := if w in deg then deg[w] + 1 else 1], v);
    }
  }

  lemma {:induction false} CountAllIs(dag: Graph, nodes: seq<Node>, deg: Degrees, v: Node)
    ensures var counted := CountAll(dag, nodes, deg);
      && (v in counted <==> v in deg || Incoming(dag, nodes, [], v) > 0)
      && (v in counted ==> counted[v] == (if v in deg then deg[v] else 0) + Incoming(dag, nodes, [], v))
  {
    if nodes != [] {
      CountEdgesIs(Edges(dag, nodes[0]), deg, v);
      CountAllIs(dag, nodes[1..], CountEdges(Edges(dag, nodes[0]), deg), v);
    }
  }

  lemma CountTracks(dag: Graph, nodes: seq<Node>)
    requires Covers(dag, nodes)
    ensures Tracked(dag, CountAll(dag, nodes, Zero(nodes)))
  {
    hide CountAll, Incoming;
    forall u, e | e in Edges(dag, u) ensures e.0 in CountAll(dag, nodes, Zero(nodes)) {
      TimesIs(Edges(dag, u), e.0);
      assert u !in [] && HasEdge(dag, u, e.0);
      IncomingPositive(dag, nodes, [], e.0);
      CountAllIs(dag, nodes, Zero(nodes), e.0);
    }
  }

  lemma {:induction false} IncomingDone(dag: Graph, nodes: seq<Node>, done: seq<Node>, u: Node, v: Node)
    requires NoDuplicates(nodes) && u !in done
    ensures Incoming(dag, nodes, [u] + done, v)
         == Incoming(dag, nodes, done, v) - if u in nodes then Times(Edges(dag, u), v) else 0
    ensures u in nodes ==> Times(Edges(dag, u), v) <= Incoming(dag, nodes, done, v)
  {
    if nodes != [] {
      IncomingDone(dag, nodes[1..], done, u, v);
      assert nodes == [nodes[0]] + nodes[1..];
    }
  }

  lemma {:induction false} IncomingPositive(dag: Graph, nodes: seq<Node>, done: seq<Node>, v: Node)
    ensures Incoming(dag, nodes, done, v) > 0 <==> exists u | u in nodes :: u !in done && HasEdge(dag, u, v)
  {
    if nodes != [] {
      IncomingPositive(dag, nodes[1..], done, v);
      assert nodes == [nodes[0]] + nodes[1..];
    }
  }

  lemma {:induction false} LowerIs(edges: seq<Edge>, deg: Degrees, newly: seq<Node>, v: Node)
    requires forall e | e in edges :: e.0 in deg
    requires v in deg && Times(edges, v) <= deg[v]
    ensures var (deg2, newly2) := Lower(edges, deg, newly);
      && v in deg2 && deg2[v] == deg[v] - Times(edges, v)
      && Count(newly2, v) == Count(newly, v) + if Times(edges, v) > 0 && deg2[v] == 0 then 1 else 0
  {
    if edges != [] {
      hide Count;
      var w := edges[0].0;
      assert edges[0] in edges;
      var d := deg[w] - 1;
      CountCons(w, newly, v);
      LowerIs(edges[1..], deg[w := d], if d == 0 then [w] + newly else newly, v);
    }
  }

  // ---- The state of the loop ----

  /**
   * `acc` is what came out, latest first. A degree counts the edges from nodes that have not come out; a node is
   * out or ready, and that once, exactly when its degree is zero; and whatever came out did so after all its
   * predecessors.
   */
  ghost predicate Inv(dag: Graph, nodes: seq<Node>, ready: seq<Node>, deg: Degrees, acc: seq<Node>) {
    && (forall v :: v in deg <==> IsNode(dag, nodes, v))
    && (forall v | v in deg :: deg[v] == Incoming(dag, nodes, acc, v))
    && (forall v :: Count(acc, v) + Count(ready, v) == if v in deg && deg[v] == 0 then 1 else 0)
    && AfterPredecessors(dag, nodes, acc)
  }

  ghost predicate AfterPredecessors(dag: Graph, nodes: seq<Node>, acc: seq<Node>) {
    forall i, u | 0 <= i < |acc| && u in nodes && HasEdge(dag, u, acc[i]) :: u in acc[i + 1..]
  }

  lemma NextReady(rest: seq<Node>, newly: seq<Node>, v: Node)
    ensures Count(MergeSort(rest + MergeSort(newly)), v) == Count(rest, v) + Count(newly, v)
  {
    hide MergeSort, Count;
    MergeSortCounts(newly, v);
    MergeSortCounts(rest + MergeSort(newly), v);
    CountAppend(rest, MergeSort(newly), v);
  }

  lemma HeadOut(dag: Graph, nodes: seq<Node>, ready: seq<Node>, deg: Degrees, acc: seq<Node>)
    requires Inv(dag, nodes, ready, deg, acc) && ready != []
    ensures ready[0] in deg && ready[0] !in acc && AfterPredecessors(dag, nodes, [ready[0]] + acc)
    ensures forall u | u in nodes && HasEdge(dag, u, ready[0]) :: u in acc
  {
    var u := ready[0];
    CountCons(u, ready[1..], u);
    assert ready == [u] + ready[1..];
    CountPositive(acc, u);
    forall w | w in nodes && HasEdge(dag, w, u) ensures w in acc {
      IncomingPositive(dag, nodes, acc, u);
    }
    var acc2 := [u] + acc;
    assert acc2[1..] == acc;
    forall i, w | 0 <= i < |acc2| && w in nodes && HasEdge(dag, w, acc2[i]) ensures w in acc2[i + 1..] {
      if i > 0 {
        assert acc2[i] == acc[i - 1] && acc2[i + 1..] == acc[i..];
      }
    }
  }

  lemma StepAt(dag: Graph, nodes: seq<Node>, ready: seq<Node>, deg: Degrees, acc: seq<Node>, v: Node)
    requires NoDuplicates(nodes) && Covers(dag, nodes) && Tracked(dag, deg)
    requires Inv(dag, nodes, ready, deg, acc) && ready != []
    ensures var u := ready[0];
      var (deg2, newly) := Lower(Edges(dag, u), deg, []);
      var next := MergeSort(ready[1..] + MergeSort(newly));
      && (v in deg2 <==> v in deg)
      && (v in deg ==> deg2[v] == Incoming(dag, nodes, [u] + acc, v))
      && Count([u] + acc, v) + Count(next, v) == if v in deg2 && deg2[v] == 0 then 1 else 0
  {
    hide Count, MergeSort, AfterPredecessors, Incoming, IsNode;
    var u := ready[0];
    var newly := Lower(Edges(dag, u), deg, []).1;
    HeadOut(dag, nodes, ready, deg, acc);
    IncomingDone(dag, nodes, acc, u, v);
    CountCons(u, acc, v);
    assert ready == [u] + ready[1..];
    CountCons(u, ready[1..], v);
    NextReady(ready[1..], newly, v);
    CountNothing(v);
    LowerMeasure(Edges(dag, u), deg, []);
    UnlistedHasNone(dag, nodes, u, v);
    if v in deg {
      LowerIs(Edges(dag, u), deg, [], v);
    } else {
      NewlyKnown(Edges(dag, u), deg, [], v);
    }
  }

  lemma UnlistedHasNone(dag: Graph, nodes: seq<Node>, u: Node, v: Node)
    requires Covers(dag, nodes)
    ensures u !in nodes ==> Times(Edges(dag, u), v) == 0
  {
    TimesIs(Edges(dag, u), v);
  }

  lemma CountNothing(v: Node)
    ensures Count([], v) == 0
  {
  }

  lemma {:induction false} NewlyKnown(edges: seq<Edge>, deg: Degrees, newly: seq<Node>, v: Node)
    requires v !in deg && (forall e | e in edges :: e.0 in deg)
    ensures Count(Lower(edges, deg, newly).1, v) == Count(newly, v)
  {
    if edges != [] {
      hide Count;
      var w := edges[0].0;
      assert edges[0] in edges;
      var d := deg[w] - 1;
      CountCons(w, newly, v);
      NewlyKnown(edges[1..], deg[w := d], if d == 0 then [w] + newly else newly, v);
    }
  }

  /**
   * What comes out in the end: distinct nodes, each after all its predecessors, and only nodes that have a
   * predecessor outside the list are missing from it.
   */
  ghost predicate Kahn(dag: Graph, nodes: seq<Node>, out: seq<Node>) {
    && NoDuplicates(out)
    && (forall v | v in out :: IsNode(dag, nodes, v))
    && (forall i, u | 0 <= i < |out| && u in nodes && HasEdge(dag, u, out[i]) :: u in out[..i])
    && (forall v | IsNode(dag, nodes, v) && v !in out :: exists u | u in nodes :: u !in out && HasEdge(dag, u, v))
  }

  lemma {:induction false} NoRepeats(s: seq<Node>)
    requires forall v :: Count(s, v) <= 1
    ensures NoDuplicates(s)
  {
    if s != [] {
      forall v ensures Count(s[1..], v) <= 1 {
        assert Count(s, v) <= 1;
      }
      NoRepeats(s[1..]);
      assert Count(s, s[0]) <= 1;
      CountPositive(s[1..], s[0]);
      assert s == [s[0]] + s[1..];
    }
  }

  /** Out exactly when the degree is zero. */
  lemma OutIff(dag: Graph, nodes: seq<Node>, deg: Degrees, acc: seq<Node>, v: Node)
    requires Inv(dag, nodes, [], deg, acc)
    ensures Count(acc, v) == if v in deg && deg[v] == 0 then 1 else 0
    ensures v in acc <==> v in deg && deg[v] == 0
  {
    hide Count, Incoming, AfterPredecessors;
    CountNothing(v);
    CountPositive(acc, v);
  }

  lemma MissingHasPredecessor(dag: Graph, nodes: seq<Node>, deg: Degrees, acc: seq<Node>, v: Node)
    requires Inv(dag, nodes, [], deg, acc) && IsNode(dag, nodes, v) && v !in acc
    ensures exists u | u in nodes :: u !in acc && HasEdge(dag, u, v)
  {
    hide Count, HasEdge, AfterPredecessors;
    OutIff(dag, nodes, deg, acc, v);
    IncomingPositive(dag, nodes, acc, v);
  }

  lemma PredecessorsFirst(dag: Graph, nodes: seq<Node>, acc: seq<Node>, i: nat, u: Node)
    requires AfterPredecessors(dag, nodes, acc) && i < |acc| == |Reverse(acc)|
    requires u in nodes && HasEdge(dag, u, Reverse(acc)[i])
    ensures u in Reverse(acc)[..i]
  {
    hide HasEdge, Reverse;
    var n := |acc|;
    ReverseAt(acc, i);
    var k :| 0 <= k < |acc[n - i..]| && acc[n - i..][k] == u;
    ReverseAt(acc, i - 1 - k);
    assert Reverse(acc)[..i][i - 1 - k] == u;
  }

  lemma OutIsKahn(dag: Graph, nodes: seq<Node>, deg: Degrees, acc: seq<Node>)
    requires Inv(dag, nodes, [], deg, acc)
    ensures Kahn(dag, nodes, Reverse(acc))
  {
    forall v
      ensures Count(acc, v) <= 1 && (v in acc ==> IsNode(dag, nodes, v)) && (v in Reverse(acc) <==> v in acc)
    {
      OutIff(dag, nodes, deg, acc, v);
      InReverse(acc, v);
    }
    NoRepeats(acc);
    ReverseDistinct(acc);
    hide Incoming, Count, HasEdge, Reverse, NoDuplicates, IsNode;
    forall v | IsNode(dag, nodes, v) && v !in Reverse(acc)
      ensures exists u | u in nodes :: u !in Reverse(acc) && HasEdge(dag, u, v)
    {
      MissingHasPredecessor(dag, nodes, deg, acc, v);
    }
    forall i, u | 0 <= i < |Reverse(acc)| && u in nodes && HasEdge(dag, u, Reverse(acc)[i])
      ensures u in Reverse(acc)[..i]
    {
      PredecessorsFirst(dag, nodes, acc, i, u);
    }
  }

  lemma ReverseDistinct(s: seq<Node>)
    requires NoDuplicates(s)
    ensures |Reverse(s)| == |s| && NoDuplicates(Reverse(s))
  {
    assert s == [] ==> Reverse(s) == [];
    forall i | 0 <= i < |s| ensures |Reverse(s)| == |s| && Reverse(s)[i] == s[|s| - 1 - i] { ReverseAt(s, i); }
  }

  lemma StepInv(dag: Graph, nodes: seq<Node>, ready: seq<Node>, deg: Degrees, acc: seq<Node>)
    requires NoDuplicates(nodes) && Covers(dag, nodes) && Tracked(dag, deg)
    requires Inv(dag, nodes, ready, deg, acc) && ready != []
    ensures var (deg2, newly) := Lower(Edges(dag, ready[0]), deg, []);
      Inv(dag, nodes, MergeSort(ready[1..] + MergeSort(newly)), deg2, [ready[0]] + acc)
  {
    hide Count, MergeSort, Incoming, HasEdge, IsNode, AfterPredecessors;
    var u := ready[0];
    var (deg2, newly) := Lower(Edges(dag, u), deg, []);
    HeadOut(dag, nodes, ready, deg, acc);
    var next := MergeSort(ready[1..] + MergeSort(newly));
    forall v
      ensures v in deg2 <==> v in deg
      ensures v in deg ==> deg2[v] == Incoming(dag, nodes, [u] + acc, v)
      ensures Count([u] + acc, v) + Count(next, v) == if v in deg2 && deg2[v] == 0 then 1 else 0
    {
      StepAt(dag, nodes, ready, deg, acc, v);
    }
  }

  lemma {:induction false} DoTopoIsKahn(dag: Graph, nodes: seq<Node>, ready: seq<Node>, deg: Degrees, acc: seq<Node>)
    requires NoDuplicates(nodes) && Covers(dag, nodes) && Tracked(dag, deg)
    requires Inv(dag, nodes, ready, deg, acc)
    ensures Kahn(dag, nodes, DoTopo(dag, ready, deg, acc))
    decreases |ready| + |Positive(deg)|
  {
    if ready == [] {
      OutIsKahn(dag, nodes, deg, acc);
    } else {
      hide MergeSort, Kahn, Inv, NoDuplicates, Covers;
      LowerMeasure(Edges(dag, ready[0]), deg, []);
      var (deg2, newly) := Lower(Edges(dag, ready[0]), deg, []);
      SortLength(ready[1..], newly);
      StepInv(dag, nodes, ready, deg, acc);
      DoTopoIsKahn(dag, nodes, MergeSort(ready[1..] + MergeSort(newly)), deg2, [ready[0]] + acc);
    }
  }

  lemma {:induction false} ReadyCounts(nodes: seq<Node>, deg: Degrees, v: Node)
    requires NoDuplicates(nodes)
    ensures Count(Ready(nodes, deg), v) == if v in nodes && v in deg && deg[v] == 0 then 1 else 0
  {
    if nodes != [] {
      ReadyCounts(nodes[1..], deg, v);
      CountCons(nodes[0], Ready(nodes[1..], deg), v);
      assert nodes == [nodes[0]] + nodes[1..];
      assert [] + Ready(nodes[1..], deg) == Ready(nodes[1..], deg);
    }
  }

  lemma StartInv(dag: Graph, nodes: seq<Node>)
    requires NoDuplicates(nodes) && Covers(dag, nodes)
    ensures var deg := CountAll(dag, nodes, Zero(nodes));
      Tracked(dag, deg) && Inv(dag, nodes, MergeSort(Ready(nodes, deg)), deg, [])
  {
    hide Count, MergeSort, Incoming, Ready, CountAll;
    var deg := CountAll(dag, nodes, Zero(nodes));
    var ready := MergeSort(Ready(nodes, deg));
    CountTracks(dag, nodes);
    forall v
      ensures v in deg <==> IsNode(dag, nodes, v)
      ensures v in deg ==> deg[v] == Incoming(dag, nodes, [], v)
      ensures Count([], v) + Count(ready, v) == if v in deg && deg[v] == 0 then 1 else 0
    {
      CountAllIs(dag, nodes, Zero(nodes), v);
      IncomingPositive(dag, nodes, [], v);
      CountNothing(v);
      ReadyCounts(nodes, deg, v);
      MergeSortCounts(Ready(nodes, deg), v);
    }
  }

  lemma TopoSortIsKahn(dag: Graph, nodes: seq<Node>)
    requires NoDuplicates(nodes) && Covers(dag, nodes)
    ensures Kahn(dag, nodes, TopoSort(dag, nodes))
  {
    hide MergeSort, Kahn, DoTopo, Ready, CountAll, Inv;
    var deg := CountAll(dag, nodes, Zero(nodes));
    StartInv(dag, nodes);
    DoTopoIsKahn(dag, nodes, MergeSort(Ready(nodes, deg)), deg, []);
  }

  // ---- Acyclic graphs ----

  /** A closed walk: each node leads to the next and the last one to the first. */
  ghost predicate IsCycle(dag: Graph, c: seq<Node>) {
    && c != []
    && (forall i | 0 <= i < |c| - 1 :: HasEdge(dag, c[i], c[i + 1]))
    && HasEdge(dag, c[|c| - 1], c[0])
  }

  ghost predicate Acyclic(dag: Graph) {
    forall c :: !IsCycle(dag, c)
  }

  /** Every edge goes up in this ranking. */
  ghost predicate Ranked(dag: Graph, rank: Node -> int) {
    forall u, v | HasEdge(dag, u, v) :: rank(u) < rank(v)
  }

  lemma {:induction false} WalkRises(dag: Graph, rank: Node -> int, c: seq<Node>, i: nat)
    requires Ranked(dag, rank) && IsCycle(dag, c) && i < |c|
    ensures rank(c[0]) <= rank(c[i])
    decreases i
  {
    if i > 0 {
      hide HasEdge;
      WalkRises(dag, rank, c, i - 1);
      assert HasEdge(dag, c[i - 1], c[i - 1 + 1]);
    }
  }

  lemma RankedIsAcyclic(dag: Graph, rank: Node -> int)
    requires Ranked(dag, rank)
    ensures Acyclic(dag)
  {
    hide HasEdge;
    forall c ensures !IsCycle(dag, c) {
      if IsCycle(dag, c) {
        WalkRises(dag, rank, c, |c| - 1);
      }
    }
  }

  function PositionIn(out: seq<Node>, v: Node): nat {
    if out == [] || out[0] == v then 0 else 1 + PositionIn(out[1..], v)
  }

  lemma {:induction false} PositionIs(out: seq<Node>, i: nat)
    requires NoDuplicates(out) && i < |out|
    ensures PositionIn(out, out[i]) == i
  {
    if i > 0 {
      PositionIs(out[1..], i - 1);
    }
  }

  lemma EdgeEnds(dag: Graph, nodes: seq<Node>, u: Node, v: Node)
    requires Covers(dag, nodes) && HasEdge(dag, u, v)
    ensures u in nodes && IsNode(dag, nodes, v)
  {
    TimesIs(Edges(dag, u), v);
  }

  lemma PositionRanks(dag: Graph, nodes: seq<Node>, out: seq<Node>)
    requires Covers(dag, nodes) && Kahn(dag, nodes, out) && forall v | IsNode(dag, nodes, v) :: v in out
    ensures Ranked(dag, v => PositionIn(out, v))
  {
    hide HasEdge, IsNode;
    forall u, v | HasEdge(dag, u, v) ensures PositionIn(out, u) < PositionIn(out, v) {
      EdgeEnds(dag, nodes, u, v);
      var i :| 0 <= i < |out| && out[i] == v;
      var j :| 0 <= j < i && out[j] == u;
      PositionIs(out, i);
      PositionIs(out, j);
    }
  }

  // ---- A missing node means a cycle ----

  function Missing(nodes: seq<Node>, out: seq<Node>): set<Node> {
    set v | v in nodes && v !in out
  }

  function Elements(s: seq<Node>): set<Node> {
    set v | v in s
  }

  /** A walk through missing nodes, each leading to the next. */
  ghost predicate Trail(dag: Graph, nodes: seq<Node>, out: seq<Node>, trail: seq<Node>) {
    && trail != []
    && (forall v | v in trail :: v in Missing(nodes, out))
    && (forall i | 0 <= i < |trail| - 1 :: HasEdge(dag, trail[i], trail[i + 1]))
  }

  lemma TrailExtends(dag: Graph, nodes: seq<Node>, out: seq<Node>, trail: seq<Node>, u: Node)
    requires Trail(dag, nodes, out, trail) && u in Missing(nodes, out) && HasEdge(dag, u, trail[0])
    ensures Trail(dag, nodes, out, [u] + trail)
  {
    hide HasEdge, Missing;
    var longer := [u] + trail;
    forall i | 0 <= i < |longer| - 1 ensures HasEdge(dag, longer[i], longer[i + 1]) {
      if i > 0 { assert HasEdge(dag, trail[i - 1], trail[i - 1 + 1]); }
    }
  }

  lemma TrailCloses(dag: Graph, nodes: seq<Node>, out: seq<Node>, trail: seq<Node>, k: nat)
    requires Trail(dag, nodes, out, trail) && k < |trail| && HasEdge(dag, trail[k], trail[0])
    ensures IsCycle(dag, trail[..k + 1])
  {
    hide HasEdge, Missing;
  }

  /** Going back along missing predecessors, a node comes up again. */
  lemma {:induction false} FindCycle(dag: Graph, nodes: seq<Node>, out: seq<Node>, trail: seq<Node>)
    returns (c: seq<Node>)
    requires Kahn(dag, nodes, out) && Trail(dag, nodes, out, trail)
    ensures IsCycle(dag, c)
    decreases Missing(nodes, out) - Elements(trail)
  {
    hide HasEdge, NoDuplicates, IsCycle;
    var v := trail[0];
    assert v in trail && v in nodes && IsNode(dag, nodes, v);
    var u :| u in nodes && u !in out && HasEdge(dag, u, v);
    if u in trail {
      var k :| 0 <= k < |trail| && trail[k] == u;
      TrailCloses(dag, nodes, out, trail, k);
      c := trail[..k + 1];
    } else {
      TrailExtends(dag, nodes, out, trail, u);
      assert u in Missing(nodes, out) && u in Elements([u] + trail) && u !in Elements(trail);
      c := FindCycle(dag, nodes, out, [u] + trail);
    }
  }

  lemma MissingHasCycle(dag: Graph, nodes: seq<Node>, out: seq<Node>, v: Node)
    requires Kahn(dag, nodes, out) && IsNode(dag, nodes, v) && v !in out
    ensures !Acyclic(dag)
  {
    hide HasEdge, NoDuplicates, IsNode;
    var u :| u in nodes && u !in out && HasEdge(dag, u, v);
    var c := FindCycle(dag, nodes, out, [u]);
  }

  /**
   * The sort gives distinct nodes, each after all its predecessors; and it gives all of them, also those that only
   * edges lead to, exactly when the graph has no cycle.
   */
  lemma TopoSortCorrect(dag: Graph, nodes: seq<Node>)
    requires NoDuplicates(nodes) && Covers(dag, nodes)
    ensures var out := TopoSort(dag, nodes);
      && NoDuplicates(out)
      && (forall v | v in out :: IsNode(dag, nodes, v))
      && (forall i, u | 0 <= i < |out| && u in nodes && HasEdge(dag, u, out[i]) :: u in out[..i])
      && ((forall v | IsNode(dag, nodes, v) :: v in out) <==> Acyclic(dag))
  {
    hide TopoSort, HasEdge, Ranked, IsNode, Acyclic;
    TopoSortIsKahn(dag, nodes);
    var out := TopoSort(dag, nodes);
    if forall v | IsNode(dag, nodes, v) :: v in out {
      PositionRanks(dag, nodes, out);
      RankedIsAcyclic(dag, v => PositionIn(out, v));
    } else {
      var v :| IsNode(dag, nodes, v) && v !in out;
      MissingHasCycle(dag, nodes, out, v);
    }
  }

  // ---- The graphs the program sorts ----

  function Upward(edges: seq<Edge>, u: Node): seq<Edge> {
    if edges == [] then [] else (if edges[0].0 > u then [edges[0]] else []) + Upward(edges[1..], u)
  }

  lemma {:induction false} UpwardKeeps(edges: seq<Edge>, u: Node, v: Node)
    ensures Times(Upward(edges, u), v) == if v > u then Times(edges, v) else 0
  {
    if edges != [] {
      UpwardKeeps(edges[1..], u, v);
      if edges[0].0 > u {
        assert Upward(edges, u)[1..] == Upward(edges[1..], u);
      } else {
        assert [] + Upward(edges[1..], u) == Upward(edges[1..], u);
      }
    }
  }

  function BuildDag(graph: Graph, nodes: seq<Node>): Graph {
    map u | u in nodes :: Upward(Edges(graph, u), u)
  }

  /** What is built is the upward edges of the listed nodes, as often as they were there. */
  lemma BuiltEdges(graph: Graph, nodes: seq<Node>, u: Node, v: Node)
    ensures Times(Edges(BuildDag(graph, nodes), u), v) == if u in nodes && v > u then Times(Edges(graph, u), v) else 0
  {
    UpwardKeeps(Edges(graph, u), u, v);
  }

  /** Keeping the upward edges leaves a graph without cycles, so its sort gives every node. */
  lemma BuiltDagSorts(graph: Graph, nodes: seq<Node>)
    requires NoDuplicates(nodes)
    ensures var dag := BuildDag(graph, nodes);
      && (forall u, v :: HasEdge(dag, u, v) <==> u in nodes && v > u && HasEdge(graph, u, v))
      && Covers(dag, nodes) && Acyclic(dag)
      && forall v | IsNode(dag, nodes, v) :: v in TopoSort(dag, nodes)
  {
    hide TopoSort, IsNode;
    var dag := BuildDag(graph, nodes);
    forall u, v ensures HasEdge(dag, u, v) <==> u in nodes && v > u && HasEdge(graph, u, v) {
      BuiltEdges(graph, nodes, u, v);
    }
    hide HasEdge;
    RankedIsAcyclic(dag, (v: Node) => v);
    TopoSortCorrect(dag, nodes);
  }
}
