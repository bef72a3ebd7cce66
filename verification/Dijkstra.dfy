/** Dijkstra's algorithm with list-based selection of the nearest unvisited node. */
module Dijkstra {

  type Node = int
  type Edge = (Node, nat)
  type Graph = map<Node, seq<Edge>>

  datatype Dist = Fin(d: nat) | Inf

  type Dists = map<Node, Dist>

  function Edges(graph: Graph, u: Node): seq<Edge> {
    if u in graph then graph[u] else []
  }

  // ---- The algorithm ----

  /** `u` is the unvisited node at the least finite distance, the smallest such node on a tie. */
  ghost predicate Nearest(u: Node, unvisited: set<Node>, dist: Dists) {
    && u in unvisited && u in dist && dist[u].Fin?
    && forall v | v in unvisited && v in dist && dist[v].Fin? && v != u ::
         dist[u].d < dist[v].d || (dist[u].d == dist[v].d && u < v)
  }

  ghost predicate SomeFinite(unvisited: set<Node>, dist: Dists) {
    exists v | v in unvisited :: v in dist && dist[v].Fin?
  }

  lemma {:induction false} NearestExists(unvisited: set<Node>, dist: Dists) returns (u: Node)
    requires SomeFinite(unvisited, dist)
    ensures Nearest(u, unvisited, dist)
    decreases |unvisited|
  {
    var v :| v in unvisited && v in dist && dist[v].Fin?;
    var rest := unvisited - {v};
    if SomeFinite(rest, dist) {
      var w := NearestExists(rest, dist);
      u := if dist[v].d < dist[w].d || (dist[v].d == dist[w].d && v < w) then v else w;
    } else {
      u := v;
    }
  }

  ghost function PickNearest(unvisited: set<Node>, dist: Dists): (u: Node)
    requires SomeFinite(unvisited, dist)
    ensures Nearest(u, unvisited, dist)
  {
    NearestExistsLemma(unvisited, dist);
    var u :| Nearest(u, unvisited, dist);
    u
  }

  lemma NearestExistsLemma(unvisited: set<Node>, dist: Dists)
    requires SomeFinite(unvisited, dist)
    ensures exists u :: Nearest(u, unvisited, dist)
  {
    var u := NearestExists(unvisited, dist);
  }

  /** Relax the edges out of a node at distance `du`, in order, toward unvisited nodes only. */
  function Relax(edges: seq<Edge>, du: nat, unvisited: set<Node>, dist: Dists): Dists
    requires unvisited <= dist.Keys
  {
    if edges == [] then dist
    else
      var (v, w) := edges[0];
      var next :=
        if v in unvisited && (dist[v].Inf? || du + w < dist[v].d) then dist[v := Fin(du + w)] else dist;
      Relax(edges[1..], du, unvisited, next)
  }

  lemma {:induction false} RelaxKeys(edges: seq<Edge>, du: nat, unvisited: set<Node>, dist: Dists)
    requires unvisited <= dist.Keys
    ensures Relax(edges, du, unvisited, dist).Keys == dist.Keys
  {
    if edges != [] {
      var (v, w) := edges[0];
      var next :=
        if v in unvisited && (dist[v].Inf? || du + w < dist[v].d) then dist[v := Fin(du + w)] else dist;
      assert next.Keys == dist.Keys;
      RelaxKeys(edges[1..], du, unvisited, next);
    }
  }

  ghost function DoDijkstra(graph: Graph, unvisited: set<Node>, dist: Dists): Dists
    requires unvisited <= dist.Keys
    decreases |unvisited|
  {
    if !SomeFinite(unvisited, dist) then dist
    else
      var u := PickNearest(unvisited, dist);
      var rest := unvisited - {u};
      RelaxKeys(Edges(graph, u), dist[u].d, rest, dist);
      DoDijkstra(graph, rest, Relax(Edges(graph, u), dist[u].d, rest, dist))
  }

  function NodeSet(nodes: seq<Node>): set<Node> {
    set u | u in nodes
  }

  ghost function DijkstraFrom(graph: Graph, src: Node, nodes: seq<Node>): Dists {
    var dist := map u | u in nodes :: if u == src then Fin(0) else Inf;
    DoDijkstra(graph, NodeSet(nodes), dist)
  }

  // ---- Walks ----

  /** `steps` are edges taken one after the other from `u`, inside `S`. */
  ghost predicate IsWalk(graph: Graph, S: set<Node>, u: Node, steps: seq<Edge>)
    decreases |steps|
  {
    && u in S
    && (steps == [] || (u in graph && steps[0] in graph[u] && IsWalk(graph, S, steps[0].0, steps[1..])))
  }

  ghost function WalkEnd(u: Node, steps: seq<Edge>): Node {
    if steps == [] then u else steps[|steps| - 1].0
  }

  ghost function WalkCost(steps: seq<Edge>): nat {
    if steps == [] then 0 else steps[0].1 + WalkCost(steps[1..])
  }

  lemma {:induction false} WalkExtend(graph: Graph, S: set<Node>, u: Node, steps: seq<Edge>, e: Edge)
    requires IsWalk(graph, S, u, steps) && e in Edges(graph, WalkEnd(u, steps)) && e.0 in S
    ensures IsWalk(graph, S, u, steps + [e]) && WalkEnd(u, steps + [e]) == e.0
    ensures WalkCost(steps + [e]) == WalkCost(steps) + e.1
    decreases |steps|
  {
    if steps == [] {
      assert steps + [e] == [e] && [e][1..] == [];
    } else {
      assert (steps + [e])[1..] == steps[1..] + [e];
      assert WalkEnd(steps[0].0, steps[1..]) == WalkEnd(u, steps);
      WalkExtend(graph, S, steps[0].0, steps[1..], e);
    }
  }

  // ---- The invariant ----

  ghost predicate Realized(graph: Graph, S: set<Node>, src: Node, v: Node, d: nat) {
    exists steps :: IsWalk(graph, S, src, steps) && WalkEnd(src, steps) == v && WalkCost(steps) == d
  }

  /** Every finite distance is the cost of a walk. */
  ghost predicate Sound(graph: Graph, S: set<Node>, src: Node, dist: Dists) {
    forall v | v in dist && dist[v].Fin? :: Realized(graph, S, src, v, dist[v].d)
  }

  /** No edge out of a visited node can improve a distance any more. */
  ghost predicate Settled(graph: Graph, S: set<Node>, unvisited: set<Node>, dist: Dists)
    requires dist.Keys == S
  {
    forall v, e | v in S - unvisited && e in Edges(graph, v) && e.0 in S ::
      dist[v].Fin? && dist[e.0].Fin? && dist[e.0].d <= dist[v].d + e.1
  }

  /** Visited nodes are no farther than unvisited ones. */
  ghost predicate Ordered(S: set<Node>, unvisited: set<Node>, dist: Dists)
    requires dist.Keys == S
  {
    && (forall v | v in S - unvisited :: dist[v].Fin?)
    && forall v, u | v in S - unvisited && u in unvisited && u in S && dist[u].Fin? :: dist[v].d <= dist[u].d
  }

  ghost predicate Inv(graph: Graph, S: set<Node>, src: Node, unvisited: set<Node>, dist: Dists) {
    && dist.Keys == S && unvisited <= S
    && (src in S ==> dist[src].Fin? && dist[src].d == 0)
    && Sound(graph, S, src, dist)
    && Settled(graph, S, unvisited, dist)
    && Ordered(S, unvisited, dist)
  }

  // ---- Relaxation ----

  /** Relaxing changes unvisited nodes only, never raises a distance, and covers every edge given. */
  lemma {:induction false} RelaxEffect(edges: seq<Edge>, du: nat, unvisited: set<Node>, dist: Dists)
    requires unvisited <= dist.Keys
    ensures var r := Relax(edges, du, unvisited, dist);
      && r.Keys == dist.Keys
      && (forall v | v in dist && v !in unvisited :: r[v] == dist[v])
      && (forall v | v in dist && dist[v].Fin? :: r[v].Fin? && r[v].d <= dist[v].d)
      && (forall e | e in edges && e.0 in unvisited :: r[e.0].Fin? && r[e.0].d <= du + e.1)
      && (forall v | v in dist && r[v] != dist[v] :: exists e :: e in edges && e.0 == v && r[v] == Fin(du + e.1))
  {
    RelaxKeys(edges, du, unvisited, dist);
    if edges != [] {
      var (v, w) := edges[0];
      var next :=
        if v in unvisited && (dist[v].Inf? || du + w < dist[v].d) then dist[v := Fin(du + w)] else dist;
      assert next.Keys == dist.Keys;
      RelaxEffect(edges[1..], du, unvisited, next);
      var r := Relax(edges, du, unvisited, dist);
      assert edges == [edges[0]] + edges[1..];
      forall x | x in dist && r[x] != dist[x] ensures exists e :: e in edges && e.0 == x && r[x] == Fin(du + e.1) {
        if r[x] != next[x] {
          var e :| e in edges[1..] && e.0 == x && r[x] == Fin(du + e.1);
          assert e in edges;
        } else {
          assert edges[0] in edges && edges[0].0 == x;
        }
      }
    }
  }

  lemma VisitKeepsSound(graph: Graph, S: set<Node>, src: Node, unvisited: set<Node>, dist: Dists, u: Node)
    requires Inv(graph, S, src, unvisited, dist) && Nearest(u, unvisited, dist)
    ensures Sound(graph, S, src, Relax(Edges(graph, u), dist[u].d, unvisited - {u}, dist))
  {
    var edges, du := Edges(graph, u), dist[u].d;
    var r := Relax(edges, du, unvisited - {u}, dist);
    RelaxEffect(edges, du, unvisited - {u}, dist);
    forall v | v in r && r[v].Fin? ensures Realized(graph, S, src, v, r[v].d) {
      if r[v] != dist[v] {
        var e :| e in edges && e.0 == v && r[v] == Fin(du + e.1);
        assert Realized(graph, S, src, u, du);
        var steps :| IsWalk(graph, S, src, steps) && WalkEnd(src, steps) == u && WalkCost(steps) == du;
        WalkExtend(graph, S, src, steps, e);
      }
    }
  }

  lemma VisitKeeps(graph: Graph, S: set<Node>, src: Node, unvisited: set<Node>, dist: Dists, u: Node)
    requires Inv(graph, S, src, unvisited, dist) && Nearest(u, unvisited, dist)
    ensures Inv(graph, S, src, unvisited - {u}, Relax(Edges(graph, u), dist[u].d, unvisited - {u}, dist))
  {
    VisitKeepsSound(graph, S, src, unvisited, dist, u);
    RelaxEffect(Edges(graph, u), dist[u].d, unvisited - {u}, dist);
    hide Sound, Relax;
    VisitSettles(graph, S, unvisited, dist, u, Relax(Edges(graph, u), dist[u].d, unvisited - {u}, dist));
  }

  lemma VisitSettles(graph: Graph, S: set<Node>, unvisited: set<Node>, dist: Dists, u: Node, r: Dists)
    requires dist.Keys == S && r.Keys == S && unvisited <= S && Nearest(u, unvisited, dist)
    requires Settled(graph, S, unvisited, dist) && Ordered(S, unvisited, dist)
    requires forall v | v in S && v !in unvisited - {u} :: r[v] == dist[v]
    requires forall v | v in S && dist[v].Fin? :: r[v].Fin? && r[v].d <= dist[v].d
    requires forall e | e in Edges(graph, u) && e.0 in unvisited - {u} :: r[e.0].Fin? && r[e.0].d <= dist[u].d + e.1
    requires forall v | v in S && r[v] != dist[v] :: exists e :: e in Edges(graph, u) && e.0 == v && r[v] == Fin(dist[u].d + e.1)
    ensures Settled(graph, S, unvisited - {u}, r) && Ordered(S, unvisited - {u}, r)
  {
    var rest := unvisited - {u};
    forall v, e | v in S - rest && e in Edges(graph, v) && e.0 in S
      ensures r[v].Fin? && r[e.0].Fin? && r[e.0].d <= r[v].d + e.1
    {
      assert v == u || v in S - unvisited;
      if v == u && e.0 !in rest {
        assert e.0 == u || e.0 in S - unvisited;
        assert r[e.0] == dist[e.0] && dist[e.0].d <= dist[u].d;
      } else if v != u {
        var x := e.0;
        assert dist[x].Fin? && dist[x].d <= dist[v].d + e.1;
        assert r[x].Fin? && r[x].d <= dist[x].d;
      }
    }
    forall v, x | v in S - rest && x in rest && r[x].Fin? ensures r[v].Fin? && r[v].d <= r[x].d {
      if v != u { assert v in S - unvisited && dist[v].d <= dist[u].d; }
    }
  }

  /** Nothing finite is left unvisited: then no walk beats the distances. */
  lemma {:induction false} WalksBounded(graph: Graph, S: set<Node>, src: Node, unvisited: set<Node>, dist: Dists,
                                       steps: seq<Edge>)
    requires Inv(graph, S, src, unvisited, dist) && !SomeFinite(unvisited, dist)
    requires IsWalk(graph, S, src, steps)
    ensures WalkEnd(src, steps) in S && dist[WalkEnd(src, steps)].Fin?
    ensures dist[WalkEnd(src, steps)].d <= WalkCost(steps)
    decreases |steps|
  {
    if steps != [] {
      var init, e := steps[..|steps| - 1], steps[|steps| - 1];
      WalkSplit(graph, S, src, steps);
      WalksBounded(graph, S, src, unvisited, dist, init);
      var v := WalkEnd(src, init);
      assert v !in unvisited;
    }
  }

  lemma {:induction false} WalkSplit(graph: Graph, S: set<Node>, u: Node, steps: seq<Edge>)
    requires IsWalk(graph, S, u, steps) && steps != []
    ensures var init, e := steps[..|steps| - 1], steps[|steps| - 1];
      && IsWalk(graph, S, u, init) && e in Edges(graph, WalkEnd(u, init)) && e.0 in S
      && WalkCost(steps) == WalkCost(init) + e.1
    decreases |steps|
  {
    if |steps| == 1 {
      assert steps[1..] == [] && steps[..0] == [];
    } else {
      var tail := steps[1..];
      WalkSplit(graph, S, steps[0].0, tail);
      var init := steps[..|steps| - 1];
      assert init[1..] == tail[..|tail| - 1];
      assert WalkEnd(u, init) == WalkEnd(steps[0].0, init[1..]);
    }
  }

  // ---- Correctness ----

  /** `d` is the least cost of a walk from `src` to `v`, and `Inf` says there is none. */
  ghost predicate ShortestDistance(graph: Graph, S: set<Node>, src: Node, v: Node, d: Dist) {
    match d
    case Fin(c) =>
      && Realized(graph, S, src, v, c)
      && forall steps | IsWalk(graph, S, src, steps) && WalkEnd(src, steps) == v :: c <= WalkCost(steps)
    case Inf => forall steps | IsWalk(graph, S, src, steps) :: WalkEnd(src, steps) != v
  }

  lemma {:induction false} DoDijkstraCorrect(graph: Graph, S: set<Node>, src: Node, unvisited: set<Node>, dist: Dists)
    requires Inv(graph, S, src, unvisited, dist)
    ensures DoDijkstra(graph, unvisited, dist).Keys == S
    ensures forall v | v in S :: ShortestDistance(graph, S, src, v, DoDijkstra(graph, unvisited, dist)[v])
    decreases |unvisited|
  {
    if SomeFinite(unvisited, dist) {
      var u := PickNearest(unvisited, dist);
      VisitKeeps(graph, S, src, unvisited, dist, u);
      DoDijkstraCorrect(graph, S, src, unvisited - {u}, Relax(Edges(graph, u), dist[u].d, unvisited - {u}, dist));
    } else {
      forall v | v in S ensures ShortestDistance(graph, S, src, v, dist[v]) {
        forall steps | IsWalk(graph, S, src, steps) && WalkEnd(src, steps) == v
          ensures dist[v].Fin? && dist[v].d <= WalkCost(steps)
        {
          WalksBounded(graph, S, src, unvisited, dist, steps);
        }
      }
    }
  }

  /** The distance map holds every node's true shortest distance over the listed nodes, and `Inf` where there is none. */
  lemma DijkstraCorrect(graph: Graph, src: Node, nodes: seq<Node>)
    ensures var dist, S := DijkstraFrom(graph, src, nodes), NodeSet(nodes);
      && dist.Keys == S
      && forall v | v in S :: ShortestDistance(graph, S, src, v, dist[v])
  {
    var S := NodeSet(nodes);
    var dist: Dists := map u | u in nodes :: if u == src then Fin(0) else Inf;
    assert dist.Keys == S;
    forall v | v in dist && dist[v].Fin? ensures Realized(graph, S, src, v, dist[v].d) {
      assert IsWalk(graph, S, src, []) && WalkEnd(src, []) == src && WalkCost([]) == 0;
    }
    assert Inv(graph, S, src, S, dist);
    DoDijkstraCorrect(graph, S, src, S, dist);
  }
}
