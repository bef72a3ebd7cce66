/** The order in which the breadth-first search lists the nodes, down to the last tie. */
module BreadthOrder {
  import opened Collections
  import opened Dijkstra
  import opened Sorts
  import opened BreadthFirst

  ghost predicate Leads(graph: Graph, u: Node, v: Node) {
    exists e | e in Edges(graph, u) :: e.0 == v
  }

  /** The first place from `k` on whose node leads to `v`, or the length when there is none. */
  ghost function FirstFrom(graph: Graph, nodes: seq<Node>, v: Node, k: nat): (p: nat)
    requires k <= |nodes|
    ensures k <= p <= |nodes| && (p < |nodes| ==> Leads(graph, nodes[p], v))
    ensures forall i | k <= i < p :: !Leads(graph, nodes[i], v)
    decreases |nodes| - k
  {
    if k == |nodes| || Leads(graph, nodes[k], v) then k else FirstFrom(graph, nodes, v, k + 1)
  }

  /** Where the node stands from which `v` was found. */
  ghost function Finder(graph: Graph, nodes: seq<Node>, v: Node): nat {
    FirstFrom(graph, nodes, v, 0)
  }

  /** The node found from an earlier place comes first, and of two found from one place the smaller. */
  ghost predicate Sooner(graph: Graph, nodes: seq<Node>, u: Node, v: Node) {
    var p, q := Finder(graph, nodes, u), Finder(graph, nodes, v);
    p < q || (p == q && u < v)
  }

  /** `start`, then the others, each found from a node before it, in that order. */
  ghost predicate InBreadthOrder(graph: Graph, start: Node, order: seq<Node>) {
    && order != [] && order[0] == start
    && (forall i | 0 < i < |order| :: Finder(graph, order, order[i]) < i)
    && (forall i, j | 0 < i < j < |order| :: Sooner(graph, order, order[i], order[j]))
  }

  // ---- What the rounds keep ----

  /** The nodes met so far, `done` of which have been taken from the queue. */
  ghost predicate SoFar(graph: Graph, start: Node, nodes: seq<Node>, done: nat) {
    && nodes != [] && nodes[0] == start && done <= |nodes|
    && (forall i | 0 < i < |nodes| :: Finder(graph, nodes, nodes[i]) < done && Finder(graph, nodes, nodes[i]) < i)
    && (forall i, j | 0 < i < j < |nodes| :: Sooner(graph, nodes, nodes[i], nodes[j]))
    && (forall k, v | 0 <= k < done && Leads(graph, nodes[k], v) :: v in nodes)
  }

  ghost predicate Rising(nodes: seq<Node>) {
    forall i, j | 0 <= i < j < |nodes| :: nodes[i] < nodes[j]
  }

  lemma {:induction false} FreshRising(neighbors: seq<Node>, visited: set<Node>)
    requires Sorted(neighbors)
    ensures Rising(Fresh(neighbors, visited))
  {
    if neighbors != [] {
      var next := if neighbors[0] in visited then visited else visited + {neighbors[0]};
      FreshRising(neighbors[1..], next);
      FreshIs(neighbors[1..], next);
      var rest := Fresh(neighbors[1..], next);
      forall j | 0 <= j < |rest| ensures neighbors[0] < rest[j] {
        assert rest[j] in rest;
        var i :| 0 <= i < |neighbors[1..]| && neighbors[1..][i] == rest[j];
        assert neighbors[0] <= neighbors[i + 1];
        assert neighbors[0] in next;
      }
    }
  }

  /** Nodes met later do not change who found a node. */
  lemma FinderStays(graph: Graph, nodes: seq<Node>, added: seq<Node>, v: Node)
    requires Finder(graph, nodes, v) < |nodes|
    ensures Finder(graph, nodes + added, v) == Finder(graph, nodes, v)
  {
    hide Leads;
    var p, q := Finder(graph, nodes, v), Finder(graph, nodes + added, v);
    assert forall k | 0 <= k < |nodes| :: (nodes + added)[k] == nodes[k];
  }

  lemma FinderIs(graph: Graph, nodes: seq<Node>, v: Node, p: nat)
    requires p < |nodes| && Leads(graph, nodes[p], v) && forall k | 0 <= k < p :: !Leads(graph, nodes[k], v)
    ensures Finder(graph, nodes, v) == p
  {
    hide Leads;
  }

  lemma RoundOrder(graph: Graph, start: Node, nodes: seq<Node>, done: nat, added: seq<Node>)
    requires SoFar(graph, start, nodes, done) && done < |nodes| && Rising(added)
    requires forall v :: v in added <==> Leads(graph, nodes[done], v) && v !in nodes
    ensures SoFar(graph, start, nodes + added, done + 1)
  {
    hide Leads, Finder;
    var all := nodes + added;
    forall i | 0 < i < |all|
      ensures Finder(graph, all, all[i]) <= done && Finder(graph, all, all[i]) < i
      ensures i < |nodes| ==> all[i] == nodes[i] && Finder(graph, all, all[i]) == Finder(graph, nodes, nodes[i])
      ensures i >= |nodes| ==> all[i] == added[i - |nodes|] && Finder(graph, all, all[i]) == done
    {
      if i < |nodes| {
        FinderStays(graph, nodes, added, nodes[i]);
      } else {
        assert all[i] in added;
        forall k | 0 <= k < done ensures !Leads(graph, all[k], all[i]) { assert all[k] == nodes[k]; }
        FinderIs(graph, all, all[i], done);
      }
    }
    forall i, j | 0 < i < j < |all| ensures Sooner(graph, all, all[i], all[j]) {
      if j < |nodes| { assert Sooner(graph, nodes, nodes[i], nodes[j]); }
    }
    forall k, v | 0 <= k < done + 1 && Leads(graph, all[k], v) ensures v in all {
      assert all[k] == nodes[k];
      if k == done && v !in nodes { assert v in added; }
    }
  }

  lemma StepOrder(graph: Graph, start: Node, s: Search)
    requires BreadthFirst.Inv(graph, start, s) && s.queue != [] && s.queue[0] in s.levels
    requires SoFar(graph, start, Met(s), |s.order|)
    ensures SoFar(graph, start, Met(Step(graph, s)), |Step(graph, s).order|)
  {
    var u := s.queue[0];
    var neighbors := Neighbors(graph, u);
    var added := Fresh(neighbors, s.visited);
    StepMet(graph, s);
    StepIs(graph, s);
    MergeSortSorted(Targets(Edges(graph, u)));
    FreshRising(neighbors, s.visited);
    FreshIs(neighbors, s.visited);
    forall v ensures v in neighbors <==> Leads(graph, u, v) { NeighborsHas(graph, u, v); }
    hide Step, Fresh, Neighbors, SoFar, Within, Layered, Walked, Explored, NoDuplicates;
    HeadAt(s);
    RoundOrder(graph, start, Met(s), |s.order|, added);
  }

  lemma HeadAt(s: Search)
    requires s.queue != []
    ensures |s.order| < |Met(s)| && Met(s)[|s.order|] == s.queue[0]
  {
    ReverseLength(s.order);
  }

  lemma {:induction false} ReverseLength(order: seq<Node>)
    ensures |Reverse(order)| == |order|
  {
    if order != [] { ReverseLength(order[1..]); }
  }

  lemma {:induction false} DoBfsOrder(graph: Graph, start: Node, s: Search)
    requires BreadthFirst.Inv(graph, start, s) && SoFar(graph, start, Met(s), |s.order|)
    ensures InBreadthOrder(graph, start, DoBfs(graph, start, s).0)
    decreases Universe(graph, start) - s.visited, |s.queue|
  {
    if s.queue == [] {
      assert Met(s) == Reverse(s.order);
      hide Finder, Sooner, Leads, BreadthFirst.Inv;
    } else {
      hide BreadthFirst.Inv, Step, SoFar, InBreadthOrder;
      InvWithin(graph, start, s);
      HeadMet(graph, start, s);
      StepWithin(graph, start, s);
      StepInv(graph, start, s);
      StepOrder(graph, start, s);
      DoBfsOrder(graph, start, Step(graph, s));
    }
  }

  /** The order of the search is the one order in which the earlier finder goes first and ties go to the smaller. */
  lemma BfsOrder(graph: Graph, start: Node)
    ensures InBreadthOrder(graph, start, Bfs(graph, start).0)
  {
    hide InBreadthOrder, DoBfs, Finder, Sooner;
    var s := Search([start], {start}, [], map[start := 0]);
    assert Met(s) == [start];
    assert ReachedIn(graph, start, start, 0) by {
      assert IsWalk(graph, Universe(graph, start), start, []);
    }
    DoBfsOrder(graph, start, s);
  }
}
