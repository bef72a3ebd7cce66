/** Breadth-first search with levels. */
module BreadthFirst {
  import opened Collections
  import opened Dijkstra
  import opened Sorts

  type Levels = map<Node, nat>

  datatype Search = Search(queue: seq<Node>, visited: set<Node>, order: seq<Node>, levels: Levels)

  // ---- The algorithm ----

  function Targets(edges: seq<Edge>): seq<Node> {
    if edges == [] then [] else [edges[0].0] + Targets(edges[1..])
  }

  function Neighbors(graph: Graph, u: Node): seq<Node> {
    MergeSort(Targets(Edges(graph, u)))
  }

  /** Queue the neighbours not visited yet, one level further out. */
  function Visit(neighbors: seq<Node>, lvl: nat, s: Search): Search {
    if neighbors == [] then s
    else
      var v := neighbors[0];
      Visit(neighbors[1..], lvl,
            if v in s.visited then s
            else s.(queue := s.queue + [v], visited := s.visited + {v}, levels := s.levels[v := lvl + 1]))
  }

  /** Everything the search can meet. */
  function Universe(graph: Graph, start: Node): set<Node> {
    {start} + (set u, e | u in graph && e in graph[u] :: e.0)
  }

  ghost predicate Within(graph: Graph, start: Node, s: Search) {
    && s.visited == s.levels.Keys && s.visited <= Universe(graph, start)
    && (forall u | u in s.queue :: u in s.visited)
  }

  function DoBfs(graph: Graph, start: Node, s: Search): (seq<Node>, Levels)
    requires Within(graph, start, s)
    decreases Universe(graph, start) - s.visited, |s.queue|
  {
    if s.queue == [] then (Reverse(s.order), s.levels)
    else
      HeadMet(graph, start, s);
      StepWithin(graph, start, s);
      DoBfs(graph, start, Step(graph, s))
  }

  /** One round of the search: take the first of the queue and visit its neighbours. */
  function Step(graph: Graph, s: Search): Search
    requires s.queue != [] && s.queue[0] in s.levels
  {
    var u := s.queue[0];
    Visit(Neighbors(graph, u), s.levels[u], s.(queue := s.queue[1..])).(order := [u] + s.order)
  }

  function Bfs(graph: Graph, start: Node): (seq<Node>, Levels) {
    DoBfs(graph, start, Search([start], {start}, [], map[start := 0]))
  }

  // ---- Neighbours ----

  lemma {:induction false} TargetsHas(edges: seq<Edge>, v: Node)
    ensures v in Targets(edges) <==> exists e | e in edges :: e.0 == v
  {
    if edges != [] {
      TargetsHas(edges[1..], v);
      assert edges == [edges[0]] + edges[1..];
    }
  }

  lemma NeighborsHas(graph: Graph, u: Node, v: Node)
    ensures v in Neighbors(graph, u) <==> exists e | e in Edges(graph, u) :: e.0 == v
  {
    hide MergeSort, Count;
    var targets := Targets(Edges(graph, u));
    MergeSortCounts(targets, v);
    CountPositive(targets, v);
    CountPositive(MergeSort(targets), v);
    TargetsHas(Edges(graph, u), v);
  }

  lemma NeighborWithin(graph: Graph, start: Node, u: Node, v: Node)
    requires v in Neighbors(graph, u)
    ensures v in Universe(graph, start)
  {
    hide Neighbors;
    NeighborsHas(graph, u, v);
  }

  // ---- One round ----

  /** The neighbours that are new, in order, each once. */
  function Fresh(neighbors: seq<Node>, visited: set<Node>): seq<Node> {
    if neighbors == [] then []
    else if neighbors[0] in visited then Fresh(neighbors[1..], visited)
    else [neighbors[0]] + Fresh(neighbors[1..], visited + {neighbors[0]})
  }

  lemma {:induction false} FreshIs(neighbors: seq<Node>, visited: set<Node>)
    ensures forall v :: v in Fresh(neighbors, visited) <==> v in neighbors && v !in visited
    ensures NoDuplicates(Fresh(neighbors, visited))
  {
    if neighbors != [] {
      assert neighbors == [neighbors[0]] + neighbors[1..];
      FreshIs(neighbors[1..], if neighbors[0] in visited then visited else visited + {neighbors[0]});
    }
  }

  ghost function Members(added: seq<Node>): set<Node> {
    set v | v in added
  }

  ghost function AtLevel(added: seq<Node>, lvl: nat): Levels {
    map v | v in added :: lvl
  }

  lemma FirstAdded(v: Node, rest: seq<Node>, visited: set<Node>, levels: Levels, lvl: nat)
    ensures visited + {v} + Members(rest) == visited + Members([v] + rest)
    ensures levels[v := lvl] + AtLevel(rest, lvl) == levels + AtLevel([v] + rest, lvl)
  {
  }

  lemma NoneAdded(visited: set<Node>, levels: Levels, lvl: nat)
    ensures visited + Members([]) == visited && levels + AtLevel([], lvl) == levels
  {
  }

  lemma {:induction false} VisitIs(neighbors: seq<Node>, lvl: nat, s: Search)
    ensures var t, added := Visit(neighbors, lvl, s), Fresh(neighbors, s.visited);
      && t.queue == s.queue + added && t.order == s.order
      && t.visited == s.visited + Members(added)
      && t.levels == s.levels + AtLevel(added, lvl + 1)
  {
    hide Members, AtLevel;
    if neighbors == [] {
      NoneAdded(s.visited, s.levels, lvl + 1);
    } else {
      var v := neighbors[0];
      if v in s.visited {
        VisitIs(neighbors[1..], lvl, s);
      } else {
        var next := s.(queue := s.queue + [v], visited := s.visited + {v}, levels := s.levels[v := lvl + 1]);
        VisitIs(neighbors[1..], lvl, next);
        FirstAdded(v, Fresh(neighbors[1..], next.visited), s.visited, s.levels, lvl + 1);
      }
    }
  }

  lemma StepIs(graph: Graph, s: Search)
    requires s.queue != [] && s.queue[0] in s.levels
    ensures var u := s.queue[0];
      var added := Fresh(Neighbors(graph, u), s.visited);
      Step(graph, s) == Search(s.queue[1..] + added, s.visited + Members(added), [u] + s.order,
                               s.levels + AtLevel(added, s.levels[u] + 1))
  {
    hide Members, AtLevel, Visit, Fresh, Neighbors;
    VisitIs(Neighbors(graph, s.queue[0]), s.levels[s.queue[0]], s.(queue := s.queue[1..]));
  }

  lemma HeadMet(graph: Graph, start: Node, s: Search)
    requires Within(graph, start, s) && s.queue != []
    ensures s.queue[0] in s.levels
  {
    hide Universe;
    var u := s.queue[0];
    assert u in s.queue;
  }

  lemma StepWithin(graph: Graph, start: Node, s: Search)
    requires Within(graph, start, s) && s.queue != [] && s.queue[0] in s.levels
    ensures var t := Step(graph, s);
      && Within(graph, start, t) && s.visited <= t.visited
      && (t.visited == s.visited ==> |t.queue| < |s.queue|)
  {
    hide Step, Neighbors, Universe, Fresh;
    var added := Fresh(Neighbors(graph, s.queue[0]), s.visited);
    StepIs(graph, s);
    FreshIs(Neighbors(graph, s.queue[0]), s.visited);
    forall v | v in added ensures v in Universe(graph, start) {
      NeighborWithin(graph, start, s.queue[0], v);
    }
    if added != [] {
      assert added[0] in added;
      assert added[0] in Step(graph, s).visited && added[0] !in s.visited;
    }
  }

  // ---- What the search keeps ----

  /** `v` is the end of a walk of exactly `n` edges from `start`. */
  ghost predicate ReachedIn(graph: Graph, start: Node, v: Node, n: nat) {
    exists steps :: IsWalk(graph, Universe(graph, start), start, steps) && WalkEnd(start, steps) == v && |steps| == n
  }

  /** The nodes met so far, in the order they were met: those taken from the queue, then those on it. */
  function Met(s: Search): seq<Node> {
    Reverse(s.order) + s.queue
  }

  /** Levels never go down along the nodes met, and differ by at most one along the queue. */
  ghost predicate Layered(s: Search) {
    && (forall v | v in Met(s) :: v in s.levels)
    && (forall i, j | 0 <= i < j < |Met(s)| :: s.levels[Met(s)[i]] <= s.levels[Met(s)[j]])
    && (s.queue != [] ==> forall v | v in s.levels :: s.levels[v] <= s.levels[s.queue[0]] + 1)
  }

  ghost predicate Walked(graph: Graph, start: Node, levels: Levels) {
    forall v | v in levels :: ReachedIn(graph, start, v, levels[v])
  }

  /** The neighbours of the nodes taken from the queue are met, at most one level further out. */
  ghost predicate Explored(graph: Graph, order: seq<Node>, levels: Levels) {
    forall u, v | u in order && u in levels && v in Neighbors(graph, u) :: v in levels && levels[v] <= levels[u] + 1
  }

  ghost predicate Inv(graph: Graph, start: Node, s: Search) {
    && Within(graph, start, s)
    && NoDuplicates(Met(s)) && (forall v :: v in Met(s) <==> v in s.visited)
    && Layered(s)
    && start in s.levels && s.levels[start] == 0
    && Walked(graph, start, s.levels)
    && Explored(graph, s.order, s.levels)
  }

  /** The answer: every node that can be reached, once, nearest first, with its least number of steps. */
  ghost predicate Correct(graph: Graph, start: Node, order: seq<Node>, levels: Levels) {
    && NoDuplicates(order) && (forall v :: v in order <==> v in levels)
    && (forall i, j | 0 <= i < j < |order| :: order[i] in levels && order[j] in levels
         && levels[order[i]] <= levels[order[j]])
    && (forall v | v in levels :: ReachedIn(graph, start, v, levels[v]))
    && (forall v, n: nat | ReachedIn(graph, start, v, n) :: v in levels && levels[v] <= n)
  }

  lemma {:induction false} ReverseAppend(a: Node, order: seq<Node>, queue: seq<Node>)
    ensures Reverse([a] + order) + queue == Reverse(order) + ([a] + queue)
  {
    ReverseCons(a, order);
  }

  /** A round only appends the new nodes to those met. */
  lemma StepMet(graph: Graph, s: Search)
    requires s.queue != [] && s.queue[0] in s.levels
    ensures Met(Step(graph, s)) == Met(s) + Fresh(Neighbors(graph, s.queue[0]), s.visited)
  {
    hide Step, Neighbors, Fresh, Reverse;
    var u, added := s.queue[0], Fresh(Neighbors(graph, s.queue[0]), s.visited);
    StepIs(graph, s);
    ReverseAppend(u, s.order, s.queue[1..] + added);
    assert s.queue == [u] + s.queue[1..];
    assert [u] + (s.queue[1..] + added) == s.queue + added;
  }

  lemma MetDistinct(graph: Graph, start: Node, s: Search)
    requires Inv(graph, start, s) && s.queue != [] && s.queue[0] in s.levels
    ensures var t := Step(graph, s);
      NoDuplicates(Met(t)) && (forall v :: v in Met(t) <==> v in t.visited)
  {
    hide Step, Neighbors, Fresh, Met, Layered, Walked, Explored, Within;
    StepMet(graph, s);
    StepIs(graph, s);
    FreshIs(Neighbors(graph, s.queue[0]), s.visited);
    var added := Fresh(Neighbors(graph, s.queue[0]), s.visited);
    forall i, j | 0 <= i < |Met(s)| && 0 <= j < |added| ensures Met(s)[i] != added[j] {
      assert added[j] in added && Met(s)[i] in Met(s);
    }
  }

  lemma StepLevels(graph: Graph, s: Search, v: Node)
    requires s.visited == s.levels.Keys && s.queue != [] && s.queue[0] in s.levels
    ensures var t := Step(graph, s);
      && (v in s.levels ==> v in t.levels && t.levels[v] == s.levels[v])
      && (v in t.levels && v !in s.levels ==>
           v in Neighbors(graph, s.queue[0]) && t.levels[v] == s.levels[s.queue[0]] + 1)
      && (v in Neighbors(graph, s.queue[0]) ==> v in t.levels)
  {
    hide Step, Neighbors, Fresh;
    StepIs(graph, s);
    FreshIs(Neighbors(graph, s.queue[0]), s.visited);
  }

  lemma LayeredAt(s: Search, i: nat, j: nat)
    requires Layered(s) && i <= j < |Met(s)|
    ensures Met(s)[i] in s.levels && Met(s)[j] in s.levels && s.levels[Met(s)[i]] <= s.levels[Met(s)[j]]
  {
    hide Met;
    var u, v := Met(s)[i], Met(s)[j];
    assert u in Met(s) && v in Met(s);
  }

  /** Along the nodes met the levels still never go down: the new ones come last, one level out. */
  lemma StepLayered(graph: Graph, start: Node, s: Search)
    requires Inv(graph, start, s) && s.queue != [] && s.queue[0] in s.levels
    ensures Layered(Step(graph, s))
  {
    var t, u := Step(graph, s), s.queue[0];
    var added := Fresh(Neighbors(graph, u), s.visited);
    MetDistinct(graph, start, s);
    StepMet(graph, s);
    StepIs(graph, s);
    hide Step, Neighbors, Fresh, Met, Walked, Explored, NoDuplicates;
    var n := |Met(s)|;
    assert |Met(t)| == n + |added|;
    forall v | v in Met(t) ensures v in t.levels { }
    forall i, j | 0 <= i < j < |Met(t)| ensures t.levels[Met(t)[i]] <= t.levels[Met(t)[j]] {
      assert Met(t)[i] in Met(t) && Met(t)[j] in Met(t);
      MetLevel(graph, start, s, i);
      MetLevel(graph, start, s, j);
      if j < n { LayeredAt(s, i, j); }
    }
    if t.queue != [] {
      forall v | v in t.levels ensures t.levels[v] <= t.levels[t.queue[0]] + 1 {
        StepLevels(graph, s, v);
        HeadLevel(graph, s);
      }
    }
  }

  /** The level of the `i`-th node met after a round. */
  lemma MetLevel(graph: Graph, start: Node, s: Search, i: nat)
    requires Inv(graph, start, s) && s.queue != [] && s.queue[0] in s.levels
    requires i < |Met(Step(graph, s))|
    ensures var t, v := Step(graph, s), Met(Step(graph, s))[i];
      && v in t.levels
      && (i < |Met(s)| ==> v == Met(s)[i] && v in s.levels && t.levels[v] == s.levels[v]
                           && s.levels[v] <= s.levels[s.queue[0]] + 1)
      && (i >= |Met(s)| ==> t.levels[v] == s.levels[s.queue[0]] + 1)
  {
    var t, v := Step(graph, s), Met(Step(graph, s))[i];
    var added := Fresh(Neighbors(graph, s.queue[0]), s.visited);
    StepMet(graph, s);
    FreshIs(Neighbors(graph, s.queue[0]), s.visited);
    hide Step, Neighbors, Fresh, Met, Walked, Explored, NoDuplicates;
    StepLevels(graph, s, v);
    if i < |Met(s)| {
      assert v == Met(s)[i] && v in Met(s);
    } else {
      assert v == added[i - |Met(s)|] && v in added;
    }
  }

  /** The next head of the queue is at least as far out as the one just taken. */
  lemma HeadLevel(graph: Graph, s: Search)
    requires Layered(s) && s.visited == s.levels.Keys && s.queue != [] && s.queue[0] in s.levels
    requires Step(graph, s).queue != []
    ensures var t := Step(graph, s);
      t.queue[0] in t.levels && s.levels[s.queue[0]] <= t.levels[t.queue[0]]
  {
    var t, u := Step(graph, s), s.queue[0];
    StepIs(graph, s);
    var added := Fresh(Neighbors(graph, u), s.visited);
    FreshIs(Neighbors(graph, u), s.visited);
    hide Step, Neighbors, Fresh, Layered, Reverse;
    var h, k := t.queue[0], |Reverse(s.order)|;
    StepLevels(graph, s, h);
    if |s.queue| > 1 {
      assert h == s.queue[1] && Met(s)[k] == u && Met(s)[k + 1] == h;
      LayeredAt(s, k, k + 1);
    } else {
      assert h == added[0] && h in added;
    }
  }

  lemma StepWalked(graph: Graph, start: Node, s: Search)
    requires Within(graph, start, s) && s.queue != [] && s.queue[0] in s.levels
    requires Walked(graph, start, s.levels)
    ensures Walked(graph, start, Step(graph, s).levels)
  {
    hide Step, Neighbors, Universe, ReachedIn;
    var t, u := Step(graph, s), s.queue[0];
    forall v | v in t.levels ensures ReachedIn(graph, start, v, t.levels[v]) {
      StepLevels(graph, s, v);
      if v !in s.levels {
        ReachedNext(graph, start, u, s.levels[u], v);
      }
    }
  }

  lemma ReachedNext(graph: Graph, start: Node, u: Node, n: nat, v: Node)
    requires ReachedIn(graph, start, u, n) && v in Neighbors(graph, u)
    ensures ReachedIn(graph, start, v, n + 1)
  {
    hide Neighbors, Universe, IsWalk;
    NeighborsHas(graph, u, v);
    NeighborWithin(graph, start, u, v);
    var e :| e in Edges(graph, u) && e.0 == v;
    var steps :| IsWalk(graph, Universe(graph, start), start, steps) && WalkEnd(start, steps) == u && |steps| == n;
    WalkExtend(graph, Universe(graph, start), start, steps, e);
  }

  lemma StepExplored(graph: Graph, start: Node, s: Search)
    requires Within(graph, start, s) && Layered(s) && s.queue != [] && s.queue[0] in s.levels
    requires Explored(graph, s.order, s.levels) && forall u | u in s.order :: u in s.levels
    ensures var t := Step(graph, s); Explored(graph, t.order, t.levels)
  {
    hide Step, Neighbors, Universe, Met;
    var t := Step(graph, s);
    StepIs(graph, s);
    forall u, v | u in t.order && u in t.levels && v in Neighbors(graph, u)
      ensures v in t.levels && t.levels[v] <= t.levels[u] + 1
    {
      StepLevels(graph, s, u);
      StepLevels(graph, s, v);
      assert u == s.queue[0] || u in s.order;
    }
  }

  lemma OrderMet(s: Search, u: Node)
    requires u in s.order
    ensures u in Met(s)
  {
    InReverse(s.order, u);
  }

  lemma StepInv(graph: Graph, start: Node, s: Search)
    requires Inv(graph, start, s) && s.queue != [] && s.queue[0] in s.levels
    ensures Inv(graph, start, Step(graph, s))
  {
    StepWithin(graph, start, s);
    MetDistinct(graph, start, s);
    StepLayered(graph, start, s);
    StepWalked(graph, start, s);
    StepLevels(graph, s, start);
    forall u | u in s.order ensures u in s.levels {
      OrderMet(s, u);
    }
    StepExplored(graph, start, s);
    hide Step, Within, NoDuplicates, Met, Layered, Walked, Explored;
  }

  // ---- The end of the search ----

  /** No walk is shorter than the level of its end. */
  lemma {:induction false} LevelsBound(graph: Graph, start: Node, levels: Levels, order: seq<Node>, u: Node, steps: seq<Edge>)
    requires Explored(graph, order, levels) && forall v :: v in order <==> v in levels
    requires u in levels && IsWalk(graph, Universe(graph, start), u, steps)
    ensures WalkEnd(u, steps) in levels && levels[WalkEnd(u, steps)] <= levels[u] + |steps|
    decreases |steps|
  {
    if steps != [] {
      hide Neighbors, Universe;
      var v := steps[0].0;
      NeighborsHas(graph, u, v);
      LevelsBound(graph, start, levels, order, v, steps[1..]);
      assert WalkEnd(u, steps) == WalkEnd(v, steps[1..]);
    }
  }

  lemma DoneIsCorrect(graph: Graph, start: Node, s: Search)
    requires Inv(graph, start, s) && s.queue == []
    ensures Correct(graph, start, Reverse(s.order), s.levels)
  {
    hide Universe, Neighbors, Reverse;
    var order := Reverse(s.order);
    assert Met(s) == order;
    forall v ensures v in s.order <==> v in s.levels {
      InReverse(s.order, v);
    }
    forall i, j | 0 <= i < j < |order|
      ensures order[i] in s.levels && order[j] in s.levels && s.levels[order[i]] <= s.levels[order[j]]
    {
      LayeredAt(s, i, j);
    }
    forall v, n: nat | ReachedIn(graph, start, v, n) ensures v in s.levels && s.levels[v] <= n {
      var steps :| IsWalk(graph, Universe(graph, start), start, steps) && WalkEnd(start, steps) == v && |steps| == n;
      LevelsBound(graph, start, s.levels, s.order, start, steps);
    }
  }

  lemma {:induction false} DoBfsCorrect(graph: Graph, start: Node, s: Search)
    requires Inv(graph, start, s)
    ensures var (order, levels) := DoBfs(graph, start, s); Correct(graph, start, order, levels)
    decreases Universe(graph, start) - s.visited, |s.queue|
  {
    if s.queue == [] {
      DoneIsCorrect(graph, start, s);
    } else {
      hide Inv, Step, Correct;
      InvWithin(graph, start, s);
      HeadMet(graph, start, s);
      StepWithin(graph, start, s);
      StepInv(graph, start, s);
      DoBfsCorrect(graph, start, Step(graph, s));
    }
  }

  lemma InvWithin(graph: Graph, start: Node, s: Search)
    requires Inv(graph, start, s)
    ensures Within(graph, start, s)
  {
  }

  /**
   * The search meets every node that can be reached, and no other, once each and nearest first, and its level is
   * the least number of edges that lead there.
   */
  lemma BfsCorrect(graph: Graph, start: Node)
    ensures var (order, levels) := Bfs(graph, start); Correct(graph, start, order, levels)
  {
    hide Correct, DoBfs;
    var s := Search([start], {start}, [], map[start := 0]);
    assert Met(s) == [start];
    assert ReachedIn(graph, start, start, 0) by {
      assert IsWalk(graph, Universe(graph, start), start, []);
    }
    DoBfsCorrect(graph, start, s);
  }
}
