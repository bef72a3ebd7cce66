/** Which of the topological orders the sort gives: at every place the smallest node that can stand there. */
module TopoOrder {
  import opened Collections
  import opened Dijkstra
  import opened Sorts
  import T = TopoSort

  /** All predecessors of `v` are done and `v` is not. */
  ghost predicate Free(dag: Graph, nodes: seq<Node>, done: seq<Node>, v: Node) {
    T.IsNode(dag, nodes, v) && v !in done && forall u | u in nodes && T.HasEdge(dag, u, v) :: u in done
  }

  ghost predicate LeastFirst(dag: Graph, nodes: seq<Node>, out: seq<Node>) {
    forall i, v | 0 <= i < |out| && Free(dag, nodes, out[..i], v) :: out[i] <= v
  }

  /** What came out before place `i` of a list with the latest first. */
  ghost function Behind(acc: seq<Node>, i: nat): seq<Node>
    requires i < |acc|
  {
    acc[i + 1..]
  }

  /** The same for the list that the loop builds, latest first. */
  ghost predicate LeastLast(dag: Graph, nodes: seq<Node>, acc: seq<Node>) {
    forall i, v | 0 <= i < |acc| && Free(dag, nodes, Behind(acc, i), v) :: acc[i] <= v
  }

  /** Every free node is ready, so the first of the sorted list is the least of them. */
  lemma HeadLeast(dag: Graph, nodes: seq<Node>, ready: seq<Node>, deg: T.Degrees, acc: seq<Node>, v: Node)
    requires T.Inv(dag, nodes, ready, deg, acc) && ready != [] && Sorted(ready) && Free(dag, nodes, acc, v)
    ensures ready[0] <= v
  {
    hide T.HasEdge, T.IsNode, T.AfterPredecessors, Count;
    T.IncomingPositive(dag, nodes, acc, v);
    CountPositive(acc, v);
    CountPositive(ready, v);
  }

  lemma LeastStep(dag: Graph, nodes: seq<Node>, ready: seq<Node>, deg: T.Degrees, acc: seq<Node>)
    requires T.Inv(dag, nodes, ready, deg, acc) && ready != [] && Sorted(ready) && LeastLast(dag, nodes, acc)
    ensures LeastLast(dag, nodes, [ready[0]] + acc)
  {
    hide T.Inv, Free, Sorted;
    var next := [ready[0]] + acc;
    forall i, v | 0 <= i < |next| && Free(dag, nodes, Behind(next, i), v) ensures next[i] <= v {
      if i == 0 {
        assert Behind(next, 0) == acc;
        HeadLeast(dag, nodes, ready, deg, acc, v);
      } else {
        assert Behind(next, i) == Behind(acc, i - 1);
      }
    }
  }

  lemma FreeBySet(dag: Graph, nodes: seq<Node>, a: seq<Node>, b: seq<Node>, v: Node)
    requires Free(dag, nodes, a, v) && forall x :: x in a <==> x in b
    ensures Free(dag, nodes, b, v)
  {
  }

  lemma {:induction false} ReverseLength(acc: seq<Node>)
    ensures |Reverse(acc)| == |acc|
  {
    if acc != [] { ReverseLength(acc[1..]); }
  }

  /** What is in front of place `i` of the reversed list is what is behind the mirrored place. */
  lemma ReversedFront(acc: seq<Node>, i: nat, x: Node)
    requires i < |acc| == |Reverse(acc)|
    ensures x in Reverse(acc)[..i] <==> x in acc[|acc| - i..]
  {
    var n, r := |acc|, Reverse(acc);
    forall k | 0 <= k < n ensures r[k] == acc[n - 1 - k] { ReverseAt(acc, k); }
    hide Reverse;
    if x in r[..i] {
      var k :| 0 <= k < i && r[..i][k] == x;
      assert acc[n - i..][i - 1 - k] == x;
    }
    if x in acc[n - i..] {
      var k :| 0 <= k < i && acc[n - i..][k] == x;
      assert r[..i][i - 1 - k] == x;
    }
  }

  lemma LeastReversed(dag: Graph, nodes: seq<Node>, acc: seq<Node>)
    requires LeastLast(dag, nodes, acc)
    ensures LeastFirst(dag, nodes, Reverse(acc))
  {
    hide Free, Reverse;
    ReverseLength(acc);
    var n := |acc|;
    forall i, v | 0 <= i < n && Free(dag, nodes, Reverse(acc)[..i], v) ensures Reverse(acc)[i] <= v {
      forall x ensures x in Reverse(acc)[..i] <==> x in acc[n - i..] { ReversedFront(acc, i, x); }
      assert Behind(acc, n - 1 - i) == acc[n - i..];
      FreeBySet(dag, nodes, Reverse(acc)[..i], Behind(acc, n - 1 - i), v);
      ReverseAt(acc, i);
    }
  }

  lemma {:induction false} DoTopoLeast(dag: Graph, nodes: seq<Node>, ready: seq<Node>, deg: T.Degrees, acc: seq<Node>)
    requires NoDuplicates(nodes) && T.Covers(dag, nodes) && T.Tracked(dag, deg)
    requires T.Inv(dag, nodes, ready, deg, acc) && Sorted(ready) && LeastLast(dag, nodes, acc)
    ensures LeastFirst(dag, nodes, T.DoTopo(dag, ready, deg, acc))
    decreases |ready| + |T.Positive(deg)|
  {
    if ready == [] {
      LeastReversed(dag, nodes, acc);
    } else {
      hide MergeSort, LeastFirst, LeastLast, T.Inv, NoDuplicates, T.Covers;
      T.LowerMeasure(Edges(dag, ready[0]), deg, []);
      var (deg2, newly) := T.Lower(Edges(dag, ready[0]), deg, []);
      T.SortLength(ready[1..], newly);
      T.StepInv(dag, nodes, ready, deg, acc);
      LeastStep(dag, nodes, ready, deg, acc);
      MergeSortSorted(ready[1..] + MergeSort(newly));
      DoTopoLeast(dag, nodes, MergeSort(ready[1..] + MergeSort(newly)), deg2, [ready[0]] + acc);
    }
  }

  /** At every place of the output stands the smallest node whose predecessors are all in front of it. */
  lemma TopoSortLeast(dag: Graph, nodes: seq<Node>)
    requires NoDuplicates(nodes) && T.Covers(dag, nodes)
    ensures LeastFirst(dag, nodes, T.TopoSort(dag, nodes))
  {
    hide MergeSort, T.Inv, LeastFirst, T.DoTopo, T.Ready, T.CountAll;
    var deg := T.CountAll(dag, nodes, T.Zero(nodes));
    T.CountTracks(dag, nodes);
    T.StartInv(dag, nodes);
    MergeSortSorted(T.Ready(nodes, deg));
    DoTopoLeast(dag, nodes, MergeSort(T.Ready(nodes, deg)), deg, []);
  }
}
