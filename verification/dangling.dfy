/** `Subgraph` of graph/graph.go on an edge into an id without a node: the
    walk as written stacks `Node{}` in the target's place, marks id 0 rather
    than the target, and can go on for ever. */
module Dangling {
  import opened Graph
  import opened Paths
  import opened Subgraphs

  /** Node 1 alone, with edges 1→5 and 0→5; no node has id 5. */
  const E15 := DEdge(1, 5, "", "")
  const E05 := DEdge(0, 5, "", "")

  /** The loop of `Subgraph` as written, run for `k` rounds or until its
      stack is empty. */
  function Rounds(g: DGraph, t: Trail, k: nat): Trail
    decreases k
  {
    if k == 0 || |t.stack| == 0 then t else Rounds(g, Expand(g, t), k - 1)
  }

  /** What the walk reads of the dangling graph. */
  ghost predicate DanglingShaped(g: DGraph) {
    Succs(g.neighbours, 1) == [5] && Succs(g.neighbours, 0) == [5] && 5 !in g.nodeMap
  }

  /** An ascending sequence repeats no element, so it is as long as its set. */
  lemma {:induction false} AscendingCard(s: seq<int>)
    requires Ascending(s)
    ensures |set y | y in s| == |s|
  {
    if |s| > 0 {
      var t := s[1..];
      assert Ascending(t);
      AscendingCard(t);
      assert forall j :: 0 <= j < |t| ==> s[0] < t[j];
      assert s[0] !in (set y | y in t);
      assert (set y | y in s) == {s[0]} + (set y | y in t);
    }
  }

  lemma AscendingSingle(s: seq<int>, x: int)
    requires Ascending(s) && forall y :: y in s <==> y == x
    ensures s == [x]
  {
    AscendingCard(s);
    assert (set y | y in s) == {x};
    assert s[0] in s;
  }

  /** Any graph `NewDGraph` builds from node 1 and edges 1→5, 0→5 has that shape. */
  lemma DanglingIsShaped(g: DGraph)
    requires Built(g) && g.nodes == [N1] && g.edges == [E15, E05]
    ensures DanglingShaped(g)
  {
    DanglingIndex(g.neighbours, g.edges);
    assert g.nodes[0].id == 1;
    assert Ids(g.nodes) == {1};
  }

  lemma DanglingIndex(nb: map<int, seq<int>>, es: seq<DEdge>)
    requires es == [E15, E05] && TargetIndex(nb, es)
    ensures Succs(nb, 1) == [5] && Succs(nb, 0) == [5]
  {
    assert Pair(es[0]) == (1, 5) && Pair(es[1]) == (0, 5);
    assert Pairs(es) == {(1, 5), (0, 5)};
    assert FromIds(es) == {1, 0};
    AscendingSingle(nb[1], 5);
    AscendingSingle(nb[0], 5);
  }

  /** Once `Node{}` (id 0) is stacked with 0 and 1 marked, each round pops it,
      finds 5 unmarked, and stacks and collects `Node{}` again. */
  lemma {:induction false} DanglingSpins(g: DGraph, t: Trail, k: nat)
    requires DanglingShaped(g) && t.stack == [ZeroNode] && t.met == {0, 1}
    ensures Rounds(g, t, k).stack == [ZeroNode]
    ensures |Rounds(g, t, k).nodes| == |t.nodes| + k
    decreases k
  {
    if k > 0 {
      assert Unvisited([5], {0, 1}) == [5];
      assert NodesAt(g, [5]) == [ZeroNode];
      var t' := Expand(g, t);
      assert t'.stack == [ZeroNode] && t'.met == {0, 1};
      DanglingSpins(g, t', k - 1);
    }
  }

  /** Round 1 pops node 1 and stacks `Node{}` for id 5. */
  lemma DanglingFirst(g: DGraph)
    requires DanglingShaped(g)
    ensures var t := Expand(g, Trail([N1], {}, [N1], []));
            t.stack == [ZeroNode] && t.met == {1} && |t.nodes| == 2
  {
    assert Unvisited([5], {1}) == [5];
    assert NodesAt(g, [5]) == [ZeroNode];
  }

  /** Round 2 pops `Node{}`, marks 0 rather than 5, and stacks `Node{}` again. */
  lemma DanglingSecond(g: DGraph, t: Trail)
    requires DanglingShaped(g) && t.stack == [ZeroNode] && t.met == {1}
    ensures Expand(g, t).stack == [ZeroNode] && Expand(g, t).met == {0, 1}
    ensures |Expand(g, t).nodes| == |t.nodes| + 1
  {
    assert Unvisited([5], {1, 0}) == [5];
    assert NodesAt(g, [5]) == [ZeroNode];
  }

  lemma DanglingBuilt()
    ensures NewDGraph("", [N1], [E15, E05]).Ok?
  {
    var es := [E15, E05];
    assert Pair(es[0]) != Pair(es[1]);
  }

  /** `NewDGraph` accepts node 1 with edges 1→5 and 0→5, yet the walk from 1
      as written never empties its stack: after `k + 2` rounds it still holds
      `Node{}`, and it has collected `k + 3` nodes. */
  lemma SubgraphDanglingSpins(k: nat)
    ensures NewDGraph("", [N1], [E15, E05]).Ok?
    ensures var g := NewDGraph("", [N1], [E15, E05]).value;
            var t := Rounds(g, Trail([N1], {}, [N1], []), k + 2);
            t.stack == [ZeroNode] && |t.nodes| == k + 3
  {
    DanglingBuilt();
    var g := NewDGraph("", [N1], [E15, E05]).value;
    DanglingIsShaped(g);
    var t0 := Trail([N1], {}, [N1], []);
    DanglingFirst(g);
    var t1 := Expand(g, t0);
    DanglingSecond(g, t1);
    var t2 := Expand(g, t1);
    assert Rounds(g, t0, k + 2) == Rounds(g, t2, k);
    DanglingSpins(g, t2, k);
  }
}
