/** `Connected` of graph/graph.go: a depth-first walk of the `neighbours`
    index from the root, answering whether the target is met on some edge. */
module Connectivity {
  import opened Results
  import opened Graph
  import opened Paths

  /** Every expanded id has been checked against the target: none of its
      edges ends there. */
  ghost predicate Avoids(nb: Adj, popped: set<int>, target: int) {
    forall m :: m in popped ==> target !in Succs(nb, m)
  }

  /** What the inner loop has stacked after the first `j` entries. */
  function PushedUpTo(adj: seq<int>, j: nat, met: set<int>): seq<int>
    requires j <= |adj|
  {
    if j == 0 then []
    else PushedUpTo(adj, j - 1, met) + (if adj[j - 1] in met then [] else [adj[j - 1]])
  }

  /** Stacking entry by entry stacks the unvisited entries of the prefix. */
  lemma {:induction false} PushedUpToUnvisited(adj: seq<int>, j: nat, met: set<int>)
    requires j <= |adj|
    ensures PushedUpTo(adj, j, met) == Unvisited(adj[..j], met)
  {
    if j == 0 {
      assert adj[..0] == [];
    } else {
      PushedUpToUnvisited(adj, j - 1, met);
      assert adj[..j] == adj[..j - 1] + [adj[j - 1]];
      UnvisitedSnoc(adj[..j - 1], adj[j - 1], met);
    }
  }

  /** The inner loop of `Connected` (graph.go:239-247): stops as soon as an
      entry is the target, else stacks every unvisited entry in order. */
  method PushUnvisited(adj: seq<int>, met: set<int>, stack: seq<int>, target: int)
    returns (hit: bool, stack': seq<int>)
    ensures hit <==> target in adj
    ensures !hit ==> stack' == stack + Unvisited(adj, met)
  {
    stack' := stack;
    var j := 0;
    while j < |adj|
      invariant j <= |adj|
      invariant forall k :: 0 <= k < j ==> adj[k] != target
      invariant stack' == stack + PushedUpTo(adj, j, met)
    {
      var y := adj[j];
      if y == target {
        return true, stack';
      }
      if y !in met {
        stack' := stack' + [y];
      }
      j := j + 1;
    }
    PushedUpToUnvisited(adj, j, met);
    assert adj[..j] == adj;
    return false, stack';
  }

  /** The invariant of the walk loop: `met` holds the root and the popped
      ids, everything stacked lies in `universe` and is the root or reachable
      from it, and both stack disciplines hold. */
  ghost predicate Walk(nb: Adj, root: int, target: int, universe: set<int>,
                       stack: seq<int>, popped: set<int>, met: set<int>) {
    && met == popped + {root}
    && (root in popped || root in stack)
    && popped <= universe
    && (forall x :: x in stack ==> x in universe && (x == root || Reach(nb, root, x)))
    && Stacked(nb, stack, popped, met)
    && Covered(nb, stack, popped, met)
    && Avoids(nb, popped, target)
  }

  /** One round of the walk loop that does not meet the target keeps `Walk`
      and either pops a new id or shortens the stack. */
  lemma PopStep(nb: Adj, root: int, target: int, universe: set<int>,
                stack: seq<int>, popped: set<int>, met: set<int>)
    requires Walk(nb, root, target, universe, stack, popped, met)
    requires Vertices(nb) <= universe
    requires |stack| > 0 && target !in Succs(nb, stack[|stack| - 1])
    ensures var pop := stack[|stack| - 1];
            var stack' := stack[..|stack| - 1] + Unvisited(Succs(nb, pop), met + {pop});
            && Walk(nb, root, target, universe, stack', popped + {pop}, met + {pop})
            && (|universe - (popped + {pop})| < |universe - popped| ||
                (popped + {pop} == popped && |stack'| < |stack|))
  {
    PopReach(nb, root, target, universe, stack, popped, met);
    PopDiscipline(nb, root, target, universe, stack, popped, met);
    PopShrinks(nb, root, target, universe, stack, popped, met);
  }

  /** Everything a round stacks lies in `universe` and is reached from the root. */
  lemma PopReach(nb: Adj, root: int, target: int, universe: set<int>,
                 stack: seq<int>, popped: set<int>, met: set<int>)
    requires Walk(nb, root, target, universe, stack, popped, met)
    requires Vertices(nb) <= universe && |stack| > 0
    ensures var pop := stack[|stack| - 1];
            forall x :: x in stack[..|stack| - 1] + Unvisited(Succs(nb, pop), met + {pop}) ==>
              x in universe && (x == root || Reach(nb, root, x))
  {
    var pop := stack[|stack| - 1];
    var base := stack[..|stack| - 1];
    var pushed := Unvisited(Succs(nb, pop), met + {pop});
    assert stack == base + [pop];
    assert pop in stack;
    assert pop == root || Reach(nb, root, pop);
    forall x | x in pushed
      ensures x in universe && Reach(nb, root, x)
    {
      assert x in Succs(nb, pop);
      SuccInVertices(nb, pop, x);
      ReachExtend(nb, root, pop, x);
    }
  }

  /** A round keeps both stack disciplines, and the popped id avoids the target. */
  lemma PopDiscipline(nb: Adj, root: int, target: int, universe: set<int>,
                      stack: seq<int>, popped: set<int>, met: set<int>)
    requires Walk(nb, root, target, universe, stack, popped, met)
    requires |stack| > 0 && target !in Succs(nb, stack[|stack| - 1])
    ensures var pop := stack[|stack| - 1];
            var stack' := stack[..|stack| - 1] + Unvisited(Succs(nb, pop), met + {pop});
            && Stacked(nb, stack', popped + {pop}, met + {pop})
            && Covered(nb, stack', popped + {pop}, met + {pop})
            && Avoids(nb, popped + {pop}, target)
            && pop in universe
  {
    var pop := stack[|stack| - 1];
    var base := stack[..|stack| - 1];
    var pushed := Unvisited(Succs(nb, pop), met + {pop});
    assert stack == base + [pop];
    assert pop in stack;
    StackStep(nb, base, pop, pushed, popped, met);
    CoverStep(nb, base, pop, pushed, popped, met);
  }

  /** A round either pops a new id or pushes nothing. */
  lemma PopShrinks(nb: Adj, root: int, target: int, universe: set<int>,
                   stack: seq<int>, popped: set<int>, met: set<int>)
    requires Walk(nb, root, target, universe, stack, popped, met)
    requires |stack| > 0
    ensures var pop := stack[|stack| - 1];
            var stack' := stack[..|stack| - 1] + Unvisited(Succs(nb, pop), met + {pop});
            (|universe - (popped + {pop})| < |universe - popped| ||
             (popped + {pop} == popped && |stack'| < |stack|))
  {
    var pop := stack[|stack| - 1];
    assert pop in stack;
    if pop in popped {
      StackedTop(nb, stack, popped, met);
      UnvisitedNone(Succs(nb, pop), met + {pop});
    } else {
      UnvisitedShrinks(universe, popped, popped, pop);
    }
  }

  /** The walk starts with the root alone on the stack. */
  lemma WalkStart(nb: Adj, root: int, target: int, universe: set<int>)
    requires root in universe
    ensures Walk(nb, root, target, universe, [root], {}, {root})
  {
  }

  /** A target listed among the successors of a stacked id is reachable. */
  lemma WalkHit(nb: Adj, root: int, target: int, universe: set<int>,
                stack: seq<int>, popped: set<int>, met: set<int>)
    requires Walk(nb, root, target, universe, stack, popped, met)
    requires |stack| > 0 && target in Succs(nb, stack[|stack| - 1])
    ensures Reach(nb, root, target)
  {
    var pop := stack[|stack| - 1];
    assert pop in stack;
    ReachExtend(nb, root, pop, target);
  }

  /** A walk that empties its stack has shown the target unreachable. */
  lemma WalkDone(nb: Adj, root: int, target: int, universe: set<int>,
                 popped: set<int>, met: set<int>)
    requires Walk(nb, root, target, universe, [], popped, met)
    ensures !Reach(nb, root, target)
  {
    assert met == popped;
    Drained(nb, met);
    NoEscape(nb, met, root, target);
  }

  /** The walk of `Connected` from a found root (graph.go:229-249): true
      exactly when the target is reached from `root` along one or more edges. */
  method Search(nb: Adj, root: int, target: int) returns (r: bool)
    ensures r <==> Reach(nb, root, target)
  {
    var queue := [root];
    var met := {root};
    ghost var popped: set<int> := {};
    ghost var universe := Vertices(nb) + {root};
    WalkStart(nb, root, target, universe);
    while |queue| > 0
      invariant Walk(nb, root, target, universe, queue, popped, met)
      decreases |universe - popped|, |queue|
    {
      var pop := queue[|queue| - 1];
      ghost var before, metBefore := queue, met;
      queue := queue[..|queue| - 1];
      met := met + {pop};

      if pop in nb {
        var hit;
        hit, queue := PushUnvisited(nb[pop], met, queue, target);
        if hit {
          WalkHit(nb, root, target, universe, before, popped, metBefore);
          return true;
        }
      }
      ghost var pushed := Unvisited(Succs(nb, pop), met);
      assert pop !in nb ==> pushed == [];
      assert queue == before[..|before| - 1] + pushed;
      PopStep(nb, root, target, universe, before, popped, metBefore);
      popped := popped + {pop};
    }
    WalkDone(nb, root, target, universe, popped, met);
    return false;
  }

  /** `Connected(rootId, targetId)`: true exactly when a listed node has id
      `rootId` and the target is reached from it along one or more edges (a
      root is connected to itself only through a cycle). */
  method Connected(g: DGraph, rootId: int, targetId: int) returns (r: bool)
    ensures r <==> rootId in Ids(g.nodes) && Reach(g.neighbours, rootId, targetId)
  {
    var rootFound := false;
    var root := ZeroNode;
    for i := 0 to |g.nodes|
      invariant rootFound <==> exists k :: 0 <= k < i && g.nodes[k].id == rootId
      invariant rootFound ==> root.id == rootId
    {
      if g.nodes[i].id == rootId {
        root := g.nodes[i];
        rootFound := true;
      }
    }
    if !rootFound {
      return false;
    }
    assert rootId in Ids(g.nodes);
    r := Search(g.neighbours, root.id, targetId);
  }
}
