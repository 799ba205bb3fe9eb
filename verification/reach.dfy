/** Reachability over the `neighbours` index of a graph (from-id -> to-ids):
    the vocabulary in which the traversals of graph/graph.go are specified. */
module Paths {
  import opened Results

  type Adj = map<int, seq<int>>

  /** The to-ids listed for `a`; an id without a key has none (a Go map
      lookup of a missing key yields the nil slice). */
  function Succs(nb: Adj, a: int): seq<int> {
    if a in nb then nb[a] else []
  }

  /** Every id that appears in the index, as a source or as a target. */
  ghost function Vertices(nb: Adj): set<int> {
    nb.Keys + set a, y | a in nb && y in nb[a] :: y
  }

  lemma SuccInVertices(nb: Adj, a: int, y: int)
    requires y in Succs(nb, a)
    ensures y in Vertices(nb)
  {
  }

  /** A walk along listed edges. */
  ghost predicate IsPath(nb: Adj, p: seq<int>) {
    |p| >= 1 && forall i :: 0 <= i < |p| - 1 ==> p[i + 1] in Succs(nb, p[i])
  }

  /** `b` is reached from `a` by following ONE or more edges. */
  ghost predicate Reach(nb: Adj, a: int, b: int) {
    exists p :: IsPath(nb, p) && |p| >= 2 && p[0] == a && p[|p| - 1] == b
  }

  /** No listed edge leaves the set `s`. */
  ghost predicate Closed(nb: Adj, s: set<int>) {
    forall x :: x in s ==> forall y :: y in Succs(nb, x) ==> y in s
  }

  lemma ReachStep(nb: Adj, a: int, b: int)
    requires b in Succs(nb, a)
    ensures Reach(nb, a, b)
  {
    var p := [a, b];
    assert IsPath(nb, p);
  }

  /** A reachable id (or the start itself) followed by one more edge is reachable. */
  lemma ReachExtend(nb: Adj, a: int, b: int, c: int)
    requires a == b || Reach(nb, a, b)
    requires c in Succs(nb, b)
    ensures Reach(nb, a, c)
  {
    if a == b {
      ReachStep(nb, a, c);
    } else {
      var p :| IsPath(nb, p) && |p| >= 2 && p[0] == a && p[|p| - 1] == b;
      var q := p + [c];
      assert IsPath(nb, q);
    }
  }

  lemma ReachTrans(nb: Adj, a: int, b: int, c: int)
    requires Reach(nb, a, b) && Reach(nb, b, c)
    ensures Reach(nb, a, c)
  {
    var p :| IsPath(nb, p) && |p| >= 2 && p[0] == a && p[|p| - 1] == b;
    var q :| IsPath(nb, q) && |q| >= 2 && q[0] == b && q[|q| - 1] == c;
    var w := p + q[1..];
    forall i | 0 <= i < |w| - 1
      ensures w[i + 1] in Succs(nb, w[i])
    {
      if i >= |p| - 1 {
        assert w[i] == q[i - |p| + 1] && w[i + 1] == q[i - |p| + 2];
      }
    }
    assert IsPath(nb, w);
  }

  /** A walk that starts inside a closed set never leaves it. */
  lemma {:induction false} ClosedPath(nb: Adj, s: set<int>, p: seq<int>)
    requires Closed(nb, s) && IsPath(nb, p) && p[0] in s
    ensures forall i :: 0 <= i < |p| ==> p[i] in s
    decreases |p|
  {
    if |p| > 1 {
      var q := p[..|p| - 1];
      assert IsPath(nb, q);
      ClosedPath(nb, s, q);
      assert forall i :: 0 <= i < |q| ==> q[i] == p[i];
      var x, y := p[|p| - 2], p[|p| - 1];
      assert x in s && y in Succs(nb, x);
      assert y in s;
    }
  }

  /** Whatever is reachable from inside a closed set is the target of an edge
      leaving a member of that set. */
  lemma ReachFromClosed(nb: Adj, s: set<int>, a: int, b: int)
    requires Closed(nb, s) && a in s && Reach(nb, a, b)
    ensures b in s
    ensures exists x :: x in s && b in Succs(nb, x)
  {
    var p :| IsPath(nb, p) && |p| >= 2 && p[0] == a && p[|p| - 1] == b;
    ClosedPath(nb, s, p);
    assert p[|p| - 2] in s && b in Succs(nb, p[|p| - 2]);
  }

  /** A closed set around `a` that no edge into `b` leaves proves `b`
      unreachable from `a`. */
  lemma NoEscape(nb: Adj, s: set<int>, a: int, b: int)
    requires Closed(nb, s) && a in s
    requires forall x :: x in s ==> b !in Succs(nb, x)
    ensures !Reach(nb, a, b)
  {
    if Reach(nb, a, b) {
      ReachFromClosed(nb, s, a, b);
    }
  }

  /** One step back along a reaching walk: the first edge out of `a`. */
  lemma ReachFirst(nb: Adj, a: int, c: int)
    requires Reach(nb, a, c)
    ensures exists b :: b in Succs(nb, a) && (b == c || Reach(nb, b, c))
  {
    var p :| IsPath(nb, p) && |p| >= 2 && p[0] == a && p[|p| - 1] == c;
    if |p| > 2 {
      var q := p[1..];
      assert IsPath(nb, q);
      assert p[1] in Succs(nb, a) && Reach(nb, p[1], c);
    } else {
      assert p[1] in Succs(nb, a);
    }
  }

  /** The entries of `adj` not yet visited, in listed order. */
  function Unvisited(adj: seq<int>, met: set<int>): (r: seq<int>)
    ensures forall y :: y in r <==> y in adj && y !in met
    ensures |r| <= |adj|
  {
    if |adj| == 0 then []
    else (if adj[0] in met then [] else [adj[0]]) + Unvisited(adj[1..], met)
  }

  /** Nothing is stacked when every entry has been visited. */
  lemma {:induction false} UnvisitedNone(adj: seq<int>, met: set<int>)
    requires forall y :: y in adj ==> y in met
    ensures Unvisited(adj, met) == []
    decreases |adj|
  {
    if |adj| > 0 {
      var a := adj[0];
      assert a in adj;
      assert a in met;
      UnvisitedNone(adj[1..], met);
      assert Unvisited(adj, met) == [] + Unvisited(adj[1..], met);
    }
  }

  lemma {:induction false} UnvisitedSnoc(adj: seq<int>, y: int, met: set<int>)
    ensures Unvisited(adj + [y], met) == Unvisited(adj, met) + (if y in met then [] else [y])
    decreases |adj|
  {
    if |adj| == 0 {
      assert Unvisited([y], met) == (if y in met then [] else [y]) + Unvisited([], met);
    } else {
      assert (adj + [y])[1..] == adj[1..] + [y];
      UnvisitedSnoc(adj[1..], y, met);
    }
  }

  /** The stack discipline of a depth-first walk that marks an id visited
      when it is popped: an entry that has already been expanded has every
      successor either visited or stacked above it. */
  ghost predicate Stacked(nb: Adj, stack: seq<int>, popped: set<int>, met: set<int>) {
    forall i :: 0 <= i < |stack| && stack[i] in popped ==>
      forall y :: y in Succs(nb, stack[i]) ==> y in met || y in stack[i + 1..]
  }

  /** Every expanded id has its successors visited or still stacked. */
  ghost predicate Covered(nb: Adj, stack: seq<int>, popped: set<int>, met: set<int>) {
    forall m :: m in popped ==>
      forall y :: y in Succs(nb, m) ==> y in met || y in stack
  }

  /** A repeated entry on top of the stack has nothing left to push. */
  lemma StackedTop(nb: Adj, stack: seq<int>, popped: set<int>, met: set<int>)
    requires Stacked(nb, stack, popped, met)
    requires |stack| > 0 && stack[|stack| - 1] in popped
    ensures forall y :: y in Succs(nb, stack[|stack| - 1]) ==> y in met
  {
    assert stack[|stack|..] == [];
  }

  /** Popping the top entry and pushing its successors that are not visited
      keeps the stack discipline. */
  lemma StackStep(nb: Adj, base: seq<int>, pop: int, pushed: seq<int>,
                  popped: set<int>, met: set<int>)
    requires popped <= met
    requires Stacked(nb, base + [pop], popped, met)
    requires forall y :: y in Succs(nb, pop) ==> y in met + {pop} || y in pushed
    requires forall x :: x in pushed ==> x !in met + {pop}
    ensures Stacked(nb, base + pushed, popped + {pop}, met + {pop})
  {
    var before := base + [pop];
    var after := base + pushed;
    forall i | 0 <= i < |after| && after[i] in popped + {pop}
      ensures forall y :: y in Succs(nb, after[i]) ==> y in met + {pop} || y in after[i + 1..]
    {
      forall y | y in Succs(nb, after[i])
        ensures y in met + {pop} || y in after[i + 1..]
      {
        if i < |base| {
          assert after[i] == before[i];
          if after[i] in popped {
            assert y in met || y in before[i + 1..];
            if y in before[i + 1..] && y != pop {
              var k :| i + 1 <= k < |before| && before[k] == y;
              assert after[k] == y;
            }
          } else {
            assert y in met + {pop} || y in pushed;
            if y in pushed {
              var k :| 0 <= k < |pushed| && pushed[k] == y;
              assert after[|base| + k] == y;
            }
          }
        }
      }
    }
  }

  /** The same step keeps every expanded id covered. */
  lemma CoverStep(nb: Adj, base: seq<int>, pop: int, pushed: seq<int>,
                  popped: set<int>, met: set<int>)
    requires Covered(nb, base + [pop], popped, met)
    requires forall y :: y in Succs(nb, pop) ==> y in met + {pop} || y in pushed
    ensures Covered(nb, base + pushed, popped + {pop}, met + {pop})
  {
    var before := base + [pop];
    var after := base + pushed;
    forall m | m in popped + {pop}
      ensures forall y :: y in Succs(nb, m) ==> y in met + {pop} || y in after
    {
      forall y | y in Succs(nb, m)
        ensures y in met + {pop} || y in after
      {
        if m in popped {
          assert y in met || y in before;
          if y in before && y != pop {
            var k :| 0 <= k < |before| && before[k] == y;
            assert after[k] == y;
          }
        } else {
          assert y in met + {pop} || y in pushed;
          if y in pushed {
            var k :| 0 <= k < |pushed| && pushed[k] == y;
            assert after[|base| + k] == y;
          }
        }
      }
    }
  }

  /** Once the stack is empty, the expanded ids form a closed set. */
  lemma Drained(nb: Adj, met: set<int>)
    requires Covered(nb, [], met, met)
    ensures Closed(nb, met)
  {
  }

  /** The start together with everything reached from it. */
  ghost function ReachableFrom(nb: Adj, root: int): set<int> {
    {root} + set y | y in Vertices(nb) && Reach(nb, root, y)
  }

  /** A closed set around the root all of whose members are reached from it
      is exactly the reachable set. */
  lemma ClosedReachable(nb: Adj, s: set<int>, root: int)
    requires Closed(nb, s) && root in s
    requires forall x :: x in s ==> x == root || Reach(nb, root, x)
    ensures s == ReachableFrom(nb, root)
  {
    forall x | x in s && x != root
      ensures x in Vertices(nb)
    {
      ReachFromClosed(nb, s, root, x);
      var z :| z in s && x in Succs(nb, z);
      SuccInVertices(nb, z, x);
    }
    forall y | y in ReachableFrom(nb, root) && y != root
      ensures y in s
    {
      ReachFromClosed(nb, s, root, y);
    }
  }
}
