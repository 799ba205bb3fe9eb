/** `TreeShake` and `treeShakeAt` of graph/graph.go: drop every node from
    which no node satisfying the predicate can be reached. */
module Shake {
  import opened Results
  import opened Graph
  import opened Paths

  // ---------------------------------------------------------------------------
  // What `treeShakeAt` looks for

  /** The node stored under `x`, or some node reached from `x` along one or
      more edges, satisfies `f` (ids without a node read as `Node{}`). */
  ghost predicate Matches(g: DGraph, f: Node -> bool, x: int) {
    f(NodeAt(g, x)) || exists y :: Reach(g.neighbours, x, y) && f(NodeAt(g, y))
  }

  /** A match one edge further on is a match here. */
  lemma MatchesBack(g: DGraph, f: Node -> bool, x: int, ne: int)
    requires ne in Succs(g.neighbours, x) && Matches(g, f, ne)
    ensures Matches(g, f, x)
  {
    ReachStep(g.neighbours, x, ne);
    if !f(NodeAt(g, ne)) {
      var y :| Reach(g.neighbours, ne, y) && f(NodeAt(g, y));
      ReachTrans(g.neighbours, x, ne, y);
    }
  }

  /** What a failed search from `id` leaves behind: `id` and every id it
      newly marked fail `f`, and each of them has all its successors marked. */
  ghost predicate Explored(g: DGraph, f: Node -> bool, met0: set<int>, met1: set<int>, id: int) {
    && !f(NodeAt(g, id))
    && (forall z :: z in Succs(g.neighbours, id) ==> z in met1)
    && (forall y :: y in met1 - met0 ==>
          !f(NodeAt(g, y)) && forall z :: z in Succs(g.neighbours, y) ==> z in met1)
  }

  /** A failed search that started from nothing marked rules out every match. */
  lemma ExploredNoMatch(g: DGraph, f: Node -> bool, met1: set<int>, id: int)
    requires Explored(g, f, {}, met1, id)
    ensures !Matches(g, f, id)
  {
    var s := met1 + {id};
    assert Closed(g.neighbours, s);
    forall y | Reach(g.neighbours, id, y)
      ensures !f(NodeAt(g, y))
    {
      ReachFromClosed(g.neighbours, s, id, y);
    }
  }

  /** `treeShakeAt(met, f, id)`: a depth-first search that marks each
      neighbour before testing it and shares `met` with its recursive calls.
      Started with nothing marked it answers exactly `Matches`. */
  method TreeShakeAt(g: DGraph, f: Node -> bool, met: set<int>, id: int) returns (found: bool, met': set<int>)
    ensures met <= met'
    ensures found ==> Matches(g, f, id)
    ensures !found ==> Explored(g, f, met, met', id)
    ensures met == {} ==> (found <==> Matches(g, f, id))
    decreases |Vertices(g.neighbours) - met|
  {
    met' := met;
    var root := NodeAt(g, id);
    if f(root) {
      return true, met';
    }
    var adj := Succs(g.neighbours, id);
    for j := 0 to |adj|
      invariant met <= met'
      invariant forall k :: 0 <= k < j ==> adj[k] in met'
      invariant forall y :: y in met' - met ==>
                  !f(NodeAt(g, y)) && forall z :: z in Succs(g.neighbours, y) ==> z in met'
    {
      var ne := adj[j];
      if ne in met' {
        continue;
      }
      ghost var before := met';
      met' := met' + {ne};
      var n := NodeAt(g, ne);
      if f(n) {
        ReachStep(g.neighbours, id, ne);
        return true, met';
      }
      SuccInVertices(g.neighbours, id, ne);
      UnvisitedShrinks(Vertices(g.neighbours), met, before, ne);
      var sub;
      sub, met' := TreeShakeAt(g, f, met', ne);
      if sub {
        MatchesBack(g, f, id, ne);
        return true, met';
      }
    }
    if met == {} {
      ExploredNoMatch(g, f, met', id);
    }
    return false, met';
  }

  // ---------------------------------------------------------------------------
  // Removing nodes

  predicate Survives(n: Node, gone: set<int>) {
    n.id !in gone
  }

  predicate Untouched(e: DEdge, gone: set<int>) {
    e.fromId !in gone && e.toId !in gone
  }

  /** The nodes whose id is not in `gone`, in listed order. */
  function Without(nodes: seq<Node>, gone: set<int>): (r: seq<Node>)
    ensures forall n :: n in r <==> n in nodes && Survives(n, gone)
    ensures |r| <= |nodes|
  {
    if |nodes| == 0 then []
    else (if nodes[0].id in gone then [] else [nodes[0]]) + Without(nodes[1..], gone)
  }

  /** The edges touching no id in `gone`, in listed order. */
  function KeepEdges(edges: seq<DEdge>, gone: set<int>): (r: seq<DEdge>)
    ensures forall e :: e in r <==> e in edges && Untouched(e, gone)
    ensures |r| <= |edges|
  {
    if |edges| == 0 then []
    else (if edges[0].fromId in gone || edges[0].toId in gone then [] else [edges[0]])
         + KeepEdges(edges[1..], gone)
  }

  /** The removal branch of `TreeShake` (graph.go:112-124) for the node at
      index `i`: its incident edges, its list entry and its own keys in the
      three indices go; other nodes' neighbour lists are left as they are. */
  function RemoveAt(g: DGraph, i: nat): (r: DGraph)
    requires i < |g.nodes|
    ensures |r.nodes| == |g.nodes| - 1
    ensures r.nodes[..i] == g.nodes[..i] && r.nodes[i..] == g.nodes[i + 1..]
    ensures forall e :: e in r.edges <==> e in g.edges && Untouched(e, {g.nodes[i].id})
    ensures r.nodeMap.Keys == g.nodeMap.Keys - {g.nodes[i].id}
    ensures forall x :: x in r.nodeMap ==> r.nodeMap[x] == g.nodeMap[x]
    ensures r.neighbours.Keys == g.neighbours.Keys - {g.nodes[i].id}
    ensures forall x :: x in r.neighbours ==> r.neighbours[x] == g.neighbours[x]
    ensures r.nodeEdges.Keys == g.nodeEdges.Keys - {g.nodes[i].id}
    ensures r.title == g.title
  {
    var id := g.nodes[i].id;
    g.(edges := KeepEdges(g.edges, {id}),
       nodes := g.nodes[..i] + g.nodes[i + 1..],
       neighbours := g.neighbours - {id},
       nodeMap := g.nodeMap - {id},
       nodeEdges := g.nodeEdges - {id})
  }

  /** Removal keeps the listed order: filtering a concatenation filters each
      part. */
  lemma {:induction false} WithoutConcat(a: seq<Node>, b: seq<Node>, gone: set<int>)
    ensures Without(a + b, gone) == Without(a, gone) + Without(b, gone)
    decreases |a|
  {
    if |a| > 0 {
      assert (a + b)[0] == a[0] && (a + b)[1..] == a[1..] + b;
      WithoutConcat(a[1..], b, gone);
    } else {
      assert a + b == b;
    }
  }

  /** The surviving edges keep their listed order. */
  lemma {:induction false} KeepEdgesConcat(a: seq<DEdge>, b: seq<DEdge>, gone: set<int>)
    ensures KeepEdges(a + b, gone) == KeepEdges(a, gone) + KeepEdges(b, gone)
    decreases |a|
  {
    if |a| > 0 {
      assert (a + b)[0] == a[0] && (a + b)[1..] == a[1..] + b;
      KeepEdgesConcat(a[1..], b, gone);
    } else {
      assert a + b == b;
    }
  }

  /** Filtering twice is filtering once by both sets. */
  lemma {:induction false} KeepEdgesTwice(edges: seq<DEdge>, a: set<int>, b: set<int>)
    ensures KeepEdges(KeepEdges(edges, a), b) == KeepEdges(edges, a + b)
    decreases |edges|
  {
    if |edges| > 0 {
      KeepEdgesTwice(edges[1..], a, b);
      var e := edges[0];
      var once := KeepEdges(edges, a);
      if e.fromId in a || e.toId in a {
        assert once == KeepEdges(edges[1..], a);
      } else {
        assert once == [e] + KeepEdges(edges[1..], a);
        assert once[1..] == KeepEdges(edges[1..], a);
      }
    }
  }

  /** Adding an id that no listed node carries changes nothing. */
  lemma {:induction false} WithoutIgnores(nodes: seq<Node>, gone: set<int>, x: int)
    requires x !in Ids(nodes)
    ensures Without(nodes, gone + {x}) == Without(nodes, gone)
    decreases |nodes|
  {
    if |nodes| > 0 {
      assert nodes[0] in nodes;
      assert Ids(nodes[1..]) <= Ids(nodes);
      WithoutIgnores(nodes[1..], gone, x);
    }
  }

  lemma {:induction false} WithoutNone(nodes: seq<Node>)
    ensures Without(nodes, {}) == nodes
    decreases |nodes|
  {
    if |nodes| > 0 {
      WithoutNone(nodes[1..]);
      assert nodes == [nodes[0]] + nodes[1..];
    }
  }

  lemma {:induction false} KeepEdgesNone(edges: seq<DEdge>)
    ensures KeepEdges(edges, {}) == edges
    decreases |edges|
  {
    if |edges| > 0 {
      KeepEdgesNone(edges[1..]);
      assert edges == [edges[0]] + edges[1..];
    }
  }

  lemma UniqueIdsCons(n: Node, rest: seq<Node>)
    ensures UniqueIds([n] + rest) <==> n.id !in Ids(rest) && UniqueIds(rest)
  {
    var s := [n] + rest;
    assert forall k :: 0 <= k < |rest| ==> s[k + 1] == rest[k];
    if n.id in Ids(rest) {
      var m :| m in rest && m.id == n.id;
      var k :| 0 <= k < |rest| && rest[k] == m;
      assert s[0].id == s[k + 1].id;
    }
    if n.id !in Ids(rest) && UniqueIds(rest) {
      forall i, j | 0 <= i < j < |s|
        ensures s[i].id != s[j].id
      {
        if i == 0 {
          assert s[j] in rest;
        } else {
          assert s[i] == rest[i - 1] && s[j] == rest[j - 1];
        }
      }
    }
  }

  lemma {:induction false} UniqueIdsWithout(nodes: seq<Node>, gone: set<int>)
    requires UniqueIds(nodes)
    ensures UniqueIds(Without(nodes, gone))
    decreases |nodes|
  {
    if |nodes| > 0 {
      assert nodes == [nodes[0]] + nodes[1..];
      UniqueIdsCons(nodes[0], nodes[1..]);
      UniqueIdsWithout(nodes[1..], gone);
      var rest := Without(nodes[1..], gone);
      if nodes[0].id !in gone {
        IdsWithout(nodes[1..], gone);
        UniqueIdsCons(nodes[0], rest);
      }
    }
  }

  /** The id at index `i` of a list with unique ids occurs nowhere after it. */
  lemma IdNotLater(nodes: seq<Node>, i: nat)
    requires UniqueIds(nodes) && i < |nodes|
    ensures nodes[i].id !in Ids(nodes[i + 1..])
  {
    forall m | m in nodes[i + 1..]
      ensures m.id != nodes[i].id
    {
      var k :| i + 1 <= k < |nodes| && nodes[k] == m;
    }
  }

  // ---------------------------------------------------------------------------
  // Removing a node that matches nothing keeps everyone else's answer

  /** A walk to a match passes only through ids that match. */
  lemma PathThrough(g: DGraph, f: Node -> bool, p: seq<int>, k: nat)
    requires IsPath(g.neighbours, p) && k < |p| && f(NodeAt(g, p[|p| - 1]))
    ensures Matches(g, f, p[k])
  {
    if k < |p| - 1 {
      var q := p[k..];
      assert IsPath(g.neighbours, q);
      assert Reach(g.neighbours, p[k], p[|p| - 1]);
    }
  }

  /** Deleting the keys of an id `r` that matches nothing (while `Node{}`
      fails `f`) leaves `Matches` unchanged for every other id, even though
      other neighbour lists still name `r`. */
  lemma PruneKeepsMatches(g: DGraph, h: DGraph, f: Node -> bool, r: int, x: int)
    requires h.neighbours == g.neighbours - {r} && h.nodeMap == g.nodeMap - {r}
    requires !f(ZeroNode) && !Matches(g, f, r) && x != r
    ensures Matches(h, f, x) <==> Matches(g, f, x)
  {
    var nb, nb' := g.neighbours, h.neighbours;
    assert forall y :: y != r ==> NodeAt(h, y) == NodeAt(g, y);
    assert NodeAt(h, r) == ZeroNode;
    if Matches(h, f, x) && !f(NodeAt(h, x)) {
      var y :| Reach(nb', x, y) && f(NodeAt(h, y));
      var p :| IsPath(nb', p) && |p| >= 2 && p[0] == x && p[|p| - 1] == y;
      forall i | 0 <= i < |p| - 1
        ensures p[i + 1] in Succs(nb, p[i])
      {
        assert p[i + 1] in Succs(nb', p[i]);
      }
      assert IsPath(nb, p);
      assert Reach(nb, x, y);
    }
    if Matches(g, f, x) && !f(NodeAt(g, x)) {
      var y :| Reach(nb, x, y) && f(NodeAt(g, y));
      var p :| IsPath(nb, p) && |p| >= 2 && p[0] == x && p[|p| - 1] == y;
      forall k | 0 <= k < |p|
        ensures p[k] != r
      {
        PathThrough(g, f, p, k);
      }
      forall i | 0 <= i < |p| - 1
        ensures p[i + 1] in Succs(nb', p[i])
      {
        assert p[i] != r;
      }
      assert IsPath(nb', p);
      assert Reach(nb', x, y);
    }
  }

  /** Along a walk to a match that starts outside `gone`, where no id of
      `gone` matches anything, the walk never enters `gone`, so the match
      survives deleting the keys of `gone`. */
  lemma {:induction false} PathSurvives(g: DGraph, h: DGraph, f: Node -> bool, gone: set<int>, p: seq<int>)
    requires h.neighbours == g.neighbours - gone && h.nodeMap == g.nodeMap - gone
    requires forall z :: z in gone ==> !Matches(g, f, z)
    requires IsPath(g.neighbours, p) && p[0] !in gone && f(NodeAt(g, p[|p| - 1]))
    ensures Matches(h, f, p[0])
    decreases |p|
  {
    if |p| == 1 {
      assert NodeAt(h, p[0]) == NodeAt(g, p[0]);
    } else {
      var q := p[1..];
      assert IsPath(g.neighbours, q);
      PathThrough(g, f, p, 1);
      assert p[1] !in gone;
      PathSurvives(g, h, f, gone, q);
      assert Succs(h.neighbours, p[0]) == Succs(g.neighbours, p[0]);
      MatchesBack(h, f, p[0], p[1]);
    }
  }

  /** Deleting the keys of ids that match nothing keeps every match of the
      other ids, whatever `f` says of `Node{}`. */
  lemma MatchesSurvive(g: DGraph, h: DGraph, f: Node -> bool, gone: set<int>, x: int)
    requires h.neighbours == g.neighbours - gone && h.nodeMap == g.nodeMap - gone
    requires forall z :: z in gone ==> !Matches(g, f, z)
    requires x !in gone && Matches(g, f, x)
    ensures Matches(h, f, x)
  {
    if f(NodeAt(g, x)) {
      assert NodeAt(h, x) == NodeAt(g, x);
    } else {
      var y :| Reach(g.neighbours, x, y) && f(NodeAt(g, y));
      var p :| IsPath(g.neighbours, p) && |p| >= 2 && p[0] == x && p[|p| - 1] == y;
      PathSurvives(g, h, f, gone, p);
    }
  }

  // ---------------------------------------------------------------------------
  // `TreeShake`

  /** Ids are unique and `nodeMap` indexes exactly the listed nodes: true of
      every graph `NewDGraph` returns, and kept by `TreeShake`. */
  predicate Coherent(g: DGraph) {
    UniqueIds(g.nodes) && NodeIndex(g.nodeMap, g.nodes)
  }

  lemma CoherentPrune(g: DGraph, gone: set<int>)
    requires Coherent(g)
    ensures Coherent(g.(nodes := Without(g.nodes, gone), nodeMap := g.nodeMap - gone))
  {
    UniqueIdsWithout(g.nodes, gone);
    IdsWithout(g.nodes, gone);
    var w := Without(g.nodes, gone);
    forall k | 0 <= k < |w|
      ensures w[k].id in g.nodeMap - gone && (g.nodeMap - gone)[w[k].id] == w[k]
    {
      assert w[k] in w;
      var j :| 0 <= j < |g.nodes| && g.nodes[j] == w[k];
    }
  }

  lemma {:induction false} IdsWithout(nodes: seq<Node>, gone: set<int>)
    ensures Ids(Without(nodes, gone)) == Ids(nodes) - gone
    decreases |nodes|
  {
    if |nodes| == 0 {
      assert Ids(nodes) == {};
    } else {
      var n := nodes[0];
      assert nodes == [n] + nodes[1..];
      IdsCons(n, nodes[1..]);
      IdsWithout(nodes[1..], gone);
      if n.id !in gone {
        assert Without(nodes, gone) == [n] + Without(nodes[1..], gone);
        IdsCons(n, Without(nodes[1..], gone));
      } else {
        assert Without(nodes, gone) == Without(nodes[1..], gone);
      }
    }
  }

  lemma MatchlessCons(g: DGraph, f: Node -> bool, n: Node, rest: seq<Node>)
    ensures Matchless(g, f, [n] + rest) == (if Matches(g, f, n.id) then {} else {n.id}) + Matchless(g, f, rest)
  {
    var s := [n] + rest;
    forall x | x in Matchless(g, f, s)
      ensures x in (if Matches(g, f, n.id) then {} else {n.id}) + Matchless(g, f, rest)
    {
      var k :| 0 <= k < |s| && !Matches(g, f, s[k].id) && s[k].id == x;
      if k > 0 {
        assert rest[k - 1] == s[k];
      }
    }
    forall x | x in Matchless(g, f, rest)
      ensures x in Matchless(g, f, s)
    {
      var k :| 0 <= k < |rest| && !Matches(g, f, rest[k].id) && rest[k].id == x;
      assert s[k + 1] == rest[k];
    }
    assert s[0] == n;
  }

  /** `n` is worth keeping: a match is reachable from its id. */
  ghost predicate Kept(g: DGraph, f: Node -> bool, n: Node) {
    Matches(g, f, n.id)
  }

  /** The ids of the nodes in `nodes` that match nothing. */
  ghost function Matchless(g: DGraph, f: Node -> bool, nodes: seq<Node>): set<int> {
    set k | 0 <= k < |nodes| && !Matches(g, f, nodes[k].id) :: nodes[k].id
  }

  /** The state of `TreeShake` once the nodes from index `i` on have been
      visited: exactly the ids in `gone` have been removed and none of them
      satisfies `f`; when `Node{}` fails `f`, they are the visited ids that
      match nothing and every other id matches as in the original. */
  ghost predicate Shaken(g: DGraph, f: Node -> bool, i: nat, cur: DGraph, gone: set<int>) {
    Pruned(g, f, i, cur, gone) && (!f(ZeroNode) ==> Faithful(g, f, i, cur, gone))
  }

  /** The shape of the graph after removing `gone` while visiting from `i` on. */
  ghost predicate Pruned(g: DGraph, f: Node -> bool, i: nat, cur: DGraph, gone: set<int>) {
    && i <= |g.nodes|
    && cur.title == g.title
    && cur.nodes == g.nodes[..i] + Without(g.nodes[i..], gone)
    && cur.edges == KeepEdges(g.edges, gone)
    && cur.nodeMap == g.nodeMap - gone && cur.neighbours == g.neighbours - gone
    && cur.nodeEdges == g.nodeEdges - gone
    && gone <= Ids(g.nodes[i..])
    && (forall k :: i <= k < |g.nodes| && f(g.nodes[k]) ==> g.nodes[k].id !in gone)
  }

  /** The removed ids are the visited ones matching nothing, and the others
      match as they did. */
  ghost predicate Faithful(g: DGraph, f: Node -> bool, i: nat, cur: DGraph, gone: set<int>)
    requires i <= |g.nodes|
  {
    && gone == Matchless(g, f, g.nodes[i..])
    && forall x :: x !in gone ==> (Matches(cur, f, x) <==> Matches(g, f, x))
  }

  lemma ShakeStart(g: DGraph, f: Node -> bool)
    ensures Shaken(g, f, |g.nodes|, g, {})
  {
    WithoutNone(g.nodes);
    KeepEdgesNone(g.edges);
    assert g.nodes[..|g.nodes|] == g.nodes;
  }

  /** The node about to be visited is still in place and still indexed. */
  lemma ShakeNext(g: DGraph, f: Node -> bool, i: nat, cur: DGraph, gone: set<int>)
    requires Coherent(g) && Pruned(g, f, i + 1, cur, gone)
    ensures i < |cur.nodes| && cur.nodes[i] == g.nodes[i]
    ensures g.nodes[i].id !in gone && NodeAt(cur, g.nodes[i].id) == g.nodes[i]
  {
    IdNotLater(g.nodes, i);
    assert g.nodes[i] in g.nodes;
  }

  /** Visiting a node that matches keeps it. */
  lemma ShakeKeep(g: DGraph, f: Node -> bool, i: nat, cur: DGraph, gone: set<int>)
    requires Coherent(g) && Shaken(g, f, i + 1, cur, gone)
    requires Matches(cur, f, g.nodes[i].id)
    ensures Shaken(g, f, i, cur, gone)
  {
    ShakeNext(g, f, i, cur, gone);
    KeepPruned(g, f, i, cur, gone);
    if !f(ZeroNode) {
      var n := g.nodes[i];
      assert Matches(g, f, n.id);
      assert g.nodes[i..] == [n] + g.nodes[i + 1..];
      MatchlessCons(g, f, n, g.nodes[i + 1..]);
    }
  }

  lemma KeepPruned(g: DGraph, f: Node -> bool, i: nat, cur: DGraph, gone: set<int>)
    requires Pruned(g, f, i + 1, cur, gone)
    requires g.nodes[i].id !in gone
    ensures Pruned(g, f, i, cur, gone)
  {
    var n := g.nodes[i];
    assert g.nodes[i..] == [n] + g.nodes[i + 1..];
    assert g.nodes[..i + 1] == g.nodes[..i] + [n];
    assert Without(g.nodes[i..], gone) == [n] + Without(g.nodes[i + 1..], gone);
  }

  /** Visiting a node that matches nothing removes it. */
  lemma ShakeDrop(g: DGraph, f: Node -> bool, i: nat, cur: DGraph, gone: set<int>)
    requires Coherent(g) && Shaken(g, f, i + 1, cur, gone)
    requires !Matches(cur, f, g.nodes[i].id)
    ensures i < |cur.nodes|
    ensures Shaken(g, f, i, RemoveAt(cur, i), gone + {g.nodes[i].id})
  {
    var n := g.nodes[i];
    ShakeNext(g, f, i, cur, gone);
    assert !f(n);
    DropPruned(g, f, i, cur, gone);
    if !f(ZeroNode) {
      DropFaithful(g, f, i, cur, gone);
    }
  }

  lemma DropPruned(g: DGraph, f: Node -> bool, i: nat, cur: DGraph, gone: set<int>)
    requires Coherent(g) && Pruned(g, f, i + 1, cur, gone)
    requires !f(g.nodes[i])
    ensures i < |cur.nodes|
    ensures Pruned(g, f, i, RemoveAt(cur, i), gone + {g.nodes[i].id})
  {
    ShakeNext(g, f, i, cur, gone);
    DropNodes(g, i, cur.nodes, gone);
    KeepEdgesTwice(g.edges, gone, {g.nodes[i].id});
    DropIds(g.nodes, i, f, gone);
    var id := g.nodes[i].id;
    MinusMinus(g.nodeMap, gone, id);
    MinusMinus(g.neighbours, gone, id);
    MinusMinus(g.nodeEdges, gone, id);
  }

  lemma MinusMinus<K, V>(m: map<K, V>, a: set<K>, x: K)
    ensures (m - a) - {x} == m - (a + {x})
  {
  }

  /** Bookkeeping of the removed ids when the node at `i` goes. */
  lemma DropIds(nodes: seq<Node>, i: nat, f: Node -> bool, gone: set<int>)
    requires UniqueIds(nodes) && i < |nodes| && !f(nodes[i])
    requires gone <= Ids(nodes[i + 1..])
    requires forall k :: i + 1 <= k < |nodes| && f(nodes[k]) ==> nodes[k].id !in gone
    ensures gone + {nodes[i].id} <= Ids(nodes[i..])
    ensures forall k :: i <= k < |nodes| && f(nodes[k]) ==> nodes[k].id !in gone + {nodes[i].id}
  {
    assert nodes[i] in nodes[i..];
    assert forall m :: m in nodes[i + 1..] ==> m in nodes[i..];
    IdNotLater(nodes, i);
    forall k | i < k < |nodes|
      ensures nodes[k].id != nodes[i].id
    {
      assert nodes[k] in nodes[i + 1..];
    }
  }

  /** The node list after the removal at index `i`. */
  lemma DropNodes(g: DGraph, i: nat, nodes: seq<Node>, gone: set<int>)
    requires UniqueIds(g.nodes) && i < |g.nodes|
    requires nodes == g.nodes[..i + 1] + Without(g.nodes[i + 1..], gone)
    requires g.nodes[i].id !in gone
    ensures |nodes| > i
    ensures nodes[..i] + nodes[i + 1..] == g.nodes[..i] + Without(g.nodes[i..], gone + {g.nodes[i].id})
  {
    var n := g.nodes[i];
    var rest := g.nodes[i + 1..];
    assert g.nodes[i..] == [n] + rest;
    IdNotLater(g.nodes, i);
    WithoutIgnores(rest, gone, n.id);
    assert Without(g.nodes[i..], gone + {n.id}) == Without(rest, gone);
    assert nodes[..i] == g.nodes[..i];
    assert nodes[i + 1..] == Without(rest, gone);
  }

  lemma DropFaithful(g: DGraph, f: Node -> bool, i: nat, cur: DGraph, gone: set<int>)
    requires Coherent(g) && Pruned(g, f, i + 1, cur, gone) && !f(ZeroNode)
    requires Faithful(g, f, i + 1, cur, gone)
    requires !Matches(cur, f, g.nodes[i].id)
    ensures i < |cur.nodes|
    ensures Faithful(g, f, i, RemoveAt(cur, i), gone + {g.nodes[i].id})
  {
    var n := g.nodes[i];
    ShakeNext(g, f, i, cur, gone);
    assert !Matches(g, f, n.id);
    DropGone(g, f, i, gone);
    DropKeepsMatches(g, f, i, cur, gone);
  }

  /** The removed ids grow by the visited id that matches nothing. */
  lemma DropGone(g: DGraph, f: Node -> bool, i: nat, gone: set<int>)
    requires i < |g.nodes| && gone == Matchless(g, f, g.nodes[i + 1..])
    requires !Matches(g, f, g.nodes[i].id)
    ensures gone + {g.nodes[i].id} == Matchless(g, f, g.nodes[i..])
  {
    assert g.nodes[i..] == [g.nodes[i]] + g.nodes[i + 1..];
    MatchlessCons(g, f, g.nodes[i], g.nodes[i + 1..]);
  }

  /** Removing an id that matches nothing changes no other id's matching. */
  lemma DropKeepsMatches(g: DGraph, f: Node -> bool, i: nat, cur: DGraph, gone: set<int>)
    requires Coherent(g) && Pruned(g, f, i + 1, cur, gone) && !f(ZeroNode)
    requires forall x :: x !in gone ==> (Matches(cur, f, x) <==> Matches(g, f, x))
    requires !Matches(cur, f, g.nodes[i].id)
    ensures i < |cur.nodes|
    ensures forall x :: x !in gone + {g.nodes[i].id} ==> (Matches(RemoveAt(cur, i), f, x) <==> Matches(g, f, x))
  {
    var n := g.nodes[i];
    ShakeNext(g, f, i, cur, gone);
    var next := RemoveAt(cur, i);
    forall x | x !in gone + {n.id}
      ensures Matches(next, f, x) <==> Matches(g, f, x)
    {
      PruneKeepsMatches(cur, next, f, n.id, x);
    }
  }

  /** All nodes visited: the state `TreeShake` promises. */
  lemma ShakeDone(g: DGraph, f: Node -> bool, cur: DGraph, gone: set<int>)
    requires Coherent(g) && Shaken(g, f, 0, cur, gone)
    ensures Coherent(cur)
    ensures cur.nodes == Without(g.nodes, gone)
    ensures gone <= Ids(g.nodes)
    ensures forall n :: n in g.nodes && f(n) ==> n in cur.nodes
    ensures !f(ZeroNode) ==> gone == Matchless(g, f, g.nodes)
    ensures !f(ZeroNode) ==> forall n :: n in cur.nodes <==> n in g.nodes && Kept(g, f, n)
    ensures !f(ZeroNode) ==> forall n :: n in cur.nodes ==> Kept(cur, f, n)
  {
    assert g.nodes[0..] == g.nodes;
    assert cur.nodes == Without(g.nodes, gone);
    CoherentPrune(g, gone);
  }

  /** `TreeShake(f)`: visits the nodes from last to first and removes each one
      from which no node satisfying `f` can be reached in the graph as it
      stands. The removed ids are `gone`: a node satisfying `f` is never
      removed, a removed node matches nothing in the original graph, and when
      `Node{}` fails `f` the removed nodes are exactly those matching nothing
      in the original graph and every survivor still matches. */
  method TreeShake(g: DGraph, f: Node -> bool) returns (g': DGraph, ghost gone: set<int>)
    requires Coherent(g)
    ensures Coherent(g')
    ensures g'.title == g.title
    ensures g'.nodes == Without(g.nodes, gone) && g'.edges == KeepEdges(g.edges, gone)
    ensures g'.nodeMap == g.nodeMap - gone && g'.neighbours == g.neighbours - gone
    ensures g'.nodeEdges == g.nodeEdges - gone
    ensures gone <= Ids(g.nodes)
    ensures forall n :: n in g.nodes && f(n) ==> n in g'.nodes
    ensures forall x :: x in gone ==> !Matches(g, f, x)
    ensures forall n :: n in g.nodes && n !in g'.nodes ==> !Kept(g, f, n)
    ensures !f(ZeroNode) ==> gone == Matchless(g, f, g.nodes)
    ensures !f(ZeroNode) ==> forall n :: n in g'.nodes <==> n in g.nodes && Kept(g, f, n)
    ensures !f(ZeroNode) ==> forall n :: n in g'.nodes ==> Kept(g', f, n)
  {
    var cur := g;
    gone := {};
    var i := |g.nodes|;
    ShakeStart(g, f);
    while i > 0
      invariant 0 <= i && Shaken(g, f, i, cur, gone)
      invariant forall x :: x in gone ==> !Matches(g, f, x)
    {
      i := i - 1;
      ShakeNext(g, f, i, cur, gone);
      var n := cur.nodes[i];
      var found, _ := TreeShakeAt(cur, f, {}, n.id);
      if found {
        ShakeKeep(g, f, i, cur, gone);
        continue;
      }
      ShakeDrop(g, f, i, cur, gone);
      assert !Matches(g, f, n.id) by {
        if Matches(g, f, n.id) {
          MatchesSurvive(g, cur, f, gone, n.id);
        }
      }
      cur := RemoveAt(cur, i);
      gone := gone + {n.id};
    }
    ShakeDone(g, f, cur, gone);
    g' := cur;
  }
}
