/** `Subgraph` of graph/graph.go: the part of a graph a depth-first walk from
    a root reaches, rebuilt with `NewDGraph`. The walk as written marks an id
    visited only when it is popped, so an id can be stacked twice; the
    corrected walk marks ids when they are pushed. */
module Subgraphs {
  import opened Results
  import opened Graph
  import opened Paths

  // ---------------------------------------------------------------------------
  // The graphs the walk is defined on

  /** Every edge ends at a stored node. On a graph with an edge into an id
      that has no node, the walk as written stacks `Node{}` in its place and
      marks id 0, which can loop forever (see README); the model excludes
      such graphs. */
  predicate EndsListed(g: DGraph) {
    forall e :: e in g.edges ==> e.toId in g.nodeMap
  }

  lemma SuccListed(g: DGraph, f: int, t: int)
    requires Built(g) && EndsListed(g) && t in Succs(g.neighbours, f)
    ensures t in g.nodeMap
  {
    assert (f, t) in Pairs(g.edges);
    var k :| 0 <= k < |g.edges| && Pair(g.edges[k]) == (f, t);
    assert g.edges[k] in g.edges;
  }

  /** A stored id looks up the listed node carrying it. */
  lemma NodeAtListed(g: DGraph, id: int)
    requires Built(g) && id in g.nodeMap
    ensures NodeAt(g, id).id == id && NodeAt(g, id) in g.nodes
  {
    assert id in Ids(g.nodes);
    var k :| 0 <= k < |g.nodes| && g.nodes[k].id == id;
    assert g.nodes[k] in g.nodes;
  }

  /** `d.nodeEdges[id]`: the outgoing edges, or none for an id without a key. */
  function EdgesOf(g: DGraph, id: int): seq<DEdge> {
    if id in g.nodeEdges then g.nodeEdges[id] else []
  }

  lemma EdgesOfBuilt(g: DGraph, id: int)
    requires Built(g)
    ensures EdgesOf(g, id) == Outgoing(g.edges, id)
  {
    if id !in g.nodeEdges {
      OutgoingAbsent(g.edges, id);
    }
  }

  // ---------------------------------------------------------------------------
  // Node sequences as id sequences

  function StackIds(s: seq<Node>): (r: seq<int>)
    ensures |r| == |s| && forall k :: 0 <= k < |s| ==> r[k] == s[k].id
  {
    seq(|s|, k requires 0 <= k < |s| => s[k].id)
  }

  /** The nodes stored under `ids`, in order (`node(c)` for each `c`). */
  function NodesAt(g: DGraph, ids: seq<int>): (r: seq<Node>)
    ensures |r| == |ids| && forall k :: 0 <= k < |ids| ==> r[k] == NodeAt(g, ids[k])
  {
    seq(|ids|, k requires 0 <= k < |ids| => NodeAt(g, ids[k]))
  }

  lemma StackIdsIds(s: seq<Node>)
    ensures forall y :: y in StackIds(s) <==> y in Ids(s)
  {
    forall y | y in Ids(s)
      ensures y in StackIds(s)
    {
      var k :| 0 <= k < |s| && s[k].id == y;
      assert StackIds(s)[k] == y;
    }
  }

  /** Looking up listed ids gives back listed nodes carrying those ids. */
  lemma NodesAtListed(g: DGraph, ids: seq<int>)
    requires Built(g)
    requires forall y :: y in ids ==> y in g.nodeMap
    ensures StackIds(NodesAt(g, ids)) == ids
    ensures Ids(NodesAt(g, ids)) == set y | y in ids
    ensures forall x :: x in NodesAt(g, ids) ==> x in g.nodes
  {
    var r := NodesAt(g, ids);
    forall k | 0 <= k < |ids|
      ensures r[k].id == ids[k] && r[k] in g.nodes
    {
      assert ids[k] in ids;
      NodeAtListed(g, ids[k]);
    }
    assert StackIds(r) == ids;
    StackIdsIds(r);
  }

  // ---------------------------------------------------------------------------
  // The walk as written (graph.go:187-206)

  /** The state of the walk: the stack of parents, the ids marked visited, and
      the nodes and edges collected for the subgraph so far. */
  datatype Trail = Trail(stack: seq<Node>, met: set<int>, nodes: seq<Node>, edges: seq<DEdge>)

  /** One round of the loop: pop `p`, mark its id, collect its outgoing edges,
      and stack (and collect) every successor not yet marked. */
  function Expand(g: DGraph, t: Trail): Trail
    requires |t.stack| > 0
  {
    var p := t.stack[|t.stack| - 1];
    var met := t.met + {p.id};
    var pushed := NodesAt(g, Unvisited(Succs(g.neighbours, p.id), met));
    Trail(t.stack[..|t.stack| - 1] + pushed, met, t.nodes + pushed, t.edges + EdgesOf(g, p.id))
  }

  /** The facts about a built graph without dangling edges that the walk
      relies on. */
  ghost predicate Sound(g: DGraph) {
    && (forall f, c :: c in Succs(g.neighbours, f) ==> c in g.nodeMap)
    && (forall id :: id in g.nodeMap ==> NodeAt(g, id).id == id && NodeAt(g, id) in g.nodes)
    && (forall x :: x in g.nodes ==> x.id in g.nodeMap)
    && (forall id :: EdgesOf(g, id) == Outgoing(g.edges, id))
  }

  lemma BuiltSound(g: DGraph)
    requires Built(g) && EndsListed(g)
    ensures Sound(g)
  {
    forall f, c | c in Succs(g.neighbours, f)
      ensures c in g.nodeMap
    {
      SuccListed(g, f, c);
    }
    forall id | id in g.nodeMap
      ensures NodeAt(g, id).id == id && NodeAt(g, id) in g.nodes
    {
      NodeAtListed(g, id);
    }
    forall id
      ensures EdgesOf(g, id) == Outgoing(g.edges, id)
    {
      EdgesOfBuilt(g, id);
    }
  }

  /** Everything collected is a listed node reached from `root`, and the
      collected ids are the marked ones plus the stacked ones. */
  ghost predicate TrailNodes(g: DGraph, root: int, t: Trail) {
    && (forall x :: x in t.stack ==> x in g.nodes)
    && (forall x :: x in t.nodes ==> x in g.nodes)
    && t.met <= g.nodeMap.Keys
    && Ids(t.nodes) == t.met + Ids(t.stack)
    && root in Ids(t.nodes)
    && (forall x :: x in Ids(t.nodes) ==> x == root || Reach(g.neighbours, root, x))
  }

  /** The stack discipline of `Stacked`/`Covered`, marked ids being the
      popped ones. */
  ghost predicate TrailStack(g: DGraph, t: Trail) {
    && Stacked(g.neighbours, StackIds(t.stack), t.met, t.met)
    && Covered(g.neighbours, StackIds(t.stack), t.met, t.met)
  }

  /** The collected edges are exactly those leaving a marked id. */
  ghost predicate TrailEdges(g: DGraph, t: Trail) {
    forall e :: e in t.edges <==> e in g.edges && e.fromId in t.met
  }

  /** What the walk keeps true. */
  ghost predicate Trailing(g: DGraph, root: int, t: Trail) {
    TrailNodes(g, root, t) && TrailStack(g, t) && TrailEdges(g, t)
  }

  lemma TrailStart(g: DGraph, root: Node)
    requires root in g.nodes
    ensures Trailing(g, root.id, Trail([root], {}, [root], []))
  {
    assert Ids([root]) == {root.id} by {
      assert [root][0] == root;
    }
  }

  /** The ids stacked by one round are listed, and their nodes carry them. */
  lemma ExpandPushed(g: DGraph, t: Trail)
    requires Sound(g) && |t.stack| > 0
    ensures var p := t.stack[|t.stack| - 1];
            var unmet := Unvisited(Succs(g.neighbours, p.id), t.met + {p.id});
            && StackIds(NodesAt(g, unmet)) == unmet
            && Ids(NodesAt(g, unmet)) == set y | y in unmet
            && (forall x :: x in NodesAt(g, unmet) ==> x in g.nodes)
  {
    var p := t.stack[|t.stack| - 1];
    var unmet := Unvisited(Succs(g.neighbours, p.id), t.met + {p.id});
    var r := NodesAt(g, unmet);
    forall k | 0 <= k < |unmet|
      ensures r[k].id == unmet[k] && r[k] in g.nodes
    {
      assert unmet[k] in unmet;
    }
    assert StackIds(r) == unmet;
    StackIdsIds(r);
  }

  /** The node bookkeeping of one round. */
  lemma ExpandIds(g: DGraph, root: int, t: Trail)
    requires Sound(g) && TrailNodes(g, root, t) && |t.stack| > 0
    ensures TrailNodes(g, root, Expand(g, t))
  {
    var p := t.stack[|t.stack| - 1];
    assert p in t.stack;
    ExpandPushed(g, t);
    ExpandIdsSplit(g, t);
    ExpandReach(g, root, t);
  }

  /** The collected ids stay the marked ones plus the stacked ones. */
  lemma ExpandIdsSplit(g: DGraph, t: Trail)
    requires Sound(g) && Ids(t.nodes) == t.met + Ids(t.stack) && |t.stack| > 0
    ensures Ids(Expand(g, t).nodes) == Expand(g, t).met + Ids(Expand(g, t).stack)
  {
    var p := t.stack[|t.stack| - 1];
    var rest := t.stack[..|t.stack| - 1];
    var pushed := NodesAt(g, Unvisited(Succs(g.neighbours, p.id), t.met + {p.id}));
    assert t.stack == rest + [p];
    IdsConcat(rest, [p]);
    IdsConcat(rest, pushed);
    IdsConcat(t.nodes, pushed);
    assert Ids([p]) == {p.id} by {
      assert [p][0] == p;
    }
  }

  /** The newly collected ids are successors of the popped one, so they are
      reached from the root. */
  lemma ExpandReach(g: DGraph, root: int, t: Trail)
    requires Sound(g) && TrailNodes(g, root, t) && |t.stack| > 0
    ensures var t' := Expand(g, t);
      && root in Ids(t'.nodes)
      && (forall x :: x in Ids(t'.nodes) ==> x == root || Reach(g.neighbours, root, x))
  {
    var nb := g.neighbours;
    var p := t.stack[|t.stack| - 1];
    var unmet := Unvisited(Succs(nb, p.id), t.met + {p.id});
    var pushed := NodesAt(g, unmet);
    ExpandPushed(g, t);
    IdsConcat(t.nodes, pushed);
    assert p.id in Ids(t.nodes) by {
      assert StackIds(t.stack)[|t.stack| - 1] == p.id;
      StackIdsIds(t.stack);
    }
    forall c | c in Ids(pushed)
      ensures Reach(nb, root, c)
    {
      assert c in unmet;
      ReachExtend(nb, root, p.id, c);
    }
  }

  /** The stack discipline across one round. */
  lemma ExpandStacked(g: DGraph, t: Trail)
    requires Sound(g) && TrailStack(g, t) && |t.stack| > 0
    ensures TrailStack(g, Expand(g, t))
  {
    var nb := g.neighbours;
    var p := t.stack[|t.stack| - 1];
    var rest := t.stack[..|t.stack| - 1];
    var unmet := Unvisited(Succs(nb, p.id), t.met + {p.id});
    var pushed := NodesAt(g, unmet);
    ExpandPushed(g, t);
    assert StackIds(t.stack) == StackIds(rest) + [p.id];
    assert StackIds(rest + pushed) == StackIds(rest) + unmet;
    StackStep(nb, StackIds(rest), p.id, unmet, t.met, t.met);
    CoverStep(nb, StackIds(rest), p.id, unmet, t.met, t.met);
  }

  /** The collected edges across one round. */
  lemma ExpandEdges(g: DGraph, t: Trail)
    requires Sound(g) && TrailEdges(g, t) && |t.stack| > 0
    ensures TrailEdges(g, Expand(g, t))
  {
    var p := t.stack[|t.stack| - 1];
    assert EdgesOf(g, p.id) == Outgoing(g.edges, p.id);
  }

  /** A round either marks a new id or shortens the stack. */
  lemma ExpandShrinks(g: DGraph, root: int, t: Trail)
    requires Sound(g) && TrailNodes(g, root, t) && TrailStack(g, t) && |t.stack| > 0
    ensures var t' := Expand(g, t);
            || |g.nodeMap.Keys - t'.met| < |g.nodeMap.Keys - t.met|
            || (t'.met == t.met && |t'.stack| < |t.stack|)
  {
    var nb := g.neighbours;
    var p := t.stack[|t.stack| - 1];
    assert p in t.stack;
    if p.id in t.met {
      assert StackIds(t.stack)[|t.stack| - 1] == p.id;
      StackedTop(nb, StackIds(t.stack), t.met, t.met);
      UnvisitedNone(Succs(nb, p.id), t.met + {p.id});
    } else {
      UnvisitedShrinks(g.nodeMap.Keys, t.met, t.met, p.id);
    }
  }

  /** Runs the loop until the stack is empty. */
  function Drain(g: DGraph, ghost root: int, t: Trail): (r: Trail)
    requires Sound(g) && Trailing(g, root, t)
    ensures r.stack == [] && Trailing(g, root, r)
    decreases |g.nodeMap.Keys - t.met|, |t.stack|
  {
    if |t.stack| == 0 then t
    else
      ExpandIds(g, root, t);
      ExpandStacked(g, t);
      ExpandEdges(g, t);
      ExpandShrinks(g, root, t);
      Drain(g, root, Expand(g, t))
  }

  /** Unfolds `Drain` by one round. */
  lemma DrainStep(g: DGraph, root: int, t: Trail)
    requires Sound(g) && Trailing(g, root, t) && |t.stack| > 0
    ensures Trailing(g, root, Expand(g, t))
    ensures Drain(g, root, t) == Drain(g, root, Expand(g, t))
  {
    ExpandIds(g, root, t);
    ExpandStacked(g, t);
    ExpandEdges(g, t);
  }

  /** The walk only appends to the collected nodes. */
  lemma {:induction false} DrainPrefix(g: DGraph, root: int, t: Trail)
    requires Sound(g) && Trailing(g, root, t)
    ensures t.nodes <= Drain(g, root, t).nodes
    decreases |g.nodeMap.Keys - t.met|, |t.stack|
  {
    if |t.stack| > 0 {
      DrainStep(g, root, t);
      ExpandShrinks(g, root, t);
      DrainPrefix(g, root, Expand(g, t));
      assert t.nodes <= Expand(g, t).nodes;
    }
  }

  /** A drained walk has collected exactly the ids reachable from the root
      and exactly the edges leaving them. */
  lemma TrailDone(g: DGraph, root: int, t: Trail)
    requires Trailing(g, root, t) && t.stack == []
    ensures Ids(t.nodes) == ReachableFrom(g.neighbours, root)
    ensures forall e :: e in t.edges <==> e in g.edges && e.fromId in ReachableFrom(g.neighbours, root)
  {
    assert Ids(t.stack) == {};
    assert StackIds(t.stack) == [];
    Drained(g.neighbours, t.met);
    ClosedReachable(g.neighbours, t.met, root);
  }

  /** `Subgraph(rootId)` as written: `RootNotFound` exactly when no node has
      the id; otherwise whatever `NewDGraph` makes of the collected nodes and
      edges, which when it succeeds is the part of the graph reachable from
      the root. */
  function Subgraph(g: DGraph, rootId: int): (r: Result<DGraph, GraphError>)
    requires Built(g) && EndsListed(g)
    ensures r == Err(RootNotFound(rootId)) <==> rootId !in Ids(g.nodes)
    ensures r.Ok? ==> Built(r.value) && r.value.title == g.title
    ensures r.Ok? ==> |r.value.nodes| > 0 && r.value.nodes[0].id == rootId
    ensures r.Ok? ==> Ids(r.value.nodes) == ReachableFrom(g.neighbours, rootId)
    ensures r.Ok? ==> forall n :: n in r.value.nodes ==> n in g.nodes
    ensures r.Ok? ==> forall e :: e in r.value.edges <==>
                        e in g.edges && e.fromId in ReachableFrom(g.neighbours, rootId)
  {
    match FindById(g.nodes, rootId)
    case None => Err(RootNotFound(rootId))
    case Some(root) =>
      BuiltSound(g);
      TrailStart(g, root);
      var t := Drain(g, rootId, Trail([root], {}, [root], []));
      DrainPrefix(g, rootId, Trail([root], {}, [root], []));
      TrailDone(g, rootId, t);
      NewDGraph(g.title, t.nodes, t.edges)
  }

  // ---------------------------------------------------------------------------
  // The corrected walk: an id is marked when it is stacked

  /** The inner loop of the corrected walk: each successor not yet marked is
      marked as it is stacked, so no id is stacked twice. */
  function MarkPush(adj: seq<int>, met: set<int>): (r: seq<int>)
    ensures forall y :: y in r <==> y in adj && y !in met
    ensures forall i, j :: 0 <= i < j < |r| ==> r[i] != r[j]
    decreases |adj|
  {
    if |adj| == 0 then []
    else if adj[0] in met then MarkPush(adj[1..], met)
    else
      var rest := MarkPush(adj[1..], met + {adj[0]});
      assert forall j :: 0 <= j < |rest| ==> rest[j] in rest;
      [adj[0]] + rest
  }

  /** One round of the corrected loop: pop `p`, collect its outgoing edges,
      and stack and collect every successor not yet marked, marking it. */
  function ExpandMarked(g: DGraph, t: Trail): Trail
    requires |t.stack| > 0
  {
    var p := t.stack[|t.stack| - 1];
    var unmet := MarkPush(Succs(g.neighbours, p.id), t.met);
    var pushed := NodesAt(g, unmet);
    Trail(t.stack[..|t.stack| - 1] + pushed, t.met + (set y | y in unmet), t.nodes + pushed,
          t.edges + EdgesOf(g, p.id))
  }

  /** The ids already popped: marked but no longer stacked. */
  function Popped(t: Trail): set<int> {
    t.met - Ids(t.stack)
  }

  /** Every collected node is a distinct listed node reached from `root`, the
      collected ids are exactly the marked ones, and the stack holds distinct
      marked ids. */
  ghost predicate MarkedNodes(g: DGraph, root: int, t: Trail) {
    && (forall x :: x in t.stack ==> x in g.nodes)
    && (forall x :: x in t.nodes ==> x in g.nodes)
    && t.met <= g.nodeMap.Keys
    && UniqueIds(t.nodes) && Ids(t.nodes) == t.met
    && UniqueIds(t.stack) && Ids(t.stack) <= t.met
    && root in t.met
    && (forall x :: x in t.met ==> x == root || Reach(g.neighbours, root, x))
  }

  /** Every successor of a popped id is marked. */
  ghost predicate MarkedDone(g: DGraph, t: Trail) {
    forall m :: m in Popped(t) ==> forall y :: y in Succs(g.neighbours, m) ==> y in t.met
  }

  /** The collected edges are distinct and are exactly those leaving a popped id. */
  ghost predicate MarkedEdges(g: DGraph, t: Trail) {
    && UniquePairs(t.edges)
    && (forall e :: e in t.edges <==> e in g.edges && e.fromId in Popped(t))
  }

  ghost predicate Marked(g: DGraph, root: int, t: Trail) {
    MarkedNodes(g, root, t) && MarkedDone(g, t) && MarkedEdges(g, t)
  }

  lemma MarkedStart(g: DGraph, root: Node)
    requires Sound(g) && root in g.nodes
    ensures Marked(g, root.id, Trail([root], {root.id}, [root], []))
  {
    assert Ids([root]) == {root.id} by {
      assert [root][0] == root;
    }
  }

  /** The ids stacked by one corrected round are listed, distinct, and their
      nodes carry them. */
  lemma MarkedPushed(g: DGraph, t: Trail)
    requires Sound(g) && |t.stack| > 0
    ensures var p := t.stack[|t.stack| - 1];
            var unmet := MarkPush(Succs(g.neighbours, p.id), t.met);
            && StackIds(NodesAt(g, unmet)) == unmet
            && Ids(NodesAt(g, unmet)) == set y | y in unmet
            && UniqueIds(NodesAt(g, unmet))
            && (forall x :: x in NodesAt(g, unmet) ==> x in g.nodes)
  {
    var p := t.stack[|t.stack| - 1];
    var unmet := MarkPush(Succs(g.neighbours, p.id), t.met);
    var r := NodesAt(g, unmet);
    forall k | 0 <= k < |unmet|
      ensures r[k].id == unmet[k] && r[k] in g.nodes
    {
      assert unmet[k] in unmet;
    }
    assert StackIds(r) == unmet;
    StackIdsIds(r);
  }

  /** The collected nodes across one corrected round. */
  lemma MarkedStepCollected(g: DGraph, root: int, t: Trail)
    requires Sound(g) && MarkedNodes(g, root, t) && |t.stack| > 0
    ensures var t' := ExpandMarked(g, t);
            && (forall x :: x in t'.nodes ==> x in g.nodes)
            && t'.met <= g.nodeMap.Keys
            && UniqueIds(t'.nodes) && Ids(t'.nodes) == t'.met
            && root in t'.met
            && (forall x :: x in t'.met ==> x == root || Reach(g.neighbours, root, x))
  {
    var nb := g.neighbours;
    var p := t.stack[|t.stack| - 1];
    var unmet := MarkPush(Succs(nb, p.id), t.met);
    var pushed := NodesAt(g, unmet);
    assert p in t.stack;
    MarkedPushed(g, t);
    IdsConcat(t.nodes, pushed);
    UniqueIdsConcat(t.nodes, pushed);
    assert p.id in t.met;
    forall c | c in Ids(pushed)
      ensures Reach(nb, root, c)
    {
      assert c in unmet;
      ReachExtend(nb, root, p.id, c);
    }
  }

  /** The stack across one corrected round: what is stacked stays listed,
      distinct and marked. */
  lemma MarkedStepStack(g: DGraph, root: int, t: Trail)
    requires Sound(g) && MarkedNodes(g, root, t) && |t.stack| > 0
    ensures var t' := ExpandMarked(g, t);
            && (forall x :: x in t'.stack ==> x in g.nodes)
            && UniqueIds(t'.stack) && Ids(t'.stack) <= t'.met
  {
    var p := t.stack[|t.stack| - 1];
    var rest := t.stack[..|t.stack| - 1];
    var pushed := NodesAt(g, MarkPush(Succs(g.neighbours, p.id), t.met));
    MarkedPushed(g, t);
    assert Ids(rest) <= Ids(t.stack) by {
      assert t.stack == rest + [p];
      IdsConcat(rest, [p]);
    }
    IdsConcat(rest, pushed);
    assert UniqueIds(rest) by {
      assert forall i :: 0 <= i < |rest| ==> rest[i] == t.stack[i];
    }
    UniqueIdsConcat(rest, pushed);
  }

  /** A corrected round moves the popped id, which was still stacked, into
      the popped ones. */
  lemma MarkedStepPopped(g: DGraph, root: int, t: Trail)
    requires Sound(g) && MarkedNodes(g, root, t) && |t.stack| > 0
    ensures var t' := ExpandMarked(g, t);
            && Popped(t') == Popped(t) + {t.stack[|t.stack| - 1].id}
            && t.stack[|t.stack| - 1].id !in Popped(t)
  {
    var p := t.stack[|t.stack| - 1];
    var rest := t.stack[..|t.stack| - 1];
    var pushed := NodesAt(g, MarkPush(Succs(g.neighbours, p.id), t.met));
    MarkedPushed(g, t);
    assert Ids(t.stack) == Ids(rest) + {p.id} by {
      assert t.stack == rest + [p];
      IdsConcat(rest, [p]);
      assert Ids([p]) == {p.id} by {
        assert [p][0] == p;
      }
    }
    IdsConcat(rest, pushed);
    UniqueIdsSnoc(rest, p, t.stack);
  }

  /** The last of a sequence of distinct ids does not occur before it. */
  lemma UniqueIdsSnoc(rest: seq<Node>, p: Node, s: seq<Node>)
    requires s == rest + [p] && UniqueIds(s)
    ensures p.id !in Ids(rest)
  {
    forall k | 0 <= k < |rest|
      ensures rest[k].id != p.id
    {
      assert s[k] == rest[k] && s[|rest|] == p;
    }
  }

  /** The node bookkeeping of one corrected round. */
  lemma MarkedStepNodes(g: DGraph, root: int, t: Trail)
    requires Sound(g) && MarkedNodes(g, root, t) && |t.stack| > 0
    ensures MarkedNodes(g, root, ExpandMarked(g, t))
    ensures var t' := ExpandMarked(g, t);
            Popped(t') == Popped(t) + {t.stack[|t.stack| - 1].id} && t.stack[|t.stack| - 1].id !in Popped(t)
  {
    MarkedStepCollected(g, root, t);
    MarkedStepStack(g, root, t);
    MarkedStepPopped(g, root, t);
  }

  /** The popped ids stay closed within the marked ones. */
  lemma MarkedStepDone(g: DGraph, root: int, t: Trail)
    requires Sound(g) && MarkedNodes(g, root, t) && MarkedDone(g, t) && |t.stack| > 0
    ensures MarkedDone(g, ExpandMarked(g, t))
  {
    var p := t.stack[|t.stack| - 1];
    MarkedStepNodes(g, root, t);
  }

  lemma {:induction false} OutgoingUnique(edges: seq<DEdge>, f: int)
    requires UniquePairs(edges)
    ensures UniquePairs(Outgoing(edges, f))
    decreases |edges|
  {
    if |edges| > 0 {
      var prefix := edges[..|edges| - 1];
      var e := edges[|edges| - 1];
      assert edges == prefix + [e];
      UniquePairsSnoc(prefix, e);
      OutgoingUnique(prefix, f);
      OutgoingSnoc(prefix, e, f);
      if e.fromId == f {
        UniquePairsSnoc(Outgoing(prefix, f), e);
      }
    }
  }

  /** The collected edges across one corrected round. */
  lemma MarkedStepEdges(g: DGraph, root: int, t: Trail)
    requires Sound(g) && UniquePairs(g.edges) && MarkedNodes(g, root, t) && MarkedEdges(g, t)
    requires |t.stack| > 0
    ensures MarkedEdges(g, ExpandMarked(g, t))
  {
    var p := t.stack[|t.stack| - 1];
    MarkedStepNodes(g, root, t);
    var out := Outgoing(g.edges, p.id);
    assert EdgesOf(g, p.id) == out;
    OutgoingUnique(g.edges, p.id);
    UniquePairsConcat(t.edges, out, p.id);
  }

  /** A corrected round either marks a new id or shortens the stack. */
  lemma MarkedShrinks(g: DGraph, t: Trail)
    requires Sound(g) && |t.stack| > 0
    ensures var t' := ExpandMarked(g, t);
            || |g.nodeMap.Keys - t'.met| < |g.nodeMap.Keys - t.met|
            || (t'.met == t.met && |t'.stack| < |t.stack|)
  {
    var p := t.stack[|t.stack| - 1];
    var unmet := MarkPush(Succs(g.neighbours, p.id), t.met);
    if |unmet| > 0 {
      var c := unmet[0];
      assert c in unmet;
      assert c in g.nodeMap;
      UnvisitedShrinksBy(g.nodeMap.Keys, t.met, (set y | y in unmet), c);
    } else {
      assert (set y | y in unmet) == {};
      assert NodesAt(g, unmet) == [];
    }
  }

  /** Runs the corrected loop until the stack is empty. */
  function DrainMarked(g: DGraph, ghost root: int, t: Trail): (r: Trail)
    requires Sound(g) && UniquePairs(g.edges) && Marked(g, root, t)
    ensures r.stack == [] && Marked(g, root, r)
    ensures t.nodes <= r.nodes
    decreases |g.nodeMap.Keys - t.met|, |t.stack|
  {
    if |t.stack| == 0 then t
    else
      MarkedStepNodes(g, root, t);
      MarkedStepDone(g, root, t);
      MarkedStepEdges(g, root, t);
      MarkedShrinks(g, t);
      DrainMarked(g, root, ExpandMarked(g, t))
  }

  /** A drained corrected walk has collected each reachable id once and each
      edge leaving one of them once. */
  lemma MarkedDoneAll(g: DGraph, root: int, t: Trail)
    requires Marked(g, root, t) && t.stack == []
    ensures UniqueIds(t.nodes) && UniquePairs(t.edges)
    ensures Ids(t.nodes) == ReachableFrom(g.neighbours, root)
    ensures forall e :: e in t.edges <==> e in g.edges && e.fromId in ReachableFrom(g.neighbours, root)
  {
    assert Ids(t.stack) == {};
    assert Popped(t) == t.met;
    assert Closed(g.neighbours, t.met);
    ClosedReachable(g.neighbours, t.met, root);
  }

  /** `Subgraph(rootId)` with the walk marking ids as they are stacked: fails
      exactly when no node has the id, and otherwise yields the part of the
      graph reachable from the root, every node and edge of it once. */
  function ReachableSubgraph(g: DGraph, rootId: int): (r: Result<DGraph, GraphError>)
    requires Built(g) && EndsListed(g)
    ensures r.Err? <==> rootId !in Ids(g.nodes)
    ensures r.Err? ==> r.error == RootNotFound(rootId)
    ensures r.Ok? ==> Built(r.value) && r.value.title == g.title
    ensures r.Ok? ==> |r.value.nodes| > 0 && r.value.nodes[0].id == rootId
    ensures r.Ok? ==> Ids(r.value.nodes) == ReachableFrom(g.neighbours, rootId)
    ensures r.Ok? ==> forall n :: n in r.value.nodes ==> n in g.nodes
    ensures r.Ok? ==> forall e :: e in r.value.edges <==>
                        e in g.edges && e.fromId in ReachableFrom(g.neighbours, rootId)
  {
    match FindById(g.nodes, rootId)
    case None => Err(RootNotFound(rootId))
    case Some(root) =>
      BuiltSound(g);
      MarkedStart(g, root);
      var t := DrainMarked(g, rootId, Trail([root], {rootId}, [root], []));
      MarkedDoneAll(g, rootId, t);
      NewDGraph(g.title, t.nodes, t.edges)
  }

  // ---------------------------------------------------------------------------
  // A graph on which the walk as written stacks an id twice

  /** Nodes 1, 2, 3 with edges 1->2, 1->3, 3->2: node 2 is reached both
      directly and through 3. */
  const N1 := Node(1, "", "")
  const N2 := Node(2, "", "")
  const N3 := Node(3, "", "")
  const E12 := DEdge(1, 2, "", "")
  const E13 := DEdge(1, 3, "", "")
  const E32 := DEdge(3, 2, "", "")

  function Diamond(): DGraph {
    DGraph("", [N1, N2, N3], [E12, E13, E32],
           map[1 := N1, 2 := N2, 3 := N3],
           map[1 := [2, 3], 3 := [2]],
           map[1 := [E12, E13], 3 := [E32]])
  }

  /** The outgoing edges of `f` in the diamond, built up one edge at a time. */
  lemma DiamondOutgoing(f: int)
    ensures Outgoing(Diamond().edges, f) == if f in Diamond().nodeEdges then Diamond().nodeEdges[f] else []
  {
    var es := Diamond().edges;
    var e12, e13, e32 := es[0], es[1], es[2];
    assert es == [] + [e12] + [e13] + [e32];
    OutgoingSnoc([], e12, f);
    OutgoingSnoc([e12], e13, f);
    OutgoingSnoc([e12, e13], e32, f);
  }

  lemma DiamondIds()
    ensures Ids(Diamond().nodes) == {1, 2, 3}
    ensures FromIds(Diamond().edges) == {1, 3}
  {
    var g := Diamond();
    assert g.nodes[0].id == 1 && g.nodes[1].id == 2 && g.nodes[2].id == 3;
    assert g.edges[0].fromId == 1 && g.edges[2].fromId == 3;
  }

  lemma DiamondPairs()
    ensures Pairs(Diamond().edges) == {(1, 2), (1, 3), (3, 2)}
  {
    var g := Diamond();
    assert Pair(g.edges[0]) == (1, 2) && Pair(g.edges[1]) == (1, 3) && Pair(g.edges[2]) == (3, 2);
  }

  lemma DiamondNodes()
    ensures UniqueIds(Diamond().nodes) && NodeIndex(Diamond().nodeMap, Diamond().nodes)
  {
    var g := Diamond();
    var ns := g.nodes;
    assert |ns| == 3 && ns[0].id == 1 && ns[1].id == 2 && ns[2].id == 3;
    DiamondIds();
    forall n | n in ns
      ensures n.id in g.nodeMap && g.nodeMap[n.id] == n
    {
      assert n == ns[0] || n == ns[1] || n == ns[2];
    }
  }

  lemma DiamondUniquePairs()
    ensures UniquePairs(Diamond().edges)
  {
    var es := Diamond().edges;
    assert |es| == 3 && Pair(es[0]) == (1, 2) && Pair(es[1]) == (1, 3) && Pair(es[2]) == (3, 2);
  }

  lemma DiamondTargets()
    ensures TargetIndex(Diamond().neighbours, Diamond().edges)
  {
    DiamondIds();
    DiamondPairs();
    DiamondTargetsOf(Diamond().neighbours, Diamond().edges);
  }

  lemma DiamondTargetsOf(nb: map<int, seq<int>>, edges: seq<DEdge>)
    requires nb.Keys == {1, 3} && nb[1] == [2, 3] && nb[3] == [2]
    requires FromIds(edges) == {1, 3} && Pairs(edges) == {(1, 2), (1, 3), (3, 2)}
    ensures TargetIndex(nb, edges)
  {
  }

  lemma DiamondEdges()
    ensures EdgeIndex(Diamond().nodeEdges, Diamond().edges) && EndsListed(Diamond())
  {
    DiamondIds();
    DiamondEdgeIndex();
    DiamondEnds();
  }

  lemma DiamondEdgeIndex()
    ensures forall f :: f in Diamond().nodeEdges ==> Diamond().nodeEdges[f] == Outgoing(Diamond().edges, f)
  {
    forall f | f in Diamond().nodeEdges
      ensures Diamond().nodeEdges[f] == Outgoing(Diamond().edges, f)
    {
      DiamondOutgoing(f);
    }
  }

  lemma DiamondEnds()
    ensures EndsListed(Diamond())
  {
    var es := Diamond().edges;
    assert forall e :: e in es ==> e == E12 || e == E13 || e == E32;
  }

  lemma DiamondBuilt()
    ensures Built(Diamond()) && EndsListed(Diamond())
  {
    DiamondNodes();
    DiamondUniquePairs();
    DiamondTargets();
    DiamondEdges();
  }

  /** The states of the walk from node 1 on the diamond, round by round. */
  function DiamondWalk(k: nat): Trail
    requires k <= 4
  {
    if k == 0 then Trail([N1], {}, [N1], [])
    else if k == 1 then Trail([N2, N3], {1}, [N1, N2, N3], [E12, E13])
    else if k == 2 then Trail([N2, N2], {1, 3}, [N1, N2, N3, N2], [E12, E13, E32])
    else if k == 3 then Trail([N2], {1, 2, 3}, [N1, N2, N3, N2], [E12, E13, E32])
    else Trail([], {1, 2, 3}, [N1, N2, N3, N2], [E12, E13, E32])
  }

  /** What the walk reads of the diamond. */
  ghost predicate DiamondShaped(g: DGraph) {
    && Succs(g.neighbours, 1) == [2, 3] && Succs(g.neighbours, 3) == [2] && Succs(g.neighbours, 2) == []
    && NodeAt(g, 2) == N2 && NodeAt(g, 3) == N3
    && EdgesOf(g, 1) == [E12, E13] && EdgesOf(g, 3) == [E32] && EdgesOf(g, 2) == []
  }

  lemma DiamondIsShaped()
    ensures DiamondShaped(Diamond())
  {
  }

  /** Round 1 pops node 1 and stacks 2 and 3. */
  lemma DiamondPopOne(g: DGraph)
    requires DiamondShaped(g)
    ensures Expand(g, DiamondWalk(0)) == DiamondWalk(1)
  {
    var t := DiamondWalk(0);
    assert t.stack[..0] == [] && t.stack[0] == N1;
    assert Unvisited(Succs(g.neighbours, 1), {1}) == [2, 3] by {
      DiamondFresh();
    }
    assert NodesAt(g, [2, 3]) == [N2, N3];
    var r := Expand(g, t);
    assert r.stack == [N2, N3];
    assert r.met == {1};
    assert r.nodes == [N1, N2, N3];
    assert r.edges == [E12, E13];
  }

  lemma DiamondFresh()
    ensures Unvisited([2, 3], {1}) == [2, 3]
  {
    var s := [2, 3];
    assert s[1..] == [3] && [3][1..] == [];
    assert Unvisited([3], {1}) == [3] + Unvisited([], {1});
  }

  /** Round 2 pops node 3 and stacks 2 again: the first 2 is still stacked. */
  lemma DiamondPopThree(g: DGraph)
    requires DiamondShaped(g)
    ensures Expand(g, DiamondWalk(1)) == DiamondWalk(2)
  {
    assert Unvisited([2], {1, 3}) == [2];
    assert NodesAt(g, [2]) == [N2];
  }

  /** Rounds 3 and 4 pop the two copies of node 2. */
  lemma DiamondPopTwo(g: DGraph, k: nat)
    requires DiamondShaped(g) && 2 <= k < 4
    ensures Expand(g, DiamondWalk(k)) == DiamondWalk(k + 1)
  {
    assert NodesAt(g, []) == [];
  }

  lemma DiamondRound(g: DGraph, k: nat)
    requires DiamondShaped(g) && k < 4
    ensures |DiamondWalk(k).stack| > 0 && Expand(g, DiamondWalk(k)) == DiamondWalk(k + 1)
  {
    if k == 0 {
      DiamondPopOne(g);
    } else if k == 1 {
      DiamondPopThree(g);
    } else {
      DiamondPopTwo(g, k);
    }
  }

  lemma DiamondRounds(g: DGraph)
    requires DiamondShaped(g)
    ensures forall k :: 0 <= k < 4 ==>
              |DiamondWalk(k).stack| > 0 && Expand(g, DiamondWalk(k)) == DiamondWalk(k + 1)
  {
    forall k | 0 <= k < 4
      ensures |DiamondWalk(k).stack| > 0 && Expand(g, DiamondWalk(k)) == DiamondWalk(k + 1)
    {
      DiamondRound(g, k);
    }
  }

  /** A run of rounds that ends with an empty stack is what `Drain` computes. */
  lemma {:induction false} DrainChain(g: DGraph, root: int, ts: seq<Trail>)
    requires |ts| > 0 && Sound(g) && Trailing(g, root, ts[0])
    requires forall k :: 0 <= k < |ts| - 1 ==> |ts[k].stack| > 0 && Expand(g, ts[k]) == ts[k + 1]
    requires ts[|ts| - 1].stack == []
    ensures Drain(g, root, ts[0]) == ts[|ts| - 1]
    decreases |ts|
  {
    if |ts| > 1 {
      var tl := ts[1..];
      assert forall k :: 0 <= k < |tl| ==> tl[k] == ts[k + 1];
      DrainStep(g, root, ts[0]);
      assert Expand(g, ts[0]) == tl[0];
      DrainChain(g, root, tl);
    }
  }

  lemma DiamondDrain(g: DGraph)
    requires DiamondShaped(g) && Sound(g) && Trailing(g, 1, DiamondWalk(0))
    ensures Drain(g, 1, DiamondWalk(0)) == DiamondWalk(4)
  {
    DiamondRounds(g);
    var ts := seq(5, k requires 0 <= k < 5 => DiamondWalk(k));
    DrainChain(g, 1, ts);
  }

  /** The collected nodes list node 2 twice, and that is the first repeat. */
  lemma DiamondRejected(nodes: seq<Node>, edges: seq<DEdge>)
    requires |nodes| == 4 && nodes[0].id == 1 && nodes[1].id == 2 && nodes[2].id == 3 && nodes[3].id == 2
    requires UniquePairs(edges)
    ensures NewDGraph("", nodes, edges) == Err(DuplicateNodeId(2))
  {
    var r := NewDGraph("", nodes, edges);
    assert r.Err? && FirstRepeatedId(nodes, r.error);
    var j :| 0 <= j < |nodes| && UniqueIds(nodes[..j]) && nodes[j].id in Ids(nodes[..j])
             && r.error == DuplicateNodeId(nodes[j].id);
  }

  /** On the diamond, `Subgraph(1)` as written stacks node 2 twice (once from
      1, and again from 3 before the first copy is popped), so `NewDGraph`
      rejects the collected nodes although every node of the graph is
      reachable from 1. */
  lemma SubgraphDiamondFails()
    ensures Built(Diamond()) && EndsListed(Diamond())
    ensures ReachableFrom(Diamond().neighbours, 1) == {1, 2, 3}
    ensures Subgraph(Diamond(), 1) == Err(DuplicateNodeId(2))
  {
    DiamondBuilt();
    DiamondReach();
    DiamondCollects();
  }

  /** Every node of the diamond is reachable from 1. */
  lemma DiamondReach()
    ensures ReachableFrom(Diamond().neighbours, 1) == {1, 2, 3}
  {
    var nb := Diamond().neighbours;
    assert Vertices(nb) <= {1, 2, 3};
    assert 2 in Succs(nb, 1) && 3 in Succs(nb, 1);
    ReachStep(nb, 1, 2);
    ReachStep(nb, 1, 3);
    assert 2 in Vertices(nb) && 3 in Vertices(nb);
  }

  /** On the diamond, the walk from 1 collects the nodes 1, 2, 3, 2, which
      `NewDGraph` rejects. */
  lemma DiamondCollects()
    ensures Built(Diamond()) && EndsListed(Diamond())
    ensures Subgraph(Diamond(), 1) == Err(DuplicateNodeId(2))
  {
    var w := DiamondWalk(4);
    DiamondUniquePairs();
    DiamondRejected(w.nodes, w.edges);
    var g := Diamond();
    DiamondBuilt();
    BuiltSound(g);
    DiamondIsShaped();
    TrailStart(g, N1);
    DiamondDrain(g);
    assert FindById(g.nodes, 1) == Some(N1);
  }
}
