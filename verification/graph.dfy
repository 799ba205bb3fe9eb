/** The directed-graph model of graph/graph.go: nodes, edges, and the three
    indices `build` derives from them (id -> node, from-id -> sorted to-ids,
    from-id -> outgoing edges in input order). */
module Graph {
  import opened Results
  import opened Text

  /** `Label` is called `text` here (`label` is a Dafny keyword). */
  datatype Node = Node(id: int, text: string, tooltip: string)

  /** `FromId` depends on `ToId`. */
  datatype DEdge = DEdge(fromId: int, toId: int, text: string, tooltip: string)

  /** `DGraph` without its presentation fields (`DisplayId`, `RankSep`, ...). */
  datatype DGraph = DGraph(
    title: string,
    nodes: seq<Node>,
    edges: seq<DEdge>,
    nodeMap: map<int, Node>,
    neighbours: map<int, seq<int>>,
    nodeEdges: map<int, seq<DEdge>>)

  datatype GraphError =
    | DuplicateEdge(fromId: int, toId: int)
    | DuplicateNodeId(id: int)
    | RootNotFound(rootId: int)

  /** Go's zero `Node{}`: what indexing `nodeMap` with an unknown id yields. */
  const ZeroNode := Node(0, "", "")

  // ---------------------------------------------------------------------------
  // Vocabulary over node and edge sequences

  function Pair(e: DEdge): (int, int) {
    (e.fromId, e.toId)
  }

  function Pairs(edges: seq<DEdge>): set<(int, int)> {
    set k | 0 <= k < |edges| :: Pair(edges[k])
  }

  function FromIds(edges: seq<DEdge>): set<int> {
    set k | 0 <= k < |edges| :: edges[k].fromId
  }

  /** No `(FromId, ToId)` pair occurs twice. */
  predicate UniquePairs(edges: seq<DEdge>) {
    forall i, j :: 0 <= i < j < |edges| ==> Pair(edges[i]) != Pair(edges[j])
  }

  function Ids(nodes: seq<Node>): set<int> {
    set k | 0 <= k < |nodes| :: nodes[k].id
  }

  /** No node id occurs twice. */
  predicate UniqueIds(nodes: seq<Node>) {
    forall i, j :: 0 <= i < j < |nodes| ==> nodes[i].id != nodes[j].id
  }

  /** The ids 1..n, as handed out by a counter starting at zero. */
  function Upto(n: int): (r: set<int>)
    ensures forall x :: x in r <==> 1 <= x <= n
    decreases n
  {
    if n <= 0 then {} else Upto(n - 1) + {n}
  }

  /** Counting one further adds exactly the next id. */
  lemma UptoSucc(n: int)
    requires n >= 0
    ensures Upto(n + 1) == Upto(n) + {n + 1}
  {
  }

  /** The edges leaving `f`, in input order. */
  function Outgoing(edges: seq<DEdge>, f: int): (r: seq<DEdge>)
    ensures forall e :: e in r <==> e in edges && e.fromId == f
  {
    if |edges| == 0 then []
    else
      var last := edges[|edges| - 1];
      assert edges == edges[..|edges| - 1] + [last];
      Outgoing(edges[..|edges| - 1], f) + (if last.fromId == f then [last] else [])
  }

  // ---------------------------------------------------------------------------
  // Sorted insertion (`slices.BinarySearch` and the copy-shift at lines 52-59)

  predicate Sorted(s: seq<int>) {
    forall i, j :: 0 <= i <= j < |s| ==> s[i] <= s[j]
  }

  predicate Ascending(s: seq<int>) {
    forall i, j :: 0 <= i < j < |s| ==> s[i] < s[j]
  }

  /** The halving loop of `slices.BinarySearch` over the window `[lo, hi)`. */
  function SearchWindow(s: seq<int>, x: int, lo: nat, hi: nat): (i: nat)
    requires Sorted(s) && lo <= hi <= |s|
    requires forall k :: 0 <= k < lo ==> s[k] < x
    requires forall k :: hi <= k < |s| ==> x <= s[k]
    ensures lo <= i <= hi
    ensures forall k :: 0 <= k < i ==> s[k] < x
    ensures forall k :: i <= k < |s| ==> x <= s[k]
    decreases hi - lo
  {
    if lo >= hi then lo
    else
      var h := (lo + hi) / 2;
      if s[h] < x then SearchWindow(s, x, h + 1, hi) else SearchWindow(s, x, lo, h)
  }

  /** `slices.BinarySearch`: the insertion position of `x` and whether `x` is there. */
  function BinarySearch(s: seq<int>, x: int): (r: (nat, bool))
    requires Sorted(s)
    ensures r.0 <= |s|
    ensures forall k :: 0 <= k < r.0 ==> s[k] < x
    ensures forall k :: r.0 <= k < |s| ==> x <= s[k]
    ensures r.1 <==> x in s
  {
    var i := SearchWindow(s, x, 0, |s|);
    (i, i < |s| && s[i] == x)
  }

  lemma AscendingSorted(s: seq<int>)
    requires Ascending(s)
    ensures Sorted(s)
  {
  }

  /** Inserting a missing value at its search position keeps the list ascending. */
  lemma InsertAscending(s: seq<int>, x: int, i: nat)
    requires Ascending(s) && i <= |s|
    requires forall k :: 0 <= k < i ==> s[k] < x
    requires forall k :: i <= k < |s| ==> x < s[k]
    ensures Ascending(s[..i] + [x] + s[i..])
    ensures forall y :: y in s[..i] + [x] + s[i..] <==> y in s || y == x
  {
    var t := s[..i] + [x] + s[i..];
    forall a, b | 0 <= a < b < |t|
      ensures t[a] < t[b]
    {
      if b < i {
        assert t[a] == s[a] && t[b] == s[b];
      } else if b == i {
        assert t[a] == s[a];
      } else if a < i {
        assert t[a] == s[a] && t[b] == s[b - 1];
      } else if a == i {
        assert t[b] == s[b - 1];
      } else {
        assert t[a] == s[a - 1] && t[b] == s[b - 1];
      }
    }
    assert s == s[..i] + s[i..];
  }

  // ---------------------------------------------------------------------------
  // `build`: the edge indices

  datatype Index = Index(neighbours: map<int, seq<int>>, nodeEdges: map<int, seq<DEdge>>)

  /** The indices describe exactly `edges`: one key per source id, its sorted
      distinct targets, and its outgoing edges in input order. */
  ghost predicate Indexes(ix: Index, edges: seq<DEdge>) {
    TargetIndex(ix.neighbours, edges) && EdgeIndex(ix.nodeEdges, edges)
  }

  /** `neighbours`: one key per source id, holding its distinct targets in
      ascending order. */
  ghost predicate TargetIndex(nb: map<int, seq<int>>, edges: seq<DEdge>) {
    && nb.Keys == FromIds(edges)
    && (forall f :: f in nb ==> Ascending(nb[f]))
    && (forall f, t :: f in nb ==> (t in nb[f] <==> (f, t) in Pairs(edges)))
  }

  /** `nodeEdges`: one key per source id, holding its outgoing edges in input order. */
  ghost predicate EdgeIndex(ne: map<int, seq<DEdge>>, edges: seq<DEdge>) {
    && ne.Keys == FromIds(edges)
    && (forall f :: f in ne ==> ne[f] == Outgoing(edges, f))
  }

  function AppendEdge(m: map<int, seq<DEdge>>, e: DEdge): map<int, seq<DEdge>> {
    if e.fromId in m then m[e.fromId := m[e.fromId] + [e]] else m[e.fromId := [e]]
  }

  /** One iteration of the edge loop of `build` (graph.go:49-68). */
  function IndexEdge(ix: Index, e: DEdge): Result<Index, GraphError>
    requires forall f :: f in ix.neighbours ==> Ascending(ix.neighbours[f])
  {
    if e.fromId in ix.neighbours then
      var tids := ix.neighbours[e.fromId];
      AscendingSorted(tids);
      var (i, found) := BinarySearch(tids, e.toId);
      if found then Err(DuplicateEdge(e.fromId, e.toId))
      else Ok(Index(ix.neighbours[e.fromId := tids[..i] + [e.toId] + tids[i..]], AppendEdge(ix.nodeEdges, e)))
    else
      Ok(Index(ix.neighbours[e.fromId := [e.toId]], AppendEdge(ix.nodeEdges, e)))
  }

  lemma EdgesSnoc(prefix: seq<DEdge>, e: DEdge)
    ensures FromIds(prefix + [e]) == FromIds(prefix) + {e.fromId}
    ensures Pairs(prefix + [e]) == Pairs(prefix) + {Pair(e)}
  {
    var edges := prefix + [e];
    assert forall k :: 0 <= k < |prefix| ==> edges[k] == prefix[k];
    assert edges[|prefix|] == e;
    forall x | x in FromIds(prefix)
      ensures x in FromIds(edges)
    {
      var k :| 0 <= k < |prefix| && prefix[k].fromId == x;
      assert edges[k].fromId == x;
    }
    forall x | x in Pairs(prefix)
      ensures x in Pairs(edges)
    {
      var k :| 0 <= k < |prefix| && Pair(prefix[k]) == x;
      assert Pair(edges[k]) == x;
    }
  }

  lemma OutgoingSnoc(prefix: seq<DEdge>, e: DEdge, f: int)
    ensures Outgoing(prefix + [e], f) == Outgoing(prefix, f) + (if e.fromId == f then [e] else [])
  {
    var edges := prefix + [e];
    assert edges[..|edges| - 1] == prefix;
  }

  /** Indexing one more edge fails exactly on a repeated pair and otherwise
      extends the description by that edge. */
  lemma IndexEdgeStep(ix: Index, prefix: seq<DEdge>, e: DEdge)
    requires Indexes(ix, prefix)
    ensures IndexEdge(ix, e).Ok? <==> Pair(e) !in Pairs(prefix)
    ensures IndexEdge(ix, e).Err? ==> IndexEdge(ix, e).error == DuplicateEdge(e.fromId, e.toId)
    ensures IndexEdge(ix, e).Ok? ==> Indexes(IndexEdge(ix, e).value, prefix + [e])
  {
    var f0 := e.fromId;
    if f0 in ix.neighbours {
      var tids := ix.neighbours[f0];
      AscendingSorted(tids);
      var (i, found) := BinarySearch(tids, e.toId);
      if !found {
        InsertAscending(tids, e.toId, i);
        TargetStep(ix.neighbours, prefix, e, tids[..i] + [e.toId] + tids[i..]);
        EdgeStep(ix.nodeEdges, prefix, e);
      }
    } else {
      PairSource(prefix);
      TargetStep(ix.neighbours, prefix, e, [e.toId]);
      EdgeStep(ix.nodeEdges, prefix, e);
    }
  }

  /** Setting the target list of the new edge's source to its old targets plus
      the new one keeps `neighbours` describing the edges. */
  lemma TargetStep(nb: map<int, seq<int>>, prefix: seq<DEdge>, e: DEdge, list: seq<int>)
    requires TargetIndex(nb, prefix)
    requires Ascending(list)
    requires forall t :: t in list <==> (e.fromId, t) in Pairs(prefix) || t == e.toId
    ensures TargetIndex(nb[e.fromId := list], prefix + [e])
  {
    EdgesSnoc(prefix, e);
    var nb' := nb[e.fromId := list];
    forall f | f in nb'
      ensures Ascending(nb'[f])
    {
      if f != e.fromId {
        assert nb'[f] == nb[f];
      }
    }
    forall f, t | f in nb'
      ensures t in nb'[f] <==> (f, t) in Pairs(prefix + [e])
    {
      if f != e.fromId {
        assert nb'[f] == nb[f];
      }
    }
  }

  /** Appending to the outgoing-edge index tracks `Outgoing` for one more edge. */
  lemma EdgeStep(ne: map<int, seq<DEdge>>, prefix: seq<DEdge>, e: DEdge)
    requires EdgeIndex(ne, prefix)
    ensures EdgeIndex(AppendEdge(ne, e), prefix + [e])
  {
    EdgesSnoc(prefix, e);
    var ne' := AppendEdge(ne, e);
    forall f | f in ne'
      ensures ne'[f] == Outgoing(prefix + [e], f)
    {
      EdgeStepAt(ne, prefix, e, f);
    }
  }

  lemma EdgeStepAt(ne: map<int, seq<DEdge>>, prefix: seq<DEdge>, e: DEdge, f: int)
    requires EdgeIndex(ne, prefix)
    requires f in AppendEdge(ne, e)
    ensures AppendEdge(ne, e)[f] == Outgoing(prefix + [e], f)
  {
    OutgoingSnoc(prefix, e, f);
    if f == e.fromId && f !in ne {
      OutgoingAbsent(prefix, f);
    }
  }

  /** Every pair starts at a source id. */
  lemma PairSource(edges: seq<DEdge>)
    ensures forall f, t :: (f, t) in Pairs(edges) ==> f in FromIds(edges)
  {
    forall f, t | (f, t) in Pairs(edges)
      ensures f in FromIds(edges)
    {
      var d :| d in edges && Pair(d) == (f, t);
    }
  }

  lemma {:induction false} OutgoingAbsent(edges: seq<DEdge>, f: int)
    requires f !in FromIds(edges)
    ensures Outgoing(edges, f) == []
    decreases |edges|
  {
    if |edges| > 0 {
      var prefix := edges[..|edges| - 1];
      assert edges == prefix + [edges[|edges| - 1]];
      assert FromIds(prefix) <= FromIds(edges);
      OutgoingAbsent(prefix, f);
    }
  }

  /** A repeated pair at the end of `prefix + [e]` breaks uniqueness exactly
      when it repeats one of `prefix`. */
  lemma UniquePairsSnoc(prefix: seq<DEdge>, e: DEdge)
    ensures UniquePairs(prefix + [e]) <==> UniquePairs(prefix) && Pair(e) !in Pairs(prefix)
  {
    var edges := prefix + [e];
    assert forall i :: 0 <= i < |prefix| ==> edges[i] == prefix[i];
    if Pair(e) in Pairs(prefix) {
      var d :| d in prefix && Pair(d) == Pair(e);
      var i :| 0 <= i < |prefix| && prefix[i] == d;
      assert Pair(edges[i]) == Pair(edges[|prefix|]);
    }
    if UniquePairs(prefix) && Pair(e) !in Pairs(prefix) {
      forall i, j | 0 <= i < j < |edges|
        ensures Pair(edges[i]) != Pair(edges[j])
      {
        if j == |prefix| {
          assert edges[i] in prefix;
        }
      }
    }
  }

  /** The first edge whose pair already occurred is reported. */
  ghost predicate FirstRepeatedEdge(edges: seq<DEdge>, err: GraphError) {
    exists j :: 0 <= j < |edges| && UniquePairs(edges[..j]) && Pair(edges[j]) in Pairs(edges[..j])
                && err == DuplicateEdge(edges[j].fromId, edges[j].toId)
  }

  lemma FirstRepeatedEdgeSnoc(prefix: seq<DEdge>, e: DEdge, err: GraphError)
    requires FirstRepeatedEdge(prefix, err)
    ensures FirstRepeatedEdge(prefix + [e], err)
  {
    var j :| 0 <= j < |prefix| && UniquePairs(prefix[..j]) && Pair(prefix[j]) in Pairs(prefix[..j])
             && err == DuplicateEdge(prefix[j].fromId, prefix[j].toId);
    assert (prefix + [e])[..j] == prefix[..j];
    assert (prefix + [e])[j] == prefix[j];
  }

  /** The edge loop of `build`: fails on the first repeated `(FromId, ToId)`
      pair, otherwise yields indices describing exactly `edges`. */
  function BuildIndex(edges: seq<DEdge>): (r: Result<Index, GraphError>)
    ensures r.Ok? <==> UniquePairs(edges)
    ensures r.Ok? ==> Indexes(r.value, edges)
    ensures r.Err? ==> FirstRepeatedEdge(edges, r.error)
    decreases |edges|
  {
    if |edges| == 0 then Ok(Index(map[], map[]))
    else
      var prefix := edges[..|edges| - 1];
      var last := edges[|edges| - 1];
      assert edges == prefix + [last];
      match BuildIndex(prefix)
      case Err(e) =>
        UniquePairsSnoc(prefix, last);
        FirstRepeatedEdgeSnoc(prefix, last, e);
        Err(e)
      case Ok(ix) =>
        IndexEdgeStep(ix, prefix, last);
        UniquePairsSnoc(prefix, last);
        assert edges[..|prefix|] == prefix;
        IndexEdge(ix, last)
  }

  // ---------------------------------------------------------------------------
  // `build`: the node index

  /** `m` maps every node's id to that node and has no other keys. */
  predicate NodeIndex(m: map<int, Node>, nodes: seq<Node>) {
    && m.Keys == Ids(nodes)
    && forall n :: n in nodes ==> n.id in m && m[n.id] == n
  }

  ghost predicate FirstRepeatedId(nodes: seq<Node>, err: GraphError) {
    exists j :: 0 <= j < |nodes| && UniqueIds(nodes[..j]) && nodes[j].id in Ids(nodes[..j])
                && err == DuplicateNodeId(nodes[j].id)
  }

  /** The node loop of `build` (graph.go:70-77). */
  function IndexNodes(nodes: seq<Node>): (r: Result<map<int, Node>, GraphError>)
    ensures r.Ok? <==> UniqueIds(nodes)
    ensures r.Ok? ==> NodeIndex(r.value, nodes)
    ensures r.Err? ==> FirstRepeatedId(nodes, r.error)
    decreases |nodes|
  {
    if |nodes| == 0 then Ok(map[])
    else
      var prefix := nodes[..|nodes| - 1];
      var last := nodes[|nodes| - 1];
      SnocIds(nodes);
      match IndexNodes(prefix)
      case Err(e) =>
        SnocFirstRepeat(nodes, e);
        Err(e)
      case Ok(m) =>
        if last.id in m then
          SnocRepeatLast(nodes);
          Err(DuplicateNodeId(last.id))
        else
          SnocIndex(m, nodes);
          Ok(m[last.id := last])
  }

  /** The ids of a list are those of all but its last node, plus the last
      node's, and the list repeats no id exactly when its front does not and
      the last id is new. */
  lemma SnocIds(nodes: seq<Node>)
    requires |nodes| > 0
    ensures var prefix, last := nodes[..|nodes| - 1], nodes[|nodes| - 1];
            && Ids(nodes) == Ids(prefix) + {last.id}
            && (UniqueIds(nodes) <==> UniqueIds(prefix) && last.id !in Ids(prefix))
  {
    var prefix, last := nodes[..|nodes| - 1], nodes[|nodes| - 1];
    assert nodes == prefix + [last];
    assert Ids(nodes) == Ids(prefix) + {last.id};
    if last.id in Ids(prefix) {
      var i :| 0 <= i < |prefix| && prefix[i].id == last.id;
      assert nodes[i].id == nodes[|nodes| - 1].id;
    }
  }

  /** The first repeat in the front of a list is the first repeat in it. */
  lemma SnocFirstRepeat(nodes: seq<Node>, e: GraphError)
    requires |nodes| > 0 && FirstRepeatedId(nodes[..|nodes| - 1], e)
    ensures FirstRepeatedId(nodes, e)
  {
    var prefix := nodes[..|nodes| - 1];
    var j :| 0 <= j < |prefix| && UniqueIds(prefix[..j]) && prefix[j].id in Ids(prefix[..j])
             && e == DuplicateNodeId(prefix[j].id);
    assert prefix[..j] == nodes[..j];
  }

  /** A last id already in a front without repeats is the first repeat. */
  lemma SnocRepeatLast(nodes: seq<Node>)
    requires |nodes| > 0
    requires UniqueIds(nodes[..|nodes| - 1]) && nodes[|nodes| - 1].id in Ids(nodes[..|nodes| - 1])
    ensures FirstRepeatedId(nodes, DuplicateNodeId(nodes[|nodes| - 1].id))
  {
  }

  /** Storing a new last node extends the index of the front to the list. */
  lemma SnocIndex(m: map<int, Node>, nodes: seq<Node>)
    requires |nodes| > 0 && NodeIndex(m, nodes[..|nodes| - 1]) && nodes[|nodes| - 1].id !in m
    ensures NodeIndex(m[nodes[|nodes| - 1].id := nodes[|nodes| - 1]], nodes)
  {
    var prefix, last := nodes[..|nodes| - 1], nodes[|nodes| - 1];
    SnocIds(nodes);
    assert nodes == prefix + [last];
    forall n | n in nodes
      ensures n == last || n in prefix
    {
    }
  }

  // ---------------------------------------------------------------------------
  // Joining node and edge lists

  /** The ids of a concatenation are the ids of its parts. */
  lemma IdsConcat(a: seq<Node>, b: seq<Node>)
    ensures Ids(a + b) == Ids(a) + Ids(b)
  {
    var s := a + b;
    forall x | x in Ids(s)
      ensures x in Ids(a) + Ids(b)
    {
      var k :| 0 <= k < |s| && s[k].id == x;
      if k < |a| {
        assert a[k] == s[k];
      } else {
        assert b[k - |a|] == s[k];
      }
    }
    forall x | x in Ids(a)
      ensures x in Ids(s)
    {
      var k :| 0 <= k < |a| && a[k].id == x;
      assert s[k] == a[k];
    }
    forall x | x in Ids(b)
      ensures x in Ids(s)
    {
      var k :| 0 <= k < |b| && b[k].id == x;
      assert s[|a| + k] == b[k];
    }
  }

  /** Node lists with distinct ids and no id in common join without repeats. */
  lemma UniqueIdsConcat(a: seq<Node>, b: seq<Node>)
    requires UniqueIds(a) && UniqueIds(b)
    requires forall x :: x in Ids(a) ==> x !in Ids(b)
    ensures UniqueIds(a + b)
  {
    var s := a + b;
    forall i, j | 0 <= i < j < |s|
      ensures s[i].id != s[j].id
    {
      if j < |a| {
        assert s[i] == a[i] && s[j] == a[j];
      } else if i >= |a| {
        assert s[i] == b[i - |a|] && s[j] == b[j - |a|];
      } else {
        assert s[i] == a[i] && s[j] == b[j - |a|];
        assert s[i].id in Ids(a) && s[j].id in Ids(b);
      }
    }
  }

  /** The pairs of a concatenation are the pairs of its parts. */
  lemma PairsConcat(a: seq<DEdge>, b: seq<DEdge>)
    ensures Pairs(a + b) == Pairs(a) + Pairs(b)
  {
    var s := a + b;
    forall x | x in Pairs(s)
      ensures x in Pairs(a) + Pairs(b)
    {
      var k :| 0 <= k < |s| && Pair(s[k]) == x;
      if k < |a| {
        assert a[k] == s[k];
      } else {
        assert b[k - |a|] == s[k];
      }
    }
    forall x | x in Pairs(a)
      ensures x in Pairs(s)
    {
      var k :| 0 <= k < |a| && Pair(a[k]) == x;
      assert s[k] == a[k];
    }
    forall x | x in Pairs(b)
      ensures x in Pairs(s)
    {
      var k :| 0 <= k < |b| && Pair(b[k]) == x;
      assert s[|a| + k] == b[k];
    }
  }

  /** Edge lists leaving disjoint sets of ids can be joined without repeats. */
  lemma UniquePairsConcat(a: seq<DEdge>, b: seq<DEdge>, f: int)
    requires UniquePairs(a) && UniquePairs(b)
    requires forall e :: e in a ==> e.fromId != f
    requires forall e :: e in b ==> e.fromId == f
    ensures UniquePairs(a + b)
  {
    var s := a + b;
    forall i, j | 0 <= i < j < |s|
      ensures Pair(s[i]) != Pair(s[j])
    {
      if j < |a| {
        assert s[i] == a[i] && s[j] == a[j];
      } else if i >= |a| {
        assert s[i] == b[i - |a|] && s[j] == b[j - |a|];
      } else {
        assert s[i] == a[i] && s[j] == b[j - |a|];
        assert a[i] in a && b[j - |a|] in b;
      }
    }
  }

  // ---------------------------------------------------------------------------
  // `NewDGraph`

  /** What a successful `NewDGraph` guarantees of its result. */
  ghost predicate Built(g: DGraph) {
    && UniquePairs(g.edges)
    && UniqueIds(g.nodes)
    && Indexes(Index(g.neighbours, g.nodeEdges), g.edges)
    && NodeIndex(g.nodeMap, g.nodes)
  }

  /** `NewDGraph`: runs `build`; the edge check comes first, endpoint existence
      is never checked. */
  function NewDGraph(title: string, nodes: seq<Node>, edges: seq<DEdge>): (r: Result<DGraph, GraphError>)
    ensures r.Ok? <==> UniquePairs(edges) && UniqueIds(nodes)
    ensures !UniquePairs(edges) ==> r.Err? && FirstRepeatedEdge(edges, r.error)
    ensures UniquePairs(edges) && !UniqueIds(nodes) ==> r.Err? && FirstRepeatedId(nodes, r.error)
    ensures r.Ok? ==> Built(r.value) && r.value.title == title && r.value.nodes == nodes && r.value.edges == edges
  {
    match BuildIndex(edges)
    case Err(e) => Err(e)
    case Ok(ix) =>
      match IndexNodes(nodes)
      case Err(e) => Err(e)
      case Ok(m) => Ok(DGraph(title, nodes, edges, m, ix.neighbours, ix.nodeEdges))
  }

  // ---------------------------------------------------------------------------
  // Lookups

  /** `node(id)`: the stored node and `true`, or `Node{}` and `false`. */
  function LookupNode(g: DGraph, id: int): (r: (Node, bool))
    ensures r.1 <==> id in g.nodeMap
  {
    if id in g.nodeMap then (g.nodeMap[id], true) else (ZeroNode, false)
  }

  /** `d.nodeMap[id]` in Go: the stored node, or the zero node. */
  function NodeAt(g: DGraph, id: int): Node {
    LookupNode(g, id).0
  }

  /** On a built graph `node(id)` finds exactly the node listed with that id. */
  lemma LookupBuilt(g: DGraph, n: Node, id: int)
    requires Built(g)
    ensures LookupNode(g, id) == (n, true) <==> n in g.nodes && n.id == id
  {
    if LookupNode(g, id) == (n, true) {
      assert id in Ids(g.nodes);
      var m :| m in g.nodes && m.id == id;
      assert g.nodeMap[m.id] == m;
    }
  }

  /** The first listed node with id `id` (the root search of `Subgraph`). */
  function FindById(nodes: seq<Node>, id: int): (r: Option<Node>)
    ensures r.Some? <==> id in Ids(nodes)
    ensures r.Some? ==> r.value.id == id && r.value in nodes
    ensures r.Some? ==> exists i :: 0 <= i < |nodes| && nodes[i] == r.value && id !in Ids(nodes[..i])
  {
    if |nodes| == 0 then None
    else if nodes[0].id == id then
      assert nodes[..0] == [];
      Some(nodes[0])
    else
      var r := FindById(nodes[1..], id);
      IdsCons(nodes[0], nodes[1..]);
      assert nodes == [nodes[0]] + nodes[1..];
      if r.Some? then
        FirstAfter(nodes, id, r.value);
        r
      else r
  }

  lemma IdsCons(n: Node, rest: seq<Node>)
    ensures Ids([n] + rest) == {n.id} + Ids(rest)
  {
    var s := [n] + rest;
    forall x | x in Ids(s)
      ensures x in {n.id} + Ids(rest)
    {
      var k :| 0 <= k < |s| && s[k].id == x;
      if k > 0 {
        assert rest[k - 1] == s[k];
      }
    }
    forall x | x in Ids(rest)
      ensures x in Ids(s)
    {
      var k :| 0 <= k < |rest| && rest[k].id == x;
      assert s[k + 1] == rest[k];
    }
    assert s[0] == n;
  }

  /** The first occurrence in the tail, shifted past a head with another id. */
  lemma FirstAfter(nodes: seq<Node>, id: int, v: Node)
    requires |nodes| > 0 && nodes[0].id != id
    requires exists i :: 0 <= i < |nodes| - 1 && nodes[1..][i] == v && id !in Ids(nodes[1..][..i])
    ensures exists i :: 0 <= i < |nodes| && nodes[i] == v && id !in Ids(nodes[..i])
  {
    var i :| 0 <= i < |nodes| - 1 && nodes[1..][i] == v && id !in Ids(nodes[1..][..i]);
    assert nodes[..i + 1] == [nodes[0]] + nodes[1..][..i];
    IdsCons(nodes[0], nodes[1..][..i]);
    assert nodes[i + 1] == v;
  }

  // ---------------------------------------------------------------------------
  // `FindNodeLike`

  /** The nodes whose label contains `q`, in their listed order. */
  function Matching(nodes: seq<Node>, q: string): (r: seq<Node>)
    ensures forall n :: n in r <==> n in nodes && Contains(n.text, q)
    ensures |r| <= |nodes|
  {
    if |nodes| == 0 then []
    else (if Contains(nodes[0].text, q) then [nodes[0]] else []) + Matching(nodes[1..], q)
  }

  /** `FindNodeLike`: the stored nodes whose label contains `query`. */
  function FindNodeLike(g: DGraph, query: string): (r: seq<Node>)
    ensures forall n :: n in r <==> n in g.nodes && Contains(n.text, query)
  {
    Matching(g.nodes, query)
  }

  /** The scan keeps the listed order: it distributes over concatenation. */
  lemma {:induction false} MatchingConcat(a: seq<Node>, b: seq<Node>, q: string)
    ensures Matching(a + b, q) == Matching(a, q) + Matching(b, q)
    decreases |a|
  {
    if |a| > 0 {
      assert (a + b)[1..] == a[1..] + b;
      MatchingConcat(a[1..], b, q);
    } else {
      assert a + b == b;
    }
  }

  /** Every label contains the empty string, so it finds every node. */
  lemma {:induction false} FindNodeLikeEmpty(g: DGraph)
    ensures FindNodeLike(g, "") == g.nodes
  {
    MatchingAll(g.nodes);
  }

  lemma {:induction false} MatchingAll(nodes: seq<Node>)
    ensures Matching(nodes, "") == nodes
    decreases |nodes|
  {
    if |nodes| > 0 {
      assert HasPrefix(nodes[0].text[0..], "");
      MatchingAll(nodes[1..]);
      assert nodes == [nodes[0]] + nodes[1..];
    }
  }
}
