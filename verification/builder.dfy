/** `KNodeBuilder` of graph/builder.go: nodes registered under string keys,
    each new key receiving the next id 1, 2, 3, ... and a key added again
    keeping the node it already has. */
module Builders {
  import opened Graph

  datatype KNodeBuilder = KNodeBuilder(idCnt: int, keyedNodes: map<string, Node>)

  /** A builder with no keys and the counter at zero. */
  const EmptyBuilder := KNodeBuilder(0, map[])

  /** The ids of the stored nodes. */
  function StoredIds(b: KNodeBuilder): set<int> {
    set k | k in b.keyedNodes :: b.keyedNodes[k].id
  }

  /** Different keys hold nodes with different ids. */
  predicate DistinctIds(m: map<string, Node>) {
    forall k1, k2 :: k1 in m && k2 in m && k1 != k2 ==> m[k1].id != m[k2].id
  }

  /** What every builder reached from `EmptyBuilder` by `Add` satisfies: the
      counter is the number of keys, and the stored ids are exactly 1..idCnt,
      none repeated. */
  ghost predicate Valid(b: KNodeBuilder) {
    && b.idCnt == |b.keyedNodes|
    && StoredIds(b) == Upto(b.idCnt)
    && DistinctIds(b.keyedNodes)
  }

  /** `Find(k)`: the node stored under `k` and `true`, or `Node{}` and `false`. */
  function Find(b: KNodeBuilder, k: string): (r: (Node, bool))
    ensures r.1 <==> k in b.keyedNodes
    ensures r.1 ==> r.0 == b.keyedNodes[k]
    ensures !r.1 ==> r.0 == ZeroNode
    ensures Valid(b) && r.1 ==> 1 <= r.0.id <= b.idCnt
  {
    if k in b.keyedNodes then
      assert b.keyedNodes[k].id in StoredIds(b);
      (b.keyedNodes[k], true)
    else (ZeroNode, false)
  }

  /** `Add(k, node)`: a known key returns its stored node and changes nothing;
      a new key gets `node` with its id replaced by the next counter value. */
  function Add(b: KNodeBuilder, k: string, node: Node): (r: (KNodeBuilder, Node))
    ensures Find(r.0, k) == (r.1, true)
    ensures forall j :: j != k ==> Find(r.0, j) == Find(b, j)
    ensures Find(b, k).1 ==> r == (b, Find(b, k).0)
    ensures !Find(b, k).1 ==> r.0.idCnt == b.idCnt + 1 && r.1 == node.(id := b.idCnt + 1)
  {
    if k in b.keyedNodes then (b, b.keyedNodes[k])
    else
      var m := node.(id := b.idCnt + 1);
      (KNodeBuilder(b.idCnt + 1, b.keyedNodes[k := m]), m)
  }

  lemma EmptyValid()
    ensures Valid(EmptyBuilder)
  {
    assert Upto(0) == {};
  }

  /** Storing a node under a new key adds exactly its id to the stored ids. */
  lemma StoredIdsInsert(b: KNodeBuilder, c: int, k: string, m: Node)
    requires k !in b.keyedNodes
    ensures StoredIds(KNodeBuilder(c, b.keyedNodes[k := m])) == StoredIds(b) + {m.id}
  {
    var r := KNodeBuilder(c, b.keyedNodes[k := m]);
    forall x | x in StoredIds(r)
      ensures x in StoredIds(b) + {m.id}
    {
      var j :| j in r.keyedNodes && r.keyedNodes[j].id == x;
      if j != k {
        assert b.keyedNodes[j].id == x;
      }
    }
    forall x | x in StoredIds(b)
      ensures x in StoredIds(r)
    {
      var j :| j in b.keyedNodes && b.keyedNodes[j].id == x;
      assert r.keyedNodes[j].id == x;
    }
    assert r.keyedNodes[k].id == m.id;
  }

  /** A node whose id is stored under no key keeps the ids distinct. */
  lemma DistinctInsert(m: map<string, Node>, k: string, x: Node)
    requires DistinctIds(m) && k !in m
    requires forall j :: j in m ==> m[j].id != x.id
    ensures DistinctIds(m[k := x])
  {
  }

  /** Storing a node under a new key with the next id keeps a builder valid:
      the new id is one past every stored id. */
  lemma InsertValid(b: KNodeBuilder, k: string, m: Node)
    requires Valid(b) && k !in b.keyedNodes && m.id == b.idCnt + 1
    ensures Valid(KNodeBuilder(b.idCnt + 1, b.keyedNodes[k := m]))
  {
    var r := KNodeBuilder(b.idCnt + 1, b.keyedNodes[k := m]);
    assert StoredIds(r) == Upto(r.idCnt) by {
      StoredIdsInsert(b, b.idCnt + 1, k, m);
      UptoSucc(b.idCnt);
    }
    assert DistinctIds(r.keyedNodes) by {
      forall j | j in b.keyedNodes
        ensures b.keyedNodes[j].id != m.id
      {
        assert b.keyedNodes[j].id in StoredIds(b);
      }
      DistinctInsert(b.keyedNodes, k, m);
    }
    assert r.keyedNodes.Keys == b.keyedNodes.Keys + {k};
  }

  /** `Add` keeps a builder valid. */
  lemma AddValid(b: KNodeBuilder, k: string, node: Node)
    requires Valid(b)
    ensures Valid(Add(b, k, node).0)
  {
    if k !in b.keyedNodes {
      InsertValid(b, k, node.(id := b.idCnt + 1));
    }
  }

  /** Adding a key a second time, with any node, returns what the first `Add`
      returned and leaves the builder as the first `Add` left it. */
  lemma AddTwice(b: KNodeBuilder, k: string, n1: Node, n2: Node)
    ensures var (b1, m1) := Add(b, k, n1);
            Add(b1, k, n2) == (b1, m1)
  {
  }

  /** `Nodes()`: every stored node once, in Go's unspecified map order, which
      the ghost `keys` records. */
  method Nodes(b: KNodeBuilder) returns (nodes: seq<Node>, ghost keys: seq<string>)
    ensures |nodes| == |keys| == |b.keyedNodes|
    ensures forall x :: x in nodes <==> x in b.keyedNodes.Values
    ensures forall i :: 0 <= i < |keys| ==> keys[i] in b.keyedNodes && nodes[i] == b.keyedNodes[keys[i]]
    ensures forall k :: k in b.keyedNodes <==> k in keys
    ensures forall i, j :: 0 <= i < j < |keys| ==> keys[i] != keys[j]
    ensures Valid(b) ==> UniqueIds(nodes)
  {
    nodes, keys := [], [];
    var rest := b.keyedNodes.Keys;
    while rest != {}
      invariant rest <= b.keyedNodes.Keys
      invariant |nodes| == |keys|
      invariant forall i :: 0 <= i < |keys| ==> keys[i] in b.keyedNodes && nodes[i] == b.keyedNodes[keys[i]]
      invariant forall k :: k in keys <==> k in b.keyedNodes.Keys - rest
      invariant forall i, j :: 0 <= i < j < |keys| ==> keys[i] != keys[j]
      invariant |keys| + |rest| == |b.keyedNodes|
      decreases |rest|
    {
      var k :| k in rest;
      assert forall i :: 0 <= i < |keys| ==> keys[i] != k by {
        assert k !in keys;
      }
      nodes, keys := nodes + [b.keyedNodes[k]], keys + [k];
      rest := rest - {k};
    }
    forall x | x in b.keyedNodes.Values
      ensures x in nodes
    {
      var k :| k in b.keyedNodes && b.keyedNodes[k] == x;
      assert k in keys;
      var i :| 0 <= i < |keys| && keys[i] == k;
      assert nodes[i] == x;
    }
  }
}
