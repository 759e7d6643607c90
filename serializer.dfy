/**
 The plain-record form of a graph (`GraphJSON`) and the two directions of
 `GraphSerializer` (lib/graph/serializer.ts). `serialize` projects the stored
 nodes and edges, in key order, onto records; `deserialize` rebuilds a fresh
 graph by adding the records one by one.
 */
module Serializer {
  import opened KeyOrder
  import opened Core
  import opened Nodes

  /** One entry of `GraphJSON.nodes`: the node type is plain text here. */
  datatype NodeRecord = NodeRecord(id: string, kind: string, position: Position, data: Payload,
                                   color: Option<string>, notes: Option<string>)

  /** One entry of `GraphJSON.edges`. */
  datatype EdgeRecord = EdgeRecord(id: string, source: string, target: string)

  /** `GraphJSON`: the node records and the edge records, each in a list. */
  datatype GraphJson = GraphJson(nodes: seq<NodeRecord>, edges: seq<EdgeRecord>)

  /** The record `serialize` writes for node `n`: every field copied, the type written as its tag. */
  function NodeToRecord(n: Node): (r: NodeRecord)
    ensures r.id == n.id && (r.kind == "country" <==> n.kind == Country)
    ensures r.position == n.position && r.data == n.data && r.color == n.color && r.notes == n.notes
  {
    NodeRecord(n.id, TypeTag(n.kind), n.position, n.data, n.color, n.notes)
  }

  /**
   The node `deserialize` builds from record `r`: a `CountryNode` for the tag
   "country", a generic node keeping any other tag verbatim.
   */
  function NodeFromRecord(r: NodeRecord): (n: Node)
    ensures n.id == r.id && TypeTag(n.kind) == r.kind
    ensures n.kind == Country <==> r.kind == "country"
    ensures n.position == r.position && n.data == r.data && n.color == r.color && n.notes == r.notes
  {
    if r.kind == "country" then CountryNode(r.id, r.position, r.data, r.color, r.notes)
    else Node(r.id, Generic(r.kind), r.position, r.data, r.color, r.notes)
  }

  /** A node survives being written as a record and read back. */
  lemma NodeRoundTrip(n: Node)
    ensures NodeFromRecord(NodeToRecord(n)) == n
  {
    match n.kind
    case Country =>
    case Generic(tag) => assert tag != "country";
  }

  /** A record survives being read as a node and written back: no field is derived or dropped. */
  lemma NodeRecordRoundTrip(r: NodeRecord)
    ensures NodeToRecord(NodeFromRecord(r)) == r
  {
  }

  function EdgeToRecord(e: Edge): (r: EdgeRecord)
    ensures r.id == e.id && r.source == e.source && r.target == e.target
  {
    EdgeRecord(e.id, e.source, e.target)
  }

  /** `new Edge(e.id, e.source, e.target)`: endpoints are copied, not checked against the nodes. */
  function EdgeFromRecord(r: EdgeRecord): (e: Edge)
    ensures e.id == r.id && e.source == r.source && e.target == r.target
  {
    Edge(r.id, r.source, r.target)
  }

  /** Edges and edge records correspond one to one. */
  lemma EdgeRoundTrip(e: Edge, r: EdgeRecord)
    ensures EdgeFromRecord(EdgeToRecord(e)) == e
    ensures EdgeToRecord(EdgeFromRecord(r)) == r
  {
  }

  /** `[...nodes.values()].map(...)`: one record per key of `order`, in that order. */
  function NodeRecords(nodes: map<string, Node>, order: seq<string>): (rs: seq<NodeRecord>)
    requires forall k :: k in order ==> k in nodes
    ensures |rs| == |order|
    ensures forall i :: 0 <= i < |order| ==> NodeFromRecord(rs[i]) == nodes[order[i]]
  {
    seq(|order|, i requires 0 <= i < |order| =>
      NodeRoundTrip(nodes[order[i]]);
      NodeToRecord(nodes[order[i]]))
  }

  /** `[...edges.values()].map(...)`: one record per key of `order`, in that order. */
  function EdgeRecords(edges: map<string, Edge>, order: seq<string>): (rs: seq<EdgeRecord>)
    requires forall k :: k in order ==> k in edges
    ensures |rs| == |order|
    ensures forall i :: 0 <= i < |order| ==> EdgeFromRecord(rs[i]) == edges[order[i]]
  {
    seq(|order|, i requires 0 <= i < |order| => EdgeToRecord(edges[order[i]]))
  }

  /**
   `serialize(g)`: the stored nodes and edges as records, in the maps' key
   orders; reading `g` changes nothing.
   */
  function Serialize(g: Graph): (j: GraphJson)
    reads g
    requires g.Valid()
    ensures |j.nodes| == |g.nodeOrder| == |g.nodes| && |j.edges| == |g.edgeOrder| == |g.edges|
    ensures forall i :: 0 <= i < |j.nodes| ==> j.nodes[i].id == g.nodeOrder[i]
    ensures forall i :: 0 <= i < |j.edges| ==> j.edges[i].id == g.edgeOrder[i]
    ensures forall i :: 0 <= i < |j.nodes| ==> NodeFromRecord(j.nodes[i]) == g.nodes[g.nodeOrder[i]]
    ensures forall i :: 0 <= i < |j.edges| ==> EdgeFromRecord(j.edges[i]) == g.edges[g.edgeOrder[i]]
  {
    DistinctCount(g.nodeOrder, g.nodes.Keys);
    DistinctCount(g.edgeOrder, g.edges.Keys);
    GraphJson(NodeRecords(g.nodes, g.nodeOrder), EdgeRecords(g.edges, g.edgeOrder))
  }

  /** The ids of a list of node records, in order. */
  function NodeIds(rs: seq<NodeRecord>): (ids: seq<string>)
    ensures |ids| == |rs| && forall i :: 0 <= i < |rs| ==> ids[i] == rs[i].id
  {
    seq(|rs|, i requires 0 <= i < |rs| => rs[i].id)
  }

  /** The ids of a list of edge records, in order (the twin of `NodeIds` for the other record type). */
  function EdgeIds(rs: seq<EdgeRecord>): (ids: seq<string>)
    ensures |ids| == |rs| && forall i :: 0 <= i < |rs| ==> ids[i] == rs[i].id
  {
    seq(|rs|, i requires 0 <= i < |rs| => rs[i].id)
  }

  /** The node map left by `addNode` of each record's node, in turn, on an empty graph. */
  function NodeMap(rs: seq<NodeRecord>): (m: map<string, Node>)
    ensures NodesKeyed(m)
    ensures forall k :: k in m <==> k in NodeIds(rs)
  {
    if rs == [] then map[]
    else
      var r := rs[|rs| - 1];
      var init := rs[..|rs| - 1];
      assert forall k :: k in NodeIds(rs) <==> k in NodeIds(init) || k == r.id by {
        assert NodeIds(rs) == NodeIds(init) + [r.id];
      }
      NodeMap(init)[r.id := NodeFromRecord(r)]
  }

  /** The edge map left by `addEdge` of each record's edge, in turn, on an empty graph. */
  function EdgeMap(rs: seq<EdgeRecord>): (m: map<string, Edge>)
    ensures EdgesKeyed(m)
    ensures forall k :: k in m <==> k in EdgeIds(rs)
  {
    if rs == [] then map[]
    else
      var r := rs[|rs| - 1];
      var init := rs[..|rs| - 1];
      assert forall k :: k in EdgeIds(rs) <==> k in EdgeIds(init) || k == r.id by {
        assert EdgeIds(rs) == EdgeIds(init) + [r.id];
      }
      EdgeMap(init)[r.id := EdgeFromRecord(r)]
  }

  /** One more node record: one more `addNode` on the map. */
  lemma NodeStepMap(rs: seq<NodeRecord>, i: nat)
    requires i < |rs|
    ensures NodeMap(rs[..i + 1]) == NodeMap(rs[..i])[rs[i].id := NodeFromRecord(rs[i])]
  {
    var pre := rs[..i + 1];
    assert pre[..i] == rs[..i] && pre[i] == rs[i];
  }

  /** One more node record: one more `addNode` on the key order. */
  lemma NodeStepOrder(rs: seq<NodeRecord>, i: nat)
    requires i < |rs|
    ensures InsertionOrder(NodeIds(rs[..i + 1])) == Appended(InsertionOrder(NodeIds(rs[..i])), rs[i].id)
  {
    var ids := NodeIds(rs[..i + 1]);
    assert ids[..i] == NodeIds(rs[..i]) && ids[i] == rs[i].id;
  }

  /** One more edge record: one more `addEdge` on the map. */
  lemma EdgeStepMap(rs: seq<EdgeRecord>, i: nat)
    requires i < |rs|
    ensures EdgeMap(rs[..i + 1]) == EdgeMap(rs[..i])[rs[i].id := EdgeFromRecord(rs[i])]
  {
    var pre := rs[..i + 1];
    assert pre[..i] == rs[..i] && pre[i] == rs[i];
  }

  /** One more edge record: one more `addEdge` on the key order. */
  lemma EdgeStepOrder(rs: seq<EdgeRecord>, i: nat)
    requires i < |rs|
    ensures InsertionOrder(EdgeIds(rs[..i + 1])) == Appended(InsertionOrder(EdgeIds(rs[..i])), rs[i].id)
  {
    var ids := EdgeIds(rs[..i + 1]);
    assert ids[..i] == EdgeIds(rs[..i]) && ids[i] == rs[i].id;
  }

  /** When node records repeat an id, the last of them decides the node. */
  lemma {:induction false} NodeMapLastWins(rs: seq<NodeRecord>, i: nat)
    requires i < |rs| && forall j :: i < j < |rs| ==> rs[j].id != rs[i].id
    ensures rs[i].id in NodeMap(rs) && NodeMap(rs)[rs[i].id] == NodeFromRecord(rs[i])
  {
    if i < |rs| - 1 {
      var init := rs[..|rs| - 1];
      assert init[i] == rs[i];
      NodeMapLastWins(init, i);
    }
  }

  /** When edge records repeat an id, the last of them decides the edge, endpoints copied as given. */
  lemma {:induction false} EdgeMapLastWins(rs: seq<EdgeRecord>, i: nat)
    requires i < |rs| && forall j :: i < j < |rs| ==> rs[j].id != rs[i].id
    ensures rs[i].id in EdgeMap(rs) && EdgeMap(rs)[rs[i].id] == Edge(rs[i].id, rs[i].source, rs[i].target)
  {
    if i < |rs| - 1 {
      var init := rs[..|rs| - 1];
      assert init[i] == rs[i];
      EdgeMapLastWins(init, i);
    }
  }

  /** The part of `m` at the keys `ks` grows by one entry with the last key. */
  lemma KeysSnoc<V>(m: map<string, V>, ks: seq<string>)
    requires ks != [] && forall k :: k in ks ==> k in m
    ensures (map k | k in ks :: m[k]) == (map k | k in ks[..|ks| - 1] :: m[k])[ks[|ks| - 1] := m[ks[|ks| - 1]]]
  {
    assert forall k :: k in ks <==> k in ks[..|ks| - 1] || k == ks[|ks| - 1];
  }

  /** Reading back the records of the nodes listed in `ks` gives those nodes. */
  lemma {:induction false} NodeMapOfRecords(nodes: map<string, Node>, ks: seq<string>)
    requires NodesKeyed(nodes) && forall k :: k in ks ==> k in nodes
    ensures NodeMap(NodeRecords(nodes, ks)) == map k | k in ks :: nodes[k]
  {
    var rs := NodeRecords(nodes, ks);
    if ks != [] {
      var init := ks[..|ks| - 1];
      assert rs[..|rs| - 1] == NodeRecords(nodes, init);
      NodeMapOfRecords(nodes, init);
      KeysSnoc(nodes, ks);
    }
  }

  /** Reading back the records of the edges listed in `ks` gives those edges. */
  lemma {:induction false} EdgeMapOfRecords(edges: map<string, Edge>, ks: seq<string>)
    requires EdgesKeyed(edges) && forall k :: k in ks ==> k in edges
    ensures EdgeMap(EdgeRecords(edges, ks)) == map k | k in ks :: edges[k]
  {
    var rs := EdgeRecords(edges, ks);
    if ks != [] {
      var init := ks[..|ks| - 1];
      assert rs[..|rs| - 1] == EdgeRecords(edges, init);
      EdgeMapOfRecords(edges, init);
      KeysSnoc(edges, ks);
    }
  }

  /** A map rebuilt from all of its keys is the map itself. */
  lemma AllKeys<V>(m: map<string, V>, order: seq<string>)
    requires forall k :: k in order <==> k in m
    ensures (map k | k in order :: m[k]) == m
  {
  }

  /** The records of the nodes listed in `order` carry the ids of `order`. */
  lemma NodeRecordIds(nodes: map<string, Node>, order: seq<string>)
    requires NodesKeyed(nodes) && forall k :: k in order ==> k in nodes
    ensures NodeIds(NodeRecords(nodes, order)) == order
  {
    var ids := NodeIds(NodeRecords(nodes, order));
    assert forall i :: 0 <= i < |order| ==> ids[i] == order[i];
  }

  /** The records of the edges listed in `order` carry the ids of `order`. */
  lemma EdgeRecordIds(edges: map<string, Edge>, order: seq<string>)
    requires EdgesKeyed(edges) && forall k :: k in order ==> k in edges
    ensures EdgeIds(EdgeRecords(edges, order)) == order
  {
    var ids := EdgeIds(EdgeRecords(edges, order));
    assert forall i :: 0 <= i < |order| ==> ids[i] == order[i];
  }

  /**
   The node half of the round trip: for nodes stored under their own ids,
   rebuilding from the serialized records gives the same map in the same key order.
   */
  lemma NodesRoundTrip(nodes: map<string, Node>, order: seq<string>)
    requires NodesKeyed(nodes) && Lists(order, nodes.Keys)
    ensures NodeMap(NodeRecords(nodes, order)) == nodes
    ensures InsertionOrder(NodeIds(NodeRecords(nodes, order))) == order
  {
    NodeMapOfRecords(nodes, order);
    AllKeys(nodes, order);
    NodeRecordIds(nodes, order);
    InsertionOrderOfDistinct(order);
  }

  /**
   The edge half of the round trip: for edges stored under their own ids,
   rebuilding from the serialized records gives the same map in the same key order.
   */
  lemma EdgesRoundTrip(edges: map<string, Edge>, order: seq<string>)
    requires EdgesKeyed(edges) && Lists(order, edges.Keys)
    ensures EdgeMap(EdgeRecords(edges, order)) == edges
    ensures InsertionOrder(EdgeIds(EdgeRecords(edges, order))) == order
  {
    EdgeMapOfRecords(edges, order);
    AllKeys(edges, order);
    EdgeRecordIds(edges, order);
    InsertionOrderOfDistinct(order);
  }

  /**
   `deserialize(j)`: a fresh graph holding, for each id, the node or edge of the
   last record with that id; ids keep the order of their first appearance.
   */
  method Deserialize(j: GraphJson) returns (g: Graph)
    ensures fresh(g) && g.Valid()
    ensures g.nodes == NodeMap(j.nodes) && g.nodeOrder == InsertionOrder(NodeIds(j.nodes))
    ensures g.edges == EdgeMap(j.edges) && g.edgeOrder == InsertionOrder(EdgeIds(j.edges))
  {
    g := new Graph();
    for i := 0 to |j.nodes|
      invariant g.Valid()
      invariant g.nodes == NodeMap(j.nodes[..i]) && g.nodeOrder == InsertionOrder(NodeIds(j.nodes[..i]))
      invariant g.edges == map[] && g.edgeOrder == []
    {
      NodeStepMap(j.nodes, i);
      NodeStepOrder(j.nodes, i);
      var _ := g.AddNode(NodeFromRecord(j.nodes[i]));
    }
    assert j.nodes[..|j.nodes|] == j.nodes;
    for i := 0 to |j.edges|
      invariant g.Valid()
      invariant g.nodes == NodeMap(j.nodes) && g.nodeOrder == InsertionOrder(NodeIds(j.nodes))
      invariant g.edges == EdgeMap(j.edges[..i]) && g.edgeOrder == InsertionOrder(EdgeIds(j.edges[..i]))
    {
      EdgeStepMap(j.edges, i);
      EdgeStepOrder(j.edges, i);
      var _ := g.AddEdge(EdgeFromRecord(j.edges[i]));
    }
    assert j.edges[..|j.edges|] == j.edges;
  }

  /** `deserialize(serialize(g))`: a fresh graph equal to `g` in both maps and both key orders. */
  method Reload(g: Graph) returns (h: Graph)
    requires g.Valid()
    ensures fresh(h) && h.Valid()
    ensures h.nodes == g.nodes && h.nodeOrder == g.nodeOrder
    ensures h.edges == g.edges && h.edgeOrder == g.edgeOrder
  {
    var j := Serialize(g);
    NodesRoundTrip(g.nodes, g.nodeOrder);
    EdgesRoundTrip(g.edges, g.edgeOrder);
    h := Deserialize(j);
  }
}
