/**
 The graph container of the route planner: node and edge records and the
 `Graph` object that owns them (lib/graph/core.ts).
 */
module Core {
  import opened KeyOrder

  datatype Option<+T> = None | Some(value: T)

  /** A layout coordinate. The engine only stores and copies it. */
  datatype Position = Position(x: real, y: real)

  /** The payload of a country node (`CountryData` of lib/graph/nodes.ts). */
  datatype CountryData = CountryData(code: string, name: string, flag: string, region: Option<string>)

  /**
   A node's `data`. Country nodes carry a `CountryData`; the engine never looks
   inside any other payload, which stands here as its JSON text.
   */
  datatype Payload = CountryInfo(country: CountryData) | OtherData(json: string)

  /** Any type tag other than the country tag ("place", "hotel", "airport", or one not known yet). */
  type NonCountryTag = s: string | s != "country" witness "place"

  /** The node's `type`: the country variant, or a generic node that keeps its tag verbatim. */
  datatype NodeType = Country | Generic(tag: NonCountryTag)

  /** The tag a node type is written as. */
  function TypeTag(t: NodeType): string
  {
    match t
    case Country => "country"
    case Generic(tag) => tag
  }

  /** `BaseNode`: a vertex of the route graph. */
  datatype Node = Node(id: string, kind: NodeType, position: Position, data: Payload,
                       color: Option<string>, notes: Option<string>)

  /** `Edge`: a directed connection from node `source` to node `target`. */
  datatype Edge = Edge(id: string, source: string, target: string)

  /** Every node is stored under its own id. */
  ghost predicate NodesKeyed(nodes: map<string, Node>)
  {
    forall k :: k in nodes ==> nodes[k].id == k
  }

  /** Every edge is stored under its own id. */
  ghost predicate EdgesKeyed(edges: map<string, Edge>)
  {
    forall k :: k in edges ==> edges[k].id == k
  }

  /** Some stored edge goes exactly from `src` to `dst`. */
  ghost predicate Joins(edges: map<string, Edge>, src: string, dst: string)
  {
    exists k :: k in edges && edges[k].source == src && edges[k].target == dst
  }

  /** Edge `e` has node `id` as an endpoint. */
  predicate Touches(e: Edge, id: string)
  {
    e.source == id || e.target == id
  }

  /** The edges that survive the removal of node `id`. */
  ghost function Detached(edges: map<string, Edge>, id: string): (r: map<string, Edge>)
  {
    map k | k in edges && !Touches(edges[k], id) :: edges[k]
  }

  /** After the removal of node `id` no edge touches it, and every edge that did not touch it stays. */
  lemma DetachedSpec(edges: map<string, Edge>, id: string)
    ensures forall k :: k in Detached(edges, id) ==> !Touches(Detached(edges, id)[k], id)
    ensures forall k :: k in edges && !Touches(edges[k], id) ==> k in Detached(edges, id) && Detached(edges, id)[k] == edges[k]
    ensures forall k :: k in Detached(edges, id) ==> k in edges && Detached(edges, id)[k] == edges[k]
  {
  }

  /** Removing a node that no edge mentions leaves the edges as they were. */
  lemma DetachedUntouched(edges: map<string, Edge>, id: string)
    requires forall k :: k in edges ==> !Touches(edges[k], id)
    ensures Detached(edges, id) == edges
  {
  }

  /** The key order of the edges that survive, in their original order. */
  ghost function DetachedOrder(order: seq<string>, edges: map<string, Edge>, id: string): (r: seq<string>)
    requires forall k :: k in order ==> k in edges
    ensures forall k :: k in r <==> k in order && !Touches(edges[k], id)
    ensures Distinct(order) ==> Distinct(r)
  {
    if order == [] then []
    else
      var init := DetachedOrder(order[..|order| - 1], edges, id);
      var k := order[|order| - 1];
      assert forall x :: x in order <==> x in order[..|order| - 1] || x == k;
      assert Distinct(order) ==> k !in order[..|order| - 1];
      if Touches(edges[k], id) then init else init + [k]
  }

  /** Removing a node that no edge mentions leaves the edge key order as it was. */
  lemma {:induction false} DetachedOrderUntouched(order: seq<string>, edges: map<string, Edge>, id: string)
    requires forall k :: k in order ==> k in edges && !Touches(edges[k], id)
    ensures DetachedOrder(order, edges, id) == order
  {
    if order != [] {
      DetachedOrderUntouched(order[..|order| - 1], edges, id);
      assert order == order[..|order| - 1] + [order[|order| - 1]];
    }
  }

  /** One turn of the removal loop over the snapshot `order` of the edge keys, at position `i`: the key order. */
  lemma DetachOrderStep(edges: map<string, Edge>, id: string, order: seq<string>, i: nat)
    requires i < |order| && forall k :: k in order ==> k in edges
    requires order[i] !in order[..i] && order[i] !in order[i + 1..]
    ensures Touches(edges[order[i]], id) ==>
      DetachedOrder(order[..i + 1], edges, id) + order[i + 1..]
      == Without(DetachedOrder(order[..i], edges, id) + order[i..], order[i])
    ensures !Touches(edges[order[i]], id) ==>
      DetachedOrder(order[..i + 1], edges, id) + order[i + 1..]
      == DetachedOrder(order[..i], edges, id) + order[i..]
  {
    var k := order[i];
    assert k in order;
    var done := DetachedOrder(order[..i], edges, id);
    assert order[..i + 1][..i] == order[..i];
    assert order[..i + 1][i] == k;
    assert order[i..] == [k] + order[i + 1..];
    if Touches(edges[k], id) {
      assert DetachedOrder(order[..i + 1], edges, id) == done;
      assert k !in done;
      WithoutMiddle(done, k, order[i + 1..]);
      assert done + order[i..] == done + [k] + order[i + 1..];
    } else {
      assert DetachedOrder(order[..i + 1], edges, id) == done + [k];
      assert done + order[i..] == (done + [k]) + order[i + 1..];
    }
  }

  /** The edges left once the removal loop has looked at the keys `ks` of the snapshot `entries`. */
  ghost function Dropped(entries: map<string, Edge>, ks: seq<string>, id: string): map<string, Edge>
  {
    if ks == [] then entries
    else
      var k := ks[|ks| - 1];
      var m := Dropped(entries, ks[..|ks| - 1], id);
      if k in entries && Touches(entries[k], id) then m - {k} else m
  }

  /** The edge key order once the removal loop has looked at the keys `ks` of the snapshot `entries`. */
  ghost function DroppedOrder(order: seq<string>, entries: map<string, Edge>, ks: seq<string>, id: string): seq<string>
  {
    if ks == [] then order
    else
      var k := ks[|ks| - 1];
      var o := DroppedOrder(order, entries, ks[..|ks| - 1], id);
      if k in entries && Touches(entries[k], id) then Without(o, k) else o
  }

  /** The loop's edges after the first `i` keys of the snapshot, from those after `i - 1` keys. */
  lemma DroppedLast(entries: map<string, Edge>, keys: seq<string>, id: string, i: nat)
    requires 0 < i <= |keys| && keys[i - 1] in entries
    ensures var k := keys[i - 1];
      var m := Dropped(entries, keys[..i - 1], id);
      Dropped(entries, keys[..i], id) == if Touches(entries[k], id) then m - {k} else m
  {
    var ks := keys[..i];
    assert ks[..i - 1] == keys[..i - 1] && ks[i - 1] == keys[i - 1];
  }

  /** The loop's key order after the first `i` keys of the snapshot, from that after `i - 1` keys. */
  lemma DroppedOrderLast(order: seq<string>, entries: map<string, Edge>, id: string, i: nat)
    requires 0 < i <= |order| && order[i - 1] in entries
    ensures var k := order[i - 1];
      var o := DroppedOrder(order, entries, order[..i - 1], id);
      DroppedOrder(order, entries, order[..i], id) == if Touches(entries[k], id) then Without(o, k) else o
  {
    var ks := order[..i];
    assert ks[..i - 1] == order[..i - 1] && ks[i - 1] == order[i - 1];
  }

  /** The removal loop drops exactly the edges of the snapshot that touch `id`. */
  lemma {:induction false} DroppedIsDetached(entries: map<string, Edge>, ks: seq<string>, id: string)
    ensures Dropped(entries, ks, id) == map k | k in entries && (k !in ks || !Touches(entries[k], id)) :: entries[k]
  {
    if ks != [] {
      var init := ks[..|ks| - 1];
      DroppedIsDetached(entries, init, id);
      assert forall x :: x in ks <==> x in init || x == ks[|ks| - 1];
    }
  }

  /** One more turn of the removal loop keeps its key order the surviving part of the visited keys followed by the rest. */
  lemma DroppedOrderTurn(entries: map<string, Edge>, order: seq<string>, id: string, i: nat)
    requires (forall k :: k in order ==> k in entries) && 0 < i <= |order|
    requires order[i - 1] !in order[..i - 1] && order[i - 1] !in order[i..]
    requires DroppedOrder(order, entries, order[..i - 1], id) == DetachedOrder(order[..i - 1], entries, id) + order[i - 1..]
    ensures DroppedOrder(order, entries, order[..i], id) == DetachedOrder(order[..i], entries, id) + order[i..]
  {
    DroppedOrderLast(order, entries, id, i);
    DetachOrderStep(entries, id, order, i - 1);
  }

  /** After looking at the first `i` keys, the loop's key order is the surviving part of them followed by the rest. */
  lemma {:induction false} DroppedOrderIsDetachedOrder(entries: map<string, Edge>, order: seq<string>, id: string, i: nat)
    requires Distinct(order) && (forall k :: k in order ==> k in entries) && i <= |order|
    ensures DroppedOrder(order, entries, order[..i], id) == DetachedOrder(order[..i], entries, id) + order[i..]
  {
    if i > 0 {
      DroppedOrderIsDetachedOrder(entries, order, id, i - 1);
      DistinctSplit(order, i - 1);
      DroppedOrderTurn(entries, order, id, i);
    } else {
      assert order[..0] == [] && order[0..] == order;
    }
  }

  /** What survives the removal of a node is again stored by id, in a key order without repetition. */
  lemma DetachedKeyed(edges: map<string, Edge>, order: seq<string>, id: string)
    requires EdgesKeyed(edges) && Lists(order, edges.Keys)
    ensures EdgesKeyed(Detached(edges, id))
    ensures Lists(DetachedOrder(order, edges, id), Detached(edges, id).Keys)
  {
  }

  /** Once the removal loop has looked at every key, the edges and their order are those that survive. */
  lemma RemovalLoopDone(entries: map<string, Edge>, keys: seq<string>, id: string)
    requires EdgesKeyed(entries) && Lists(keys, entries.Keys)
    ensures Dropped(entries, keys, id) == Detached(entries, id)
    ensures DroppedOrder(keys, entries, keys, id) == DetachedOrder(keys, entries, id)
    ensures EdgesKeyed(Detached(entries, id))
    ensures Lists(DetachedOrder(keys, entries, id), Detached(entries, id).Keys)
  {
    assert keys[..|keys|] == keys && keys[|keys|..] == [];
    DroppedIsDetached(entries, keys, id);
    var m := Dropped(entries, keys, id);
    assert forall k :: k in m <==> k in Detached(entries, id);
    DroppedOrderIsDetachedOrder(entries, keys, id, |keys|);
    DetachedKeyed(entries, keys, id);
  }

  /** Deleting one edge keeps the edges stored by id, in a key order without repetition. */
  lemma DeleteKeepsKeyed(edges: map<string, Edge>, order: seq<string>, id: string)
    requires EdgesKeyed(edges) && Lists(order, edges.Keys)
    ensures EdgesKeyed(edges - {id}) && Lists(Without(order, id), (edges - {id}).Keys)
  {
    WithoutDistinct(order, id);
  }

  /**
   The graph: node id -> node and edge id -> edge, each a JavaScript `Map`;
   `nodeOrder` and `edgeOrder` are the maps' key orders.
   */
  class Graph {
    var nodes: map<string, Node>
    var nodeOrder: seq<string>
    var edges: map<string, Edge>
    var edgeOrder: seq<string>

    ghost predicate Valid()
      reads this
    {
      && NodesKeyed(nodes) && EdgesKeyed(edges)
      && Lists(nodeOrder, nodes.Keys) && Lists(edgeOrder, edges.Keys)
    }

    constructor ()
      ensures Valid()
      ensures nodes == map[] && nodeOrder == [] && edges == map[] && edgeOrder == []
    {
      nodes, nodeOrder := map[], [];
      edges, edgeOrder := map[], [];
    }

    /** Stores `n` under its id, replacing any node with that id, and returns it. */
    method AddNode(n: Node) returns (r: Node)
      requires Valid()
      modifies this
      ensures Valid()
      ensures nodes == old(nodes)[n.id := n] && nodeOrder == Appended(old(nodeOrder), n.id)
      ensures edges == old(edges) && edgeOrder == old(edgeOrder)
      ensures r == n
    {
      nodes := nodes[n.id := n];
      nodeOrder := Appended(nodeOrder, n.id);
      r := n;
    }

    /** Moves node `id` to `pos`; does nothing when there is no such node. */
    method UpdateNodePosition(id: string, pos: Position)
      requires Valid()
      modifies this
      ensures Valid()
      ensures id in old(nodes) ==> nodes == old(nodes)[id := old(nodes)[id].(position := pos)]
      ensures id !in old(nodes) ==> nodes == old(nodes)
      ensures nodeOrder == old(nodeOrder) && edges == old(edges) && edgeOrder == old(edgeOrder)
    {
      if id in nodes {
        var n := nodes[id];
        nodes := nodes[id := n.(position := pos)];
      }
    }

    /** Deletes node `id` and every edge that starts or ends at it. */
    method RemoveNode(id: string)
      requires Valid()
      modifies this
      ensures Valid()
      ensures nodes == old(nodes) - {id} && nodeOrder == Without(old(nodeOrder), id)
      ensures edges == Detached(old(edges), id)
      ensures edgeOrder == DetachedOrder(old(edgeOrder), old(edges), id)
      ensures (forall k :: k in old(edges) ==> !Touches(old(edges)[k], id)) ==> edges == old(edges) && edgeOrder == old(edgeOrder)
      ensures id !in old(nodes) ==> nodeOrder == old(nodeOrder)
    {
      if forall k :: k in edges ==> !Touches(edges[k], id) {
        DetachedUntouched(edges, id);
        DetachedOrderUntouched(edgeOrder, edges, id);
      }
      if id !in nodes {
        WithoutAbsent(nodeOrder, id);
      }
      WithoutDistinct(nodeOrder, id);
      nodes := nodes - {id};
      nodeOrder := Without(nodeOrder, id);
      DetachEdges(id);
    }

    /** The edge half of `removeNode`: deletes, in key order, every edge that touches `id`. */
    method DetachEdges(id: string)
      requires EdgesKeyed(edges) && Lists(edgeOrder, edges.Keys)
      modifies this`edges, this`edgeOrder
      ensures edges == Detached(old(edges), id)
      ensures edgeOrder == DetachedOrder(old(edgeOrder), old(edges), id)
      ensures EdgesKeyed(edges) && Lists(edgeOrder, edges.Keys)
    {
      var entries, keys := edges, edgeOrder;
      DropTouching(id, entries, keys);
      RemovalLoopDone(entries, keys, id);
    }

    /**
     The loop over the snapshot `entries` of the edges, in the key order `keys`:
     each edge that touches `id` is deleted.
     */
    method DropTouching(id: string, entries: map<string, Edge>, keys: seq<string>)
      requires edges == entries && edgeOrder == keys && forall k :: k in keys ==> k in entries
      modifies this`edges, this`edgeOrder
      ensures edges == Dropped(entries, keys, id)
      ensures edgeOrder == DroppedOrder(keys, entries, keys, id)
    {
      var i := 0;
      while i < |keys|
        invariant 0 <= i <= |keys|
        invariant edges == Dropped(entries, keys[..i], id)
        invariant edgeOrder == DroppedOrder(keys, entries, keys[..i], id)
      {
        var eid := keys[i];
        DroppedLast(entries, keys, id, i + 1);
        DroppedOrderLast(keys, entries, id, i + 1);
        var e := entries[eid];
        if Touches(e, id) {
          edges := edges - {eid};
          edgeOrder := Without(edgeOrder, eid);
        }
        i := i + 1;
      }
      assert keys[..i] == keys;
    }

    /** Stores `e` under its id, replacing any edge with that id, and returns it. */
    method AddEdge(e: Edge) returns (r: Edge)
      requires Valid()
      modifies this
      ensures Valid()
      ensures edges == old(edges)[e.id := e] && edgeOrder == Appended(old(edgeOrder), e.id)
      ensures nodes == old(nodes) && nodeOrder == old(nodeOrder)
      ensures r == e
    {
      edges := edges[e.id := e];
      edgeOrder := Appended(edgeOrder, e.id);
      r := e;
    }

    /** Whether some stored edge goes exactly from `src` to `dst`. */
    method HasEdge(src: string, dst: string) returns (b: bool)
      requires Valid()
      ensures b <==> Joins(edges, src, dst)
    {
      var i := 0;
      while i < |edgeOrder|
        invariant 0 <= i <= |edgeOrder|
        invariant forall j :: 0 <= j < i ==> !(edges[edgeOrder[j]].source == src && edges[edgeOrder[j]].target == dst)
      {
        var e := edges[edgeOrder[i]];
        if e.source == src && e.target == dst {
          return true;
        }
        i := i + 1;
      }
      return false;
    }
  }
}
