/**
 The graph logic of the application store (lib/store.ts): connecting two
 nodes under the route rules with cycle prevention, adding or moving a
 dragged country, moving a node, and starting over with an empty graph.
 */
module RouteStore {
  import opened KeyOrder
  import opened Core
  import opened Nodes
  import opened Rules
  import opened Cycles

  const SelfLoopReason := "Self-loop not allowed"
  const BlockedReason := "Route blocked by rules"
  const DuplicateReason := "Edge already exists"
  const CycleReason := "Cycle prevention: would create a loop"

  /**
   What `connectNodes` gives back: `{ok: true, edgeId}`, `{ok: false, reason}`,
   or `Aborted` when `hasCycle` throws (an edge source that is not a node) and
   the call returns nothing.
   */
  datatype ConnectResult = Connected(edgeId: string) | Rejected(reason: string) | Aborted

  /** The id `connectNodes` gives a new edge. */
  function EdgeId(source: string, target: string): (id: string)
    ensures |id| == |source| + 2 + |target|
    ensures id[..|source|] == source && id[|source|..|source| + 2] == "->" && id[|source| + 2..] == target
  {
    source + "->" + target
  }

  /**
   The edges after `connectNodes(source, target)` and what it returns: the
   self-loop, blocked-pair and duplicate checks in that order, then the new edge
   is stored and, unless loops are allowed, taken out again when it closes a
   cycle.
   */
  ghost function Connect(nodes: map<string, Node>, edges: map<string, Edge>, source: string, target: string,
                         rules: Option<RouteRules>): (ConnectResult, map<string, Edge>)
  {
    if source == target then (Rejected(SelfLoopReason), edges)
    else if IsBlocked(rules, source, target) then (Rejected(BlockedReason), edges)
    else if Joins(edges, source, target) then (Rejected(DuplicateReason), edges)
    else
      var id := EdgeId(source, target);
      var added := edges[id := Edge(id, source, target)];
      if LoopsAllowed(rules) then (Connected(id), added)
      else if !SourcesAreNodes(nodes, added) then (Aborted, added)
      else if Cyclic(Arcs(nodes.Keys, added)) then (Rejected(CycleReason), added - {id})
      else (Connected(id), added)
  }

  /** A refusal other than cycle prevention leaves the edges as they were. */
  lemma RefusalChangesNothing(nodes: map<string, Node>, edges: map<string, Edge>, source: string, target: string,
                              rules: Option<RouteRules>)
    ensures var (r, after) := Connect(nodes, edges, source, target, rules);
      r.Rejected? && r.reason != CycleReason ==> after == edges
    ensures source == target ==> Connect(nodes, edges, source, target, rules).0 == Rejected(SelfLoopReason)
  {
  }

  /**
   After the self-loop check, a blocked pair is refused with the blocked reason
   before the duplicate check, and an existing pair that is not blocked is
   refused as a duplicate.
   */
  lemma RefusalReasons(nodes: map<string, Node>, edges: map<string, Edge>, source: string, target: string,
                       rules: Option<RouteRules>)
    requires source != target
    ensures IsBlocked(rules, source, target) ==>
      Connect(nodes, edges, source, target, rules).0 == Rejected(BlockedReason)
    ensures !IsBlocked(rules, source, target) && Joins(edges, source, target) ==>
      Connect(nodes, edges, source, target, rules).0 == Rejected(DuplicateReason)
  {
  }

  /** With the edge `A -> B` and no rules, connecting `B` to `A` is refused as a cycle and the edges are restored. */
  lemma CycleRefused(a: Node, b: Node)
    requires a.id == "A" && b.id == "B"
    ensures var nodes := map["A" := a, "B" := b];
      var edges := map["A->B" := Edge("A->B", "A", "B")];
      Connect(nodes, edges, "B", "A", None) == (Rejected(CycleReason), edges)
  {
    var nodes := map["A" := a, "B" := b];
    var edges := map["A->B" := Edge("A->B", "A", "B")];
    assert EdgeId("B", "A") == "B->A";
    assert !Joins(edges, "B", "A");
    var added := edges["B->A" := Edge("B->A", "B", "A")];
    assert SourcesAreNodes(nodes, added);
    MutualPairIsCycle(nodes.Keys, added, "A->B", "B->A");
    assert added - {"B->A"} == edges;
  }

  /** A success stores the edge `source -> target` under the id `source->target`, and nothing else changes. */
  lemma ConnectedAddsEdge(nodes: map<string, Node>, edges: map<string, Edge>, source: string, target: string,
                          rules: Option<RouteRules>)
    requires Connect(nodes, edges, source, target, rules).0.Connected?
    ensures var (r, after) := Connect(nodes, edges, source, target, rules);
      && r.edgeId == EdgeId(source, target)
      && after == edges[r.edgeId := Edge(r.edgeId, source, target)]
      && Joins(after, source, target) && !Joins(edges, source, target)
      && source != target && !IsBlocked(rules, source, target)
  {
    var id := EdgeId(source, target);
    assert Connect(nodes, edges, source, target, rules).1[id].source == source;
  }

  /**
   A cycle refusal leaves no edge under the new id; the edges are back to what
   they were when no edge had that id before.
   */
  lemma RollbackRestores(nodes: map<string, Node>, edges: map<string, Edge>, source: string, target: string,
                         rules: Option<RouteRules>)
    requires Connect(nodes, edges, source, target, rules).0 == Rejected(CycleReason)
    ensures EdgeId(source, target) !in Connect(nodes, edges, source, target, rules).1
    ensures EdgeId(source, target) !in edges ==> Connect(nodes, edges, source, target, rules).1 == edges
    ensures EdgeId(source, target) in edges ==> Connect(nodes, edges, source, target, rules).1 == edges - {EdgeId(source, target)}
  {
    var id := EdgeId(source, target);
    var after := Connect(nodes, edges, source, target, rules).1;
    assert after == edges[id := Edge(id, source, target)] - {id};
    if id !in edges {
      assert forall k :: k in after <==> k in edges;
    }
  }

  /** Two different pairs of endpoints can share an edge id, so a refused connect can delete an earlier edge. */
  lemma EdgeIdsCanCollide()
    ensures EdgeId("a->", "b") == EdgeId("a", "->b")
    ensures ("a->", "b") != ("a", "->b")
  {
    assert "a->" != "a" by {
      assert |"a->"| != |"a"|;
    }
  }

  /**
   With loops disallowed and every edge starting at a node, `connectNodes` never
   leaves a cycle behind, whatever it returns: a success passed the cycle check,
   a refusal takes the new edge out, and an aborted call added an edge that
   starts at no node.
   */
  lemma ConnectKeepsAcyclic(nodes: map<string, Node>, edges: map<string, Edge>, source: string, target: string,
                            rules: Option<RouteRules>)
    requires !LoopsAllowed(rules) && SourcesAreNodes(nodes, edges) && !Cyclic(Arcs(nodes.Keys, edges))
    ensures !Cyclic(Arcs(nodes.Keys, Connect(nodes, edges, source, target, rules).1))
  {
    var (r, after) := Connect(nodes, edges, source, target, rules);
    if source != target && !IsBlocked(rules, source, target) && !Joins(edges, source, target) {
      var id := EdgeId(source, target);
      var added := edges[id := Edge(id, source, target)];
      if !SourcesAreNodes(nodes, added) {
        assert source !in nodes.Keys;
        ArcsOfFewerEdges(nodes.Keys, edges, after);
        FewerStepsNoNewCycle(Arcs(nodes.Keys, after), Arcs(nodes.Keys, edges));
      } else if r == Rejected(CycleReason) {
        ArcsOfFewerEdges(nodes.Keys, edges, after);
        FewerStepsNoNewCycle(Arcs(nodes.Keys, after), Arcs(nodes.Keys, edges));
      }
    }
  }

  /**
   A connect from a node keeps every edge starting at a node, so the cycle check
   runs to completion and the call is never aborted.
   */
  lemma ConnectFromNodeCompletes(nodes: map<string, Node>, edges: map<string, Edge>, source: string, target: string,
                                 rules: Option<RouteRules>)
    requires SourcesAreNodes(nodes, edges) && source in nodes
    ensures Connect(nodes, edges, source, target, rules).0 != Aborted
    ensures SourcesAreNodes(nodes, Connect(nodes, edges, source, target, rules).1)
  {
  }

  /**
   On a graph without nodes, connecting `A` to `B` stores the edge and then
   aborts in the cycle check: no `{ok: true}` comes back, and the edge stays.
   */
  lemma ConnectWithoutNodesAborts()
    ensures Connect(map[], map[], "A", "B", None) == (Aborted, map["A->B" := Edge("A->B", "A", "B")])
  {
    assert EdgeId("A", "B") == "A->B";
    assert !IsBlocked(None, "A", "B");
    assert !Joins(map[], "A", "B");
    assert !SourcesAreNodes(map[], map["A->B" := Edge("A->B", "A", "B")]) by {
      assert "A->B" in map["A->B" := Edge("A->B", "A", "B")];
    }
  }

  /** Connecting two nodes of an edgeless graph, with no rules, succeeds. */
  lemma ConnectBetweenNodes(a: Node, b: Node)
    requires a.id == "A" && b.id == "B"
    ensures var nodes := map["A" := a, "B" := b];
      Connect(nodes, map[], "A", "B", None) == (Connected("A->B"), map["A->B" := Edge("A->B", "A", "B")])
  {
    var nodes := map["A" := a, "B" := b];
    var added := map["A->B" := Edge("A->B", "A", "B")];
    assert EdgeId("A", "B") == "A->B";
    assert !Joins(map[], "A", "B");
    assert SourcesAreNodes(nodes, added);
    var d := Arcs(nodes.Keys, added);
    var rank: map<string, nat> := map["A" := 1, "B" := 0];
    forall u, v | Step(d, u, v) ensures u in rank && v in rank && rank[v] < rank[u] {
      var k :| k in added && added[k].source == u && added[k].target == v;
    }
    RankedIsAcyclic(d, rank);
  }

  /**
   An aborted connect can leave a cycle behind: with the edge `A -> B` and an
   edge from `X`, which is no node, connecting `B` to `A` stores `B -> A`,
   the cycle check throws before the rollback, and `A -> B -> A` remains.
   */
  lemma AbortedConnectCanCloseCycle(a: Node, b: Node)
    requires a.id == "A" && b.id == "B"
    ensures var nodes := map["A" := a, "B" := b];
      var edges := map["A->B" := Edge("A->B", "A", "B"), "X->A" := Edge("X->A", "X", "A")];
      && !Cyclic(Arcs(nodes.Keys, edges))
      && Connect(nodes, edges, "B", "A", None).0 == Aborted
      && Cyclic(Arcs(nodes.Keys, Connect(nodes, edges, "B", "A", None).1))
  {
    var nodes := map["A" := a, "B" := b];
    var edges := map["A->B" := Edge("A->B", "A", "B"), "X->A" := Edge("X->A", "X", "A")];
    var d := Arcs(nodes.Keys, edges);
    var rank: map<string, nat> := map["A" := 1, "B" := 0];
    forall u, v | Step(d, u, v) ensures u in rank && v in rank && rank[v] < rank[u] {
      var k :| k in edges && edges[k].source == u && edges[k].target == v;
    }
    RankedIsAcyclic(d, rank);
    assert EdgeId("B", "A") == "B->A";
    assert !Joins(edges, "B", "A");
    var added := edges["B->A" := Edge("B->A", "B", "A")];
    assert "X->A" in added && added["X->A"].source !in nodes;
    assert Connect(nodes, edges, "B", "A", None) == (Aborted, added);
    MutualPairIsCycle(nodes.Keys, added, "A->B", "B->A");
  }

  /** The payload of a dragged country card. */
  datatype DraggedCountry = DraggedCountry(cca3: string, name: string, flag: string, region: Option<string>)

  /** The country node a first drag of `c` creates at `position`. */
  function NewCountryNode(c: DraggedCountry, position: Position): (n: Node)
    ensures n.id == c.cca3 && n.kind == Country && n.position == position
    ensures n.data == CountryInfo(CountryData(c.cca3, c.name, c.flag, c.region))
    ensures n.color == None && n.notes == None
  {
    CountryNode(c.cca3, position, CountryInfo(CountryData(c.cca3, c.name, c.flag, c.region)))
  }

  /** The nodes after a drag of `c` to `position`: add the country when its code is new, move it otherwise. */
  function Upserted(nodes: map<string, Node>, c: DraggedCountry, position: Position): (m: map<string, Node>)
    ensures m.Keys == nodes.Keys + {c.cca3}
    ensures m[c.cca3].position == position
    ensures c.cca3 !in nodes ==> m[c.cca3] == NewCountryNode(c, position)
    ensures c.cca3 in nodes ==> m[c.cca3] == nodes[c.cca3].(position := position)
    ensures forall k :: k in nodes && k != c.cca3 ==> m[k] == nodes[k]
  {
    if c.cca3 in nodes then nodes[c.cca3 := nodes[c.cca3].(position := position)]
    else nodes[c.cca3 := NewCountryNode(c, position)]
  }

  /**
   Dragging the same country again only moves it: the later payload is ignored,
   and the result is that of a single drag to the last position.
   */
  lemma RepeatedDragMovesOnly(nodes: map<string, Node>, c: DraggedCountry, p: Position, c': DraggedCountry, q: Position)
    requires c'.cca3 == c.cca3
    ensures Upserted(Upserted(nodes, c, p), c', q) == Upserted(nodes, c, q)
    ensures |Upserted(Upserted(nodes, c, p), c', q).Keys| == |Upserted(nodes, c, p).Keys|
  {
    var once, twice := Upserted(nodes, c, p), Upserted(Upserted(nodes, c, p), c', q);
    assert twice.Keys == once.Keys;
    assert forall k :: k in twice ==> twice[k] == Upserted(nodes, c, q)[k];
  }

  /** The store's state: the route graph and the route-rules configuration `connectNodes` reads. */
  class Store {
    var graph: Graph
    const routeRules: Option<RouteRules>

    ghost predicate Valid()
      reads this, graph
    {
      graph.Valid()
    }

    /** The store as it starts without saved data: an empty graph. */
    constructor (rules: Option<RouteRules>)
      ensures Valid() && fresh(graph) && routeRules == rules
      ensures graph.nodes == map[] && graph.edges == map[]
    {
      graph := new Graph();
      routeRules := rules;
    }

    /** `connectNodes(source, target)`, on the graph in place. */
    method ConnectNodes(source: string, target: string) returns (r: ConnectResult)
      requires Valid()
      modifies graph
      ensures Valid()
      ensures (r, graph.edges) == Connect(old(graph.nodes), old(graph.edges), source, target, routeRules)
      ensures graph.nodes == old(graph.nodes) && graph.nodeOrder == old(graph.nodeOrder)
      ensures r.Connected? || r.Aborted? ==> graph.edgeOrder == Appended(old(graph.edgeOrder), EdgeId(source, target))
      ensures r == Rejected(CycleReason) ==>
        graph.edgeOrder == Without(Appended(old(graph.edgeOrder), EdgeId(source, target)), EdgeId(source, target))
      ensures r.Rejected? && r.reason != CycleReason ==> graph.edgeOrder == old(graph.edgeOrder)
    {
      if source == target {
        return Rejected(SelfLoopReason);
      }
      if IsBlocked(routeRules, source, target) {
        return Rejected(BlockedReason);
      }
      var duplicate := graph.HasEdge(source, target);
      if duplicate {
        return Rejected(DuplicateReason);
      }
      var id := EdgeId(source, target);
      var _ := graph.AddEdge(Edge(id, source, target));
      if !LoopsAllowed(routeRules) {
        if !SourcesAreNodes(graph.nodes, graph.edges) {
          return Aborted;
        }
        var cyclic := HasCycle(graph);
        if cyclic {
          DeleteKeepsKeyed(graph.edges, graph.edgeOrder, id);
          graph.edges := graph.edges - {id};
          graph.edgeOrder := Without(graph.edgeOrder, id);
          return Rejected(CycleReason);
        }
      }
      return Connected(id);
    }

    /** `upsertCountryFromDrag(c, position)`: add the country as a node, or move it when already there. */
    method UpsertCountryFromDrag(c: DraggedCountry, position: Position)
      requires Valid()
      modifies graph
      ensures Valid()
      ensures graph.nodes == Upserted(old(graph.nodes), c, position)
      ensures graph.nodeOrder == Appended(old(graph.nodeOrder), c.cca3)
      ensures graph.edges == old(graph.edges) && graph.edgeOrder == old(graph.edgeOrder)
    {
      if c.cca3 !in graph.nodes {
        var _ := graph.AddNode(NewCountryNode(c, position));
      } else {
        graph.UpdateNodePosition(c.cca3, position);
      }
    }

    /** `updateNodePosition(id, pos)`: moves the node when present. */
    method UpdateNodePosition(id: string, pos: Position)
      requires Valid()
      modifies graph
      ensures Valid()
      ensures id in old(graph.nodes) ==> graph.nodes == old(graph.nodes)[id := old(graph.nodes)[id].(position := pos)]
      ensures id !in old(graph.nodes) ==> graph.nodes == old(graph.nodes)
      ensures graph.nodeOrder == old(graph.nodeOrder)
      ensures graph.edges == old(graph.edges) && graph.edgeOrder == old(graph.edgeOrder)
    {
      graph.UpdateNodePosition(id, pos);
    }

    /** `resetGraph()`: the store takes a new, empty graph. */
    method ResetGraph()
      requires Valid()
      modifies this
      ensures Valid() && fresh(graph)
      ensures graph.nodes == map[] && graph.edges == map[]
    {
      graph := new Graph();
    }
  }
}
