# Route-graph engine of travel-planner, in Dafny

This project models the graph engine of the travel-planner application. A user
drags countries onto a canvas and connects them into a directed route graph. The
engine stores that graph, refuses connections that the route rules forbid or
that would close a loop, and writes the graph to and from a plain-record form.

Modules, one per source file:

- `KeyOrder` holds the key order of a JavaScript `Map`. `set` appends a new key,
  `set` of a present key keeps its place, and `delete` removes the key. The
  engine iterates its maps in this order. Serialization and the edge-removal
  loop depend on it.
- `Core` (lib/graph/core.ts) holds the node and edge records and the `Graph`
  class.
  - The class has two maps, `nodes` and `edges`, and their two key orders.
  - Its methods change the maps in place.
  - `Graph.Valid` states the invariant every operation keeps: each entry is
    stored under its own id, and each key order lists exactly the keys, once
    each.
- `Nodes` (lib/graph/nodes.ts) holds the `CountryNode` constructor.
- `Rules` (lib/graph/rules.ts) holds `isBlocked`. It also holds `LoopsAllowed`,
  which models `rules?.allowLoops`; its negation is the store's test
  `!rules?.allowLoops` (lib/store.ts:91).
- `Cycles` (lib/graph/utils.tsx) holds `hasCycle`.
  - It is a three-colour depth-first search over adjacency lists built from the
    edges.
  - It is written as methods with loops and recursion, like the source.
  - It is proved to answer exactly whether the arcs between stored nodes contain
    a cycle.
  - Ghost ranks numbered in finishing order show that a search finding no cycle
    leaves a ranking that descends along every arc.
- `Serializer` (lib/graph/serializer.ts) holds `serialize` and `deserialize`.
  `deserialize(serialize(g))` rebuilds `g` with both maps and both key orders.
- `RouteStore` (lib/store.ts) holds the graph operations of the application
  store: `connectNodes`, `upsertCountryFromDrag`, `updateNodePosition` and
  `resetGraph`.

What `connectNodes` does:

- It runs the self-loop, blocked-pair and duplicate checks, in that order.
- It stores the edge `source->target`.
- Unless loops are allowed, it runs the cycle check and takes the edge out again
  if the check finds a cycle.
- `hasCycle` looks up `adj[e.source]` for every edge. When an edge starts at an
  id that is not a node, that lookup is undefined and the call throws. The model
  gives this case a third outcome, `Aborted`. The new edge then stays in the
  graph, and no result is returned.
- A consequence: an empty-graph connect might be expected to succeed, but on a
  graph with no nodes, connecting `A` to `B` aborts instead
  (`ConnectWithoutNodesAborts`).
- When the source is a node and every stored edge starts at a node, the call
  never aborts (`ConnectFromNodeCompletes`). With loops disallowed, such a graph
  stays acyclic whatever the call returns (`ConnectKeepsAcyclic`). Without the
  condition on edge sources this fails: an aborted connect can keep an edge that
  closes a cycle (`AbortedConnectCanCloseCycle`).

Outside the core:

- The route rules come from a configuration file. They are a constant of the
  store here (`routeRules`), fixed when the store is built.
- Positions are opaque pairs of reals. The engine only stores and copies them.

## Model

| member | source | states |
|---|---|---|
| KeyOrder.Appended | lib/graph/core.ts:46 | `Map.set` of a new key appends it and of a present key keeps the order; the order stays free of repetition |
| KeyOrder.Without | lib/graph/core.ts:59 | `Map.delete(k)` leaves exactly the other keys |
| KeyOrder.WithoutDistinct | lib/graph/core.ts:62 | deleting a key keeps a key order free of repetition |
| KeyOrder.InsertionOrder | lib/graph/serializer.ts:38-62 | the key order after a run of `set` calls lists each key set, once |
| KeyOrder.InsertionOrderOfDistinct | lib/graph/serializer.ts:38-62 | setting keys that are all different keeps them in the order given |
| KeyOrder.DistinctCount | lib/graph/serializer.ts:19-31 | iterating a map visits as many entries as it has keys |
| Core.Graph.Valid | lib/graph/core.ts:41-43 | the graph invariant: every node and edge is stored under its own id, and each key order lists exactly the keys of its map, once each |
| Core.Graph.constructor | lib/graph/core.ts:41-43 | a new graph has no nodes and no edges and is valid |
| Core.Graph.AddNode | lib/graph/core.ts:45-48 | stores the node under its id, replacing any node with that id; updates the key order; returns the node; edges unchanged; keeps `Valid` |
| Core.Graph.UpdateNodePosition | lib/graph/core.ts:50-56 | moves an existing node, changing only its position; an unknown id changes nothing |
| Core.Graph.RemoveNode | lib/graph/core.ts:58-64 | deletes the node and exactly the edges that start or end at it; the surviving edges keep their order; keeps `Valid`; when no edge mentions the id the edges and their order are unchanged, and an absent id leaves the node order unchanged |
| Core.Graph.DetachEdges | lib/graph/core.ts:61-63 | over a snapshot of the edges, deletes exactly the edges touching the node, keeping the others in key order and the edge invariant |
| Core.Graph.DropTouching | lib/graph/core.ts:61-63 | the loop visits the snapshot's keys in order and leaves the edges and key order of `Dropped`/`DroppedOrder` |
| Core.DetachedSpec | lib/graph/core.ts:58-64 | after removal no edge touches the node, every edge that did not touch it remains unchanged, and nothing else remains |
| Core.DetachedUntouched | lib/graph/core.ts:61-63 | removing a node that no edge mentions leaves the edges as they were |
| Core.DetachedOrderUntouched | lib/graph/core.ts:61-63 | removing a node that no edge mentions leaves the edge key order as it was |
| Core.DetachedOrder | lib/graph/core.ts:61-63 | the surviving key order holds exactly the surviving keys, without repetition |
| Core.DroppedIsDetached | lib/graph/core.ts:61-63 | after any prefix of the snapshot, the loop has dropped exactly the touching edges seen so far |
| Core.DroppedOrderIsDetachedOrder | lib/graph/core.ts:61-63 | after `i` keys, the key order is the survivors among them followed by the unvisited keys |
| Core.RemovalLoopDone | lib/graph/core.ts:61-63 | the finished loop leaves the edges and key order of `Detached`, still keyed and free of repetition |
| Core.DetachedKeyed | lib/graph/core.ts:58-64 | what survives a removal is still stored by id with a key order free of repetition |
| Core.DeleteKeepsKeyed | lib/store.ts:92 | deleting one edge keeps the edges keyed and their order free of repetition |
| Core.Graph.AddEdge | lib/graph/core.ts:66-69 | stores the edge under its id, replacing any edge with that id; updates the key order; returns the edge; nodes unchanged |
| Core.Graph.HasEdge | lib/graph/core.ts:71-77 | true exactly when some stored edge goes from `src` to `dst` |
| Nodes.CountryNode | lib/graph/nodes.ts:9-18 | the node has the country type and the given id, position, payload, color and notes |
| Nodes.CountryNodeDefaults | lib/graph/nodes.ts:14-15 | color and notes are absent when not given |
| Rules.AnyMatches | lib/graph/rules.ts:13 | true exactly when some blocked pair has `from == fromId` and `to == toId` |
| Rules.IsBlocked | lib/graph/rules.ts:6-14 | blocked exactly when rules and their pair list are present and contain the ordered pair |
| Rules.LoopsAllowed | lib/store.ts:91 | loops are allowed exactly when the rules are present and say `allowLoops: true`; cycle prevention runs otherwise |
| Rules.BlockingIsOrdered | lib/graph/rules.ts:13 | blocking `(a, b)` blocks `(b, a)` only if that pair is listed too |
| Rules.BlockingIgnoresAllowLoops | lib/graph/rules.ts:6-14 | `allowLoops` has no bearing on `isBlocked` |
| Cycles.Arcs | lib/graph/utils.tsx:76-93 | the relation the search explores has a vertex per node, and arcs only between nodes |
| Cycles.RankedIsAcyclic | lib/graph/utils.tsx:80-99 | a relation with a ranking that every arc descends has no cycle |
| Cycles.NoEdgesNoCycle | lib/graph/utils.tsx:69-100 | a graph without edges has no cycle |
| Cycles.SelfLoopIsCycle | lib/graph/utils.tsx:69-100 | an edge from a node to itself is a cycle |
| Cycles.MutualPairIsCycle | lib/graph/utils.tsx:69-100 | edges `a -> b` and `b -> a` between nodes form a cycle |
| Cycles.ChainIsAcyclic | lib/graph/utils.tsx:69-100 | the chain `a -> b -> c` has no cycle |
| Cycles.FewerStepsNoNewCycle | lib/graph/utils.tsx:69-100 | a relation inside an acyclic relation is acyclic |
| Cycles.ArcsOfFewerEdges | lib/graph/utils.tsx:76-78 | edges removed, or added with an endpoint that is no node, add no arc |
| Cycles.DanglingTargetIgnored | lib/graph/utils.tsx:84-89 | an edge whose target is not a node is skipped by the search and changes no arc |
| Cycles.Dfs | lib/graph/utils.tsx:80-93 | `dfs(u)` finds a real cycle when it reports one; otherwise `u` ends black, no white node appears, black nodes stay black, and every finished node outranks its successors |
| Cycles.Neighbours | lib/graph/utils.tsx:83-89 | a gray neighbour closes a real cycle; without a cycle every successor of `u` ends black |
| Cycles.PushedTargets | lib/graph/utils.tsx:78 | after the pushes, the list of `u` holds its old entries and the targets of the pushed edges from `u` |
| Cycles.AdjacencyBuilt | lib/graph/utils.tsx:76-78 | the adjacency lists built from all edges describe exactly the arcs between nodes |
| Cycles.AllWhite | lib/graph/utils.tsx:74 | every node id starts white |
| Cycles.EmptyLists | lib/graph/utils.tsx:77 | every node id starts with an empty list |
| Cycles.PushAll | lib/graph/utils.tsx:78 | pushes the target of each edge onto its source's list, in edge order |
| Cycles.SearchFrom | lib/graph/utils.tsx:95-99 | the outer loop returns true exactly when the relation has a cycle |
| Cycles.HasCycle | lib/graph/utils.tsx:69-100 | true exactly when the edges between stored nodes contain a cycle; the graph is only read |
| Serializer.NodeToRecord | lib/graph/serializer.ts:19-26 | the record copies id, position, payload, color and notes, and its type tag is "country" exactly for a country node |
| Serializer.EdgeToRecord | lib/graph/serializer.ts:27-31 | the record copies the edge's id, source and target; `EdgeRoundTrip` shows it inverts `EdgeFromRecord` |
| Serializer.EdgeFromRecord | lib/graph/serializer.ts:60-62 | `new Edge(e.id, e.source, e.target)` copies the record, endpoints unchecked; `EdgeRoundTrip` shows it inverts `EdgeToRecord` |
| Serializer.NodeFromRecord | lib/graph/serializer.ts:38-57 | the tag "country" gives a country node and any other tag a generic node that keeps it; every field is copied |
| Serializer.NodeRoundTrip | lib/graph/serializer.ts:19-26 | a node written as a record and read back is the same node |
| Serializer.NodeRecordRoundTrip | lib/graph/serializer.ts:38-56 | a record read as a node and written back is the same record |
| Serializer.EdgeRoundTrip | lib/graph/serializer.ts:27-31 | edges and edge records correspond one to one |
| Serializer.NodeRecords | lib/graph/serializer.ts:19-26 | one record per node key, in key order, each reading back as that node |
| Serializer.EdgeRecords | lib/graph/serializer.ts:27-31 | one record per edge key, in key order, each reading back as that edge |
| Serializer.Serialize | lib/graph/serializer.ts:17-33 | as many records as nodes and edges, carrying the ids in key order and reading back as the stored entries |
| Serializer.NodeMap | lib/graph/serializer.ts:38-58 | the rebuilt nodes are stored by id, with exactly the record ids as keys |
| Serializer.EdgeMap | lib/graph/serializer.ts:60-62 | the rebuilt edges are stored by id, with exactly the record ids as keys |
| Serializer.NodeMapLastWins | lib/graph/serializer.ts:38-58 | when records repeat an id, the last of them decides the node |
| Serializer.EdgeMapLastWins | lib/graph/serializer.ts:60-62 | when records repeat an id, the last of them decides the edge; endpoints are copied unchecked |
| Serializer.NodeMapOfRecords | lib/graph/serializer.ts:17-58 | reading back the records of the listed nodes gives those nodes |
| Serializer.EdgeMapOfRecords | lib/graph/serializer.ts:17-62 | reading back the records of the listed edges gives those edges |
| Serializer.NodesRoundTrip | lib/graph/serializer.ts:17-58 | rebuilding the nodes from their records gives the same map and the same key order |
| Serializer.EdgesRoundTrip | lib/graph/serializer.ts:17-62 | rebuilding the edges from their records gives the same map and the same key order |
| Serializer.Deserialize | lib/graph/serializer.ts:35-65 | a fresh, valid graph holding the nodes and edges of the records, last record per id winning, ids in order of first appearance |
| Serializer.Reload | lib/graph/serializer.ts:17-65 | deserializing a serialized graph gives a fresh graph with the same maps and key orders |
| RouteStore.EdgeId | lib/store.ts:88 | the id is the source, then `->`, then the target |
| RouteStore.Connect | lib/store.ts:78-103 | the reference definition of `connectNodes`: result and edges after the self-loop, blocked, duplicate and cycle checks in source order, with `Aborted` for the throwing cycle check; `Store.ConnectNodes` is proved equal to it |
| RouteStore.RefusalReasons | lib/store.ts:82-87 | past the self-loop check, a blocked pair is refused as blocked before the duplicate check, and an unblocked existing pair is refused as a duplicate |
| RouteStore.CycleRefused | lib/store.ts:89-94 | with `A -> B` stored, connecting `B` to `A` is refused with the cycle reason and the edges are restored |
| RouteStore.RefusalChangesNothing | lib/store.ts:82-87 | a self-loop is refused first; refusals other than cycle prevention leave the edges unchanged |
| RouteStore.ConnectedAddsEdge | lib/store.ts:88-102 | a success returns id `source->target` and adds exactly that edge, which was absent as a pair before |
| RouteStore.RollbackRestores | lib/store.ts:91-93 | a cycle refusal leaves no edge under the new id, and restores the edges when that id was free |
| RouteStore.EdgeIdsCanCollide | lib/store.ts:88 | two different endpoint pairs can produce the same edge id |
| RouteStore.ConnectKeepsAcyclic | lib/store.ts:78-103 | with loops disallowed, an acyclic graph whose edges start at nodes stays acyclic whatever the call returns |
| RouteStore.AbortedConnectCanCloseCycle | lib/store.ts:89-94 | with an edge from an id that is no node, connecting `B` to an acyclic `A -> B` aborts in the cycle check and leaves the cycle `A -> B -> A` |
| RouteStore.ConnectFromNodeCompletes | lib/store.ts:89-91 | a connect from a node on a graph whose edges start at nodes never aborts and keeps that property |
| RouteStore.ConnectWithoutNodesAborts | lib/store.ts:78-103 | on a graph without nodes, connecting `A` to `B` aborts in the cycle check and leaves the edge stored |
| RouteStore.ConnectBetweenNodes | lib/store.ts:78-103 | connecting two nodes of an edgeless graph succeeds with id `A->B` |
| RouteStore.NewCountryNode | lib/store.ts:60-66 | the new node has the country code as id, the drop position, the country payload, and no color or notes |
| RouteStore.Upserted | lib/store.ts:59-69 | adds the country when its code is new, otherwise moves only that node; other nodes unchanged |
| RouteStore.RepeatedDragMovesOnly | lib/store.ts:59-69 | a second drag of the same country only moves it to the last position |
| RouteStore.Store.constructor | lib/store.ts:31-46 | without a saved graph (or on server rendering or a parse failure) the store starts with an empty, valid graph |
| RouteStore.Store.ConnectNodes | lib/store.ts:78-103 | the result and new edges are those of `Connect`; nodes unchanged; the edge key order gains the new id, or loses it again on rollback |
| RouteStore.Store.UpsertCountryFromDrag | lib/store.ts:55-77 | the nodes become `Upserted`; the key order gains the code when it is new; edges unchanged |
| RouteStore.Store.UpdateNodePosition | lib/store.ts:104-113 | moves an existing node and nothing else; an unknown id changes nothing |
| RouteStore.Store.ResetGraph | lib/store.ts:114-118 | the store takes a fresh, empty, valid graph |

## Left out

- Persistence to `localStorage`, the zustand `set`/`get` plumbing and the `typeof window` tests are I/O outside the graph logic. Each operation's effect on the graph is modelled; the write of the serialized snapshot is not.
- `loadInitial` and its `try`/`catch` fallback read storage and parse JSON. When storage holds a saved graph, the store starts from `deserialize` of the stored records (lib/store.ts:35-36); `Serializer.Deserialize` models that graph. `RouteStore.Store.constructor` covers only the other starts: no saved data, server rendering, or a parse failure, each giving an empty graph.
- `setGraph` replaces the whole graph and persists it (lib/store.ts:47-54). Import uses it (components/Topbar.tsx:66-69) to install a deserialized graph with no self-loop, blocked-pair, duplicate or cycle check, so the store can hold cycles and edges whose source is no node. It is not modelled as a store operation; `Serializer.Deserialize` models the graph it installs.
- `countryShapeView` and `setCountryShapeView` are presentation state with no graph logic.
- The store's `rules` field is always `null` and `connectNodes` never reads it. `connectNodes` reads the configuration file `config/blocked-routes.json`, which is not part of this model. Its content is the constant `routeRules`.
- JSON text, `JSON.parse` and `JSON.stringify` are left out. `GraphJson` stands for the parsed object. A payload other than a country's is an opaque string.
- `toRF` in lib/graph/utils.tsx, the React components, lib/countries.ts and lib/geo.ts are rendering or network code outside the engine.
- Positions are pairs of reals. The engine never computes with them, so floating point plays no role.
- Core.Graph.UpdateNodePosition: the source assigns `position` on the node object itself, so every holder of that object sees the move. The model replaces the node value in the map and does not model aliasing of node objects.
- Cycles.HasCycle: requires every edge source to be a node. On other graphs the source throws a `TypeError` from `adj[e.source].push`. `RouteStore.Store.ConnectNodes` checks that condition first and returns `Aborted` instead of modelling the exception.
- Cycles.HasCycle: the colour and adjacency dictionaries are plain JavaScript objects, so ids such as `constructor` or `__proto__` would hit inherited properties. The model uses maps and assumes ids that are not such names.
- Cycles.Dfs: recursion depth and stack overflow on very deep graphs are not modelled.
- RouteStore.ConnectKeepsAcyclic: holds only when every stored edge starts at a node. Otherwise the cycle check throws before the rollback, and the stored edge can close a cycle (`RouteStore.AbortedConnectCanCloseCycle`). Such edges can arrive through `deserialize`, which does not check endpoints and whose graph `setGraph` installs on load and on import, or through an earlier connect whose source is no node: that edge stays when the connect aborts (`RouteStore.ConnectWithoutNodesAborts`), or is stored outright when loops are allowed.
- RouteStore.Store.ConnectNodes: an exception leaves the store's `set` and the storage write undone. The model only states the graph after the throw.
