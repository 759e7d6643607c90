/**
 Cycle detection over the route graph (`hasCycle` in lib/graph/utils.tsx):
 a three-colour depth-first search over an adjacency list built from the
 edges.
 */
module Cycles {
  import opened KeyOrder
  import opened Core

  /** A directed relation over node ids: each node id to the set of its successors. */
  type Digraph = map<string, set<string>>

  /**
   The relation `hasCycle` explores: `u -> v` for every stored edge from node `u`
   to node `v`. An edge whose target is not a node gives no arc.
   */
  ghost function Arcs(nodes: set<string>, edges: map<string, Edge>): (d: Digraph)
    ensures d.Keys == nodes
    ensures forall u :: u in d ==> d[u] <= nodes
  {
    map u | u in nodes :: set k | k in edges && edges[k].source == u && edges[k].target in nodes :: edges[k].target
  }

  ghost predicate Step(d: Digraph, u: string, v: string)
  {
    u in d && v in d[u]
  }

  /** A path of one or more nodes, each followed by one of its successors. */
  ghost predicate IsWalk(d: Digraph, p: seq<string>)
  {
    |p| >= 1 && forall i :: 0 <= i < |p| - 1 ==> Step(d, p[i], p[i + 1])
  }

  /** A walk of at least one step that ends where it starts; `[u, u]` is a self-loop. */
  ghost predicate IsCycle(d: Digraph, c: seq<string>)
  {
    |c| >= 2 && IsWalk(d, c) && c[0] == c[|c| - 1]
  }

  ghost predicate Cyclic(d: Digraph)
  {
    exists c :: IsCycle(d, c)
  }

  /** Every step goes to a node of strictly smaller rank. */
  ghost predicate Descending(d: Digraph, rank: map<string, nat>)
  {
    forall u, v :: Step(d, u, v) ==> u in rank && v in rank && rank[v] < rank[u]
  }

  /** Along a walk of a ranked relation the rank falls at every step. */
  lemma {:induction false} RankFallsAlongWalk(d: Digraph, rank: map<string, nat>, p: seq<string>)
    requires Descending(d, rank) && IsWalk(d, p) && |p| >= 2
    ensures p[0] in rank && p[|p| - 1] in rank && rank[p[|p| - 1]] < rank[p[0]]
  {
    assert Step(d, p[0], p[1]);
    if |p| > 2 {
      var rest := p[1..];
      assert IsWalk(d, rest);
      RankFallsAlongWalk(d, rank, rest);
    }
  }

  /** A relation with a ranking that every step descends has no cycle. */
  lemma RankedIsAcyclic(d: Digraph, rank: map<string, nat>)
    requires Descending(d, rank)
    ensures !Cyclic(d)
  {
    forall c | IsCycle(d, c)
      ensures false
    {
      RankFallsAlongWalk(d, rank, c);
    }
  }

  /** Without edges there is no step, so no cycle. */
  lemma NoEdgesNoCycle(nodes: set<string>)
    ensures !Cyclic(Arcs(nodes, map[]))
  {
    var d := Arcs(nodes, map[]);
    var rank: map<string, nat> := map u | u in nodes :: 0;
    assert forall u, v :: !Step(d, u, v);
    RankedIsAcyclic(d, rank);
  }

  /** An edge from a node to itself is a cycle. */
  lemma SelfLoopIsCycle(nodes: set<string>, edges: map<string, Edge>, k: string)
    requires k in edges && edges[k].source == edges[k].target && edges[k].source in nodes
    ensures Cyclic(Arcs(nodes, edges))
  {
    var u := edges[k].source;
    assert IsCycle(Arcs(nodes, edges), [u, u]);
  }

  /** Two edges `a -> b` and `b -> a` between nodes form a cycle. */
  lemma MutualPairIsCycle(nodes: set<string>, edges: map<string, Edge>, k1: string, k2: string)
    requires k1 in edges && k2 in edges
    requires edges[k1].source == edges[k2].target && edges[k1].target == edges[k2].source
    requires edges[k1].source in nodes && edges[k1].target in nodes
    ensures Cyclic(Arcs(nodes, edges))
  {
    var a, b := edges[k1].source, edges[k1].target;
    var d := Arcs(nodes, edges);
    assert Step(d, a, b) && Step(d, b, a);
    assert IsCycle(d, [a, b, a]);
  }

  /** The chain `A -> B -> C` has no cycle. */
  lemma ChainIsAcyclic(a: string, b: string, c: string)
    requires a != b && b != c && a != c
    ensures !Cyclic(Arcs({a, b, c}, map["ab" := Edge("ab", a, b), "bc" := Edge("bc", b, c)]))
  {
    var edges := map["ab" := Edge("ab", a, b), "bc" := Edge("bc", b, c)];
    var d := Arcs({a, b, c}, edges);
    var rank: map<string, nat> := map[a := 2, b := 1, c := 0];
    forall u, v | Step(d, u, v) ensures u in rank && v in rank && rank[v] < rank[u] {
      var k :| k in edges && edges[k].source == u && edges[k].target == v;
    }
    RankedIsAcyclic(d, rank);
  }

  /** Every step of `d1` is a step of `d2`. */
  ghost predicate StepsWithin(d1: Digraph, d2: Digraph)
  {
    forall u, v :: Step(d1, u, v) ==> Step(d2, u, v)
  }

  /** A relation inside an acyclic relation is acyclic. */
  lemma FewerStepsNoNewCycle(d1: Digraph, d2: Digraph)
    requires StepsWithin(d1, d2) && !Cyclic(d2)
    ensures !Cyclic(d1)
  {
    forall c | IsCycle(d1, c)
      ensures false
    {
      assert IsCycle(d2, c);
    }
  }

  /**
   Adding an edge whose source or target is not a node adds no arc, and
   deleting edges removes arcs only.
   */
  lemma ArcsOfFewerEdges(nodes: set<string>, edges: map<string, Edge>, fewer: map<string, Edge>)
    requires forall k :: k in fewer ==> (k in edges && fewer[k] == edges[k]) || fewer[k].source !in nodes || fewer[k].target !in nodes
    ensures StepsWithin(Arcs(nodes, fewer), Arcs(nodes, edges))
  {
    var d1, d2 := Arcs(nodes, fewer), Arcs(nodes, edges);
    forall u, v | Step(d1, u, v) ensures Step(d2, u, v) {
      var k :| k in fewer && fewer[k].source == u && fewer[k].target == v && v in nodes;
      assert k in edges && edges[k].source == u && edges[k].target == v;
    }
  }

  /** An edge whose target is not a node leaves the arcs unchanged. */
  lemma DanglingTargetIgnored(nodes: set<string>, edges: map<string, Edge>, e: Edge)
    requires e.id !in edges && e.target !in nodes
    ensures Arcs(nodes, edges[e.id := e]) == Arcs(nodes, edges)
  {
    var d1, d2 := Arcs(nodes, edges[e.id := e]), Arcs(nodes, edges);
    forall u | u in nodes ensures d1[u] == d2[u] {
      forall v | v in d1[u] ensures v in d2[u] {
        var k :| k in edges[e.id := e] && edges[e.id := e][k].source == u && edges[e.id := e][k].target == v && v in nodes;
        assert k != e.id;
      }
      forall v | v in d2[u] ensures v in d1[u] {
        var k :| k in edges && edges[k].source == u && edges[k].target == v && v in nodes;
        assert k != e.id && edges[e.id := e][k] == edges[k];
      }
    }
  }

  /** The three DFS states of a node: unvisited, on the recursion stack, fully explored. */
  datatype Color = White | Gray | Black

  ghost function Whites(color: map<string, Color>): set<string>
  {
    set x | x in color && color[x] == White
  }

  /** `adj` is an adjacency list for `d`: the successors of `u` are the entries of `adj[u]` that are nodes. */
  ghost predicate AdjacencyOf(adj: map<string, seq<string>>, d: Digraph)
  {
    && adj.Keys == d.Keys
    && forall u, v {:trigger v in d[u]} {:trigger v in adj[u]} :: u in adj ==> (v in d[u] <==> v in adj[u] && v in d)
  }

  /** The gray nodes are exactly those of `stack`, and `stack` is a chain of steps. */
  ghost predicate OnStack(d: Digraph, color: map<string, Color>, stack: seq<string>)
  {
    && (forall x :: x in stack ==> x in color)
    && (forall x :: x in color ==> (color[x] == Gray <==> x in stack))
    && (forall i :: 0 <= i < |stack| - 1 ==> Step(d, stack[i], stack[i + 1]))
  }

  /**
   The finished (black) nodes carry ranks below `next`, and every successor of a
   black node is black with a smaller rank: black nodes were finished after all
   of their successors.
   */
  ghost predicate Finished(d: Digraph, color: map<string, Color>, rank: map<string, nat>, next: nat)
  {
    forall b :: b in color && color[b] == Black ==>
      && b in d && b in rank && rank[b] < next
      && forall v :: v in d[b] ==> v in color && color[v] == Black && v in rank && rank[v] < rank[b]
  }

  /** `color` gives a colour to exactly the nodes of `d`. */
  ghost predicate Colours(color: map<string, Color>, d: Digraph)
  {
    forall x :: x in color <==> x in d
  }

  /** No node is white in `after` that was not white in `before`. */
  ghost predicate NoNewWhites(before: map<string, Color>, after: map<string, Color>)
  {
    forall x :: x in after && after[x] == White ==> x in before && before[x] == White
  }

  /** Every node black in `before` is still black in `after`. */
  ghost predicate KeepsBlack(before: map<string, Color>, after: map<string, Color>)
  {
    forall x :: x in before && before[x] == Black ==> x in after && after[x] == Black
  }

  /** Both relations between colourings compose. */
  lemma Chain(a: map<string, Color>, b: map<string, Color>, c: map<string, Color>)
    ensures NoNewWhites(a, b) && NoNewWhites(b, c) ==> NoNewWhites(a, c)
    ensures KeepsBlack(a, b) && KeepsBlack(b, c) ==> KeepsBlack(a, c)
  {
  }

  /** Once the white node `u` has left white, and no node has turned white, fewer nodes are white. */
  lemma FewerWhites(before: map<string, Color>, after: map<string, Color>, u: string)
    requires NoNewWhites(before, after)
    requires u in before && before[u] == White && u in after && after[u] != White
    ensures |Whites(after)| < |Whites(before)|
  {
    var now, was := Whites(after), Whites(before);
    assert now <= was - {u};
    var gone := was - now;
    assert was == now + gone && now * gone == {};
    assert u in gone;
  }

  /** The neighbours before index `i` that are nodes are all black. */
  ghost predicate BlackUpTo(c: map<string, Color>, succ: seq<string>, i: nat)
    requires i <= |succ|
  {
    forall j :: 0 <= j < i && succ[j] in c ==> c[succ[j]] == Black
  }

  /** A neighbour that is black or not a node extends the black prefix. */
  lemma BlackUpToNext(c: map<string, Color>, succ: seq<string>, i: nat)
    requires i < |succ| && BlackUpTo(c, succ, i) && (succ[i] in c ==> c[succ[i]] == Black)
    ensures BlackUpTo(c, succ, i + 1)
  {
  }

  /** A search that keeps black nodes black and leaves `succ[i]` black extends the black prefix. */
  lemma BlackUpToKept(c: map<string, Color>, c': map<string, Color>, succ: seq<string>, i: nat)
    requires i < |succ| && (forall x :: x in c' <==> x in c) && succ[i] in c' && c'[succ[i]] == Black
    requires KeepsBlack(c, c') && BlackUpTo(c, succ, i)
    ensures BlackUpTo(c', succ, i + 1)
  {
  }

  /** A step from the top of the DFS stack back to the stack entry at `k` closes a cycle. */
  lemma BackEdgeCloses(d: Digraph, path: seq<string>, k: nat)
    requires k < |path|
    requires forall i :: 0 <= i < |path| - 1 ==> Step(d, path[i], path[i + 1])
    requires Step(d, path[|path| - 1], path[k])
    ensures IsCycle(d, path[k..] + [path[k]])
  {
    var cycle := path[k..] + [path[k]];
    forall m | 0 <= m < |cycle| - 1
      ensures Step(d, cycle[m], cycle[m + 1])
    {
      if m < |path| - k - 1 {
        assert cycle[m] == path[k + m] && cycle[m + 1] == path[k + m + 1];
      } else {
        assert cycle[m] == path[|path| - 1] && cycle[m + 1] == path[k];
      }
    }
  }

  /** Colouring the white node `u` gray pushes it on the stack and finishes nothing. */
  lemma GrayOnTop(d: Digraph, color: map<string, Color>, stack: seq<string>, u: string,
                  rank: map<string, nat>, next: nat)
    requires u in color && color[u] == White
    requires OnStack(d, color, stack) && (stack != [] ==> Step(d, stack[|stack| - 1], u))
    requires Finished(d, color, rank, next)
    ensures OnStack(d, color[u := Gray], stack + [u])
    ensures Finished(d, color[u := Gray], rank, next)
    ensures NoNewWhites(color, color[u := Gray]) && KeepsBlack(color, color[u := Gray])
  {
    var path := stack + [u];
    assert forall x :: x in path <==> x in stack || x == u;
    forall i | 0 <= i < |path| - 1
      ensures Step(d, path[i], path[i + 1])
    {
      if i < |stack| - 1 {
        assert path[i] == stack[i] && path[i + 1] == stack[i + 1];
      }
    }
  }

  /** Once every successor of the gray top `u` is black, colouring `u` black with the next rank pops it. */
  lemma BlackWhenDone(d: Digraph, c: map<string, Color>, stack: seq<string>, u: string,
                      rank: map<string, nat>, next: nat)
    requires u in d && u !in stack
    requires OnStack(d, c, stack + [u]) && Finished(d, c, rank, next)
    requires forall v :: v in d[u] ==> v in c && c[v] == Black
    ensures OnStack(d, c[u := Black], stack)
    ensures Finished(d, c[u := Black], rank[u := next], next + 1)
    ensures NoNewWhites(c, c[u := Black]) && KeepsBlack(c, c[u := Black])
  {
    assert forall x :: x in stack + [u] <==> x in stack || x == u;
    assert forall i :: 0 <= i < |stack| ==> (stack + [u])[i] == stack[i];
  }

  /** A colouring with no new white node has at most as many white nodes. */
  lemma NoMoreWhites(before: map<string, Color>, after: map<string, Color>)
    requires NoNewWhites(before, after)
    ensures |Whites(after)| <= |Whites(before)|
  {
    var now, was := Whites(after), Whites(before);
    assert now <= was;
    assert was == now + (was - now) && now * (was - now) == {};
  }

  /**
   `dfs(u)`: colours `u` gray, explores its neighbours, and reports a cycle on
   reaching a gray node; otherwise colours `u` black. The colour map is the
   search's shared dictionary, passed in and out; the ghost `rank` numbers the
   nodes in the order they turn black.
   */
  method Dfs(ghost d: Digraph, adj: map<string, seq<string>>, u: string, color: map<string, Color>,
             ghost stack: seq<string>, ghost rank: map<string, nat>, ghost next: nat)
    returns (found: bool, color': map<string, Color>,
             ghost cycle: seq<string>, ghost rank': map<string, nat>, ghost next': nat)
    requires AdjacencyOf(adj, d) && Colours(color, d)
    requires u in color && color[u] == White
    requires OnStack(d, color, stack) && (stack != [] ==> Step(d, stack[|stack| - 1], u))
    requires Finished(d, color, rank, next)
    ensures Colours(color', d) && NoNewWhites(color, color')
    ensures found ==> IsCycle(d, cycle)
    ensures !found ==> color'[u] == Black && OnStack(d, color', stack) && Finished(d, color', rank', next')
    ensures !found ==> KeepsBlack(color, color')
    decreases |Whites(color)|, 0
  {
    var c := color[u := Gray];
    GrayOnTop(d, color, stack, u, rank, next);
    FewerWhites(color, c, u);
    ghost var gray := c;
    found, c, cycle, rank', next' := Neighbours(d, adj, u, c, stack + [u], rank, next);
    Chain(color, gray, c);
    if found {
      return found, c, cycle, rank', next';
    }
    BlackWhenDone(d, c, stack, u, rank', next');
    Chain(color, c, c[u := Black]);
    color' := c[u := Black];
    rank' := rank'[u := next'];
    next' := next' + 1;
  }

  /**
   The neighbour loop of `dfs(u)`, with `u` gray on top of `path`: a white
   neighbour is searched from, a gray one closes a cycle, a black one is skipped.
   Without a cycle, every successor of `u` ends black.
   */
  method Neighbours(ghost d: Digraph, adj: map<string, seq<string>>, u: string, color: map<string, Color>,
                    ghost path: seq<string>, ghost rank: map<string, nat>, ghost next: nat)
    returns (found: bool, c: map<string, Color>,
             ghost cycle: seq<string>, ghost r: map<string, nat>, ghost nx: nat)
    requires AdjacencyOf(adj, d) && Colours(color, d) && u in d
    requires path != [] && path[|path| - 1] == u
    requires OnStack(d, color, path) && Finished(d, color, rank, next)
    ensures Colours(c, d) && NoNewWhites(color, c)
    ensures found ==> IsCycle(d, cycle)
    ensures !found ==> OnStack(d, c, path) && Finished(d, c, r, nx) && KeepsBlack(color, c)
    ensures !found ==> forall v :: v in d[u] ==> v in c && c[v] == Black
    decreases |Whites(color)|, 1
  {
    c, r, nx := color, rank, next;
    var succ := adj[u];
    var i := 0;
    while i < |succ|
      invariant 0 <= i <= |succ|
      invariant Colours(c, d) && NoNewWhites(color, c) && KeepsBlack(color, c)
      invariant OnStack(d, c, path) && Finished(d, c, r, nx)
      invariant BlackUpTo(c, succ, i)
    {
      var v := succ[i];
      if v in c {
        assert Step(d, u, v);
        if c[v] == White {
          NoMoreWhites(color, c);
          ghost var before := c;
          found, c, cycle, r, nx := Dfs(d, adj, v, c, path, r, nx);
          if found {
            assert NoNewWhites(color, c);
            return;
          }
          Chain(color, before, c);
          BlackUpToKept(before, c, succ, i);
        } else if c[v] == Gray {
          ghost var k :| 0 <= k < |path| && path[k] == v;
          cycle := path[k..] + [v];
          BackEdgeCloses(d, path, k);
          return true, c, cycle, r, nx;
        } else {
          BlackUpToNext(c, succ, i);
        }
      } else {
        BlackUpToNext(c, succ, i);
      }
      i := i + 1;
    }
    forall v | v in d[u] ensures v in c && c[v] == Black {
      assert v in succ;
      var j :| 0 <= j < |succ| && succ[j] == v;
      assert BlackUpTo(c, succ, |succ|);
    }
    return false, c, [], r, nx;
  }

  /** Every edge starts at a stored node; `hasCycle` dereferences `adj[e.source]` for every edge. */
  predicate SourcesAreNodes(nodes: map<string, Node>, edges: map<string, Edge>)
  {
    forall k :: k in edges ==> edges[k].source in nodes
  }

  /**
   The adjacency lists after `adj[e.source].push(e.target)` for the edges with
   keys `ks`, in turn.
   */
  ghost function Pushed(adj: map<string, seq<string>>, edges: map<string, Edge>, ks: seq<string>): (r: map<string, seq<string>>)
    requires forall k :: k in ks ==> k in edges && edges[k].source in adj
    ensures r.Keys == adj.Keys
  {
    if ks == [] then adj
    else
      var m := Pushed(adj, edges, ks[..|ks| - 1]);
      var e := edges[ks[|ks| - 1]];
      m[e.source := m[e.source] + [e.target]]
  }

  /** After the pushes, the list of `u` holds its old entries and the targets of the pushed edges from `u`. */
  lemma {:induction false} PushedTargets(adj: map<string, seq<string>>, edges: map<string, Edge>, ks: seq<string>, u: string, v: string)
    requires forall k :: k in ks ==> k in edges && edges[k].source in adj
    requires u in adj
    ensures v in Pushed(adj, edges, ks)[u]
            <==> v in adj[u] || exists k :: k in ks && edges[k].source == u && edges[k].target == v
  {
    if ks != [] {
      var init := ks[..|ks| - 1];
      assert forall x :: x in ks <==> x in init || x == ks[|ks| - 1];
      PushedTargets(adj, edges, init, u, v);
    }
  }

  /** The adjacency lists `hasCycle` builds from all edges describe exactly the arcs between nodes. */
  lemma AdjacencyBuilt(nodes: set<string>, edges: map<string, Edge>, order: seq<string>)
    requires forall k :: k in edges ==> edges[k].source in nodes
    requires forall k :: k in order <==> k in edges
    ensures AdjacencyOf(Pushed(map x | x in nodes :: [], edges, order), Arcs(nodes, edges))
  {
    var empty: map<string, seq<string>> := map x | x in nodes :: [];
    var adj := Pushed(empty, edges, order);
    var d := Arcs(nodes, edges);
    forall u, v | u in adj
      ensures v in d[u] <==> v in adj[u] && v in d
    {
      PushedTargets(empty, edges, order, u, v);
    }
  }

  /** The colour map `hasCycle` starts from: every node id white. */
  method AllWhite(ids: seq<string>) returns (color: map<string, Color>)
    ensures color == map x | x in ids :: White
  {
    color := map[];
    var i := 0;
    while i < |ids|
      invariant 0 <= i <= |ids|
      invariant color == map x | x in ids[..i] :: White
    {
      assert forall x :: x in ids[..i + 1] <==> x in ids[..i] || x == ids[i] by {
        assert ids[..i + 1] == ids[..i] + [ids[i]];
      }
      color := color[ids[i] := White];
      i := i + 1;
    }
    assert ids[..i] == ids;
  }

  /** The adjacency lists `hasCycle` starts from: an empty list per node id. */
  method EmptyLists(ids: seq<string>) returns (adj: map<string, seq<string>>)
    ensures adj == map x | x in ids :: []
  {
    adj := map[];
    var i := 0;
    while i < |ids|
      invariant 0 <= i <= |ids|
      invariant adj == map x | x in ids[..i] :: []
    {
      assert forall x :: x in ids[..i + 1] <==> x in ids[..i] || x == ids[i] by {
        assert ids[..i + 1] == ids[..i] + [ids[i]];
      }
      adj := adj[ids[i] := []];
      i := i + 1;
    }
    assert ids[..i] == ids;
  }

  /** `adj[e.source].push(e.target)` for the edges with keys `ks`, in turn. */
  method PushAll(adj: map<string, seq<string>>, edges: map<string, Edge>, ks: seq<string>)
    returns (adj': map<string, seq<string>>)
    requires forall k :: k in ks ==> k in edges && edges[k].source in adj
    ensures adj' == Pushed(adj, edges, ks)
  {
    adj' := adj;
    var i := 0;
    while i < |ks|
      invariant 0 <= i <= |ks|
      invariant adj' == Pushed(adj, edges, ks[..i])
    {
      assert ks[..i + 1][..i] == ks[..i];
      var e := edges[ks[i]];
      adj' := adj'[e.source := adj'[e.source] + [e.target]];
      i := i + 1;
    }
    assert ks[..i] == ks;
  }

  /**
   The outer loop of `hasCycle`: a DFS from every node of `ids` that is still
   white, in order, stopping at the first cycle found.
   */
  method SearchFrom(ghost d: Digraph, adj: map<string, seq<string>>, color: map<string, Color>, ids: seq<string>)
    returns (found: bool)
    requires AdjacencyOf(adj, d)
    requires color == map x | x in d :: White
    requires forall u :: u in d <==> u in ids
    ensures found <==> Cyclic(d)
  {
    var c := color;
    ghost var rank: map<string, nat> := map[];
    ghost var next: nat := 0;
    var i := 0;
    while i < |ids|
      invariant 0 <= i <= |ids|
      invariant Colours(c, d)
      invariant OnStack(d, c, [])
      invariant Finished(d, c, rank, next)
      invariant BlackUpTo(c, ids, i)
    {
      var id := ids[i];
      if c[id] == White {
        ghost var cycle: seq<string>;
        ghost var before := c;
        found, c, cycle, rank, next := Dfs(d, adj, id, c, [], rank, next);
        if found {
          return;
        }
        BlackUpToKept(before, c, ids, i);
      } else {
        BlackUpToNext(c, ids, i);
      }
      i := i + 1;
    }
    assert Descending(d, rank) by {
      forall u, v | Step(d, u, v) ensures u in rank && v in rank && rank[v] < rank[u] {
        var j :| 0 <= j < |ids| && ids[j] == u;
        assert BlackUpTo(c, ids, |ids|);
      }
    }
    RankedIsAcyclic(d, rank);
    return false;
  }

  /**
   `hasCycle(g)`: whether the directed edges between stored nodes contain a
   cycle. It reads the graph and changes nothing.
   */
  method HasCycle(g: Graph) returns (b: bool)
    requires g.Valid() && SourcesAreNodes(g.nodes, g.edges)
    ensures b <==> Cyclic(Arcs(g.nodes.Keys, g.edges))
  {
    ghost var d := Arcs(g.nodes.Keys, g.edges);
    var nodeIds, edgeIds := g.nodeOrder, g.edgeOrder;
    var color := AllWhite(nodeIds);
    var adj := EmptyLists(nodeIds);
    ghost var empty := adj;
    assert empty == map x | x in g.nodes.Keys :: [];
    adj := PushAll(adj, g.edges, edgeIds);
    AdjacencyBuilt(g.nodes.Keys, g.edges, edgeIds);
    assert color == map x | x in d :: White;
    b := SearchFrom(d, adj, color, nodeIds);
  }
}
