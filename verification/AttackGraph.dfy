// The dependency graph that lateral movement follows, read in both
// directions, and the bounded breadth-first search over it.
module AttackGraph {
  import opened Assets

  datatype Dependency = Dependency(source: Asset, target: Asset, relation: string)

  // An outgoing step, and equally a hop of a path: where to, and by what relation.
  datatype Hop = Hop(asset: Asset, via: string)

  const MAX_DEPTH := 4

  function Reverse(relation: string): string {
    relation + " (reverse)"
  }

  // The adjacency list of a node, in the order the edges were added: each
  // dependency contributes its own direction first, then the reverse one.
  function EdgesOf(deps: seq<Dependency>, node: Asset): seq<Hop> {
    if deps == [] then []
    else
      var front, dep := deps[..|deps| - 1], deps[|deps| - 1];
      EdgesOf(front, node)
        + (if dep.source == node then [Hop(dep.target, dep.relation)] else [])
        + (if dep.target == node then [Hop(dep.source, Reverse(dep.relation))] else [])
  }

  function Lookup(adjacency: map<Asset, seq<Hop>>, node: Asset): seq<Hop> {
    if node in adjacency then adjacency[node] else []
  }

  ghost predicate Mirrors(adjacency: map<Asset, seq<Hop>>, deps: seq<Dependency>) {
    forall a :: Lookup(adjacency, a) == EdgesOf(deps, a)
  }

  method BuildAdjacency(deps: seq<Dependency>) returns (adjacency: map<Asset, seq<Hop>>)
    ensures Mirrors(adjacency, deps)
  {
    adjacency := map[];
    for i := 0 to |deps|
      invariant Mirrors(adjacency, deps[..i])
    {
      MirrorsNext(adjacency, deps, i, i + 1);
      adjacency := AddEdge(adjacency, deps[i].source, deps[i].target, deps[i].relation);
      adjacency := AddEdge(adjacency, deps[i].target, deps[i].source, Reverse(deps[i].relation));
    }
    assert deps[..|deps|] == deps;
  }

  lemma MirrorsNext(adjacency: map<Asset, seq<Hop>>, deps: seq<Dependency>, i: nat, next: nat)
    requires next == i + 1 <= |deps| && Mirrors(adjacency, deps[..i])
    ensures var dep := deps[i];
      Mirrors(AddEdge(AddEdge(adjacency, dep.source, dep.target, dep.relation), dep.target, dep.source,
                      Reverse(dep.relation)),
              deps[..next])
  {
    var dep := deps[i];
    var adjacency' := AddEdge(AddEdge(adjacency, dep.source, dep.target, dep.relation), dep.target, dep.source,
                              Reverse(dep.relation));
    forall a ensures Lookup(adjacency', a) == EdgesOf(deps[..next], a) {
      EdgesSnoc(deps, i, a);
    }
  }

  lemma EdgesSnoc(deps: seq<Dependency>, i: nat, node: Asset)
    requires i < |deps|
    ensures EdgesOf(deps[..i + 1], node)
         == EdgesOf(deps[..i], node)
          + (if deps[i].source == node then [Hop(deps[i].target, deps[i].relation)] else [])
          + (if deps[i].target == node then [Hop(deps[i].source, Reverse(deps[i].relation))] else [])
  {
    assert deps[..i + 1][..i] == deps[..i];
  }

  function AddEdge(adjacency: map<Asset, seq<Hop>>, source: Asset, target: Asset,
                   relation: string): map<Asset, seq<Hop>> {
    adjacency[source := Lookup(adjacency, source) + [Hop(target, relation)]]
  }

  // ---- The search ----

  function Nodes(hops: seq<Hop>): seq<Asset> {
    seq(|hops|, i requires 0 <= i < |hops| => hops[i].asset)
  }

  // The edges that lead somewhere new, in order, each new node once.
  function Fresh(edges: seq<Hop>, visited: set<Asset>): seq<Hop> {
    if edges == [] then []
    else if edges[0].asset in visited then Fresh(edges[1..], visited)
    else [edges[0]] + Fresh(edges[1..], visited + {edges[0].asset})
  }

  function LayerEdges(deps: seq<Dependency>, frontier: seq<Asset>): seq<Hop> {
    if frontier == [] then []
    else LayerEdges(deps, frontier[..|frontier| - 1]) + EdgesOf(deps, frontier[|frontier| - 1])
  }

  function Bfs(deps: seq<Dependency>, frontier: seq<Asset>, visited: set<Asset>, depth: nat): seq<Hop>
    decreases depth
  {
    if depth == 0 then []
    else
      var next := Fresh(LayerEdges(deps, frontier), visited);
      next + Bfs(deps, Nodes(next), visited + (set x | x in Nodes(next)), depth - 1)
  }

  function HopsFrom(deps: seq<Dependency>, entry: Asset): seq<Hop> {
    Bfs(deps, [entry], {entry}, MAX_DEPTH)
  }

  lemma {:induction false} BfsFromNowhere(deps: seq<Dependency>, visited: set<Asset>, depth: nat)
    ensures Bfs(deps, [], visited, depth) == []
  {
    if depth > 0 {
      BfsFromNowhere(deps, visited, depth - 1);
      assert visited + (set x | x in Nodes([])) == visited;
    }
  }

  // One more edge at the end of the list.
  lemma {:induction false} FreshSnoc(edges: seq<Hop>, e: Hop, visited: set<Asset>)
    ensures Fresh(edges + [e], visited)
         == if e.asset in visited || e.asset in Nodes(Fresh(edges, visited)) then Fresh(edges, visited)
            else Fresh(edges, visited) + [e]
  {
    if edges != [] {
      var first, rest := edges[0], edges[1..];
      var visited' := if first.asset in visited then visited else visited + {first.asset};
      FreshSnoc(rest, e, visited');
      FreshFirst(edges, visited);
      FreshFirst(edges + [e], visited);
      hide Fresh;
      assert (edges + [e])[1..] == rest + [e];
      var found := Fresh(rest, visited');
      if first.asset !in visited {
        assert Nodes([first] + found) == [first.asset] + Nodes(found);
        assert [first] + (found + [e]) == ([first] + found) + [e];
      }
    }
  }

  lemma FreshFirst(edges: seq<Hop>, visited: set<Asset>)
    requires edges != []
    ensures Fresh(edges, visited)
         == if edges[0].asset in visited then Fresh(edges[1..], visited)
            else [edges[0]] + Fresh(edges[1..], visited + {edges[0].asset})
  {
  }

  lemma {:induction false} FreshFacts(edges: seq<Hop>, visited: set<Asset>)
    ensures forall x :: x in Nodes(Fresh(edges, visited)) <==> x in Nodes(edges) && x !in visited
    ensures Distinct(Nodes(Fresh(edges, visited)))
    ensures forall h :: h in Fresh(edges, visited) ==> h in edges
  {
    if edges != [] {
      assert edges == [edges[0]] + edges[1..];
      assert Nodes(edges) == [edges[0].asset] + Nodes(edges[1..]);
      var visited' := if edges[0].asset in visited then visited else visited + {edges[0].asset};
      FreshFacts(edges[1..], visited');
      if edges[0].asset !in visited {
        assert Nodes(Fresh(edges, visited)) == [edges[0].asset] + Nodes(Fresh(edges[1..], visited'));
      }
    }
  }

  ghost predicate Distinct(s: seq<Asset>) {
    forall i, j :: 0 <= i < j < |s| ==> s[i] != s[j]
  }

  // ---- Distance ----

  ghost predicate Adjacent(deps: seq<Dependency>, a: Asset, b: Asset) {
    exists dep :: dep in deps && ((dep.source == a && dep.target == b) || (dep.source == b && dep.target == a))
  }

  ghost predicate IsWalk(deps: seq<Dependency>, walk: seq<Asset>) {
    walk != [] && forall i :: 0 <= i < |walk| - 1 ==> Adjacent(deps, walk[i], walk[i + 1])
  }

  // b is at undirected distance at most k from a: a walk of at most k edges.
  ghost predicate Within(deps: seq<Dependency>, a: Asset, b: Asset, k: nat) {
    exists walk :: IsWalk(deps, walk) && |walk| <= k + 1 && walk[0] == a && walk[|walk| - 1] == b
  }

  // Reading edges in both directions makes reachability symmetric.
  lemma WithinIsSymmetric(deps: seq<Dependency>, a: Asset, b: Asset, k: nat)
    requires Within(deps, a, b, k)
    ensures Within(deps, b, a, k)
  {
    var walk :| IsWalk(deps, walk) && |walk| <= k + 1 && walk[0] == a && walk[|walk| - 1] == b;
    var back := seq(|walk|, i requires 0 <= i < |walk| => walk[|walk| - 1 - i]);
    forall i | 0 <= i < |back| - 1 ensures Adjacent(deps, back[i], back[i + 1]) {
      var j := |walk| - 2 - i;
      assert Adjacent(deps, walk[j], walk[j + 1]);
    }
    assert IsWalk(deps, back);
  }

  lemma WithinZero(deps: seq<Dependency>, a: Asset, b: Asset)
    ensures Within(deps, a, b, 0) <==> a == b
  {
    assert IsWalk(deps, [a]);
  }

  lemma WithinNext(deps: seq<Dependency>, a: Asset, b: Asset, k: nat)
    ensures Within(deps, a, b, k + 1)
       <==> Within(deps, a, b, k) || exists c :: Within(deps, a, c, k) && Adjacent(deps, c, b)
  {
    if Within(deps, a, b, k + 1) && !Within(deps, a, b, k) {
      var walk :| IsWalk(deps, walk) && |walk| <= k + 2 && walk[0] == a && walk[|walk| - 1] == b;
      assert |walk| == k + 2;
      var front := walk[..k + 1];
      assert IsWalk(deps, front);
      assert Adjacent(deps, walk[k], walk[k + 1]);
      assert Within(deps, a, front[k], k);
    }
    if c :| Within(deps, a, c, k) && Adjacent(deps, c, b) {
      hide Adjacent;
      var walk :| IsWalk(deps, walk) && |walk| <= k + 1 && walk[0] == a && walk[|walk| - 1] == c;
      assert IsWalk(deps, walk + [b]);
    }
  }

  lemma {:induction false} WithinMonotone(deps: seq<Dependency>, a: Asset, b: Asset, j: nat, k: nat)
    requires j <= k && Within(deps, a, b, j)
    ensures Within(deps, a, b, k)
  {
  }

  lemma {:induction false} EdgesAreAdjacency(deps: seq<Dependency>, a: Asset, b: Asset)
    ensures b in Nodes(EdgesOf(deps, a)) <==> Adjacent(deps, a, b)
  {
    if deps != [] {
      var front, dep := deps[..|deps| - 1], deps[|deps| - 1];
      EdgesAreAdjacency(front, a, b);
      AdjacentSnoc(front, dep, a, b);
      assert deps == front + [dep];
      var out := if dep.source == a then [Hop(dep.target, dep.relation)] else [];
      var back := if dep.target == a then [Hop(dep.source, Reverse(dep.relation))] else [];
      NodesAppend(EdgesOf(front, a) + out, back);
      NodesAppend(EdgesOf(front, a), out);
      assert Nodes(out) == if dep.source == a then [dep.target] else [];
      assert Nodes(back) == if dep.target == a then [dep.source] else [];
    }
  }

  lemma AdjacentSnoc(deps: seq<Dependency>, dep: Dependency, a: Asset, b: Asset)
    ensures Adjacent(deps + [dep], a, b)
       <==> Adjacent(deps, a, b) || (dep.source == a && dep.target == b) || (dep.source == b && dep.target == a)
  {
    var all := deps + [dep];
    if d :| d in deps && ((d.source == a && d.target == b) || (d.source == b && d.target == a)) {
      assert d in all;
    }
    assert dep in all;
  }

  lemma NodesAppend(a: seq<Hop>, b: seq<Hop>)
    ensures Nodes(a + b) == Nodes(a) + Nodes(b)
  {
  }

  lemma {:induction false} LayerEdgesAreAdjacency(deps: seq<Dependency>, frontier: seq<Asset>, b: Asset)
    ensures b in Nodes(LayerEdges(deps, frontier)) <==> exists a :: a in frontier && Adjacent(deps, a, b)
  {
    if frontier != [] {
      var front, last := frontier[..|frontier| - 1], frontier[|frontier| - 1];
      assert frontier == front + [last];
      LayerEdgesAreAdjacency(deps, front, b);
      EdgesAreAdjacency(deps, last, b);
      NodesAppend(LayerEdges(deps, front), EdgesOf(deps, last));
    }
  }

  // ---- The search computes distances ----

  // After d layers: visited is the ball of radius d, and only frontier nodes
  // can have neighbours outside it.
  ghost predicate IsLayer(deps: seq<Dependency>, entry: Asset, d: nat, frontier: seq<Asset>, visited: set<Asset>) {
    && (forall x :: x in visited <==> Within(deps, entry, x, d))
    && (forall x :: x in frontier ==> x in visited)
    && (forall x, y :: x in visited && Adjacent(deps, x, y) && y !in visited ==> x in frontier)
  }

  function NextFrontier(deps: seq<Dependency>, frontier: seq<Asset>, visited: set<Asset>): seq<Asset> {
    Nodes(Fresh(LayerEdges(deps, frontier), visited))
  }

  lemma BfsUnfolds(deps: seq<Dependency>, frontier: seq<Asset>, visited: set<Asset>, depth: nat)
    requires depth > 0
    ensures var next := NextFrontier(deps, frontier, visited);
      Nodes(Bfs(deps, frontier, visited, depth))
        == next + Nodes(Bfs(deps, next, visited + (set x | x in next), depth - 1))
  {
  }

  lemma NextLayer(deps: seq<Dependency>, entry: Asset, d: nat, frontier: seq<Asset>, visited: set<Asset>)
    requires IsLayer(deps, entry, d, frontier, visited)
    ensures var next := NextFrontier(deps, frontier, visited);
      IsLayer(deps, entry, d + 1, next, visited + (set x | x in next))
  {
    var next := NextFrontier(deps, frontier, visited);
    FreshFacts(LayerEdges(deps, frontier), visited);
    var visited' := visited + (set x | x in next);
    forall x ensures x in visited' <==> Within(deps, entry, x, d + 1) {
      WithinNext(deps, entry, x, d);
      LayerEdgesAreAdjacency(deps, frontier, x);
    }
    forall x, y | x in visited' && Adjacent(deps, x, y) && y !in visited' ensures x in next {
      LayerEdgesAreAdjacency(deps, frontier, y);
    }
  }

  ghost predicate ByDistance(deps: seq<Dependency>, entry: Asset, nodes: seq<Asset>) {
    forall i, j, k: nat :: 0 <= i < j < |nodes| && Within(deps, entry, nodes[j], k) ==> Within(deps, entry, nodes[i], k)
  }

  // A search that stood at `visited` found `nodes`: the rest of the ball of
  // radius k, without repetition.
  ghost predicate Finds(deps: seq<Dependency>, entry: Asset, visited: set<Asset>, nodes: seq<Asset>, k: nat) {
    && (forall x :: x in visited || x in nodes <==> Within(deps, entry, x, k))
    && (forall x :: x in nodes ==> x !in visited)
    && Distinct(nodes)
  }

  lemma {:induction false} BfsIsBall(deps: seq<Dependency>, entry: Asset, d: nat, frontier: seq<Asset>,
                                     visited: set<Asset>, depth: nat, nodes: seq<Asset>)
    requires IsLayer(deps, entry, d, frontier, visited)
    requires nodes == Nodes(Bfs(deps, frontier, visited, depth))
    ensures Finds(deps, entry, visited, nodes, d + depth)
    ensures ByDistance(deps, entry, nodes)
    decreases depth
  {
    hide IsLayer, Finds, ByDistance;
    if depth == 0 {
      NothingMoreToFind(deps, entry, d, frontier, visited);
    } else {
      var next := NextFrontier(deps, frontier, visited);
      var visited' := visited + (set x | x in next);
      var later := Nodes(Bfs(deps, next, visited', depth - 1));
      NextLayer(deps, entry, d, frontier, visited);
      BfsIsBall(deps, entry, d + 1, next, visited', depth - 1, later);
      BfsUnfolds(deps, frontier, visited, depth);
      JoinLayers(deps, entry, d, frontier, visited, later, nodes, d + depth);
    }
  }

  lemma NothingMoreToFind(deps: seq<Dependency>, entry: Asset, d: nat, frontier: seq<Asset>, visited: set<Asset>)
    requires IsLayer(deps, entry, d, frontier, visited)
    ensures Finds(deps, entry, visited, Nodes([]), d) && ByDistance(deps, entry, Nodes([]))
  {
  }

  lemma JoinLayers(deps: seq<Dependency>, entry: Asset, d: nat, frontier: seq<Asset>, visited: set<Asset>,
                   later: seq<Asset>, nodes: seq<Asset>, k: nat)
    requires IsLayer(deps, entry, d, frontier, visited)
    requires nodes == NextFrontier(deps, frontier, visited) + later
    requires Finds(deps, entry, visited + (set x | x in NextFrontier(deps, frontier, visited)), later, k)
    requires ByDistance(deps, entry, later)
    ensures Finds(deps, entry, visited, nodes, k) && ByDistance(deps, entry, nodes)
  {
    var next := NextFrontier(deps, frontier, visited);
    NextLayer(deps, entry, d, frontier, visited);
    FreshFacts(LayerEdges(deps, frontier), visited);
    FindsMore(deps, entry, visited, next, later, k);
    LayersByDistance(deps, entry, d, visited, next, later);
  }

  lemma FindsMore(deps: seq<Dependency>, entry: Asset, visited: set<Asset>, next: seq<Asset>, later: seq<Asset>, k: nat)
    requires Finds(deps, entry, visited + (set x | x in next), later, k)
    requires Distinct(next) && forall x :: x in next ==> x !in visited
    ensures Finds(deps, entry, visited, next + later, k)
  {
    var nodes := next + later;
    forall i, j | 0 <= i < j < |nodes| ensures nodes[i] != nodes[j] {
      if i < |next| <= j {
        assert nodes[i] in next && nodes[j] in later;
      }
    }
  }

  lemma BeyondBall(deps: seq<Dependency>, entry: Asset, x: Asset, d: nat, k: nat)
    requires !Within(deps, entry, x, d) && Within(deps, entry, x, k)
    ensures k > d
  {
    if k <= d {
      WithinMonotone(deps, entry, x, k, d);
    }
  }

  lemma LayersByDistance(deps: seq<Dependency>, entry: Asset, d: nat, visited: set<Asset>, next: seq<Asset>,
                         later: seq<Asset>)
    requires forall x :: x in visited <==> Within(deps, entry, x, d)
    requires forall x :: x in next ==> x !in visited && Within(deps, entry, x, d + 1)
    requires forall x :: x in later ==> x !in visited
    requires ByDistance(deps, entry, later)
    ensures ByDistance(deps, entry, next + later)
  {
    var nodes := next + later;
    forall i, j, k: nat | 0 <= i < j < |nodes| && Within(deps, entry, nodes[j], k)
      ensures Within(deps, entry, nodes[i], k)
    {
      assert nodes[j] in next || nodes[j] in later;
      if i < |next| {
        assert nodes[i] in next;
        BeyondBall(deps, entry, nodes[j], d, k);
        WithinMonotone(deps, entry, nodes[i], d + 1, k);
      } else {
        assert nodes[i] == later[i - |next|] && nodes[j] == later[j - |next|];
      }
    }
  }

  // The hops of a path are exactly the assets at distance one to four from
  // the entry, each listed once, nearest first.
  lemma HopsAreBall(deps: seq<Dependency>, entry: Asset)
    ensures var nodes := Nodes(HopsFrom(deps, entry));
      && (forall x :: x in nodes <==> x != entry && Within(deps, entry, x, 4))
      && Distinct(nodes)
      && ByDistance(deps, entry, nodes)
  {
    forall x ensures x in {entry} <==> Within(deps, entry, x, 0) {
      WithinZero(deps, entry, x);
    }
    BfsIsBall(deps, entry, 0, [entry], {entry}, MAX_DEPTH, Nodes(HopsFrom(deps, entry)));
  }

  // ---- The order of discovery ----

  lemma {:induction false} LayerEdgesConcat(deps: seq<Dependency>, a: seq<Asset>, b: seq<Asset>)
    ensures LayerEdges(deps, a + b) == LayerEdges(deps, a) + LayerEdges(deps, b)
  {
    if b == [] {
      assert a + b == a;
    } else {
      assert (a + b)[..|a + b| - 1] == a + b[..|b| - 1];
      LayerEdgesConcat(deps, a, b[..|b| - 1]);
    }
  }

  function NodeSet(hops: seq<Hop>): set<Asset> {
    set x | x in Nodes(hops)
  }

  lemma {:induction false} FreshConcat(a: seq<Hop>, b: seq<Hop>, visited: set<Asset>)
    ensures Fresh(a + b, visited) == Fresh(a, visited) + Fresh(b, visited + NodeSet(Fresh(a, visited)))
  {
    if a == [] {
      assert a + b == b && visited + NodeSet([]) == visited;
    } else {
      var visited' := if a[0].asset in visited then visited else visited + {a[0].asset};
      assert (a + b)[1..] == a[1..] + b;
      FreshConcat(a[1..], b, visited');
      FreshFirst(a, visited);
      FreshFirst(a + b, visited);
      hide Fresh;
      var found := Fresh(a[1..], visited');
      if a[0].asset !in visited {
        assert Nodes([a[0]] + found) == [a[0].asset] + Nodes(found);
        assert visited + NodeSet([a[0]] + found) == visited' + NodeSet(found);
      }
    }
  }

  // The layers together are one scan of a queue: the edges of the first
  // asset, then of the second and so on, each new asset joining the end.
  lemma {:induction false} BfsIsScan(deps: seq<Dependency>, frontier: seq<Asset>, visited: set<Asset>, depth: nat)
    ensures Bfs(deps, frontier, visited, depth + 1)
         == Fresh(LayerEdges(deps, frontier + Nodes(Bfs(deps, frontier, visited, depth))), visited)
    decreases depth
  {
    hide Fresh, LayerEdges, NodeSet, Bfs, Nodes;
    var next := Fresh(LayerEdges(deps, frontier), visited);
    var visited' := visited + NodeSet(next);
    BfsNext(deps, frontier, visited, depth + 1);
    if depth == 0 {
      NothingLeft(deps, frontier, visited);
      NothingLeft(deps, Nodes(next), visited');
      assert frontier + [] == frontier && next + [] == next;
    } else {
      BfsNext(deps, frontier, visited, depth);
      BfsIsScan(deps, Nodes(next), visited', depth - 1);
      var later := Bfs(deps, Nodes(next), visited', depth - 1);
      NodesAppend(next, later);
      LayerEdgesConcat(deps, frontier, Nodes(next) + Nodes(later));
      FreshConcat(LayerEdges(deps, frontier), LayerEdges(deps, Nodes(next) + Nodes(later)), visited);
    }
  }

  lemma NothingLeft(deps: seq<Dependency>, frontier: seq<Asset>, visited: set<Asset>)
    ensures Bfs(deps, frontier, visited, 0) == [] && Nodes([]) == []
  {
  }

  lemma BfsNext(deps: seq<Dependency>, frontier: seq<Asset>, visited: set<Asset>, depth: nat)
    requires depth > 0
    ensures var next := Fresh(LayerEdges(deps, frontier), visited);
      Bfs(deps, frontier, visited, depth) == next + Bfs(deps, Nodes(next), visited + NodeSet(next), depth - 1)
  {
  }

  // The hops are listed as a queue finds them: scan the edges of the entry and
  // then of the hops of the first three layers, in the order they were found.
  lemma HopsInQueueOrder(deps: seq<Dependency>, entry: Asset)
    ensures HopsFrom(deps, entry)
         == Fresh(LayerEdges(deps, [entry] + Nodes(Bfs(deps, [entry], {entry}, 3))), {entry})
  {
    BfsIsScan(deps, [entry], {entry}, 3);
  }

  // And the edges of an asset in the order of the dependencies.
  lemma {:induction false} EdgesInOrder(deps: seq<Dependency>, node: Asset) returns (at: seq<nat>)
    ensures |at| == |EdgesOf(deps, node)|
    ensures forall i, j :: 0 <= i < j < |at| ==> at[i] <= at[j]
    ensures forall i :: 0 <= i < |at| ==>
      && at[i] < |deps|
      && var dep, edge := deps[at[i]], EdgesOf(deps, node)[i];
      || (dep.source == node && edge == Hop(dep.target, dep.relation))
      || (dep.target == node && edge == Hop(dep.source, dep.relation + " (reverse)"))
  {
    at := [];
    if deps != [] {
      var n := |deps| - 1;
      at := EdgesInOrder(deps[..n], node);
      at := at + (if deps[n].source == node then [n] else []) + (if deps[n].target == node then [n] else []);
    }
  }

  // Entering anywhere within four steps of an asset reaches it, and the
  // other way round.
  lemma ReachIsMutual(deps: seq<Dependency>, a: Asset, b: Asset)
    ensures b in Nodes(HopsFrom(deps, a)) <==> a in Nodes(HopsFrom(deps, b))
  {
    HopsAreBall(deps, a);
    HopsAreBall(deps, b);
    if Within(deps, a, b, MAX_DEPTH) {
      WithinIsSymmetric(deps, a, b, MAX_DEPTH);
    }
    if Within(deps, b, a, MAX_DEPTH) {
      WithinIsSymmetric(deps, b, a, MAX_DEPTH);
    }
  }

  // ---- Where a hop comes from ----

  ghost predicate HasParent(deps: seq<Dependency>, starts: seq<Asset>, hops: seq<Hop>, i: nat)
    requires i < |hops|
  {
    exists p :: (p in starts || p in Nodes(hops[..i])) && hops[i] in EdgesOf(deps, p)
  }

  lemma {:induction false} LayerEdgesStart(deps: seq<Dependency>, frontier: seq<Asset>, h: Hop)
    requires h in LayerEdges(deps, frontier)
    ensures exists p :: p in frontier && h in EdgesOf(deps, p)
  {
    var front, last := frontier[..|frontier| - 1], frontier[|frontier| - 1];
    assert frontier == front + [last];
    if h in LayerEdges(deps, front) {
      LayerEdgesStart(deps, front, h);
    }
  }

  lemma {:induction false} BfsHasParents(deps: seq<Dependency>, frontier: seq<Asset>, visited: set<Asset>, depth: nat,
                                         i: nat)
    requires i < |Bfs(deps, frontier, visited, depth)|
    ensures HasParent(deps, frontier, Bfs(deps, frontier, visited, depth), i)
    decreases depth
  {
    var found := Fresh(LayerEdges(deps, frontier), visited);
    var next := Nodes(found);
    var later := Bfs(deps, next, visited + (set x | x in next), depth - 1);
    var hops := Bfs(deps, frontier, visited, depth);
    assert hops == found + later;
    hide Bfs, Fresh, LayerEdges, EdgesOf;
    if i < |found| {
      FreshFacts(LayerEdges(deps, frontier), visited);
      assert hops[i] in found;
      LayerEdgesStart(deps, frontier, hops[i]);
    } else {
      BfsHasParents(deps, next, visited + (set x | x in next), depth - 1, i - |found|);
      LaterParent(deps, frontier, found, later, i - |found|);
    }
  }

  lemma LaterParent(deps: seq<Dependency>, frontier: seq<Asset>, found: seq<Hop>, later: seq<Hop>, j: nat)
    requires j < |later| && HasParent(deps, Nodes(found), later, j)
    ensures HasParent(deps, frontier, found + later, |found| + j)
  {
    var p :| (p in Nodes(found) || p in Nodes(later[..j])) && later[j] in EdgesOf(deps, p);
    var hops := found + later;
    assert hops[..|found| + j] == found + later[..j];
    NodesAppend(found, later[..j]);
    assert p in Nodes(hops[..|found| + j]) && hops[|found| + j] == later[j];
  }

  // Every hop is a dependency, in one direction or the other, from the entry
  // or from a hop listed before it.
  lemma HopsAreConnected(deps: seq<Dependency>, entry: Asset, i: nat)
    requires i < |HopsFrom(deps, entry)|
    ensures HasParent(deps, [entry], HopsFrom(deps, entry), i)
  {
    BfsHasParents(deps, [entry], {entry}, MAX_DEPTH, i);
  }

  lemma {:induction false} EdgeMeans(deps: seq<Dependency>, node: Asset, h: Hop)
    ensures h in EdgesOf(deps, node)
       <==> exists d :: d in deps && ((d.source == node && h == Hop(d.target, d.relation))
                                   || (d.target == node && h == Hop(d.source, d.relation + " (reverse)")))
  {
    if deps != [] {
      var front, dep := deps[..|deps| - 1], deps[|deps| - 1];
      assert deps == front + [dep];
      EdgeMeans(front, node, h);
    }
  }
}
