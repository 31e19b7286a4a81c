/**
 * First hop from the policy node toward an overlay's terminating node
 * (clabgen/s88/site/overlay_paths.py): the site's adjacency, a breadth-first
 * search with a parent dictionary, and the walk back along the parents.
 */
module OverlayPaths {
  import opened Common
  import opened Sorting

  /** Node names, and per link the node names of its endpoints. */
  datatype Site = Site(nodes: seq<Name>, links: seq<seq<Name>>)

  type Graph = map<Name, set<Name>>

  // ------------------------------------------------------------------ adjacency

  predicate Joined(links: seq<seq<Name>>, a: Name, b: Name) {
    exists link | link in links :: a in link && b in link
  }

  /** `a` and `b` are distinct site nodes that share a link. */
  predicate Adjacent(site: Site, a: Name, b: Name) {
    a != b && a in site.nodes && b in site.nodes && Joined(site.links, a, b)
  }

  predicate Edge(g: Graph, a: Name, b: Name) {
    a in g && b in g[a]
  }

  ghost predicate IsAdjacency(site: Site, graph: Graph) {
    && (forall a :: a in graph <==> a in site.nodes)
    && (forall a, b :: Edge(graph, a, b) <==> Adjacent(site, a, b))
  }

  method Adjacency(site: Site) returns (graph: Graph)
    ensures IsAdjacency(site, graph)
  {
    hide IsAdjacency;
    graph := NoEdges(site.nodes);
    for i := 0 to |site.links|
      invariant IsAdjacency(Site(site.nodes, site.links[..i]), graph)
    {
      var link := site.links[i];
      LinkKeys(site.nodes, site.links[..i], graph);
      var names := MembersOf(link, graph);
      ghost var before := graph;
      graph := AddLink(graph, names);
      LinkAdded(site.nodes, site.links[..i], link, names, before, graph);
      assert site.links[..i + 1] == site.links[..i] + [link];
    }
    assert site.links[..|site.links|] == site.links;
  }

  /** Every site node, without neighbours yet. */
  method NoEdges(nodes: seq<Name>) returns (graph: Graph)
    ensures IsAdjacency(Site(nodes, []), graph)
  {
    graph := map[];
    for i := 0 to |nodes|
      invariant forall a :: a in graph <==> a in nodes[..i]
      invariant forall a | a in graph :: graph[a] == {}
    {
      graph := graph[nodes[i] := {}];
    }
    assert nodes[..|nodes|] == nodes;
  }

  /** The members of a link that are site nodes, in link order. */
  method MembersOf(link: seq<Name>, graph: Graph) returns (names: seq<Name>)
    ensures forall a :: a in names <==> a in link && a in graph
  {
    names := [];
    for j := 0 to |link|
      invariant forall a :: a in names <==> a in link[..j] && a in graph
    {
      if link[j] in graph {
        names := names + [link[j]];
      }
    }
    assert link[..|link|] == link;
  }

  lemma LinkKeys(nodes: seq<Name>, links: seq<seq<Name>>, graph: Graph)
    requires IsAdjacency(Site(nodes, links), graph)
    ensures forall a :: a in graph <==> a in nodes
  {
  }

  lemma LinkAdded(nodes: seq<Name>, links: seq<seq<Name>>, link: seq<Name>, names: seq<Name>,
                  before: Graph, graph: Graph)
    requires IsAdjacency(Site(nodes, links), before) && graph.Keys == before.Keys
    requires forall a :: a in names <==> a in link && a in nodes
    requires forall a, b :: Edge(graph, a, b) <==> Edge(before, a, b) || (a in names && b in names && a != b)
    ensures IsAdjacency(Site(nodes, links + [link]), graph)
  {
    forall a, b
      ensures Edge(graph, a, b) <==> Adjacent(Site(nodes, links + [link]), a, b)
    {
      assert Edge(before, a, b) <==> Adjacent(Site(nodes, links), a, b);
      assert Joined(links + [link], a, b) <==> Joined(links, a, b) || (a in link && b in link) by {
        assert link in links + [link];
        assert forall l | l in links :: l in links + [link];
      }
    }
  }

  lemma EdgeAdded(g: Graph, source: Name, target: Name)
    requires source in g
    ensures (var after := g[source := g[source] + {target}];
             && after.Keys == g.Keys
             && forall a, b :: Edge(after, a, b) <==> Edge(g, a, b) || (a == source && b == target))
  {
  }

  lemma PrefixGrows(names: seq<Name>, i: nat)
    requires i < |names|
    ensures forall a :: a in names[..i + 1] <==> a in names[..i] || a == names[i]
  {
    assert names[..i + 1] == names[..i] + [names[i]];
  }

  method AddLink(graph0: Graph, names: seq<Name>) returns (graph: Graph)
    requires forall a | a in names :: a in graph0
    ensures graph.Keys == graph0.Keys
    ensures forall a, b :: Edge(graph, a, b) <==> Edge(graph0, a, b) || (a in names && b in names && a != b)
  {
    hide Edge;
    graph := graph0;
    for i := 0 to |names|
      invariant graph.Keys == graph0.Keys
      invariant forall a, b :: Edge(graph, a, b) <==>
                  Edge(graph0, a, b) || (a in names[..i] && b in names && a != b)
    {
      graph := AddNeighbours(graph, names, names[i]);
      PrefixGrows(names, i);
    }
    assert names[..|names|] == names;
  }

  /** The other members of a link become neighbours of `source`. */
  method AddNeighbours(graph0: Graph, names: seq<Name>, source: Name) returns (graph: Graph)
    requires source in graph0
    ensures graph.Keys == graph0.Keys
    ensures forall a, b :: Edge(graph, a, b) <==> Edge(graph0, a, b) || (a == source && b in names && b != source)
  {
    hide Edge;
    graph := graph0;
    for j := 0 to |names|
      invariant graph.Keys == graph0.Keys
      invariant forall a, b :: Edge(graph, a, b) <==>
                  Edge(graph0, a, b) || (a == source && b in names[..j] && b != source)
    {
      PrefixGrows(names, j);
      if names[j] != source {
        EdgeAdded(graph, source, names[j]);
        graph := graph[source := graph[source] + {names[j]}];
      }
    }
    assert names[..|names|] == names;
  }

  lemma AdjacencySymmetricIrreflexive(site: Site, graph: Graph)
    requires IsAdjacency(site, graph)
    ensures WellFormed(graph)
    ensures forall a, b :: Edge(graph, a, b) <==> Edge(graph, b, a)
    ensures forall a :: !Edge(graph, a, a)
  {
    forall a, b
      ensures Edge(graph, a, b) <==> Edge(graph, b, a)
    {
      assert Edge(graph, a, b) <==> Adjacent(site, a, b);
      assert Edge(graph, b, a) <==> Adjacent(site, b, a);
    }
  }

  // ------------------------------------------------------- walks and distances

  ghost predicate WellFormed(g: Graph) {
    forall a, b :: Edge(g, a, b) ==> b in g
  }

  /** A walk of exactly `n` links leads from `a` to `b`. */
  ghost predicate Walk(g: Graph, a: Name, b: Name, n: nat)
    decreases n
  {
    if n == 0 then a == b
    else exists c :: Edge(g, c, b) && Walk(g, a, c, n - 1)
  }

  ghost predicate Distance(g: Graph, a: Name, b: Name, n: nat) {
    Walk(g, a, b, n) && forall m: nat | m < n :: !Walk(g, a, b, m)
  }

  ghost predicate Reachable(g: Graph, a: Name, b: Name) {
    exists n: nat :: Walk(g, a, b, n)
  }

  lemma {:induction false} WalkPrepend(g: Graph, a: Name, h: Name, b: Name, n: nat)
    requires Edge(g, a, h) && Walk(g, h, b, n)
    ensures Walk(g, a, b, n + 1)
    decreases n
  {
    if n == 0 {
      assert Walk(g, a, a, 0);
    } else {
      var c :| Edge(g, c, b) && Walk(g, h, c, n - 1);
      WalkPrepend(g, a, h, c, n - 1);
    }
  }

  /**
   * `h` is the neighbour of `a` with the least name among those that lie on a
   * shortest walk from `a` to `b`, and is one link closer to `b`.
   */
  ghost predicate LeastFirstHop(g: Graph, a: Name, b: Name, h: Name, d: nat) {
    && d > 0
    && Distance(g, a, b, d)
    && Edge(g, a, h) && Distance(g, h, b, d - 1)
    && forall h' | Edge(g, a, h') && Walk(g, h', b, d - 1) :: NameLe(h, h')
  }

  // ------------------------------------------------------------------ the search

  /** The dictionary of the source, with each node's depth and first hop beside it. */
  datatype Tree = Tree(
    parents: map<Name, Option<Name>>, depth: map<Name, nat>, first: map<Name, Name>)

  ghost predicate ParentOf(g: Graph, src: Name, t: Tree, v: Name, u: Name) {
    && v in t.parents && t.parents[v] == Some(u) && u in t.parents && Edge(g, u, v)
    && t.depth.Keys == t.parents.Keys && t.first.Keys == t.parents.Keys
    && t.depth[v] == t.depth[u] + 1
    && t.first[v] == if u == src then v else t.first[u]
  }

  ghost predicate HasParent(g: Graph, src: Name, t: Tree, v: Name) {
    v in t.parents && t.parents[v].Some? && ParentOf(g, src, t, v, t.parents[v].value)
  }

  ghost predicate IsTree(g: Graph, src: Name, t: Tree) {
    && WellFormed(g) && Keyed(g, src, t)
    && t.parents[src] == None && t.depth[src] == 0
    && forall v {:trigger HasParent(g, src, t, v)} :: v in t.parents && v != src ==> HasParent(g, src, t, v)
  }

  /**
   * The queue discipline: depths never fall along the queue and span at most two
   * levels; first hops are in order within a level, and those of the deeper level
   * come before those of the nodes still to be expanded.
   */
  ghost predicate Ordered(src: Name, t: Tree, queue: seq<Name>)
    requires forall v | v in queue :: v in t.depth && v in t.first
  {
    && (forall i, j | 0 <= i < j < |queue| :: queue[i] != queue[j])
    && (forall i, j | 0 <= i < j < |queue| ::
          && t.depth[queue[i]] <= t.depth[queue[j]] <= t.depth[queue[0]] + 1
          && (t.depth[queue[i]] == t.depth[queue[j]] ==> NameLe(t.first[queue[i]], t.first[queue[j]]))
          && (t.depth[queue[i]] < t.depth[queue[j]] && queue[i] != src ==>
                NameLe(t.first[queue[j]], t.first[queue[i]])))
  }

  ghost predicate Closed(g: Graph, src: Name, t: Tree, u: Name)
    requires t.depth.Keys == t.parents.Keys && t.first.Keys == t.parents.Keys
    requires u in t.parents
  {
    forall v | Edge(g, u, v) ::
      && v in t.parents && t.depth[v] <= t.depth[u] + 1
      && (t.depth[v] == t.depth[u] + 1 && u != src ==> NameLe(t.first[v], t.first[u]))
  }

  ghost predicate Keyed(g: Graph, src: Name, t: Tree) {
    src in t.parents && t.depth.Keys == t.parents.Keys && t.first.Keys == t.parents.Keys <= g.Keys
  }

  /** Every discovered node is either expanded or queued; expanded ones are no deeper than queued ones. */
  ghost predicate Frontier(t: Tree, expanded: set<Name>, queue: seq<Name>)
    requires t.depth.Keys == t.parents.Keys
  {
    && (forall v :: v in t.parents <==> v in expanded || v in queue)
    && (forall v | v in queue :: v !in expanded)
    && (forall u, v | u in expanded && v in queue :: t.depth[u] <= t.depth[v])
  }

  ghost predicate Search(g: Graph, src: Name, t: Tree, expanded: set<Name>, queue: seq<Name>) {
    && Keyed(g, src, t) && IsTree(g, src, t)
    && Frontier(t, expanded, queue)
    && Ordered(src, t, queue)
    && (forall u | u in expanded :: Closed(g, src, t, u))
  }

  function Discovered(t: Tree, src: Name, u: Name, v: Name): Tree
    requires u in t.depth && u in t.first
  {
    Tree(t.parents[v := Some(u)], t.depth[v := t.depth[u] + 1],
         t.first[v := if u == src then v else t.first[u]])
  }

  lemma OnlySourceAtDepthZero(g: Graph, src: Name, t: Tree, v: Name)
    requires IsTree(g, src, t) && v in t.parents && t.depth[v] == 0
    ensures v == src
  {
    assert v != src ==> HasParent(g, src, t, v);
  }

  lemma ShallowIsSource(g: Graph, src: Name, t: Tree, v: Name)
    requires IsTree(g, src, t) && v in t.parents && t.depth[v] == 1
    ensures t.parents[v] == Some(src) && t.first[v] == v
  {
    assert HasParent(g, src, t, v);
    OnlySourceAtDepthZero(g, src, t, t.parents[v].value);
  }

  lemma DiscoverOrdered(g: Graph, src: Name, t: Tree, expanded: set<Name>, queue: seq<Name>, v: Name)
    requires Search(g, src, t, expanded, queue) && queue != [] && v !in t.parents
    requires queue[0] == src ==> forall w | w in queue[1..] :: NameLe(t.first[w], v)
    ensures Ordered(src, Discovered(t, src, queue[0], v), queue + [v])
  {
    hide NameLe, Closed;
    var u := queue[0];
    var t', q' := Discovered(t, src, u, v), queue + [v];
    forall i | 0 <= i < |queue|
      ensures t'.depth[queue[i]] <= t'.depth[v]
      ensures t'.depth[queue[i]] == t'.depth[v] ==> NameLe(t'.first[queue[i]], t'.first[v])
      ensures t'.depth[queue[i]] < t'.depth[v] && queue[i] != src ==> NameLe(t'.first[v], t'.first[queue[i]])
    {
      NameLeLaws(t.first[u], t.first[u], t.first[u]);
      if i > 0 {
        assert queue[i] in queue[1..];
        if t.depth[queue[i]] == 0 { OnlySourceAtDepthZero(g, src, t, queue[i]); }
      }
    }
    forall i, j | 0 <= i < j < |q'|
      ensures q'[i] != q'[j]
      ensures t'.depth[q'[i]] <= t'.depth[q'[j]] <= t'.depth[q'[0]] + 1
      ensures t'.depth[q'[i]] == t'.depth[q'[j]] ==> NameLe(t'.first[q'[i]], t'.first[q'[j]])
      ensures t'.depth[q'[i]] < t'.depth[q'[j]] && q'[i] != src ==> NameLe(t'.first[q'[j]], t'.first[q'[i]])
    {
      if j < |queue| {
        assert q'[i] == queue[i] && q'[j] == queue[j];
      }
    }
  }

  lemma DiscoverTree(g: Graph, src: Name, t: Tree, u: Name, v: Name)
    requires IsTree(g, src, t) && u in t.parents && v !in t.parents && Edge(g, u, v)
    ensures IsTree(g, src, Discovered(t, src, u, v))
  {
    var t' := Discovered(t, src, u, v);
    forall w | w in t'.parents && w != src
      ensures HasParent(g, src, t', w)
    {
      if w != v {
        assert HasParent(g, src, t, w);
      }
    }
  }

  lemma DiscoverClosed(g: Graph, src: Name, t: Tree, u: Name, v: Name, w: Name)
    requires IsTree(g, src, t) && u in t.parents && v !in t.parents && w in t.parents
    requires Closed(g, src, t, w)
    ensures IsTree(g, src, Discovered(t, src, u, v)) ==> Closed(g, src, Discovered(t, src, u, v), w)
  {
    var t' := Discovered(t, src, u, v);
    forall x | Edge(g, w, x)
      ensures x != v && x in t.parents
      ensures t'.depth[x] <= t'.depth[w] + 1
      ensures t'.depth[x] == t'.depth[w] + 1 && w != src ==> NameLe(t'.first[x], t'.first[w])
    {
    }
  }

  lemma DiscoverFrontier(g: Graph, src: Name, t: Tree, expanded: set<Name>, queue: seq<Name>, v: Name)
    requires Keyed(g, src, t) && Frontier(t, expanded, queue) && queue != [] && v !in t.parents
    ensures queue[0] in t.parents
    ensures Frontier(Discovered(t, src, queue[0], v), expanded, queue + [v])
  {
    assert queue[0] in queue;
  }

  lemma Discover(g: Graph, src: Name, t: Tree, expanded: set<Name>, queue: seq<Name>, v: Name)
    requires Search(g, src, t, expanded, queue) && queue != []
    requires v !in t.parents && Edge(g, queue[0], v)
    requires queue[0] == src ==> forall w | w in queue[1..] :: NameLe(t.first[w], v)
    ensures Search(g, src, Discovered(t, src, queue[0], v), expanded, queue + [v])
  {
    var u := queue[0];
    DiscoverFrontier(g, src, t, expanded, queue, v);
    var t' := Discovered(t, src, u, v);
    assert v in g;
    hide IsTree, Ordered, Closed, Frontier;
    DiscoverTree(g, src, t, u, v);
    DiscoverOrdered(g, src, t, expanded, queue, v);
    forall w | w in expanded
      ensures Closed(g, src, t', w)
    {
      DiscoverClosed(g, src, t, u, v, w);
    }
  }

  lemma RetireClosed(g: Graph, src: Name, t: Tree, expanded: set<Name>, queue: seq<Name>)
    requires Search(g, src, t, expanded, queue) && queue != []
    requires forall v | Edge(g, queue[0], v) :: v in t.parents
    ensures Closed(g, src, t, queue[0])
  {
    hide NameLe, Edge, IsTree;
    var u := queue[0];
    forall v | Edge(g, u, v)
      ensures t.depth[v] <= t.depth[u] + 1
      ensures t.depth[v] == t.depth[u] + 1 && u != src ==> NameLe(t.first[v], t.first[u])
    {
      assert u in queue;
      if v in queue {
        var j :| 0 <= j < |queue| && queue[j] == v;
      }
    }
  }

  lemma OrderedTail(src: Name, t: Tree, queue: seq<Name>)
    requires queue != [] && forall v | v in queue :: v in t.depth && v in t.first
    requires Ordered(src, t, queue)
    ensures forall v | v in queue[1..] :: v != queue[0] && v in queue && t.depth[queue[0]] <= t.depth[v]
    ensures Ordered(src, t, queue[1..])
  {
    hide NameLe;
    var tail := queue[1..];
    forall v | v in tail
      ensures v != queue[0] && v in queue && t.depth[queue[0]] <= t.depth[v]
    {
      var j :| 0 <= j < |tail| && tail[j] == v;
      assert queue[j + 1] == v;
    }
    forall i, j | 0 <= i < j < |tail|
      ensures tail[i] != tail[j]
      ensures t.depth[tail[i]] <= t.depth[tail[j]] <= t.depth[tail[0]] + 1
      ensures t.depth[tail[i]] == t.depth[tail[j]] ==> NameLe(t.first[tail[i]], t.first[tail[j]])
      ensures t.depth[tail[i]] < t.depth[tail[j]] && tail[i] != src ==> NameLe(t.first[tail[j]], t.first[tail[i]])
    {
      assert tail[i] == queue[i + 1] && tail[j] == queue[j + 1] && tail[0] == queue[1];
      assert t.depth[queue[0]] <= t.depth[queue[1]];
    }
  }

  lemma RetireFrontier(t: Tree, expanded: set<Name>, queue: seq<Name>)
    requires t.depth.Keys == t.parents.Keys && queue != [] && Frontier(t, expanded, queue)
    requires forall v | v in queue[1..] :: v != queue[0] && v in t.depth && t.depth[queue[0]] <= t.depth[v]
    ensures Frontier(t, expanded + {queue[0]}, queue[1..])
  {
    assert queue == [queue[0]] + queue[1..];
    forall v
      ensures v in t.parents <==> v in expanded + {queue[0]} || v in queue[1..]
    {
      assert v in queue <==> v == queue[0] || v in queue[1..];
    }
  }

  lemma Retire(g: Graph, src: Name, t: Tree, expanded: set<Name>, queue: seq<Name>)
    requires Search(g, src, t, expanded, queue) && queue != []
    requires forall v | Edge(g, queue[0], v) :: v in t.parents
    ensures Search(g, src, t, expanded + {queue[0]}, queue[1..])
  {
    RetireClosed(g, src, t, expanded, queue);
    OrderedTail(src, t, queue);
    RetireFrontier(t, expanded, queue);
    hide Closed, IsTree, Ordered, Edge, Frontier;
  }

  // A snapshot of the search says everything about walks up to its current depth.

  lemma {:induction false} FoundWithin(
      g: Graph, src: Name, t: Tree, expanded: set<Name>, queue: seq<Name>, v: Name, n: nat)
    requires Search(g, src, t, expanded, queue) && Walk(g, src, v, n)
    requires queue != [] ==> n <= t.depth[queue[0]]
    ensures v in t.parents && t.depth[v] <= n
    decreases n
  {
    if n > 0 {
      var c :| Edge(g, c, v) && Walk(g, src, c, n - 1);
      FoundWithin(g, src, t, expanded, queue, c, n - 1);
      InQueueIsDeep(g, src, t, expanded, queue, c);
      assert Closed(g, src, t, c);
    }
  }

  lemma InQueueIsDeep(g: Graph, src: Name, t: Tree, expanded: set<Name>, queue: seq<Name>, v: Name)
    requires Search(g, src, t, expanded, queue)
    ensures v in queue ==> t.depth[v] >= t.depth[queue[0]]
  {
    if v in queue {
      var j :| 0 <= j < |queue| && queue[j] == v;
    }
  }

  lemma {:induction false} TreeWalk(g: Graph, src: Name, t: Tree, v: Name)
    requires IsTree(g, src, t) && v in t.parents
    ensures Walk(g, src, v, t.depth[v])
    decreases t.depth[v]
  {
    if v != src {
      assert HasParent(g, src, t, v);
      TreeWalk(g, src, t, t.parents[v].value);
    }
  }

  lemma {:induction false} TreeFirstHop(g: Graph, src: Name, t: Tree, v: Name)
    requires IsTree(g, src, t) && v in t.parents && v != src
    ensures t.depth[v] > 0 && Edge(g, src, t.first[v]) && Walk(g, t.first[v], v, t.depth[v] - 1)
    decreases t.depth[v]
  {
    assert HasParent(g, src, t, v);
    var u := t.parents[v].value;
    if u != src {
      TreeFirstHop(g, src, t, u);
    }
  }

  lemma {:induction false} FirstHopIsLeast(
      g: Graph, src: Name, t: Tree, expanded: set<Name>, queue: seq<Name>, h: Name, v: Name, n: nat)
    requires Search(g, src, t, expanded, queue) && queue != [] && n + 1 <= t.depth[queue[0]]
    requires Edge(g, src, h) && Walk(g, h, v, n)
    requires v in t.parents && t.depth[v] == n + 1
    ensures NameLe(t.first[v], h)
    decreases n
  {
    if n == 0 {
      NameLeLaws(h, h, h);
      ShallowIsSource(g, src, t, v);
    } else {
      var c :| Edge(g, c, v) && Walk(g, h, c, n - 1);
      WalkPrepend(g, src, h, c, n - 1);
      FoundWithin(g, src, t, expanded, queue, c, n);
      InQueueIsDeep(g, src, t, expanded, queue, c);
      assert Closed(g, src, t, c);
      FirstHopIsLeast(g, src, t, expanded, queue, h, c, n - 1);
      NameLeLaws(t.first[v], t.first[c], h);
    }
  }

  lemma SnapshotFirstHop(g: Graph, src: Name, t: Tree, expanded: set<Name>, queue: seq<Name>)
    requires Search(g, src, t, expanded, queue) && queue != [] && queue[0] != src
    ensures LeastFirstHop(g, src, queue[0], t.first[queue[0]], t.depth[queue[0]])
  {
    hide NameLe, Closed, Ordered;
    var target := queue[0];
    var d := t.depth[target];
    TreeWalk(g, src, t, target);
    forall m: nat | m < d
      ensures !Walk(g, src, target, m)
    {
      if Walk(g, src, target, m) {
        FoundWithin(g, src, t, expanded, queue, target, m);
      }
    }
    TreeFirstHop(g, src, t, target);
    var h := t.first[target];
    forall m: nat | m < d - 1
      ensures !Walk(g, h, target, m)
    {
      if Walk(g, h, target, m) {
        WalkPrepend(g, src, h, target, m);
      }
    }
    forall h' | Edge(g, src, h') && Walk(g, h', target, d - 1)
      ensures NameLe(h, h')
    {
      FirstHopIsLeast(g, src, t, expanded, queue, h', target, d - 1);
    }
  }

  // ------------------------------------------------------------------ the method

  method FirstHopFromPolicy(site: Site, policy: Name, target: Name) returns (r: Option<Name>)
    ensures exists g :: IsAdjacency(site, g) && FirstHopResult(g, policy, target, r)
  {
    var graph := Adjacency(site);
    AdjacencySymmetricIrreflexive(site, graph);
    if policy == target || policy !in graph || target !in graph {
      return None;
    }
    r := SearchFirstHop(graph, policy, target);
  }

  /** None exactly for the policy node itself, an absent node or an unreachable target. */
  ghost predicate FirstHopResult(g: Graph, policy: Name, target: Name, r: Option<Name>) {
    match r
    case None => policy == target || policy !in g || target !in g || !Reachable(g, policy, target)
    case Some(h) => policy != target && exists d: nat :: LeastFirstHop(g, policy, target, h, d)
  }

  function SourceOnly(src: Name): Tree {
    Tree(map[src := None], map[src := 0], map[src := src])
  }

  lemma SearchStarts(g: Graph, src: Name)
    requires WellFormed(g) && src in g
    ensures Search(g, src, SourceOnly(src), {}, [src])
  {
  }

  lemma ExhaustedSearch(g: Graph, src: Name, t: Tree, expanded: set<Name>, target: Name)
    requires Search(g, src, t, expanded, []) && target !in t.parents
    ensures !Reachable(g, src, target)
  {
    if n: nat :| Walk(g, src, target, n) {
      FoundWithin(g, src, t, expanded, [], target, n);
    }
  }

  lemma DiscoverNext(g: Graph, src: Name, t: Tree, expanded: set<Name>, u: Name, rest: seq<Name>, v: Name)
    requires Search(g, src, t, expanded, [u] + rest) && v !in t.parents && Edge(g, u, v)
    requires u == src ==> forall w | w in rest :: NameLe(t.first[w], v)
    ensures u in t.parents
    ensures Search(g, src, Discovered(t, src, u, v), expanded, [u] + (rest + [v]))
  {
    var queue := [u] + rest;
    assert queue[0] == u && queue[1..] == rest;
    assert u in queue;
    assert u in t.parents;
    assert queue + [v] == [u] + (rest + [v]);
    hide *;
    Discover(g, src, t, expanded, queue, v);
  }

  lemma RetireCurrent(g: Graph, src: Name, t: Tree, expanded: set<Name>, u: Name, rest: seq<Name>, found: seq<Name>)
    requires Search(g, src, t, expanded, [u] + rest) && u in g
    requires forall v :: v in found <==> v in g[u]
    requires forall j | 0 <= j < |found| :: found[j] in t.parents
    ensures Search(g, src, t, expanded + {u}, rest)
  {
    var queue := [u] + rest;
    assert queue[0] == u && queue[1..] == rest;
    Retire(g, src, t, expanded, queue);
  }

  method SearchFirstHop(graph: Graph, policy: Name, target: Name) returns (r: Option<Name>)
    requires WellFormed(graph) && policy in graph && target in graph && policy != target
    ensures FirstHopResult(graph, policy, target, r)
  {
    hide Closed, Ordered, IsTree, WellFormed, LeastFirstHop, Walk;
    var queue := [policy];
    var parents: map<Name, Option<Name>> := map[policy := None];
    ghost var t := SourceOnly(policy);
    ghost var expanded: set<Name> := {};
    SearchStarts(graph, policy);
    while queue != []
      invariant t.parents == parents && Search(graph, policy, t, expanded, queue)
      invariant target !in expanded
      invariant policy in queue ==> queue == [policy]
      decreases graph.Keys - expanded
    {
      var current := queue[0];
      if current == target {
        break;
      }
      assert queue == [current] + queue[1..];
      queue, parents, t := Expand(graph, policy, current, queue[1..], parents, t, expanded);
      assert current in graph && current !in expanded;
      expanded := expanded + {current};
    }
    if target !in parents {
      ExhaustedSearch(graph, policy, t, expanded, target);
      return None;
    }
    SnapshotFirstHop(graph, policy, t, expanded, queue);
    r := WalkBack(graph, policy, target, parents, t);
  }

  /** The loop over the sorted neighbours of the node just taken off the queue. */
  method Expand(graph: Graph, policy: Name, current: Name, rest: seq<Name>,
                parents0: map<Name, Option<Name>>, ghost t0: Tree, ghost expanded: set<Name>)
      returns (queue: seq<Name>, parents: map<Name, Option<Name>>, ghost t: Tree)
    requires t0.parents == parents0 && Search(graph, policy, t0, expanded, [current] + rest)
    requires current in graph && (current == policy ==> rest == []) && policy !in rest
    ensures t.parents == parents && Search(graph, policy, t, expanded + {current}, queue)
    ensures policy !in queue
  {
    hide Closed, Ordered, IsTree, Frontier, WellFormed;
    queue, parents, t := rest, parents0, t0;
    var neighbors := SortedNames(graph[current]);
    for k := 0 to |neighbors|
      invariant t.parents == parents && Search(graph, policy, t, expanded, [current] + queue)
      invariant policy !in queue
      invariant forall j | 0 <= j < k :: neighbors[j] in parents
      invariant current == policy ==> forall w | w in queue :: w in t.first && t.first[w] == w && w in neighbors[..k]
    {
      var neighbor := neighbors[k];
      if neighbor !in parents {
        DiscoverNext(graph, policy, t, expanded, current, queue, neighbor);
        t := Discovered(t, policy, current, neighbor);
        parents := parents[neighbor := Some(current)];
        queue := queue + [neighbor];
      }
    }
    RetireCurrent(graph, policy, t, expanded, current, queue, neighbors);
  }

  method WalkBack(graph: Graph, policy: Name, target: Name, parents: map<Name, Option<Name>>, ghost t: Tree)
      returns (r: Option<Name>)
    requires IsTree(graph, policy, t) && t.parents == parents && target in parents && target != policy
    ensures r == Some(t.first[target])
  {
    var current := target;
    var prev := parents[current];
    assert HasParent(graph, policy, t, current);
    while prev != None && prev != Some(policy)
      invariant HasParent(graph, policy, t, current) && current != policy && prev == parents[current]
      invariant t.first[current] == t.first[target]
      decreases t.depth[current]
    {
      current := prev.value;
      prev := parents[current];
      assert HasParent(graph, policy, t, current);
    }
    if prev == Some(policy) {
      return Some(current);
    }
    return None;
  }
}
