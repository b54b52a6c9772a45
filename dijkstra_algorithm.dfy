// The object-oriented front end `DijkstraAlgorithm`: an undirected weighted graph held as
// adjacency lists, grown edge by edge, with the two shortest-distance engines run on it.

module Algorithm {
  import opened Graph
  import Leftist
  import Fibonacci
  import opened Dijkstra

  /** Undirected adjacency lists: every edge names a vertex, and `u` lists a neighbour `v`
      at a given weight exactly as often as `v` lists `u` at that weight. */
  ghost predicate Undirected(g: seq<seq<Edge>>)
  {
    && Targets(g)
    && forall u, v, c :: 0 <= u < |g| && 0 <= v < |g| ==>
         multiset(g[u])[Edge(v, c)] == multiset(g[v])[Edge(u, c)]
  }

  /** The entries `(i, d[i])` for every vertex `i`, as the eager engine queues them. */
  ghost function Entries(d: seq<int>): multiset<Leftist.Entry>
  {
    if d == [] then multiset{} else Entries(d[..|d| - 1]) + multiset{Leftist.Entry(|d| - 1, d[|d| - 1])}
  }

  /** An entry is queued by `Entries(d)` exactly when it pairs a vertex with its value. */
  lemma {:induction false} EntriesHold(d: seq<int>, e: Leftist.Entry)
    ensures e in Entries(d) <==> 0 <= e.vertex < |d| && e.key == d[e.vertex]
    decreases |d|
  {
    if d != [] {
      var p := d[..|d| - 1];
      EntriesHold(p, e);
      if 0 <= e.vertex < |p| {
        assert p[e.vertex] == d[e.vertex];
      }
    }
  }

  /** The eager queue of `dijkstraLeftist` before the first pop: every vertex with its
      starting distance and every vertex unsettled. */
  lemma SeedAll(g: seq<seq<Edge>>, s: int, dist: seq<int>, todo: set<int>)
    requires dist == seq(|g|, v => if v == s then 0 else INF)
    requires forall v :: 0 <= v < |g| ==> v in todo
    ensures Queued(g, dist, Entries(dist), todo, 0)
  {
    forall e | e in Entries(dist) ensures 0 <= e.vertex < |g| && dist[e.vertex] <= e.key <= INF && 0 <= e.key {
      EntriesHold(dist, e);
    }
    forall v | 0 <= v < |g| && v in todo && dist[v] < INF ensures Leftist.Entry(v, dist[v]) in Entries(dist) {
      EntriesHold(dist, Leftist.Entry(v, dist[v]));
    }
  }

  /** The insertion loop of `dijkstraLeftist`: every vertex enters the queue with its
      current distance. */
  method QueueAll(pq: Leftist.LeftistTree, dist: array<int>)
    requires pq.Valid() && pq.Contents() == multiset{}
    modifies pq
    ensures pq.Valid() && pq.Contents() == Entries(dist[..])
  {
    for i := 0 to dist.Length
      invariant pq.Valid() && pq.Contents() == Entries(dist[..i])
    {
      Push(pq, i, dist[i]);
      assert dist[..i + 1][..i] == dist[..i];
    }
    assert dist[..dist.Length] == dist[..];
  }

  class DijkstraAlgorithm {
    var graph: seq<seq<Edge>>
    var numVertices: int

    ghost predicate Valid()
      reads this
    {
      |graph| == numVertices && Undirected(graph)
    }

    /** A graph of `n` vertices and no edges. */
    constructor (n: int)
      requires n >= 0
      ensures Valid() && numVertices == n
      ensures forall u :: 0 <= u < n ==> graph[u] == []
    {
      numVertices := n;
      graph := seq(n, _ => []);
    }

    /** The number of vertices, which is the number of adjacency lists. */
    method Size() returns (n: int)
      requires Valid()
      ensures n == |graph|
    {
      n := numVertices;
    }

    /** Adds the undirected edge `u`–`v` of weight `w`: `u` lists `v` and `v` lists `u`;
        no other list changes, and the graph stays undirected. */
    method AddEdge(u: int, v: int, w: int)
      requires Valid() && 0 <= u < numVertices && 0 <= v < numVertices
      modifies this
      ensures Valid() && numVertices == old(numVertices)
      ensures u != v ==> graph[u] == old(graph[u]) + [Edge(v, w)] && graph[v] == old(graph[v]) + [Edge(u, w)]
      ensures u == v ==> graph[u] == old(graph[u]) + [Edge(u, w), Edge(u, w)]
      ensures forall x :: 0 <= x < |graph| && x != u && x != v ==> graph[x] == old(graph[x])
    {
      ghost var g0 := graph;
      graph := graph[u := graph[u] + [Edge(v, w)]];
      graph := graph[v := graph[v] + [Edge(u, w)]];
      Connect(g0, graph, u, v, w);
    }

    /** `dijkstraFibonacci(source)`: every vertex enters a Fibonacci heap with its starting
        distance; each extracted vertex relaxes its edges, lowering keys in place. The
        result is the shortest-distance table. */
    method DijkstraFibonacci(source: int) returns (minDist: seq<int>)
      requires Valid() && WellFormed(graph) && 0 <= source < numVertices
      ensures |minDist| == numVertices && minDist[source] == 0
      ensures ShortestDistances(graph, source, minDist)
    {
      var g, n := graph, numVertices;
      var dist := new int[n](v => if v == source then 0 else INF);
      Start(g, source, dist[..]);
      ghost var via: seq<seq<Hop>> := seq(n, v => []);
      var fh := new Fibonacci.FibonacciHeap();
      var nodes := new int[n];
      InsertAll(fh, dist, nodes);
      via := ExtractAll(g, source, dist, fh, nodes, via);
      Shortest(g, source, dist[..], via);
      minDist := dist[..];
    }

    /** `dijkstraLeftist(source)`: every vertex enters a leftist tree with its starting
        distance; each popped entry, stale or not, relaxes the edges of its vertex and
        queues every improved neighbour afresh. The result is the shortest-distance
        table. */
    method DijkstraLeftist(source: int) returns (minDist: seq<int>)
      requires Valid() && WellFormed(graph) && 0 <= source < numVertices
      ensures |minDist| == numVertices && minDist[source] == 0
      ensures ShortestDistances(graph, source, minDist)
    {
      var g, n := graph, numVertices;
      var dist := new int[n](v => if v == source then 0 else INF);
      Start(g, source, dist[..]);
      ghost var via: seq<seq<Hop>> := seq(n, v => []);
      var pq := new Leftist.LeftistTree();
      QueueAll(pq, dist);
      ghost var todo: set<int> := set v | v in Vertices(n);
      Seed(g, source, dist[..], via, todo);
      SeedAll(g, source, dist[..], todo);
      via := LeftistDrain(g, source, dist, pq, false, todo, via);
      Shortest(g, source, dist[..], via);
      minDist := dist[..];
    }
  }

  /** The multiset of `x`'s list after `addEdge(u, v, w)`. */
  lemma Appended(g0: seq<seq<Edge>>, g: seq<seq<Edge>>, u: int, v: int, w: int, x: int)
    requires 0 <= u < |g0| && 0 <= v < |g0| && 0 <= x < |g0|
    requires g == g0[u := g0[u] + [Edge(v, w)]][v := g0[u := g0[u] + [Edge(v, w)]][v] + [Edge(u, w)]]
    ensures multiset(g[x]) == multiset(g0[x]) + (if x == u then multiset{Edge(v, w)} else multiset{})
                                              + (if x == v then multiset{Edge(u, w)} else multiset{})
  {
    if x == u && x == v {
      assert g[x] == g0[x] + [Edge(v, w)] + [Edge(u, w)];
    } else if x == u {
      assert g[x] == g0[x] + [Edge(v, w)];
    } else if x == v {
      assert g[x] == g0[x] + [Edge(u, w)];
    }
  }

  /** After `addEdge(u, v, w)`, `x` lists `y` at weight `c` as often as `y` lists `x`. */
  lemma Mirror(g0: seq<seq<Edge>>, g: seq<seq<Edge>>, u: int, v: int, w: int, x: int, y: int, c: int)
    requires 0 <= u < |g0| && 0 <= v < |g0| && 0 <= x < |g0| && 0 <= y < |g0|
    requires g == g0[u := g0[u] + [Edge(v, w)]][v := g0[u := g0[u] + [Edge(v, w)]][v] + [Edge(u, w)]]
    requires multiset(g0[x])[Edge(y, c)] == multiset(g0[y])[Edge(x, c)]
    ensures multiset(g[x])[Edge(y, c)] == multiset(g[y])[Edge(x, c)]
  {
    Appended(g0, g, u, v, w, x);
    Appended(g0, g, u, v, w, y);
  }

  /** Appending `Edge(v, w)` to `u`'s list and `Edge(u, w)` to `v`'s keeps the lists
      undirected. */
  lemma Connect(g0: seq<seq<Edge>>, g: seq<seq<Edge>>, u: int, v: int, w: int)
    requires Undirected(g0) && 0 <= u < |g0| && 0 <= v < |g0|
    requires g == g0[u := g0[u] + [Edge(v, w)]][v := g0[u := g0[u] + [Edge(v, w)]][v] + [Edge(u, w)]]
    ensures Undirected(g)
  {
    forall x, i | 0 <= x < |g| && 0 <= i < |g[x]| ensures 0 <= g[x][i].to < |g| {
      if x == u || x == v {
        Appended(g0, g, u, v, w, x);
        assert g[x][i] in multiset(g[x]);
      }
    }
    forall x, y, c | 0 <= x < |g| && 0 <= y < |g|
      ensures multiset(g[x])[Edge(y, c)] == multiset(g[y])[Edge(x, c)]
    {
      Mirror(g0, g, u, v, w, x, y, c);
    }
  }
}
