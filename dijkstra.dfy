/** The two single-source shortest-path drivers over an adjacency-list graph, and the
    depth-first connectivity test that guards them. */
module Dijkstra {
  import opened Graph
  import Leftist
  import Fibonacci

  /** The vertices the search has not marked yet. */
  ghost function Unmarked(marks: seq<bool>): set<int>
  {
    set u | 0 <= u < |marks| && !marks[u]
  }

  /** Marks are only ever added. */
  ghost predicate Grew(a: seq<bool>, b: seq<bool>)
  {
    |a| == |b| && forall u :: 0 <= u < |a| && a[u] ==> b[u]
  }

  /** Every vertex marked in `b` but not in `a` is reachable from `v`. */
  ghost predicate Found(g: seq<seq<Edge>>, v: int, a: seq<bool>, b: seq<bool>)
  {
    |a| == |b| && forall u :: 0 <= u < |b| && b[u] && !a[u] ==> Reachable(g, v, u)
  }

  /** Every vertex marked in `b` but not in `a` has all its neighbours marked in `b`. */
  ghost predicate Explored(g: seq<seq<Edge>>, a: seq<bool>, b: seq<bool>)
  {
    && Targets(g) && |a| == |g| && |b| == |g|
    && forall u, j :: 0 <= u < |g| && b[u] && !a[u] && 0 <= j < |g[u]| ==> b[g[u][j].to]
  }

  lemma {:induction false} SubsetSize<T>(a: set<T>, b: set<T>)
    requires a <= b
    ensures |a| <= |b|
    decreases |a|
  {
    if a != {} {
      var x :| x in a;
      SubsetSize(a - {x}, b - {x});
    }
  }

  lemma Fewer<T>(a: set<T>, x: T)
    requires x in a
    ensures |a - {x}| < |a|
  {
  }

  lemma Without<T>(a: set<T>, x: T)
    requires x !in a
    ensures a - {x} == a
  {
  }

  /** Once `v` is marked, the unmarked vertices are strictly fewer than before. */
  lemma Shrinks(a: seq<bool>, b: seq<bool>, v: int)
    requires 0 <= v < |a| && !a[v] && Grew(a[v := true], b)
    ensures |Unmarked(b)| < |Unmarked(a)|
  {
    SubsetSize(Unmarked(b), Unmarked(a) - {v});
  }

  /** Folding the search from the neighbour `g[v][i].to` into the search from `v`. */
  lemma Absorb(g: seq<seq<Edge>>, v: int, i: int, a: seq<bool>, b: seq<bool>, c: seq<bool>)
    requires 0 <= v < |g| == |a| && 0 <= i < |g[v]|
    requires Grew(a[v := true], b) && Found(g, v, a, b) && Explored(g, a[v := true], b)
    requires Grew(b, c) && Found(g, g[v][i].to, b, c) && Explored(g, b, c)
    ensures Grew(a[v := true], c) && Found(g, v, a, c) && Explored(g, a[v := true], c)
  {
    forall u | 0 <= u < |c| && c[u] && !a[u] ensures Reachable(g, v, u) {
      if !b[u] {
        ReachStep(g, v, i, u);
      }
    }
  }

  /** The neighbours of `v` all marked: `v` joins the explored vertices. */
  lemma Close(g: seq<seq<Edge>>, v: int, a: seq<bool>, b: seq<bool>)
    requires 0 <= v < |g| == |a| && Explored(g, a[v := true], b)
    requires forall j :: 0 <= j < |g[v]| ==> b[g[v][j].to]
    ensures Explored(g, a, b)
  {
  }

  /** `dfs(graph, v, visited)`: marks `v`, then searches from every unmarked neighbour.
      Marks only vertices reachable from `v`, keeps every earlier mark, and leaves each
      newly marked vertex with all its neighbours marked. */
  method Dfs(g: seq<seq<Edge>>, v: int, visited: array<bool>)
    requires Targets(g) && visited.Length == |g| && 0 <= v < |g| && !visited[v]
    modifies visited
    ensures visited[v]
    ensures Grew(old(visited[..]), visited[..])
    ensures Found(g, v, old(visited[..]), visited[..])
    ensures Explored(g, old(visited[..]), visited[..])
    decreases |Unmarked(visited[..])|
  {
    ghost var a := visited[..];
    visited[v] := true;
    assert IsPath(g, v, v, []);
    for i := 0 to |g[v]|
      invariant visited[v]
      invariant Grew(a[v := true], visited[..]) && Found(g, v, a, visited[..])
      invariant Explored(g, a[v := true], visited[..])
      invariant forall j :: 0 <= j < i ==> visited[g[v][j].to]
    {
      var w := g[v][i].to;
      if !visited[w] {
        ghost var b := visited[..];
        Shrinks(a, b, v);
        Dfs(g, w, visited);
        Absorb(g, v, i, a, b, visited[..]);
      }
    }
    Close(g, v, a, visited[..]);
  }

  /** `isConnected(graph)`: every vertex is reachable from vertex 0. An empty graph has no
      vertex 0 and is outside the method's domain. */
  method IsConnected(g: seq<seq<Edge>>) returns (connected: bool)
    requires Targets(g) && |g| > 0
    ensures connected <==> forall t :: 0 <= t < |g| ==> Reachable(g, 0, t)
  {
    var visited := new bool[|g|](_ => false);
    Dfs(g, 0, visited);
    for i := 0 to visited.Length
      invariant forall j :: 0 <= j < i ==> visited[j]
    {
      if !visited[i] {
        if Reachable(g, 0, i) {
          var p :| IsPath(g, 0, i, p);
          assert visited[..][0];
          ClosedSetHoldsPath(g, visited[..], 0, i, p);
        }
        return false;
      }
    }
    return true;
  }

  /** The distance table so far: the source at 0, every entry non-negative and at most
      INF, and every finite entry the weight of the recorded walk in `via`. */
  ghost predicate Tentative(g: seq<seq<Edge>>, s: int, dist: seq<int>, via: seq<seq<Hop>>)
  {
    && |dist| == |g| && |via| == |g| && 0 <= s < |g| && dist[s] == 0
    && (forall v :: 0 <= v < |g| ==> 0 <= dist[v] <= INF)
    && (forall v :: 0 <= v < |g| && dist[v] < INF ==> IsPath(g, s, v, via[v]) && Cost(g, via[v]) == dist[v])
  }

  /** Every vertex outside `todo` is settled: all edges out of it are relaxed. */
  ghost predicate Settled(g: seq<seq<Edge>>, dist: seq<int>, todo: set<int>)
  {
    && WellFormed(g) && |dist| == |g|
    && (forall u :: 0 <= u < |g| && u !in todo ==> Relaxed(g, dist, u))
  }

  /** Every vertex with a finite distance is relaxed: what each engine ends with. */
  ghost predicate Final(g: seq<seq<Edge>>, dist: seq<int>)
  {
    && WellFormed(g) && |dist| == |g|
    && (forall u :: 0 <= u < |g| && dist[u] < INF ==> Relaxed(g, dist, u))
  }

  /** The start of every engine: INF everywhere but the source. */
  lemma Start(g: seq<seq<Edge>>, s: int, dist: seq<int>)
    requires 0 <= s < |g| && dist == seq(|g|, v => if v == s then 0 else INF)
    ensures Tentative(g, s, dist, seq(|g|, v => []))
  {
    assert IsPath(g, s, s, []);
  }

  /** Relaxing the edge `g[u][i]`: when going through `u` beats the neighbour's entry,
      the new entry is the weight of the walk to `u` extended by that edge. */
  lemma Improve(g: seq<seq<Edge>>, s: int, dist: seq<int>, via: seq<seq<Hop>>, u: int, i: int)
    requires WellFormed(g) && Tentative(g, s, dist, via) && 0 <= u < |g| && 0 <= i < |g[u]|
    requires dist[u] + g[u][i].cost < dist[g[u][i].to]
    ensures var v := g[u][i].to;
            Tentative(g, s, dist[v := dist[u] + g[u][i].cost], via[v := via[u] + [Hop(u, i)]])
  {
    PathExtend(g, s, u, via[u], i);
  }

  /** Lowering the entry of an unsettled vertex leaves every settled vertex relaxed. */
  lemma Lower(g: seq<seq<Edge>>, dist: seq<int>, todo: set<int>, v: int, d: int)
    requires Settled(g, dist, todo) && 0 <= v < |g| && v in todo && d <= dist[v]
    ensures Settled(g, dist[v := d], todo)
  {
    forall u | 0 <= u < |g| && u !in todo ensures Relaxed(g, dist[v := d], u) {
      assert Relaxed(g, dist, u);
    }
  }

  /** Settled vertices never lie further than unsettled ones. */
  ghost predicate SettledFirst(dist: seq<int>, todo: set<int>)
  {
    forall u, v :: 0 <= u < |dist| && u !in todo && 0 <= v < |dist| && v in todo ==> dist[u] <= dist[v]
  }

  /** Midway through relaxing the edges of the just-settled `u`: the first `i` of them
      are relaxed, and `u` lies no further than any other settled vertex. */
  ghost predicate Scanning(g: seq<seq<Edge>>, s: int, dist: seq<int>, via: seq<seq<Hop>>,
                           live: set<int>, u: int, i: int)
  {
    && WellFormed(g) && 0 <= u < |g| && 0 <= i <= |g[u]| && u !in live
    && Tentative(g, s, dist, via) && Settled(g, dist, live + {u}) && SettledFirst(dist, live)
    && (forall w :: 0 <= w < |g| && w !in live ==> dist[w] <= dist[u])
    && (forall j :: 0 <= j < i ==> dist[g[u][j].to] <= dist[u] + g[u][j].cost)
  }

  /** Taking a nearest unsettled vertex out of `todo` starts its scan. */
  lemma Begin(g: seq<seq<Edge>>, s: int, dist: seq<int>, via: seq<seq<Hop>>, todo: set<int>, u: int)
    requires Tentative(g, s, dist, via) && Settled(g, dist, todo) && SettledFirst(dist, todo)
    requires 0 <= u < |g| && u in todo
    requires forall v :: 0 <= v < |g| && v in todo ==> dist[u] <= dist[v]
    ensures Scanning(g, s, dist, via, todo - {u}, u, 0)
  {
    assert todo - {u} + {u} == todo;
  }

  /** One edge of the scan that is already relaxed. */
  lemma Keep(g: seq<seq<Edge>>, s: int, dist: seq<int>, via: seq<seq<Hop>>, live: set<int>, u: int, i: int)
    requires Scanning(g, s, dist, via, live, u, i) && i < |g[u]|
    requires dist[g[u][i].to] <= dist[u] + g[u][i].cost
    ensures Scanning(g, s, dist, via, live, u, i + 1)
  {
  }

  /** One edge of the scan that improves its end `v`: `v` is necessarily unsettled, and
      its entry becomes the walk through `u`. */
  lemma Better(g: seq<seq<Edge>>, s: int, dist: seq<int>, via: seq<seq<Hop>>, live: set<int>, u: int, i: int)
    requires Scanning(g, s, dist, via, live, u, i) && i < |g[u]|
    requires dist[u] + g[u][i].cost < dist[g[u][i].to]
    ensures g[u][i].to in live
    ensures Scanning(g, s, dist[g[u][i].to := dist[u] + g[u][i].cost],
                     via[g[u][i].to := via[u] + [Hop(u, i)]], live, u, i + 1)
  {
    var v := g[u][i].to;
    var d := dist[u] + g[u][i].cost;
    Improve(g, s, dist, via, u, i);
    Lower(g, dist, live + {u}, v, d);
  }

  /** A finished scan leaves `u` settled. */
  lemma Finish(g: seq<seq<Edge>>, s: int, dist: seq<int>, via: seq<seq<Hop>>, live: set<int>, u: int)
    requires 0 <= u < |g| && Scanning(g, s, dist, via, live, u, |g[u]|)
    ensures Tentative(g, s, dist, via) && Settled(g, dist, live) && SettledFirst(dist, live)
  {
    assert Relaxed(g, dist, u);
  }

  /** The vertices `0 .. n-1` in order. */
  function Vertices(n: nat): (vs: seq<int>)
    ensures |vs| == n && forall j :: 0 <= j < n ==> vs[j] == j
  {
    seq(n, j => j)
  }

  /** The heap holds one node per vertex, created in vertex order (so the handle of
      vertex `j` is node `j`, whose datum is `j`), and every vertex still in the heap has
      its tentative distance as key. */
  ghost predicate Mirrors(fh: Fibonacci.FibonacciHeap, dist: array<int>, nodes: array<int>, n: int)
    reads fh, dist, nodes
  {
    && fh.Valid() && |fh.nodes.key| == n && |fh.nodes.data| == n && dist.Length == n && nodes.Length == n
    && (forall j :: 0 <= j < n ==> fh.nodes.data[j] == j && nodes[j] == j)
    && (forall j :: j in fh.alive ==> 0 <= j < n && fh.nodes.key[j] == dist[j])
  }

  /** `dijkstraFibonacciHeap(graph, source)`: every vertex goes into the heap with its
      tentative distance; each extracted vertex relaxes its edges, lowering the keys of
      the neighbours it improves. The result is the shortest-distance table. */
  method DijkstraFibonacciHeap(g: seq<seq<Edge>>, source: int) returns (dist: array<int>)
    requires WellFormed(g) && 0 <= source < |g|
    ensures dist.Length == |g| && dist[source] == 0
    ensures ShortestDistances(g, source, dist[..])
  {
    var n := |g|;
    dist := new int[n](v => if v == source then 0 else INF);
    ghost var start := dist[..];
    Start(g, source, start);
    ghost var via: seq<seq<Hop>> := seq(n, v => []);
    var fh := new Fibonacci.FibonacciHeap();
    var nodes := new int[n];
    InsertAll(fh, dist, nodes);
    via := ExtractAll(g, source, dist, fh, nodes, via);
    Shortest(g, source, dist[..], via);
  }

  /** The insertion loop: one heap node per vertex, in vertex order, keyed by the
      vertex's tentative distance and carrying the vertex as datum. */
  method InsertAll(fh: Fibonacci.FibonacciHeap, dist: array<int>, nodes: array<int>)
    requires fh.Valid() && fh.alive == {} && fh.nodes.key == [] && fh.nodes.data == []
    requires nodes.Length == dist.Length && nodes != dist
    modifies fh, nodes
    ensures Mirrors(fh, dist, nodes, dist.Length)
    ensures forall j :: j in fh.alive <==> 0 <= j < dist.Length
  {
    for i := 0 to dist.Length
      invariant fh.Valid()
      invariant fh.nodes.key == dist[..i] && fh.nodes.data == Vertices(i) && nodes[..i] == Vertices(i)
      invariant forall j :: j in fh.alive <==> 0 <= j < i
    {
      InsertVertex(fh, dist, nodes, i);
    }
  }

  /** One turn of the insertion loop: vertex `i` enters the heap as node `i`. */
  method InsertVertex(fh: Fibonacci.FibonacciHeap, dist: array<int>, nodes: array<int>, i: int)
    requires fh.Valid() && 0 <= i < dist.Length == nodes.Length && nodes != dist
    requires fh.nodes.key == dist[..i] && fh.nodes.data == Vertices(i) && nodes[..i] == Vertices(i)
    requires forall j :: j in fh.alive <==> 0 <= j < i
    modifies fh, nodes
    ensures fh.Valid()
    ensures fh.nodes.key == dist[..i + 1] && fh.nodes.data == Vertices(i + 1) && nodes[..i + 1] == Vertices(i + 1)
    ensures forall j :: j in fh.alive <==> 0 <= j < i + 1
  {
    nodes[i] := fh.Insert(dist[i], i);
    assert dist[..i + 1] == dist[..i] + [dist[i]];
    assert nodes[..i + 1] == nodes[..i] + [i];
  }

  /** The extraction loop: while the heap is not empty, extract a vertex of least
      distance and relax its edges. */
  method ExtractAll(g: seq<seq<Edge>>, source: int, dist: array<int>, fh: Fibonacci.FibonacciHeap,
                    nodes: array<int>, ghost via0: seq<seq<Hop>>) returns (ghost via: seq<seq<Hop>>)
    requires Mirrors(fh, dist, nodes, |g|) && dist != nodes && WellFormed(g)
    requires Tentative(g, source, dist[..], via0) && Settled(g, dist[..], fh.alive)
    requires SettledFirst(dist[..], fh.alive)
    modifies dist, fh
    ensures Tentative(g, source, dist[..], via) && Final(g, dist[..])
  {
    via := via0;
    var empty := fh.IsEmpty();
    while !empty
      invariant Mirrors(fh, dist, nodes, |g|)
      invariant Tentative(g, source, dist[..], via) && Settled(g, dist[..], fh.alive)
      invariant SettledFirst(dist[..], fh.alive)
      invariant empty <==> fh.alive == {}
      decreases |fh.alive|
    {
      ghost var todo := fh.alive;
      var node := fh.ExtractMin();
      var u := fh.nodes.data[node];
      Begin(g, source, dist[..], via, todo, u);
      via := FibonacciScan(g, source, dist, fh, nodes, u, via);
      empty := fh.IsEmpty();
    }
  }

  /** The body of the extraction loop: relax every edge out of the just-extracted `u`. */
  method FibonacciScan(g: seq<seq<Edge>>, source: int, dist: array<int>, fh: Fibonacci.FibonacciHeap,
                    nodes: array<int>, u: int, ghost via0: seq<seq<Hop>>) returns (ghost via: seq<seq<Hop>>)
    requires Mirrors(fh, dist, nodes, |g|) && dist != nodes
    requires Scanning(g, source, dist[..], via0, fh.alive, u, 0)
    modifies dist, fh
    ensures Mirrors(fh, dist, nodes, |g|) && fh.alive == old(fh.alive)
    ensures Tentative(g, source, dist[..], via) && Settled(g, dist[..], fh.alive)
    ensures SettledFirst(dist[..], fh.alive)
  {
    via := via0;
    ghost var live := fh.alive;
    for i := 0 to |g[u]|
      invariant Mirrors(fh, dist, nodes, |g|) && fh.alive == live
      invariant Scanning(g, source, dist[..], via, live, u, i)
    {
      via := FibonacciRelax(g, source, dist, fh, nodes, u, i, via);
    }
    Finish(g, source, dist[..], via, live, u);
  }

  /** One turn of the edge loop: when going through `u` improves the neighbour, store the
      new distance and lower the neighbour's key in the heap. */
  method FibonacciRelax(g: seq<seq<Edge>>, source: int, dist: array<int>, fh: Fibonacci.FibonacciHeap,
                   nodes: array<int>, u: int, i: int, ghost via0: seq<seq<Hop>>) returns (ghost via: seq<seq<Hop>>)
    requires Mirrors(fh, dist, nodes, |g|) && dist != nodes
    requires Scanning(g, source, dist[..], via0, fh.alive, u, i) && i < |g[u]|
    modifies dist, fh
    ensures Mirrors(fh, dist, nodes, |g|) && fh.alive == old(fh.alive)
    ensures Scanning(g, source, dist[..], via, fh.alive, u, i + 1)
  {
    via := via0;
    var v := g[u][i].to;
    var newDist := dist[u] + g[u][i].cost;
    if newDist < dist[v] {
      Better(g, source, dist[..], via, fh.alive, u, i);
      via := via[v := via[u] + [Hop(u, i)]];
      dist[v] := newDist;
      assert dist[..] == old(dist[..])[v := newDist];
      var ok := fh.DecreaseKey(nodes[v], newDist);
    } else {
      Keep(g, source, dist[..], via, fh.alive, u, i);
    }
  }

  /** A leftist-tree queue at level `lo`: every entry names a vertex, is at most INF, no
      nearer than that vertex's distance and no nearer than `lo`; every
      unsettled vertex with a finite distance has an entry carrying exactly that
      distance; and settled vertices lie no further than `lo`. */
  ghost predicate Queued(g: seq<seq<Edge>>, dist: seq<int>, q: multiset<Leftist.Entry>, live: set<int>, lo: int)
  {
    && |dist| == |g|
    && (forall e :: e in q ==> 0 <= e.vertex < |g| && dist[e.vertex] <= e.key <= INF && lo <= e.key)
    && (forall v :: 0 <= v < |g| && v in live && dist[v] < INF ==> Leftist.Entry(v, dist[v]) in q)
    && (forall w :: 0 <= w < |g| && w !in live ==> dist[w] <= lo)
  }

  /** The queue holding only the source, with every vertex unsettled. */
  lemma Seed(g: seq<seq<Edge>>, s: int, dist: seq<int>, via: seq<seq<Hop>>, todo: set<int>)
    requires WellFormed(g) && Tentative(g, s, dist, via) && dist == seq(|g|, v => if v == s then 0 else INF)
    requires todo == set v | v in Vertices(|g|)
    ensures Settled(g, dist, todo) && SettledFirst(dist, todo)
    ensures Queued(g, dist, multiset{Leftist.Entry(s, 0)}, todo, 0)
    ensures forall v :: v in todo <==> 0 <= v < |g|
  {
    forall v | 0 <= v < |g| ensures v in todo {
      assert Vertices(|g|)[v] == v;
    }
  }

  /** Popping a least entry `(u, k)`: a stale entry (`k` above `u`'s distance) leaves the
      invariant as it was; a current one settles `u`, raises the level to `k` and starts
      the scan of `u`. */
  lemma Pop(g: seq<seq<Edge>>, s: int, dist: seq<int>, via: seq<seq<Hop>>, q: multiset<Leftist.Entry>,
            todo: set<int>, lo: int, u: int, k: int)
    requires Tentative(g, s, dist, via) && Settled(g, dist, todo) && SettledFirst(dist, todo)
    requires Queued(g, dist, q, todo, lo) && Leftist.Entry(u, k) in q
    requires forall e :: e in q ==> k <= e.key
    ensures 0 <= u < |g| && dist[u] <= k
    ensures dist[u] < k ==> u !in todo && Queued(g, dist, q - multiset{Leftist.Entry(u, k)}, todo, lo)
    ensures dist[u] == k ==> && Scanning(g, s, dist, via, todo - {u}, u, 0)
                             && Queued(g, dist, q - multiset{Leftist.Entry(u, k)}, todo - {u}, k)
  {
    var q' := q - multiset{Leftist.Entry(u, k)};
    forall v | 0 <= v < |g| && v in todo && v != u && dist[v] < INF ensures Leftist.Entry(v, dist[v]) in q' {
      assert Leftist.Entry(v, dist[v]) in q;
    }
    if dist[u] == k {
      forall v | 0 <= v < |g| && v in todo ensures dist[u] <= dist[v] {
        if dist[v] < INF { assert Leftist.Entry(v, dist[v]) in q; }
      }
      if u in todo {
        Begin(g, s, dist, via, todo, u);
      } else {
        assert todo - {u} == todo;
      }
    } else {
      forall v | 0 <= v < |g| && v in todo && dist[v] < INF ensures Leftist.Entry(v, dist[v]) in q' {
        assert Leftist.Entry(v, dist[v]) in q;
      }
    }
  }

  /** An edge of the scan of `u` that improves its end `v`: with `v`'s distance lowered,
      its walk extended and the entry `(v, d)` queued (`dist1`, `via1`, `q1`), the scan
      moves on with the invariant kept and `u` untouched; the edge was not relaxed. */
  lemma Improved(g: seq<seq<Edge>>, s: int, dist: seq<int>, via: seq<seq<Hop>>, q: multiset<Leftist.Entry>,
                 live: set<int>, u: int, i: int, dist1: seq<int>, via1: seq<seq<Hop>>, q1: multiset<Leftist.Entry>)
    requires Scanning(g, s, dist, via, live, u, i) && i < |g[u]| && Queued(g, dist, q, live, dist[u])
    requires dist[u] + g[u][i].cost < dist[g[u][i].to]
    requires dist1 == dist[g[u][i].to := dist[u] + g[u][i].cost]
    requires via1 == via[g[u][i].to := via[u] + [Hop(u, i)]]
    requires q1 == q + multiset{Leftist.Entry(g[u][i].to, dist[u] + g[u][i].cost)}
    ensures Scanning(g, s, dist1, via1, live, u, i + 1)
    ensures dist1[u] == dist[u] && Queued(g, dist1, q1, live, dist1[u])
    ensures !Relaxed(g, dist, u)
  {
    Better(g, s, dist, via, live, u, i);
  }

  /** `pq.insert(new Node(v, d))`, seen through the queue's contents. */
  method Push(pq: Leftist.LeftistTree, v: int, d: int)
    requires pq.Valid()
    modifies pq
    ensures pq.Valid() && pq.Contents() == old(pq.Contents()) + multiset{Leftist.Entry(v, d)}
  {
    pq.Insert(Leftist.Singleton(v, d));
  }

  /** `pq.deleteMin()` on a non-empty queue, seen through the queue's contents: a least
      entry leaves the queue. */
  method PopMin(pq: Leftist.LeftistTree) returns (node: Leftist.Entry)
    requires pq.Valid() && pq.Contents() != multiset{}
    modifies pq
    ensures pq.Valid() && node in old(pq.Contents())
    ensures pq.Contents() == old(pq.Contents()) - multiset{node}
    ensures |pq.Contents()| == |old(pq.Contents())| - 1
    ensures forall e :: e in old(pq.Contents()) ==> node.key <= e.key
  {
    var min := pq.DeleteMin();
    node := Leftist.Entry(min.vertex, min.key);
  }

  /** `dijkstraLeftistTree(graph, source)`: a lazy queue seeded with the source; a popped
      entry whose key exceeds its vertex's current distance is skipped, any other relaxes
      the edges of its vertex and queues every improved neighbour afresh. The result is
      the shortest-distance table. */
  method DijkstraLeftistTree(g: seq<seq<Edge>>, source: int) returns (dist: array<int>)
    requires WellFormed(g) && 0 <= source < |g|
    ensures dist.Length == |g| && dist[source] == 0
    ensures ShortestDistances(g, source, dist[..])
  {
    var n := |g|;
    dist := new int[n](v => if v == source then 0 else INF);
    Start(g, source, dist[..]);
    ghost var via: seq<seq<Hop>> := seq(n, v => []);
    var pq := new Leftist.LeftistTree();
    Push(pq, source, 0);
    ghost var todo: set<int> := set v | v in Vertices(n);
    Seed(g, source, dist[..], via, todo);
    via := LeftistDrain(g, source, dist, pq, true, todo, via);
    Shortest(g, source, dist[..], via);
  }

  /** The pop loop of the leftist-tree engines: runs until the queue is empty. */
  method LeftistDrain(g: seq<seq<Edge>>, source: int, dist: array<int>, pq: Leftist.LeftistTree, lazy: bool,
                      ghost todo0: set<int>, ghost via0: seq<seq<Hop>>) returns (ghost via: seq<seq<Hop>>)
    requires pq.Valid() && Tentative(g, source, dist[..], via0) && Settled(g, dist[..], todo0)
    requires SettledFirst(dist[..], todo0) && Queued(g, dist[..], pq.Contents(), todo0, 0)
    requires forall v :: v in todo0 ==> 0 <= v < |g|
    modifies dist, pq
    ensures Tentative(g, source, dist[..], via) && Final(g, dist[..])
  {
    via := via0;
    ghost var todo, lo := todo0, 0;
    var empty := pq.IsEmpty();
    while !empty
      invariant pq.Valid()
      invariant Tentative(g, source, dist[..], via) && Settled(g, dist[..], todo)
      invariant SettledFirst(dist[..], todo) && Queued(g, dist[..], pq.Contents(), todo, lo)
      invariant forall v :: v in todo ==> 0 <= v < |g|
      invariant empty <==> pq.Contents() == multiset{}
      decreases |todo|, |pq.Contents()|
    {
      todo, lo, via := LeftistPop(g, source, dist, pq, lazy, todo, lo, via);
      empty := pq.IsEmpty();
    }
    forall u | 0 <= u < |g| && dist[u] < INF ensures Relaxed(g, dist[..], u) {
      assert Leftist.Entry(u, dist[u]) !in pq.Contents();
    }
  }

  /** One turn of the pop loop: take a least entry and relax the edges of its vertex,
      which is settled from then on. The `lazy` engine skips an entry whose key exceeds its
      vertex's distance; the eager one scans it as well, which then changes nothing. Either
      fewer vertices are unsettled, or the queue is shorter. */
  method LeftistPop(g: seq<seq<Edge>>, source: int, dist: array<int>, pq: Leftist.LeftistTree, lazy: bool,
                    ghost todo0: set<int>, ghost lo0: int, ghost via0: seq<seq<Hop>>)
      returns (ghost todo: set<int>, ghost lo: int, ghost via: seq<seq<Hop>>)
    requires pq.Valid() && pq.Contents() != multiset{}
    requires Tentative(g, source, dist[..], via0) && Settled(g, dist[..], todo0)
    requires SettledFirst(dist[..], todo0) && Queued(g, dist[..], pq.Contents(), todo0, lo0)
    requires forall v :: v in todo0 ==> 0 <= v < |g|
    modifies dist, pq
    ensures pq.Valid() && Tentative(g, source, dist[..], via) && Settled(g, dist[..], todo)
    ensures SettledFirst(dist[..], todo) && Queued(g, dist[..], pq.Contents(), todo, lo)
    ensures todo <= todo0
    ensures |todo| < |todo0| || (todo == todo0 && |pq.Contents()| < old(|pq.Contents()|))
  {
    todo, lo, via := todo0, lo0, via0;
    ghost var q := pq.Contents();
    var node := PopMin(pq);
    var u := node.vertex;
    Pop(g, source, dist[..], via, q, todo, lo, u, node.key);
    if !lazy || node.key <= dist[u] {
      ghost var current := dist[u] == node.key;
      ghost var live := if current then todo - {u} else todo;
      ghost var level := if current then node.key else lo;
      via := LeftistScan(g, source, dist, pq, u, live, level, via);
      if current {
        if u in todo0 {
          Fewer(todo0, u);
        } else {
          Without(todo0, u);
        }
        todo, lo := live, level;
      }
    }
  }

  /** The edge loop of both leftist-tree engines, at queue level `lo`. Scanning a vertex
      just settled keeps the invariant; a vertex whose edges are all relaxed already leaves
      the table and the queue as they were. */
  method LeftistScan(g: seq<seq<Edge>>, source: int, dist: array<int>, pq: Leftist.LeftistTree, u: int,
                     ghost live: set<int>, ghost lo: int, ghost via0: seq<seq<Hop>>) returns (ghost via: seq<seq<Hop>>)
    requires pq.Valid() && WellFormed(g) && dist.Length == |g| && 0 <= u < |g|
    requires Queued(g, dist[..], pq.Contents(), live, lo)
    requires (Scanning(g, source, dist[..], via0, live, u, 0) && lo == dist[u]) || Relaxed(g, dist[..], u)
    modifies dist, pq
    ensures pq.Valid() && Queued(g, dist[..], pq.Contents(), live, lo)
    ensures old(Scanning(g, source, dist[..], via0, live, u, 0)) && lo == old(dist[u]) ==>
              Tentative(g, source, dist[..], via) && Settled(g, dist[..], live) && SettledFirst(dist[..], live)
    ensures Relaxed(g, old(dist[..]), u) ==> dist[..] == old(dist[..]) && pq.Contents() == old(pq.Contents()) && via == via0
  {
    via := via0;
    ghost var d0, q0 := dist[..], pq.Contents();
    ghost var scan := Scanning(g, source, d0, via0, live, u, 0) && lo == d0[u];
    for i := 0 to |g[u]|
      invariant pq.Valid() && dist.Length == |g| && Queued(g, dist[..], pq.Contents(), live, lo)
      invariant scan ==> Scanning(g, source, dist[..], via, live, u, i) && dist[u] == lo
      invariant Relaxed(g, d0, u) ==> dist[..] == d0 && pq.Contents() == q0 && via == via0
      invariant scan || Relaxed(g, d0, u)
    {
      via := LeftistRelax(g, source, dist, pq, u, i, live, lo, via);
    }
    if scan {
      Finish(g, source, dist[..], via, live, u);
    }
  }

  /** One turn of the edge loop of the leftist-tree engines: store an improved distance
      and queue the neighbour with it. */
  method LeftistRelax(g: seq<seq<Edge>>, source: int, dist: array<int>, pq: Leftist.LeftistTree, u: int, i: int,
                      ghost live: set<int>, ghost lo: int, ghost via0: seq<seq<Hop>>) returns (ghost via: seq<seq<Hop>>)
    requires pq.Valid() && WellFormed(g) && dist.Length == |g| && 0 <= u < |g| && 0 <= i < |g[u]|
    requires Queued(g, dist[..], pq.Contents(), live, lo)
    requires (Scanning(g, source, dist[..], via0, live, u, i) && lo == dist[u]) || Relaxed(g, dist[..], u)
    modifies dist, pq
    ensures pq.Valid() && Queued(g, dist[..], pq.Contents(), live, lo)
    ensures old(Scanning(g, source, dist[..], via0, live, u, i)) && lo == old(dist[u]) ==>
              Scanning(g, source, dist[..], via, live, u, i + 1) && dist[u] == lo
    ensures Relaxed(g, old(dist[..]), u) ==> dist[..] == old(dist[..]) && pq.Contents() == old(pq.Contents()) && via == via0
  {
    via := via0;
    var v := g[u][i].to;
    var newDist := dist[u] + g[u][i].cost;
    if newDist < dist[v] {
      ghost var d0, q0, w0 := dist[..], pq.Contents(), via;
      via := via[v := via[u] + [Hop(u, i)]];
      dist[v] := newDist;
      assert dist[..] == d0[v := newDist];
      Push(pq, v, newDist);
      Improved(g, source, d0, w0, q0, live, u, i, dist[..], via, pq.Contents());
    } else if Scanning(g, source, dist[..], via, live, u, i) {
      Keep(g, source, dist[..], via, live, u, i);
    }
  }
}
