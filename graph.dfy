/** Weighted undirected graphs as adjacency lists, the paths through them, and the
    facts about paths that the shortest-path engines rely on. */
module Graph {

  /** Integer.MAX_VALUE: the distance of a vertex no path has reached yet. */
  const INF := 2147483647

  /** One entry of an adjacency list: the neighbour and the weight of the edge to it
      (the `Edge(to, cost)` record and the `Pair<Integer, Integer>` of the engines). */
  datatype Edge = Edge(to: int, cost: int)

  /** Every edge points at a vertex of the graph. */
  ghost predicate Targets(g: seq<seq<Edge>>)
  {
    forall u, i :: 0 <= u < |g| && 0 <= i < |g[u]| ==> 0 <= g[u][i].to < |g|
  }

  /** Every edge points at a vertex of the graph and has a non-negative weight. */
  ghost predicate WellFormed(g: seq<seq<Edge>>)
  {
    forall u, i :: 0 <= u < |g| && 0 <= i < |g[u]| ==> 0 <= g[u][i].to < |g| && 0 <= g[u][i].cost
  }

  /** A step along the edge stored at `g[from][slot]`. */
  datatype Hop = Hop(from: int, slot: int)

  /** `p` is a walk from `s` to `t`: each hop leaves the vertex the previous one reached. */
  ghost predicate IsPath(g: seq<seq<Edge>>, s: int, t: int, p: seq<Hop>)
    decreases |p|
  {
    if p == [] then s == t
    else
      var h := p[|p| - 1];
      && 0 <= h.from < |g| && 0 <= h.slot < |g[h.from]|
      && g[h.from][h.slot].to == t
      && IsPath(g, s, h.from, p[..|p| - 1])
  }

  /** The total weight of the hops of `p` (a hop outside the graph weighs nothing). */
  ghost function Cost(g: seq<seq<Edge>>, p: seq<Hop>): int
    decreases |p|
  {
    if p == [] then 0
    else
      var h := p[|p| - 1];
      Cost(g, p[..|p| - 1])
        + (if 0 <= h.from < |g| && 0 <= h.slot < |g[h.from]| then g[h.from][h.slot].cost else 0)
  }

  ghost predicate Reachable(g: seq<seq<Edge>>, s: int, t: int)
  {
    exists p :: IsPath(g, s, t, p)
  }

  /** Extending a walk by one edge out of its end vertex. */
  lemma PathExtend(g: seq<seq<Edge>>, s: int, u: int, p: seq<Hop>, i: int)
    requires IsPath(g, s, u, p) && 0 <= u < |g| && 0 <= i < |g[u]|
    ensures IsPath(g, s, g[u][i].to, p + [Hop(u, i)])
    ensures Cost(g, p + [Hop(u, i)]) == Cost(g, p) + g[u][i].cost
  {
    assert (p + [Hop(u, i)])[..|p|] == p;
  }

  /** One edge out of `u` followed by a walk from its end is a walk from `u`. */
  lemma ReachStep(g: seq<seq<Edge>>, u: int, i: int, t: int)
    requires 0 <= u < |g| && 0 <= i < |g[u]| && Reachable(g, g[u][i].to, t)
    ensures Reachable(g, u, t)
  {
    var q :| IsPath(g, g[u][i].to, t, q);
    PathExtend(g, u, u, [], i);
    PathConcat(g, u, g[u][i].to, t, [Hop(u, i)], q);
  }

  /** Walks compose: a walk to `m` followed by a walk from `m`. */
  lemma {:induction false} PathConcat(g: seq<seq<Edge>>, s: int, m: int, t: int, p: seq<Hop>, q: seq<Hop>)
    requires IsPath(g, s, m, p) && IsPath(g, m, t, q)
    ensures IsPath(g, s, t, p + q)
    decreases |q|
  {
    if q != [] {
      var h := q[|q| - 1];
      PathConcat(g, s, m, h.from, p, q[..|q| - 1]);
      assert (p + q)[..|p + q| - 1] == p + q[..|q| - 1];
      assert (p + q)[|p + q| - 1] == h;
    } else {
      assert p + q == p;
    }
  }

  /** A set of vertices that contains `s` and is closed under following edges
      contains every vertex a walk from `s` reaches. */
  lemma {:induction false} ClosedSetHoldsPath(g: seq<seq<Edge>>, inSet: seq<bool>, s: int, t: int, p: seq<Hop>)
    requires Targets(g) && |inSet| == |g| && 0 <= s < |g| && inSet[s]
    requires forall u, i :: 0 <= u < |g| && inSet[u] && 0 <= i < |g[u]| ==> inSet[g[u][i].to]
    requires IsPath(g, s, t, p)
    ensures 0 <= t < |g| && inSet[t]
    decreases |p|
  {
    if p != [] {
      var h := p[|p| - 1];
      ClosedSetHoldsPath(g, inSet, s, h.from, p[..|p| - 1]);
    }
  }

  /** Every edge out of `u` is relaxed: following it cannot beat the neighbour's distance. */
  ghost predicate Relaxed(g: seq<seq<Edge>>, dist: seq<int>, u: int)
    requires 0 <= u < |g| && |dist| == |g| && WellFormed(g)
  {
    forall i :: 0 <= i < |g[u]| ==> dist[g[u][i].to] <= dist[u] + g[u][i].cost
  }

  /** `dist` is the table of shortest-path distances from `s`, with INF standing for
      "no path, or every path weighs at least INF". */
  ghost predicate ShortestDistances(g: seq<seq<Edge>>, s: int, dist: seq<int>)
    requires |dist| == |g|
  {
    && (forall t, p :: 0 <= t < |g| && IsPath(g, s, t, p) ==> dist[t] <= Cost(g, p))
    && (forall t :: 0 <= t < |g| && dist[t] < INF ==> exists p :: IsPath(g, s, t, p) && Cost(g, p) == dist[t])
    && (forall t :: 0 <= t < |g| ==> dist[t] <= INF)
  }

  /** The heart of Dijkstra's correctness: once every finitely-reached vertex is relaxed,
      no walk from the source beats the table. */
  lemma {:induction false} RelaxedIsLowerBound(g: seq<seq<Edge>>, s: int, dist: seq<int>, t: int, p: seq<Hop>)
    requires WellFormed(g) && |dist| == |g| && 0 <= s < |g| && dist[s] == 0
    requires forall v :: 0 <= v < |g| ==> dist[v] <= INF
    requires forall u :: 0 <= u < |g| && dist[u] < INF ==> Relaxed(g, dist, u)
    requires IsPath(g, s, t, p)
    ensures 0 <= t < |g| && dist[t] <= Cost(g, p)
    decreases |p|
  {
    if p != [] {
      var h := p[|p| - 1];
      var q := p[..|p| - 1];
      RelaxedIsLowerBound(g, s, dist, h.from, q);
      if dist[h.from] < INF {
        assert dist[t] <= dist[h.from] + g[h.from][h.slot].cost;
      }
    }
  }

  /** What every engine establishes at the end: all reached vertices relaxed, the source
      at 0, and a witness walk for every finite distance. */
  lemma Shortest(g: seq<seq<Edge>>, s: int, dist: seq<int>, via: seq<seq<Hop>>)
    requires WellFormed(g) && |dist| == |g| && |via| == |g| && 0 <= s < |g| && dist[s] == 0
    requires forall v :: 0 <= v < |g| ==> dist[v] <= INF
    requires forall u :: 0 <= u < |g| && dist[u] < INF ==> Relaxed(g, dist, u)
    requires forall v :: 0 <= v < |g| && dist[v] < INF ==> IsPath(g, s, v, via[v]) && Cost(g, via[v]) == dist[v]
    ensures ShortestDistances(g, s, dist)
  {
    forall t, p | 0 <= t < |g| && IsPath(g, s, t, p) ensures dist[t] <= Cost(g, p) {
      RelaxedIsLowerBound(g, s, dist, t, p);
    }
    forall t | 0 <= t < |g| && dist[t] < INF ensures exists p :: IsPath(g, s, t, p) && Cost(g, p) == dist[t] {
      assert IsPath(g, s, t, via[t]);
    }
  }
}
