// Java's 32-bit `int` addition, and what it does to the relaxation `dist[u] + cost` once
// `dist[u]` is the INF (Integer.MAX_VALUE) sentinel of an unreachable vertex.

module JavaInt {
  import opened Graph
  import Dijkstra

  const MIN_INT := -0x8000_0000
  const MAX_INT := 0x7fff_ffff

  /** Java's `a + b` on `int` operands: the exact sum wrapped into the 32-bit range. */
  function AddInt(a: int, b: int): (r: int)
    ensures MIN_INT <= r <= MAX_INT
    ensures (r - (a + b)) % 0x1_0000_0000 == 0
    ensures MIN_INT <= a + b <= MAX_INT ==> r == a + b
  {
    (a + b - MIN_INT) % 0x1_0000_0000 + MIN_INT
  }

  /** One turn of the edge loop as the Java engines write it: the candidate distance is
      computed in `int` arithmetic and stored when it is below the neighbour's. */
  function RelaxAsWritten(dist: seq<int>, u: int, e: Edge): (r: seq<int>)
    requires 0 <= u < |dist| && 0 <= e.to < |dist|
    ensures |r| == |dist| && forall x :: 0 <= x < |r| && x != e.to ==> r[x] == dist[x]
    ensures r[e.to] <= dist[e.to]
  {
    var candidate := AddInt(dist[u], e.cost);
    if candidate < dist[e.to] then dist[e.to := candidate] else dist
  }

  /** Vertices 1 and 2 joined by an edge of weight 5, unreachable from the source 0. The
      eager engines extract vertex 1 at distance INF; relaxing its edge in `int`
      arithmetic gives vertex 2 a negative distance, which no distance table of the model
      admits. With exact addition `INF + 5` is not below INF and the table stays as it is. */
  lemma UnreachableWraps()
    ensures var g := [[], [Edge(2, 5)], [Edge(1, 5)]];
            var dist := [0, INF, INF];
            && WellFormed(g)
            && RelaxAsWritten(dist, 1, g[1][0]) == [0, INF, -2147483644]
            && (forall via :: !Dijkstra.Tentative(g, 0, RelaxAsWritten(dist, 1, g[1][0]), via))
            && !(dist[1] + g[1][0].cost < dist[2])
  {
    var g := [[], [Edge(2, 5)], [Edge(1, 5)]];
    var dist := [0, INF, INF];
    assert AddInt(INF, 5) == -2147483644;
    assert RelaxAsWritten(dist, 1, g[1][0])[2] < 0;
  }
}
