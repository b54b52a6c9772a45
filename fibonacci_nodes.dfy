/** The state of the Fibonacci heap of FibonacciHeap.java, and the separate conditions its
    shape obeys. The Java `Node` objects live in an arena: node `n` is index `n` of the
    sequences of `Arena`, one sequence per `Node` field, and a null reference is NIL. */
module FibonacciNodes {
  import opened Rings

  /** The fields of all `Node` objects created so far, one sequence per field. */
  datatype Arena = Arena(key: seq<int>, data: seq<int>, degree: seq<int>, childCut: seq<bool>,
                         parent: seq<int>, child: seq<int>, left: seq<int>, right: seq<int>)

  /** A heap's fields, real and ghost, as one value: the arena, `min` and `size`, and the
      ghost description of its shape (the root list in `right` order, the child list of
      every node read from its `child`, the nodes still in the heap, and a rank that
      grows from child to parent). */
  datatype HeapState = HeapState(nodes: Arena, min: int, size: int,
                                 roots: seq<int>, kids: seq<seq<int>>, alive: set<int>, rank: seq<int>)

  /** Every arena sequence, and every ghost per-node sequence, has one entry per node. */
  ghost predicate Shaped(a: Arena, kids: seq<seq<int>>, rank: seq<int>)
  {
    var n := |a.key|;
    |a.data| == n && |a.degree| == n && |a.childCut| == n && |a.parent| == n
    && |a.child| == n && |a.left| == n && |a.right| == n && |kids| == n && |rank| == n
  }

  /** `p` is null or a node of an arena of `n` nodes. */
  predicate Ref(p: int, n: int)
  {
    p == NIL || 0 <= p < n
  }

  /** Every reference stored in the arena is null or one of its nodes (`left` and `right`
      are never null). */
  ghost predicate Closed(a: Arena)
  {
    var n := |a.key|;
    && (forall i :: 0 <= i < |a.left| ==> 0 <= a.left[i] < n)
    && (forall i :: 0 <= i < |a.right| ==> 0 <= a.right[i] < n)
    && (forall i :: 0 <= i < |a.parent| ==> Ref(a.parent[i], n))
    && (forall i :: 0 <= i < |a.child| ==> Ref(a.child[i], n))
  }

  /** All of `s` are nodes of an arena of `n` nodes. */
  ghost predicate AllIn(s: seq<int>, n: int)
  {
    forall i :: 0 <= i < |s| ==> 0 <= s[i] < n
  }

  /** Every child list holds nodes of an arena of `n` nodes. */
  ghost predicate KidsIn(kids: seq<seq<int>>, n: int)
  {
    forall p {:trigger kids[p]} :: 0 <= p < |kids| ==> AllIn(kids[p], n)
  }

  /** No degree is negative. */
  ghost predicate NonNeg(degree: seq<int>)
  {
    forall i :: 0 <= i < |degree| ==> degree[i] >= 0
  }

  /** The live nodes are nodes of an arena of `n` nodes. */
  ghost predicate InArena(alive: set<int>, n: int)
  {
    forall x :: x in alive ==> 0 <= x < n
  }

  /** The root list: empty exactly when `min` is null, otherwise a ring through `min`. */
  ghost predicate RootRing(min: int, roots: seq<int>, left: seq<int>, right: seq<int>)
  {
    if min == NIL then roots == [] else Ring(roots, left, right) && min in roots
  }

  /** A node's child list: empty when its `child` is null, otherwise a ring read from `child`. */
  ghost predicate KidRing(c: int, ks: seq<int>, left: seq<int>, right: seq<int>)
  {
    if c == NIL then ks == [] else Ring(ks, left, right) && ks[0] == c
  }

  /** Every live node other than `skip` has a well-formed child list. */
  ghost predicate KidRings(alive: set<int>, skip: int, child: seq<int>, kids: seq<seq<int>>,
                           left: seq<int>, right: seq<int>)
  {
    forall p {:trigger kids[p]} :: p in alive && p != skip ==>
      0 <= p < |child| && p < |kids| && KidRing(child[p], kids[p], left, right)
  }

  /** The ring memberships agree with the `parent` pointers: roots are exactly the live
      nodes without a parent, and a child list holds exactly the live nodes naming that parent. */
  ghost predicate Links(alive: set<int>, roots: seq<int>, kids: seq<seq<int>>, parent: seq<int>)
  {
    && (forall r {:trigger r in roots} :: r in roots ==> r in alive && 0 <= r < |parent| && parent[r] == NIL)
    && (forall n {:trigger parent[n]} :: n in alive && 0 <= n < |parent| && parent[n] == NIL ==> n in roots)
    && (forall n {:trigger parent[n]} :: n in alive && 0 <= n < |parent| && parent[n] != NIL ==>
          parent[n] in alive && 0 <= parent[n] < |kids| && n in kids[parent[n]])
    && (forall p, c {:trigger c in kids[p]} :: p in alive && 0 <= p < |kids| && c in kids[p] ==>
          c in alive && 0 <= c < |parent| && parent[c] == p)
  }

  /** `degree` counts the children of every live node other than `skip`. */
  ghost predicate Degrees(alive: set<int>, skip: int, degree: seq<int>, kids: seq<seq<int>>)
  {
    forall p {:trigger degree[p]} :: p in alive && p != skip && 0 <= p < |degree| && p < |kids| ==>
      degree[p] == |kids[p]|
  }

  /** Heap order: no live node other than `skip` has a key below its parent's. */
  ghost predicate Ordered(alive: set<int>, skip: int, parent: seq<int>, key: seq<int>)
  {
    forall c {:trigger key[parent[c]]} :: c in alive && c != skip && 0 <= c < |parent| && parent[c] != NIL ==>
      0 <= parent[c] < |key| && c < |key| && key[parent[c]] <= key[c]
  }

  /** A ghost rank that grows strictly from child to parent, so every chain of parents ends. */
  ghost predicate Ranked(parent: seq<int>, rank: seq<int>)
  {
    forall c {:trigger rank[parent[c]]} :: 0 <= c < |parent| && parent[c] != NIL ==>
      0 <= parent[c] < |rank| && c < |rank| && rank[parent[c]] > rank[c]
  }

  /** `min` has the smallest key of the root list, leaving out the root `skip`. */
  ghost predicate MinOk(min: int, roots: seq<int>, key: seq<int>, skip: int)
  {
    forall r {:trigger r in roots} :: r in roots && r != skip ==>
      0 <= min < |key| && 0 <= r < |key| && key[min] <= key[r]
  }

  /** Every slot of consolidate's degree table is null or a node. */
  ghost predicate Slots(A: seq<int>, n: int)
  {
    forall d :: 0 <= d < |A| ==> Ref(A[d], n)
  }

  /** Every tree of the degree table is a root whose degree is its slot. */
  ghost predicate Table(A: seq<int>, roots: seq<int>, degree: seq<int>)
  {
    forall d {:trigger A[d]} :: 0 <= d < |A| && A[d] != NIL ==>
      A[d] in roots && 0 <= A[d] < |degree| && degree[A[d]] == d
  }

  /** The roots consolidate has still to place: distinct roots, none in the table and none
      the tree `x` being combined, and every root is in the table, still to place, or `x`. */
  ghost predicate Pending(rest: seq<int>, A: seq<int>, roots: seq<int>, x: int)
  {
    && Distinct(rest)
    && (forall r {:trigger r in rest} :: r in rest ==> r in roots && r !in A && r != x)
    && (forall r {:trigger r in roots} :: r in roots ==> r in A || r in rest || r == x)
  }

  /** No two roots have the same degree: what consolidate leaves behind. */
  ghost predicate DistinctDegrees(roots: seq<int>, degree: seq<int>)
  {
    forall i, j :: 0 <= i < |roots| && 0 <= j < |roots| && i != j && 0 <= roots[i] < |degree| && 0 <= roots[j] < |degree| ==>
      degree[roots[i]] != degree[roots[j]]
  }

  /** The largest entry of `s`, 0 for the empty sequence. */
  ghost function MaxOf(s: seq<int>): (m: int)
    ensures forall i :: 0 <= i < |s| ==> s[i] <= m
  {
    if s == [] then 0 else
      var m := MaxOf(s[..|s| - 1]);
      if s[|s| - 1] > m then s[|s| - 1] else m
  }
}
