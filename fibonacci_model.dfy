/** The Fibonacci heap's invariants, and each of its pointer operations as a function from
    the state before to the state after. Pointer writes are spelled out one Java statement
    at a time, in the order FibonacciHeap.java performs them. */
module FibonacciModel {
  import opened Rings
  import opened FibonacciNodes

  /** What the pointer operations need: the arena is well shaped and closed, `min` is null
      or a node, and the ghost root list and child lists hold nodes. */
  ghost predicate Sound(s: HeapState)
  {
    && Shaped(s.nodes, s.kids, s.rank) && Closed(s.nodes) && Ref(s.min, |s.nodes.key|)
    && AllIn(s.roots, |s.nodes.key|) && KidsIn(s.kids, |s.nodes.key|)
  }

  // ---------------------------------------------------------------------------------
  // The heap invariant, and its weaker forms in the middle of an operation
  // ---------------------------------------------------------------------------------

  /** The shape of a heap, except that the child list and the degree of `skipKids`, and the
      heap order at `skipOrder`, may be broken (NIL skips nothing). */
  ghost predicate Core(s: HeapState, skipKids: int, skipOrder: int)
  {
    && Sound(s)
    && NonNeg(s.nodes.degree)
    && InArena(s.alive, |s.nodes.key|)
    && RootRing(s.min, s.roots, s.nodes.left, s.nodes.right)
    && KidRings(s.alive, skipKids, s.nodes.child, s.kids, s.nodes.left, s.nodes.right)
    && Links(s.alive, s.roots, s.kids, s.nodes.parent)
    && Degrees(s.alive, skipKids, s.nodes.degree, s.kids)
    && Ordered(s.alive, skipOrder, s.nodes.parent, s.nodes.key)
    && Ranked(s.nodes.parent, s.rank)
  }

  /** A well-formed forest whose `min` is its smallest root. */
  ghost predicate Forest(s: HeapState)
  {
    Core(s, NIL, NIL) && MinOk(s.min, s.roots, s.nodes.key, NIL)
  }

  /** The heap invariant: a forest whose `size` counts its nodes. */
  ghost predicate Inv(s: HeapState)
  {
    Forest(s) && s.size == |s.alive|
  }

  /** extractMin part way through moving the children of `z = min` to the root list: `rest`
      are the children still to move, the child list of `z` is no longer a ring, and `min`
      is still the smallest root. */
  ghost predicate Promoting(s: HeapState, z: int, rest: seq<int>)
  {
    && Core(s, z, NIL) && MinOk(s.min, s.roots, s.nodes.key, NIL)
    && z in s.alive && s.min == z && 0 <= z < |s.kids| && s.kids[z] == rest && Distinct(rest)
  }

  /** consolidate between two roots: a forest whose `min` is some root, a degree table of
      roots, and the roots `rest` still to place. */
  ghost predicate Consolidating(s: HeapState, A: seq<int>, rest: seq<int>)
  {
    && Core(s, NIL, NIL) && s.min != NIL
    && Slots(A, |s.nodes.key|) && Table(A, s.roots, s.nodes.degree) && Pending(rest, A, s.roots, NIL)
  }

  /** consolidate while it combines the root `x`, of degree `d`, with the table's trees. */
  ghost predicate Combining(s: HeapState, A: seq<int>, x: int, d: int, rest: seq<int>)
  {
    && Core(s, NIL, NIL) && s.min != NIL
    && Slots(A, |s.nodes.key|) && Table(A, s.roots, s.nodes.degree) && Pending(rest, A, s.roots, x)
    && 0 <= x < |s.nodes.key| && x in s.roots && x !in A && s.nodes.degree[x] == d
  }

  // ---------------------------------------------------------------------------------
  // Ring splicing (mergeWithRootList, removeFromRootList, removeFromChildList,
  // mergeWithChildList)
  // ---------------------------------------------------------------------------------

  /** Splices node `x` into a ring right after `at`: four pointer writes, `x`'s left, `x`'s
      right, the left of `at`'s old right neighbour, `at`'s right, in the source's order. */
  function Splice(a: Arena, at: int, x: int): (b: Arena)
    requires |a.left| == |a.right| && 0 <= at < |a.right| && 0 <= x < |a.right| && 0 <= a.right[at] < |a.right|
    ensures b.key == a.key && b.data == a.data && b.degree == a.degree && b.childCut == a.childCut
    ensures b.parent == a.parent && b.child == a.child && |b.left| == |b.right| == |a.right|
  {
    var left1 := a.left[x := at];
    var right1 := a.right[x := a.right[at]];
    var left2 := left1[right1[at] := x];
    var right2 := right1[at := x];
    a.(left := left2, right := right2)
  }

  /** Unlinks node `x` from its ring: its left neighbour's right, then its right
      neighbour's left, skip over it; `x`'s own pointers are untouched. */
  function Unlink(a: Arena, x: int): (b: Arena)
    requires |a.left| == |a.right| && 0 <= x < |a.right| && 0 <= a.left[x] < |a.right| && 0 <= a.right[x] < |a.right|
    ensures b.key == a.key && b.data == a.data && b.degree == a.degree && b.childCut == a.childCut
    ensures b.parent == a.parent && b.child == a.child && |b.left| == |b.right| == |a.right|
  {
    var right1 := a.right[a.left[x] := a.right[x]];
    var left1 := a.left[right1[x] := a.left[x]];
    a.(left := left1, right := right1)
  }

  /** The root list with node `x` spliced in after `m` (ghost bookkeeping). */
  ghost function RootsWith(roots: seq<int>, m: int, x: int): seq<int>
  {
    if m in roots then InsertAfter(roots, IndexOf(roots, m), x) else roots
  }

  /** `s` without `x` (ghost bookkeeping). */
  ghost function Without(s: seq<int>, x: int): seq<int>
  {
    if x in s then RemoveAt(s, IndexOf(s, x)) else s
  }

  /** mergeWithRootList(node): a heap without roots gets `node` as `min`; otherwise `node`
      is spliced in after `min` and becomes `min` when its key is strictly smaller. */
  ghost function MergeRoot(s: HeapState, x: int): (t: HeapState)
    requires Sound(s) && 0 <= x < |s.nodes.key|
    ensures Sound(t) && t.min != NIL && t.nodes.key == s.nodes.key && t.nodes.data == s.nodes.data
    ensures t.nodes.degree == s.nodes.degree && t.nodes.childCut == s.nodes.childCut
    ensures t.nodes.parent == s.nodes.parent && t.nodes.child == s.nodes.child
    ensures t.size == s.size && t.kids == s.kids && t.alive == s.alive && t.rank == s.rank
  {
    if s.min == NIL then s.(min := x, roots := [x])
    else
      var a := Splice(s.nodes, s.min, x);
      s.(nodes := a,
         min := if a.key[x] < a.key[s.min] then x else s.min,
         roots := RootsWith(s.roots, s.min, x))
  }

  /** removeFromRootList(node): a root that is its own right neighbour leaves no root list;
      otherwise it is unlinked, and `min` moves to its right neighbour if it was `min`. */
  ghost function RemoveRoot(s: HeapState, x: int): (t: HeapState)
    requires Sound(s) && 0 <= x < |s.nodes.key|
    ensures Sound(t) && t.nodes.key == s.nodes.key && t.nodes.data == s.nodes.data
    ensures t.nodes.degree == s.nodes.degree && t.nodes.childCut == s.nodes.childCut
    ensures t.nodes.parent == s.nodes.parent && t.nodes.child == s.nodes.child
    ensures t.size == s.size && t.kids == s.kids && t.alive == s.alive && t.rank == s.rank
  {
    if s.nodes.right[x] == x then s.(min := NIL, roots := Without(s.roots, x))
    else
      var a := Unlink(s.nodes, x);
      s.(nodes := a,
         min := if s.min == x then a.right[x] else s.min,
         roots := Without(s.roots, x))
  }

  /** removeFromChildList(parent, node): `node` leaves the child list of `p`, whose `child`
      becomes null when `node` was alone and its right neighbour when `node` was the
      `child`; `node` is left a ring of its own. */
  ghost function RemoveChild(s: HeapState, p: int, x: int): (t: HeapState)
    requires Sound(s) && 0 <= p < |s.nodes.key| && 0 <= x < |s.nodes.key|
    ensures Sound(t) && t.nodes.key == s.nodes.key && t.nodes.data == s.nodes.data
    ensures t.nodes.degree == s.nodes.degree && t.nodes.childCut == s.nodes.childCut
    ensures t.nodes.parent == s.nodes.parent
    ensures t.size == s.size && t.min == s.min && t.roots == s.roots && t.alive == s.alive && t.rank == s.rank
  {
    var a := s.nodes;
    var b :=
      if a.right[x] == x then a.(child := a.child[p := NIL])
      else
        var c := if a.child[p] == x then a.child[p := a.right[x]] else a.child;
        Unlink(a.(child := c), x);
    var right := b.right[x := x];
    var left := b.left[x := right[x]];
    s.(nodes := b.(left := left, right := right), kids := s.kids[p := Without(s.kids[p], x)])
  }

  /** mergeWithChildList(child, node): the new `child` of the parent, `node` itself when
      there was no child list, otherwise `child` with `node` spliced in after it. */
  function MergeChild(a: Arena, c: int, x: int): (r: (Arena, int))
    requires |a.left| == |a.right| && 0 <= x < |a.right| && (c == NIL || (0 <= c < |a.right| && 0 <= a.right[c] < |a.right|))
    ensures r.1 == (if c == NIL then x else c)
    ensures c == NIL ==> r.0 == a
    ensures r.0.key == a.key && r.0.data == a.data && r.0.degree == a.degree
    ensures r.0.childCut == a.childCut && r.0.parent == a.parent && r.0.child == a.child
  {
    if c == NIL then (a, x) else (Splice(a, c, x), c)
  }

  // ---------------------------------------------------------------------------------
  // insert, link, cut, cascadingCut, decreaseKey
  // ---------------------------------------------------------------------------------

  /** The arena with one more node, built as the `Node` constructor builds it: no parent,
      no child, degree 0, unmarked, a ring of its own. The ghost lists grow alongside. */
  ghost function Grow(s: HeapState, k: int, v: int): (t: HeapState)
    requires Sound(s)
    ensures Sound(t) && |t.nodes.key| == |s.nodes.key| + 1
    ensures t.nodes.key == s.nodes.key + [k] && t.nodes.data == s.nodes.data + [v]
    ensures var n := |s.nodes.key|;
      && t.nodes.degree[n] == 0 && !t.nodes.childCut[n] && t.nodes.parent[n] == NIL && t.nodes.child[n] == NIL
      && t.nodes.left[n] == n && t.nodes.right[n] == n
    ensures t.min == s.min && t.roots == s.roots && t.alive == s.alive && t.size == s.size
  {
    var a := s.nodes;
    var n := |a.key|;
    s.(nodes := Arena(a.key + [k], a.data + [v], a.degree + [0], a.childCut + [false],
                      a.parent + [NIL], a.child + [NIL], a.left + [n], a.right + [n]),
       kids := s.kids + [[]], rank := s.rank + [0])
  }

  /** The rest of insert(key, value) once node `n` exists: `n` joins the root list as
      mergeWithRootList places it (insert's own test of the new key against `min`
      changes nothing after it), and `size` grows by one. */
  ghost function Join(g: HeapState, n: int): (t: HeapState)
    requires Sound(g) && 0 <= n < |g.nodes.key|
    ensures Sound(t) && t.nodes.key == g.nodes.key && t.nodes.data == g.nodes.data
    ensures t.nodes.degree == g.nodes.degree && t.nodes.parent == g.nodes.parent && t.nodes.child == g.nodes.child
    ensures t.kids == g.kids && t.rank == g.rank && t.alive == g.alive + {n} && t.size == g.size + 1
  {
    var m := MergeRoot(g, n);
    m.(size := m.size + 1, alive := m.alive + {n})
  }

  /** insert(key, value): a fresh node is created and joins the heap. */
  ghost function InsertSpec(s: HeapState, k: int, v: int): (t: HeapState)
    requires Sound(s)
    ensures Sound(t)
  {
    Join(Grow(s, k, v), |s.nodes.key|)
  }

  /** link(y, x) once `y` is off the root list: `y` is made a ring of its own and joins the
      child list of `x` as an unmarked child, and `x`'s degree grows by one. */
  ghost function Adopt(s: HeapState, y: int, x: int): (t: HeapState)
    requires Sound(s) && 0 <= y < |s.nodes.key| && 0 <= x < |s.nodes.key|
    ensures Sound(t) && t.nodes.key == s.nodes.key && t.nodes.data == s.nodes.data
    ensures t.nodes.degree == s.nodes.degree[x := s.nodes.degree[x] + 1]
    ensures t.nodes.parent == s.nodes.parent[y := x] && t.nodes.childCut == s.nodes.childCut[y := false]
    ensures t.size == s.size && t.alive == s.alive && t.min == s.min && t.roots == s.roots
  {
    var a1 := s.nodes;
    var right := a1.right[y := y];
    var left := a1.left[y := right[y]];
    var a2 := a1.(left := left, right := right);
    var m := MergeChild(a2, a2.child[x], y);
    var a3 := m.0.(child := m.0.child[x := m.1]);
    var a4 := a3.(parent := a3.parent[y := x]);
    var a5 := a4.(degree := a4.degree[x := a4.degree[x] + 1]);
    var a6 := a5.(childCut := a5.childCut[y := false]);
    var ks := if a2.child[x] == NIL || s.kids[x] == [] then [y] else InsertAfter(s.kids[x], 0, y);
    s.(nodes := a6, kids := s.kids[x := ks],
       rank := s.rank[x := if s.rank[x] > s.rank[y] then s.rank[x] else s.rank[y] + 1])
  }

  /** link(y, x): root `y` leaves the root list and joins the child list of `x`. */
  ghost function LinkSpec(s: HeapState, y: int, x: int): (t: HeapState)
    requires Sound(s) && 0 <= y < |s.nodes.key| && 0 <= x < |s.nodes.key|
    ensures Sound(t) && t.nodes.key == s.nodes.key && t.nodes.data == s.nodes.data
    ensures t.nodes.degree == s.nodes.degree[x := s.nodes.degree[x] + 1]
    ensures t.nodes.parent == s.nodes.parent[y := x] && t.nodes.childCut == s.nodes.childCut[y := false]
    ensures t.size == s.size && t.alive == s.alive
  {
    Adopt(RemoveRoot(s, y), y, x)
  }

  /** cut(x, y): `x` leaves the child list of its parent `y`, whose degree drops by one,
      and joins the root list unmarked and without a parent. */
  ghost function CutSpec(s: HeapState, x: int, y: int): (t: HeapState)
    requires Sound(s) && 0 <= x < |s.nodes.key| && 0 <= y < |s.nodes.key|
    ensures Sound(t) && t.min != NIL && t.nodes.key == s.nodes.key && t.nodes.data == s.nodes.data
    ensures t.size == s.size && t.alive == s.alive && t.rank == s.rank
  {
    var s1 := RemoveChild(s, y, x);
    var s2 := s1.(nodes := s1.nodes.(degree := s1.nodes.degree[y := s1.nodes.degree[y] - 1]));
    var s3 := MergeRoot(s2, x);
    var a := s3.nodes.(parent := s3.nodes.parent[x := NIL]);
    s3.(nodes := a.(childCut := a.childCut[x := false]))
  }

  /** cut(x, y) leaves `x` without a parent and unmarked, keeps every other parent and
      mark (so the ranks still grow towards the roots), and makes `x` the new `min`
      exactly when its key is strictly below min's. */
  lemma CutMarks(s: HeapState, x: int, y: int)
    requires Sound(s) && 0 <= x < |s.nodes.key| && 0 <= y < |s.nodes.key|
    ensures var t := CutSpec(s, x, y);
      && t.nodes.parent == s.nodes.parent[x := NIL] && t.nodes.childCut == s.nodes.childCut[x := false]
      && (s.min != NIL ==> t.min == (if s.nodes.key[x] < s.nodes.key[s.min] then x else s.min))
      && (Ranked(s.nodes.parent, s.rank) ==> Ranked(t.nodes.parent, t.rank))
  {
  }

  /** cascadingCut(y): a node without a parent ends the cascade; an unmarked node is
      marked and ends it; a marked node is cut from its parent and the cascade goes on
      at that parent. */
  ghost function Cascade(s: HeapState, y: int): (t: HeapState)
    requires Sound(s) && Ranked(s.nodes.parent, s.rank) && 0 <= y < |s.nodes.key|
    ensures |t.nodes.parent| == |t.nodes.childCut| == |s.nodes.key|
    ensures t.nodes.key == s.nodes.key && t.nodes.data == s.nodes.data
    ensures t.size == s.size && t.alive == s.alive && t.rank == s.rank
    decreases MaxOf(s.rank) - s.rank[y]
  {
    var z := s.nodes.parent[y];
    if z == NIL then s
    else if !s.nodes.childCut[y] then s.(nodes := s.nodes.(childCut := s.nodes.childCut[y := true]))
    else CutMarks(s, y, z); Cascade(CutSpec(s, y, z), z)
  }

  /** The three cases of cascadingCut, and its outcome: `y` ends a root or marked. */
  lemma {:induction false} CascadeCases(s: HeapState, y: int)
    requires Sound(s) && Ranked(s.nodes.parent, s.rank) && 0 <= y < |s.nodes.key|
    ensures var t := Cascade(s, y);
      && (s.nodes.parent[y] == NIL ==> t == s)
      && (s.nodes.parent[y] != NIL && !s.nodes.childCut[y] ==>
            t == s.(nodes := s.nodes.(childCut := s.nodes.childCut[y := true])))
      && (s.nodes.parent[y] != NIL && s.nodes.childCut[y] ==>
            var z := s.nodes.parent[y];
            && t.nodes.parent[y] == NIL && !t.nodes.childCut[y]
            && (t.nodes.parent[z] == NIL || t.nodes.childCut[z]))
      && (t.nodes.parent[y] == NIL || t.nodes.childCut[y])
    decreases MaxOf(s.rank) - s.rank[y]
  {
    var z := s.nodes.parent[y];
    if z != NIL && s.nodes.childCut[y] {
      CutMarks(s, y, z);
      var c := CutSpec(s, y, z);
      assert c.rank[y] < c.rank[z];
      CascadeCases(c, z);
      CascadeFrame(c, z);
    }
  }

  /** cascadingCut leaves every node of lower rank than `y`, and so every node below it,
      with its parent and its mark. */
  lemma {:induction false} CascadeFrame(s: HeapState, y: int)
    requires Sound(s) && Ranked(s.nodes.parent, s.rank) && 0 <= y < |s.nodes.key|
    ensures var t := Cascade(s, y);
      forall c :: 0 <= c < |s.nodes.key| && s.rank[c] < s.rank[y] ==>
        t.nodes.parent[c] == s.nodes.parent[c] && t.nodes.childCut[c] == s.nodes.childCut[c]
    decreases MaxOf(s.rank) - s.rank[y]
  {
    var z := s.nodes.parent[y];
    if z != NIL && s.nodes.childCut[y] {
      CutMarks(s, y, z);
      assert s.rank[y] < s.rank[z];
      CascadeFrame(CutSpec(s, y, z), z);
    }
  }

  // ---------------------------------------------------------------------------------
  // extractMin and consolidate
  // ---------------------------------------------------------------------------------

  /** One turn of extractMin's loop over the children of `z`: the first of the children
      still to move, `ks[0]`, joins the root list and loses its parent; the ghost child
      list of `z` keeps the rest. */
  ghost function PromoteStep(s: HeapState, z: int, ks: seq<int>): (t: HeapState)
    requires Sound(s) && 0 <= z < |s.nodes.key| && ks != [] && AllIn(ks, |s.nodes.key|)
    ensures Sound(t) && t.min != NIL && t.nodes.key == s.nodes.key && t.nodes.data == s.nodes.data
    ensures t.nodes.degree == s.nodes.degree && t.size == s.size && t.alive == s.alive && t.rank == s.rank
    ensures t.nodes.parent == s.nodes.parent[ks[0] := NIL] && t.nodes.childCut == s.nodes.childCut
  {
    var t := MergeRoot(s, ks[0]);
    t.(nodes := t.nodes.(parent := t.nodes.parent[ks[0] := NIL]), kids := t.kids[z := ks[1..]])
  }

  /** 2 to the power `k`. */
  function Pow2(k: nat): (p: nat)
    ensures p >= 1
  {
    if k == 0 then 1 else 2 * Pow2(k - 1)
  }

  /** `(int) (Math.log(n) / Math.log(2))` computed exactly: the floor of the base-2
      logarithm of `n`, and 0 when `n` is below 2. */
  function Log2Floor(n: int): (r: nat)
    ensures n >= 1 ==> Pow2(r) <= n < 2 * Pow2(r)
    decreases n
  {
    if n < 2 then 0 else 1 + Log2Floor(n / 2)
  }

  /** `k` null references: a fresh stretch of the degree table. */
  function Nils(k: nat): (A: seq<int>)
    ensures |A| == k && forall d :: 0 <= d < k ==> A[d] == NIL
  {
    seq(k, _ => NIL)
  }

  /** The root list read from `m` on, as `iterate(min)` lists it. */
  ghost function RingFrom(roots: seq<int>, m: int): (l: seq<int>)
    ensures forall y :: y in l <==> y in roots
  {
    if m in roots then
      var i := IndexOf(roots, m);
      RotateMembers(roots, i);
      roots[i..] + roots[..i]
    else roots
  }
}
