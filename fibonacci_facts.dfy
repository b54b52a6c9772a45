/** What the operations of FibonacciModel preserve: the shape `Core` after link, cut and
    each turn of extractMin and consolidate, and the facts about `min` that make the heap
    a priority queue. */
module FibonacciFacts {
  import opened Rings
  import opened FibonacciNodes
  import opened FibonacciModel
  import opened FibonacciShapes

  // ---------------------------------------------------------------------------------
  // Frames: which parts of the shape an operation cannot have disturbed
  // ---------------------------------------------------------------------------------

  /** An operation that rewrites only the child list of `q`, and only the links of roots
      and of children of `q`, keeps the child list of every other live node. */
  lemma KidRingsKeep(s: HeapState, t: HeapState, skip: int, q: int)
    requires Sound(s) && Sound(t) && |t.nodes.key| == |s.nodes.key|
    requires KidRings(s.alive, skip, s.nodes.child, s.kids, s.nodes.left, s.nodes.right)
    requires InArena(s.alive, |s.nodes.key|) && Links(s.alive, s.roots, s.kids, s.nodes.parent)
    requires 0 <= q < |s.nodes.key| && q in s.alive && t.alive <= s.alive
    requires t.nodes.child == s.nodes.child[q := t.nodes.child[q]] && t.kids == s.kids[q := t.kids[q]]
    requires forall c :: 0 <= c < |s.nodes.key| && c !in s.roots && c !in s.kids[q] ==>
               t.nodes.left[c] == s.nodes.left[c] && t.nodes.right[c] == s.nodes.right[c]
    requires q != skip ==> KidRing(t.nodes.child[q], t.kids[q], t.nodes.left, t.nodes.right)
    ensures KidRings(t.alive, skip, t.nodes.child, t.kids, t.nodes.left, t.nodes.right)
  {
    var a, b := s.nodes, t.nodes;
    forall p | p in t.alive && p != skip
      ensures 0 <= p < |b.child| && p < |t.kids| && KidRing(b.child[p], t.kids[p], b.left, b.right)
    {
      KidRingAt(s.alive, skip, a.child, s.kids, a.left, a.right, p);
      if p != q && a.child[p] != NIL {
        forall c | c in s.kids[p] && 0 <= c < |a.right|
          ensures b.left[c] == a.left[c] && b.right[c] == a.right[c]
        {
          assert a.parent[c] == p;
        }
        RingFrame(s.kids[p], a.left, a.right, b.left, b.right);
      }
    }
  }

  /** The child list of one live node. */
  lemma KidRingAt(alive: set<int>, skip: int, child: seq<int>, kids: seq<seq<int>>,
                  left: seq<int>, right: seq<int>, p: int)
    requires KidRings(alive, skip, child, kids, left, right) && p in alive && p != skip
    requires 0 <= p < |kids| == |child|
    ensures KidRing(child[p], kids[p], left, right)
  {
    ghost var ks := kids[p];
  }

  /** The children of a live node are not roots. */
  lemma KidsNotRoots(s: HeapState, p: int)
    requires Links(s.alive, s.roots, s.kids, s.nodes.parent) && p in s.alive && 0 <= p < |s.kids|
    ensures forall c :: c in s.kids[p] ==> c !in s.roots
  {
    forall c | c in s.kids[p] ensures c !in s.roots {
      assert s.nodes.parent[c] == p;
    }
  }

  // ---------------------------------------------------------------------------------
  // Links: memberships against parent pointers
  // ---------------------------------------------------------------------------------

  /** Root `y` becomes a child of root `x`. */
  lemma LinksAdopt(alive: set<int>, roots: seq<int>, kids: seq<seq<int>>, parent: seq<int>,
                   roots': seq<int>, kx: seq<int>, y: int, x: int)
    requires Links(alive, roots, kids, parent) && |kids| == |parent|
    requires y in roots && x in roots && y != x && 0 <= x < |parent| && 0 <= y < |parent|
    requires forall r :: r in roots' <==> r in roots && r != y
    requires forall c :: c in kx <==> c in kids[x] || c == y
    ensures Links(alive, roots', kids[x := kx], parent[y := x])
  {
    var kids', parent' := kids[x := kx], parent[y := x];
    forall n | n in alive && 0 <= n < |parent'| && parent'[n] != NIL
      ensures parent'[n] in alive && 0 <= parent'[n] < |kids'| && n in kids'[parent'[n]]
    {
      if n != y && parent[n] == x {
        assert n in kids[x];
      }
    }
    forall p, c | p in alive && 0 <= p < |kids'| && c in kids'[p]
      ensures c in alive && 0 <= c < |parent'| && parent'[c] == p
    {
      if p == x {
        assert c in kids[x] || c == y;
      }
      if c == y {
        assert parent[y] == NIL;
      }
    }
  }

  // ---------------------------------------------------------------------------------
  // link
  // ---------------------------------------------------------------------------------

  /** link(y, x) keeps the rings: the root list loses `y`, which the child list of `x` gains. */
  lemma LinkRings(s: HeapState, y: int, x: int)
    requires Core(s, NIL, NIL) && y in s.roots && x in s.roots && y != x
    ensures 0 <= y < |s.nodes.key| && 0 <= x < |s.nodes.key|
    ensures var t := LinkSpec(s, y, x);
      && RootRing(t.min, t.roots, t.nodes.left, t.nodes.right) && t.min != NIL
      && (forall r :: r in t.roots <==> r in s.roots && r != y)
      && (t.min == s.min || s.min == y)
      && KidRings(t.alive, NIL, t.nodes.child, t.kids, t.nodes.left, t.nodes.right)
      && (forall c :: c in t.kids[x] <==> c in s.kids[x] || c == y)
      && |t.kids[x]| == |s.kids[x]| + 1
      && t.nodes.parent == s.nodes.parent[y := x] && t.kids == s.kids[x := t.kids[x]]
  {
    assert x in s.alive;
    KidsNotRoots(s, x);
    LinkShape(s, y, x);
    LinkKept(s, y, x);
    KidRingsKeep(s, LinkSpec(s, y, x), NIL, x);
  }

  /** link(y, x) of two roots, `x` with the key no larger, keeps the degrees, the heap
      order and the ranks. */
  lemma LinkOrder(s: HeapState, y: int, x: int)
    requires Sound(s) && Links(s.alive, s.roots, s.kids, s.nodes.parent)
    requires Degrees(s.alive, NIL, s.nodes.degree, s.kids) && Ordered(s.alive, NIL, s.nodes.parent, s.nodes.key)
    requires Ranked(s.nodes.parent, s.rank)
    requires y in s.roots && x in s.roots && y != x
    requires 0 <= x < |s.nodes.key| && 0 <= y < |s.nodes.key| && s.nodes.key[x] <= s.nodes.key[y]
    requires var t := LinkSpec(s, y, x);
      && |t.kids[x]| == |s.kids[x]| + 1
      && t.nodes.parent == s.nodes.parent[y := x] && t.kids == s.kids[x := t.kids[x]]
    ensures var t := LinkSpec(s, y, x);
      && Degrees(t.alive, NIL, t.nodes.degree, t.kids)
      && Ordered(t.alive, NIL, t.nodes.parent, t.nodes.key)
      && Ranked(t.nodes.parent, t.rank)
  {
    var a := s.nodes;
    var t := LinkSpec(s, y, x);
    var b := t.nodes;
    assert a.parent[x] == NIL;
    forall p | p in t.alive && 0 <= p < |b.degree| && p < |t.kids|
      ensures b.degree[p] == |t.kids[p]|
    {
      assert p != x ==> b.degree[p] == a.degree[p];
    }
    forall c | c in t.alive && 0 <= c < |b.parent| && b.parent[c] != NIL
      ensures 0 <= b.parent[c] < |b.key| && c < |b.key| && b.key[b.parent[c]] <= b.key[c]
    {
      assert c != y ==> b.parent[c] == a.parent[c];
    }
    forall c | 0 <= c < |b.parent| && b.parent[c] != NIL
      ensures 0 <= b.parent[c] < |t.rank| && c < |t.rank| && t.rank[b.parent[c]] > t.rank[c]
    {
      if c != y {
        assert b.parent[c] == a.parent[c] && c != x;
      }
    }
  }

  /** link(y, x) of two distinct roots, `x` with the key no larger, keeps the shape. */
  lemma LinkCore(s: HeapState, y: int, x: int)
    requires Core(s, NIL, NIL) && y in s.roots && x in s.roots && y != x
    requires 0 <= x < |s.nodes.key| && 0 <= y < |s.nodes.key| && s.nodes.key[x] <= s.nodes.key[y]
    ensures var t := LinkSpec(s, y, x);
      && Core(t, NIL, NIL) && t.min != NIL
      && (forall r :: r in t.roots <==> r in s.roots && r != y)
      && (t.min == s.min || s.min == y)
  {
    var t := LinkSpec(s, y, x);
    LinkRings(s, y, x);
    LinksAdopt(s.alive, s.roots, s.kids, s.nodes.parent, t.roots, t.kids[x], y, x);
    LinkOrder(s, y, x);
  }

  /** Child `x` of `y` becomes a root. */
  lemma LinksRelease(alive: set<int>, roots: seq<int>, kids: seq<seq<int>>, parent: seq<int>,
                     roots': seq<int>, ky: seq<int>, x: int, y: int)
    requires Links(alive, roots, kids, parent) && |kids| == |parent|
    requires y in alive && 0 <= y < |parent| && x in kids[y]
    requires forall r :: r in roots' <==> r in roots || r == x
    requires forall c :: c in ky <==> c in kids[y] && c != x
    ensures 0 <= x < |parent|
    ensures Links(alive, roots', kids[y := ky], parent[x := NIL])
  {
    var kids', parent' := kids[y := ky], parent[x := NIL];
    forall n | n in alive && 0 <= n < |parent'| && parent'[n] != NIL
      ensures parent'[n] in alive && 0 <= parent'[n] < |kids'| && n in kids'[parent'[n]]
    {
      assert n != x && parent'[n] == parent[n];
    }
    forall p, c | p in alive && 0 <= p < |kids'| && c in kids'[p]
      ensures c in alive && 0 <= c < |parent'| && parent'[c] == p
    {
      if p == y {
        assert c in kids[y] && c != x;
      } else {
        assert c in kids[p] && c != x;
      }
    }
  }

  // ---------------------------------------------------------------------------------
  // cut
  // ---------------------------------------------------------------------------------

  /** cut(x, y) of a child `x` of `y` keeps the rings: the child list of `y` loses `x`,
      which the root list gains. */
  lemma CutRings(s: HeapState, x: int, y: int)
    requires Core(s, NIL, x) && x in s.alive && 0 <= x < |s.nodes.key| && s.nodes.parent[x] == y && y != NIL
    ensures 0 <= y < |s.nodes.key| && y in s.alive && x in s.kids[y]
    ensures var t := CutSpec(s, x, y);
      && RootRing(t.min, t.roots, t.nodes.left, t.nodes.right)
      && (forall r :: r in t.roots <==> r in s.roots || r == x)
      && t.min == (if s.min == NIL || s.nodes.key[x] < s.nodes.key[s.min] then x else s.min)
      && KidRings(t.alive, NIL, t.nodes.child, t.kids, t.nodes.left, t.nodes.right)
      && (forall c :: c in t.kids[y] <==> c in s.kids[y] && c != x)
      && |t.kids[y]| == |s.kids[y]| - 1
      && t.nodes.parent == s.nodes.parent[x := NIL] && t.kids == s.kids[y := t.kids[y]]
      && t.nodes.degree == s.nodes.degree[y := s.nodes.degree[y] - 1]
  {
    KidsNotRoots(s, y);
    CutShape(s, x, y);
    CutKept(s, x, y);
    CutFields(s, x, y);
    KidRingsKeep(s, CutSpec(s, x, y), NIL, y);
  }

  /** cut(x, y) keeps the degrees and the ranks, and mends the heap order at `x`. */
  lemma CutOrder(s: HeapState, x: int, y: int)
    requires Sound(s) && Links(s.alive, s.roots, s.kids, s.nodes.parent) && NonNeg(s.nodes.degree)
    requires Degrees(s.alive, NIL, s.nodes.degree, s.kids) && Ordered(s.alive, x, s.nodes.parent, s.nodes.key)
    requires Ranked(s.nodes.parent, s.rank)
    requires 0 <= x < |s.nodes.key| && 0 <= y < |s.nodes.key| && y in s.alive && x in s.kids[y]
    requires var t := CutSpec(s, x, y);
      && |t.kids[y]| == |s.kids[y]| - 1
      && t.nodes.parent == s.nodes.parent[x := NIL] && t.kids == s.kids[y := t.kids[y]]
      && t.nodes.degree == s.nodes.degree[y := s.nodes.degree[y] - 1]
    ensures var t := CutSpec(s, x, y);
      && NonNeg(t.nodes.degree)
      && Degrees(t.alive, NIL, t.nodes.degree, t.kids)
      && Ordered(t.alive, NIL, t.nodes.parent, t.nodes.key)
      && Ranked(t.nodes.parent, t.rank)
  {
    var a := s.nodes;
    var t := CutSpec(s, x, y);
    var b := t.nodes;
    assert |s.kids[y]| > 0;
    forall p | p in t.alive && 0 <= p < |b.degree| && p < |t.kids|
      ensures b.degree[p] == |t.kids[p]|
    {
      assert p != y ==> b.degree[p] == a.degree[p];
    }
    forall c | c in t.alive && 0 <= c < |b.parent| && b.parent[c] != NIL
      ensures 0 <= b.parent[c] < |b.key| && c < |b.key| && b.key[b.parent[c]] <= b.key[c]
    {
      assert c != x && b.parent[c] == a.parent[c];
    }
    forall c | 0 <= c < |b.parent| && b.parent[c] != NIL
      ensures 0 <= b.parent[c] < |t.rank| && c < |t.rank| && t.rank[b.parent[c]] > t.rank[c]
    {
      assert c != x && b.parent[c] == a.parent[c];
    }
  }

  /** cut(x, y) of a child `x` of `y` whose heap order alone may be broken, and whose
      key alone may undercut `min`, leaves a well-formed forest with a correct `min`. */
  lemma CutForest(s: HeapState, x: int, y: int)
    requires Core(s, NIL, x) && MinOk(s.min, s.roots, s.nodes.key, x)
    requires x in s.alive && 0 <= x < |s.nodes.key| && s.nodes.parent[x] == y && y != NIL
    ensures y in s.alive && 0 <= y < |s.nodes.key| && s.rank[y] > s.rank[x]
    ensures var t := CutSpec(s, x, y);
      && Forest(t) && t.nodes.parent[y] == s.nodes.parent[y] && x in t.roots
  {
    var t := CutSpec(s, x, y);
    CutCore(s, x, y);
    CutMin(s.nodes.key, s.min, s.roots, t.min, t.roots, x);
  }

  /** cut(x, y) keeps the shape of the heap; the root list gains `x`, and `min` moves to
      `x` when its key is smaller. */
  lemma CutCore(s: HeapState, x: int, y: int)
    requires Core(s, NIL, x) && x in s.alive && 0 <= x < |s.nodes.key| && s.nodes.parent[x] == y && y != NIL
    ensures y in s.alive && 0 <= y < |s.nodes.key| && s.rank[y] > s.rank[x] && x !in s.roots
    ensures s.min == NIL || 0 <= s.min < |s.nodes.key|
    ensures var t := CutSpec(s, x, y);
      && Core(t, NIL, NIL) && t.nodes.parent[y] == s.nodes.parent[y]
      && (forall r :: r in t.roots <==> r in s.roots || r == x)
      && t.min == (if s.min == NIL || s.nodes.key[x] < s.nodes.key[s.min] then x else s.min)
  {
    CutLinks(s, x, y);
    CutRanks(s, x, y);
  }

  /** cut(x, y) keeps the rings and the parent links. */
  lemma CutLinks(s: HeapState, x: int, y: int)
    requires Core(s, NIL, x) && x in s.alive && 0 <= x < |s.nodes.key| && s.nodes.parent[x] == y && y != NIL
    ensures 0 <= y < |s.nodes.key|
    ensures var t := CutSpec(s, x, y);
      && RootRing(t.min, t.roots, t.nodes.left, t.nodes.right)
      && KidRings(t.alive, NIL, t.nodes.child, t.kids, t.nodes.left, t.nodes.right)
      && Links(t.alive, t.roots, t.kids, t.nodes.parent)
      && (forall r :: r in t.roots <==> r in s.roots || r == x)
      && t.min == (if s.min == NIL || s.nodes.key[x] < s.nodes.key[s.min] then x else s.min)
  {
    var t := CutSpec(s, x, y);
    CutRings(s, x, y);
    LinksRelease(s.alive, s.roots, s.kids, s.nodes.parent, t.roots, t.kids[y], x, y);
  }

  /** cut(x, y) keeps the degrees, the heap order and the ranks. */
  lemma CutRanks(s: HeapState, x: int, y: int)
    requires Core(s, NIL, x) && x in s.alive && 0 <= x < |s.nodes.key| && s.nodes.parent[x] == y && y != NIL
    ensures y in s.alive && 0 <= y < |s.nodes.key| && s.rank[y] > s.rank[x] && x !in s.roots
    ensures var t := CutSpec(s, x, y);
      && NonNeg(t.nodes.degree) && Degrees(t.alive, NIL, t.nodes.degree, t.kids)
      && Ordered(t.alive, NIL, t.nodes.parent, t.nodes.key) && Ranked(t.nodes.parent, t.rank)
      && t.nodes.parent[y] == s.nodes.parent[y]
  {
    CutRings(s, x, y);
    CutOrder(s, x, y);
  }

  /** The root list gaining `x`, with `min` moved to `x` when its key is smaller: a `min`
      correct except against `x` becomes correct. */
  lemma CutMin(key: seq<int>, min: int, roots: seq<int>, min': int, roots': seq<int>, x: int)
    requires MinOk(min, roots, key, x) && x !in roots && 0 <= x < |key| && (min == NIL || 0 <= min < |key|)
    requires forall r :: r in roots' <==> r in roots || r == x
    requires min' == (if min == NIL || key[x] < key[min] then x else min)
    ensures MinOk(min', roots', key, NIL)
  {
    forall r | r in roots'
      ensures 0 <= min' < |key| && 0 <= r < |key| && key[min'] <= key[r]
    {
      assert r != x ==> r in roots;
    }
  }

  // ---------------------------------------------------------------------------------
  // extractMin
  // ---------------------------------------------------------------------------------

  /** The tail of a sequence without repeats holds all but its head. */
  lemma DistinctTail(s: seq<int>)
    requires Distinct(s) && s != []
    ensures Distinct(s[1..]) && forall c :: c in s[1..] <==> c in s && c != s[0]
  {
    forall c | c in s && c != s[0] ensures c in s[1..] {
      var i :| 0 <= i < |s| && s[i] == c;
      assert s[1..][i - 1] == c;
    }
  }

  /** Nodes on the root list have no parent. */
  lemma RootsUnparented(s: HeapState, cs: seq<int>)
    requires Links(s.alive, s.roots, s.kids, s.nodes.parent)
    requires forall j :: 0 <= j < |cs| ==> cs[j] in s.roots
    ensures forall c :: c in cs ==> c in s.roots && 0 <= c < |s.nodes.parent| && s.nodes.parent[c] == NIL
  {
  }

  /** extractMin before its loop: the children of `z = min` are the ones to move. */
  lemma PromoteStart(s: HeapState)
    requires Forest(s) && s.min != NIL
    ensures 0 <= s.min < |s.nodes.key|
    ensures KidRing(s.nodes.child[s.min], s.kids[s.min], s.nodes.left, s.nodes.right)
    ensures Promoting(s, s.min, s.kids[s.min])
  {
    var z := s.min;
    assert z in s.alive;
    assert KidRing(s.nodes.child[z], s.kids[z], s.nodes.left, s.nodes.right);
  }

  /** One turn of extractMin's loop keeps `min` at `z` and moves one child of `z` to the
      root list. */
  lemma PromoteRings(s: HeapState, z: int, rest: seq<int>)
    requires Promoting(s, z, rest) && rest != []
    ensures AllIn(rest, |s.nodes.key|)
    ensures var t := PromoteStep(s, z, rest);
      && RootRing(t.min, t.roots, t.nodes.left, t.nodes.right) && t.min == z
      && (forall r :: r in t.roots <==> r in s.roots || r == rest[0])
      && KidRings(t.alive, z, t.nodes.child, t.kids, t.nodes.left, t.nodes.right)
  {
    var a := s.nodes;
    var x := rest[0];
    assert x in s.kids[z];
    assert a.parent[x] == z && x !in s.roots && a.key[z] <= a.key[x];
    var t := PromoteStep(s, z, rest);
    MergeRootShape(s, x);
    MergeRootKept(s, x);
    PromotedKids(s, z, rest, t);
  }

  /** The child lists after one turn of extractMin's loop, for the heap `t` described by
      what the turn changes. */
  lemma PromotedKids(s: HeapState, z: int, rest: seq<int>, t: HeapState)
    requires Promoting(s, z, rest) && rest != []
    requires Sound(t) && |t.nodes.key| == |s.nodes.key| && t.alive == s.alive
    requires t.nodes.child == s.nodes.child && t.kids == s.kids[z := rest[1..]]
    requires forall c :: 0 <= c < |s.nodes.key| && c !in s.roots && c != rest[0] ==>
               t.nodes.left[c] == s.nodes.left[c] && t.nodes.right[c] == s.nodes.right[c]
    ensures KidRings(t.alive, z, t.nodes.child, t.kids, t.nodes.left, t.nodes.right)
  {
    KidRingsKeep(s, t, z, z);
  }

  /** One turn of extractMin's loop keeps the degrees of all nodes but `z`, the heap
      order and the ranks, and `z`, whose key is the least, stays below the new root. */
  lemma PromoteOrder(s: HeapState, z: int, rest: seq<int>)
    requires Sound(s) && 0 <= z < |s.nodes.key| && rest != [] && AllIn(rest, |s.nodes.key|)
    requires Links(s.alive, s.roots, s.kids, s.nodes.parent) && z in s.alive && s.kids[z] == rest
    requires Degrees(s.alive, z, s.nodes.degree, s.kids) && Ordered(s.alive, NIL, s.nodes.parent, s.nodes.key)
    requires Ranked(s.nodes.parent, s.rank) && MinOk(s.min, s.roots, s.nodes.key, NIL)
    requires var t := PromoteStep(s, z, rest);
      t.min == z && forall r :: r in t.roots <==> r in s.roots || r == rest[0]
    ensures var t := PromoteStep(s, z, rest);
      && Degrees(t.alive, z, t.nodes.degree, t.kids)
      && Ordered(t.alive, NIL, t.nodes.parent, t.nodes.key)
      && Ranked(t.nodes.parent, t.rank)
      && MinOk(t.min, t.roots, t.nodes.key, NIL)
  {
    var a := s.nodes;
    var x := rest[0];
    var t := PromoteStep(s, z, rest);
    var b := t.nodes;
    assert x in s.kids[z];
    assert a.key[z] <= a.key[x];
    forall p | p in t.alive && p != z && 0 <= p < |b.degree| && p < |t.kids|
      ensures b.degree[p] == |t.kids[p]|
    {
      assert t.kids[p] == s.kids[p];
    }
    forall c | c in t.alive && 0 <= c < |b.parent| && b.parent[c] != NIL
      ensures 0 <= b.parent[c] < |b.key| && c < |b.key| && b.key[b.parent[c]] <= b.key[c]
    {
      assert c != x && b.parent[c] == a.parent[c];
    }
    forall c | 0 <= c < |b.parent| && b.parent[c] != NIL
      ensures 0 <= b.parent[c] < |t.rank| && c < |t.rank| && t.rank[b.parent[c]] > t.rank[c]
    {
      assert c != x && b.parent[c] == a.parent[c];
    }
    forall r | r in t.roots
      ensures 0 <= t.min < |b.key| && 0 <= r < |b.key| && b.key[t.min] <= b.key[r]
    {
      assert r != x ==> r in s.roots;
    }
  }

  /** One turn of extractMin's loop keeps the heap in the `Promoting` state with one
      child fewer to move. */
  lemma PromoteCore(s: HeapState, z: int, rest: seq<int>)
    requires Promoting(s, z, rest) && rest != []
    ensures AllIn(rest, |s.nodes.key|)
    ensures Promoting(PromoteStep(s, z, rest), z, rest[1..])
  {
    var t := PromoteStep(s, z, rest);
    PromoteRings(s, z, rest);
    DistinctTail(rest);
    LinksRelease(s.alive, s.roots, s.kids, s.nodes.parent, t.roots, rest[1..], rest[0], z);
    PromoteOrder(s, z, rest);
  }

  /** A root `z` without children leaves the heap. */
  lemma LinksDrop(alive: set<int>, roots: seq<int>, kids: seq<seq<int>>, parent: seq<int>,
                  roots': seq<int>, z: int)
    requires Links(alive, roots, kids, parent) && |kids| == |parent|
    requires z in roots && 0 <= z < |kids| && kids[z] == []
    requires forall r :: r in roots' <==> r in roots && r != z
    ensures Links(alive - {z}, roots', kids, parent)
  {
    forall n | n in alive - {z} && 0 <= n < |parent| && parent[n] != NIL
      ensures parent[n] in alive - {z} && 0 <= parent[n] < |kids| && n in kids[parent[n]]
    {
      assert n in kids[parent[n]];
    }
  }

  /** The heap right after extractMin has moved all children of `z = min` to the root
      list, taken `z` off it and dropped `z` from the live nodes: a well-formed forest
      whose `min` is the right neighbour `z` had, or null when `z` was the only root. */
  lemma DetachCore(s: HeapState, z: int)
    requires Promoting(s, z, [])
    ensures 0 <= z < |s.nodes.key|
    ensures var t := RemoveRoot(s, z).(alive := s.alive - {z});
      && Core(t, NIL, NIL)
      && (forall r :: r in t.roots <==> r in s.roots && r != z)
      && (t.min == NIL <==> s.nodes.right[z] == z)
      && (t.min != NIL ==> t.min == s.nodes.right[z])
      && t.nodes.right[z] == s.nodes.right[z]
  {
    var t := RemoveRoot(s, z).(alive := s.alive - {z});
    RemoveRootShape(s, z);
    assert KidRings(t.alive, NIL, t.nodes.child, t.kids, t.nodes.left, t.nodes.right) by {
      RemoveRootKept(s, z);
      KidRingsKeep(s, t, z, z);
    }
    assert Degrees(t.alive, NIL, t.nodes.degree, t.kids) by {
      assert forall p :: p in t.alive ==> p != z;
    }
    LinksDrop(s.alive, s.roots, s.kids, s.nodes.parent, t.roots, z);
  }

  // ---------------------------------------------------------------------------------
  // consolidate
  // ---------------------------------------------------------------------------------

  /** The list consolidate iterates over is the root ring read from `min`. */
  lemma RingFromRing(roots: seq<int>, min: int, left: seq<int>, right: seq<int>)
    requires RootRing(min, roots, left, right)
    ensures var l := RingFrom(roots, min);
      (min == NIL && l == []) || (Ring(l, left, right) && l[0] == min)
  {
    if min != NIL {
      RingRotate(roots, left, right, IndexOf(roots, min));
    }
  }

  /** consolidate before its first turn: an empty degree table, and the whole root list,
      read from `min`, still to place. */
  lemma ConsolidateStart(s: HeapState, A: seq<int>)
    requires Core(s, NIL, NIL) && s.min != NIL && forall d :: 0 <= d < |A| ==> A[d] == NIL
    ensures var l := RingFrom(s.roots, s.min);
      Ring(l, s.nodes.left, s.nodes.right) && l[0] == s.min && Consolidating(s, A, l)
  {
    RingFromRing(s.roots, s.min, s.nodes.left, s.nodes.right);
  }

  /** The next root to place is a root of the table's kind, combined with nothing yet. */
  lemma Pick(s: HeapState, A: seq<int>, rest: seq<int>)
    requires Consolidating(s, A, rest) && rest != []
    ensures 0 <= rest[0] < |s.nodes.key| && Combining(s, A, rest[0], s.nodes.degree[rest[0]], rest[1..])
  {
    DistinctTail(rest);
    assert rest[0] in rest;
  }

  /** Linking the table's tree `y` of degree `d` with the root `x` of the same degree
      (`u` the survivor, `v` the one linked below it) and emptying slot `d` keeps the
      table a table of roots indexed by degree. */
  lemma LinkTable(A: seq<int>, d: int, x: int, y: int, u: int, v: int,
                  roots: seq<int>, roots': seq<int>, degree: seq<int>, degree': seq<int>)
    requires Table(A, roots, degree) && 0 <= d < |A| && A[d] == y && y != NIL && x !in A
    requires (u == x && v == y) || (u == y && v == x)
    requires 0 <= u < |degree| && degree' == degree[u := degree[u] + 1]
    requires forall r :: r in roots' <==> r in roots && r != v
    ensures Table(A[d := NIL], roots', degree')
  {
    var B := A[d := NIL];
    forall e | 0 <= e < |B| && B[e] != NIL
      ensures B[e] in roots' && 0 <= B[e] < |degree'| && degree'[B[e]] == e
    {
      assert B[e] == A[e] && A[e] != x && degree[y] == d;
    }
  }

  /** Linking `y = A[d]` with the root `x` being placed keeps the roots still to place
      pending, with the survivor `u` now the root being placed. */
  lemma LinkPending(rest: seq<int>, A: seq<int>, d: int, x: int, y: int, u: int, v: int,
                    roots: seq<int>, roots': seq<int>)
    requires Pending(rest, A, roots, x) && 0 <= d < |A| && A[d] == y && y != NIL && x !in A
    requires x in roots && NIL !in roots
    requires (u == x && v == y) || (u == y && v == x)
    requires forall r :: r in roots' <==> r in roots && r != v
    requires forall e :: 0 <= e < |A| && e != d ==> A[e] != y
    ensures Pending(rest, A[d := NIL], roots', u) && u !in A[d := NIL]
  {
    var B := A[d := NIL];
    forall r | r in rest ensures r in roots' && r !in B && r != u {
      assert r != y && r != v;
      forall e | 0 <= e < |B| ensures B[e] != r {
        assert e != d ==> B[e] == A[e];
      }
    }
    forall r | r in roots' ensures r in B || r in rest || r == u {
      if r in A && r != u {
        var e :| 0 <= e < |A| && A[e] == r;
        assert B[e] == r;
      }
    }
    forall e | 0 <= e < |B| ensures B[e] != u {
      assert e != d ==> B[e] == A[e];
    }
  }

  /** One turn of consolidate's inner loop: the root `x` being placed meets the tree `y`
      of its degree in the table; the one with the larger key (`y` on a tie) is linked
      below the other, the slot is emptied and the survivor has one degree more. */
  lemma LinkStep(s: HeapState, A: seq<int>, x: int, d: int, rest: seq<int>)
    requires Combining(s, A, x, d, rest) && 0 <= d < |A| && A[d] != NIL
    ensures var y := A[d];
      && 0 <= y < |s.nodes.key| && y in s.roots && y != x
      && var u := if s.nodes.key[x] > s.nodes.key[y] then y else x;
         var v := if s.nodes.key[x] > s.nodes.key[y] then x else y;
         Combining(LinkSpec(s, v, u), A[d := NIL], u, d + 1, rest)
  {
    var y := A[d];
    assert y in A;
    if s.nodes.key[x] > s.nodes.key[y] {
      LinkCore(s, x, y);
      LinkStepAt(s, A, x, d, rest, y, x, LinkSpec(s, x, y));
    } else {
      LinkCore(s, y, x);
      LinkStepAt(s, A, x, d, rest, x, y, LinkSpec(s, y, x));
    }
  }

  /** The step of `LinkStep` for a given outcome `t` of the link of `v` under `u`. */
  lemma LinkStepAt(s: HeapState, A: seq<int>, x: int, d: int, rest: seq<int>, u: int, v: int, t: HeapState)
    requires Combining(s, A, x, d, rest) && 0 <= d < |A| && A[d] != NIL && A[d] != x
    requires (u == x && v == A[d]) || (u == A[d] && v == x)
    requires Core(t, NIL, NIL) && t.min != NIL && |t.nodes.key| == |s.nodes.key|
    requires forall r :: r in t.roots <==> r in s.roots && r != v
    requires 0 <= u < |s.nodes.degree| && t.nodes.degree == s.nodes.degree[u := s.nodes.degree[u] + 1]
    ensures Combining(t, A[d := NIL], u, d + 1, rest)
  {
    var a := s.nodes;
    var y := A[d];
    assert y in A && a.degree[y] == d;
    LinkTable(A, d, x, y, u, v, s.roots, t.roots, a.degree, t.nodes.degree);
    assert forall e :: 0 <= e < |A| && e != d ==> A[e] != y;
    assert NIL !in s.roots;
    LinkPending(rest, A, d, x, y, u, v, s.roots, t.roots);
  }

  /** consolidate stores the root `x` in the free slot `d` of the table, grown to hold
      `d` where it is too short. */
  lemma Store(s: HeapState, A: seq<int>, x: int, d: int, rest: seq<int>)
    requires Combining(s, A, x, d, rest) && (d >= |A| || A[d] == NIL)
    ensures var B := if d < |A| then A else A + Nils(d - |A| + 1);
      d < |B| && Consolidating(s, B[d := x], rest)
  {
    var B := if d < |A| then A else A + Nils(d - |A| + 1);
    var C := B[d := x];
    forall e | 0 <= e < |C| && C[e] != NIL
      ensures C[e] in s.roots && 0 <= C[e] < |s.nodes.degree| && s.nodes.degree[C[e]] == e
    {
      if e != d {
        assert C[e] == A[e];
      }
    }
    forall r | r in rest ensures r !in C {
      forall e | 0 <= e < |C| ensures C[e] != r {
        assert e != d && e < |A| ==> C[e] == A[e];
      }
    }
    forall r | r in s.roots ensures r in C || r in rest {
      if r in A {
        var e :| 0 <= e < |A| && A[e] == r;
        assert C[e] == r;
      } else {
        assert r != x ==> r in rest;
        assert C[d] == x;
      }
    }
  }

  /** consolidate after its last turn: with `min` any least entry of the table, the heap
      is a forest whose `min` is its least root, and no two roots share a degree. */
  lemma ConsolidateEnd(s: HeapState, A: seq<int>, m: int)
    requires Consolidating(s, A, []) && m in A && m != NIL
    requires forall e :: 0 <= e < |A| && A[e] != NIL ==> 0 <= m < |s.nodes.key| && 0 <= A[e] < |s.nodes.key| && s.nodes.key[m] <= s.nodes.key[A[e]]
    ensures Forest(s.(min := m)) && DistinctDegrees(s.roots, s.nodes.degree)
  {
    var e0 :| 0 <= e0 < |A| && A[e0] == m;
    assert m in s.roots;
    forall r | r in s.roots
      ensures 0 <= m < |s.nodes.key| && 0 <= r < |s.nodes.key| && s.nodes.key[m] <= s.nodes.key[r]
    {
      var e :| 0 <= e < |A| && A[e] == r;
    }
    forall i, j | 0 <= i < |s.roots| && 0 <= j < |s.roots| && i != j
      ensures s.nodes.degree[s.roots[i]] != s.nodes.degree[s.roots[j]]
    {
      assert s.roots[i] in s.roots && s.roots[j] in s.roots;
      var e :| 0 <= e < |A| && A[e] == s.roots[i];
      var f :| 0 <= f < |A| && A[f] == s.roots[j];
      assert s.roots[i] != s.roots[j];
    }
  }

  // ---------------------------------------------------------------------------------
  // The minimum, decreaseKey and insert
  // ---------------------------------------------------------------------------------

  /** Heap order and a correct `min` put `min` below every live node: follow the parents
      of a node up to its root, whose key is at least `min`'s. */
  lemma {:induction false} MinBelow(s: HeapState, n: int)
    requires Sound(s) && InArena(s.alive, |s.nodes.key|) && Links(s.alive, s.roots, s.kids, s.nodes.parent)
    requires Ordered(s.alive, NIL, s.nodes.parent, s.nodes.key) && Ranked(s.nodes.parent, s.rank)
    requires MinOk(s.min, s.roots, s.nodes.key, NIL) && n in s.alive
    ensures s.roots != [] && 0 <= s.min < |s.nodes.key| && s.nodes.key[s.min] <= s.nodes.key[n]
    decreases MaxOf(s.rank) - s.rank[n]
  {
    var p := s.nodes.parent[n];
    if p == NIL {
      assert n in s.roots;
    } else {
      MinBelow(s, p);
    }
  }

  /** In a heap that keeps its invariant `min` is null exactly when no node is in the
      heap, and otherwise holds the smallest key of all live nodes. */
  lemma MinIsMinimum(s: HeapState)
    requires Forest(s)
    ensures s.min == NIL <==> s.alive == {}
    ensures s.min != NIL ==> s.min in s.alive
    ensures forall n :: n in s.alive ==> 0 <= s.min < |s.nodes.key| && s.nodes.key[s.min] <= s.nodes.key[n]
  {
    forall n | n in s.alive
      ensures s.min != NIL && 0 <= s.min < |s.nodes.key| && s.nodes.key[s.min] <= s.nodes.key[n]
    {
      MinBelow(s, n);
    }
    if s.min != NIL {
      assert s.min in s.roots;
    } else {
      assert s.alive == {} by {
        forall n | n in s.alive ensures false {
          MinBelow(s, n);
        }
      }
    }
  }

  /** decreaseKey's write of the new key `k <= key[x]`: only the heap order between `x`
      and its parent, and `min` against `x`, can break; nothing breaks when `x` has no
      parent or a parent with a key no larger than `k`. */
  lemma Lowered(s: HeapState, x: int, k: int)
    requires Forest(s) && x in s.alive && 0 <= x < |s.nodes.key| && k <= s.nodes.key[x]
    ensures var t := s.(nodes := s.nodes.(key := s.nodes.key[x := k]));
      && Core(t, NIL, x) && MinOk(t.min, t.roots, t.nodes.key, x)
      && (s.nodes.parent[x] == NIL || s.nodes.key[s.nodes.parent[x]] <= k ==> Core(t, NIL, NIL))
  {
    var a := s.nodes;
    var t := s.(nodes := a.(key := a.key[x := k]));
    forall c | c in s.alive && c != x && 0 <= c < |a.parent| && a.parent[c] != NIL
      ensures 0 <= a.parent[c] < |a.key| && c < |a.key| && t.nodes.key[a.parent[c]] <= t.nodes.key[c]
    {
    }
  }

  /** A forest is also the weaker shape that leaves out the heap order and the `min`
      test at any one node. */
  lemma Relax(s: HeapState, x: int)
    requires Forest(s)
    ensures Core(s, NIL, x) && MinOk(s.min, s.roots, s.nodes.key, x)
  {
  }

  /** decreaseKey's final test: with `min` correct except perhaps against `x`, making `x`
      the `min` when its key is strictly smaller leaves `min` correct. */
  lemma MinFix(s: HeapState, x: int)
    requires Core(s, NIL, NIL) && MinOk(s.min, s.roots, s.nodes.key, x) && x in s.alive && 0 <= x < |s.nodes.key|
    ensures 0 <= s.min < |s.nodes.key|
    ensures Forest(if s.nodes.key[x] < s.nodes.key[s.min] then s.(min := x) else s)
  {
    if x in s.roots {
      assert s.min != NIL;
    } else {
      assert MinOk(s.min, s.roots, s.nodes.key, NIL);
      MinBelow(s, x);
    }
  }

  /** Creating a node keeps the heap a forest; the new node is not yet in it. */
  lemma GrowForest(s: HeapState, k: int, v: int)
    requires Forest(s)
    ensures var g := Grow(s, k, v); var n := |s.nodes.key|;
      && Forest(g) && n !in g.alive && g.alive == s.alive && g.size == s.size
      && g.nodes.key == s.nodes.key + [k] && g.nodes.data == s.nodes.data + [v]
      && g.nodes.parent[n] == NIL && g.nodes.child[n] == NIL && g.kids[n] == [] && g.nodes.degree[n] == 0
      && g.nodes.left[n] == n && g.nodes.right[n] == n
  {
    assert |s.nodes.key| !in s.alive;
    GrowRings(s, k, v);
    GrowLinks(s, k, v);
  }

  /** Creating a node leaves the root list and every child list a ring. */
  lemma GrowRings(s: HeapState, k: int, v: int)
    requires Forest(s)
    ensures var g := Grow(s, k, v);
      && RootRing(g.min, g.roots, g.nodes.left, g.nodes.right)
      && KidRings(g.alive, NIL, g.nodes.child, g.kids, g.nodes.left, g.nodes.right)
  {
    var a := s.nodes;
    var g := Grow(s, k, v);
    var b := g.nodes;
    if s.min != NIL {
      RingFrame(s.roots, a.left, a.right, b.left, b.right);
    }
    forall p | p in g.alive
      ensures 0 <= p < |b.child| && p < |g.kids| && KidRing(b.child[p], g.kids[p], b.left, b.right)
    {
      assert KidRing(a.child[p], s.kids[p], a.left, a.right);
      if a.child[p] != NIL {
        RingFrame(s.kids[p], a.left, a.right, b.left, b.right);
      }
    }
  }

  /** Creating a node leaves the parent links and the ranks as they were. */
  lemma GrowLinks(s: HeapState, k: int, v: int)
    requires Forest(s)
    ensures var g := Grow(s, k, v);
      && Links(g.alive, g.roots, g.kids, g.nodes.parent) && Ranked(g.nodes.parent, g.rank)
  {
    var a := s.nodes;
    var n := |a.key|;
    var g := Grow(s, k, v);
    var b := g.nodes;
    assert n !in s.alive;
    forall p, c | p in g.alive && 0 <= p < |g.kids| && c in g.kids[p]
      ensures c in g.alive && 0 <= c < |b.parent| && b.parent[c] == p
    {
      assert g.kids[p] == s.kids[p];
    }
    forall c | c in g.alive && 0 <= c < |b.parent| && b.parent[c] != NIL
      ensures b.parent[c] in g.alive && 0 <= b.parent[c] < |g.kids| && c in g.kids[b.parent[c]]
    {
      assert b.parent[c] == a.parent[c];
    }
    forall c | 0 <= c < |b.parent| && b.parent[c] != NIL
      ensures 0 <= b.parent[c] < |g.rank| && c < |g.rank| && g.rank[b.parent[c]] > g.rank[c]
    {
      assert c < n && b.parent[c] == a.parent[c];
    }
  }

  /** A node `n` not in the heap, without parent or children and a ring of its own,
      joins the root list: the root list gains `n`, every child list is untouched, and
      `min` is the least of the old `min` and `n`. */
  lemma JoinRings(g: HeapState, n: int)
    requires Forest(g) && 0 <= n < |g.nodes.key| && n !in g.alive
    requires g.nodes.left[n] == n && g.nodes.right[n] == n
    ensures var t := Join(g, n);
      && RootRing(t.min, t.roots, t.nodes.left, t.nodes.right)
      && (forall r :: r in t.roots <==> r in g.roots || r == n)
      && t.min == (if g.min == NIL || g.nodes.key[n] < g.nodes.key[g.min] then n else g.min)
      && KidRings(g.alive, NIL, t.nodes.child, t.kids, t.nodes.left, t.nodes.right)
  {
    var a := g.nodes;
    var t := Join(g, n);
    assert n !in g.roots;
    if g.min != NIL {
      MergeRootShape(g, n);
      MergeRootKept(g, n);
      forall p | p in g.alive
        ensures 0 <= p < |t.nodes.child| && p < |t.kids| && KidRing(t.nodes.child[p], t.kids[p], t.nodes.left, t.nodes.right)
      {
        assert KidRing(a.child[p], g.kids[p], a.left, a.right);
        if a.child[p] != NIL {
          forall c | c in g.kids[p] && 0 <= c < |a.right|
            ensures t.nodes.left[c] == a.left[c] && t.nodes.right[c] == a.right[c]
          {
            assert a.parent[c] == p && c != n;
          }
          RingFrame(g.kids[p], a.left, a.right, t.nodes.left, t.nodes.right);
        }
      }
    }
  }

  /** A node `n` out of the heap, without parent or children, joins the live set and
      the root list. */
  lemma LinksJoin(alive: set<int>, roots: seq<int>, roots': seq<int>, kids: seq<seq<int>>, parent: seq<int>, n: int)
    requires Links(alive, roots, kids, parent) && |kids| == |parent| && n !in alive
    requires 0 <= n < |parent| && parent[n] == NIL && kids[n] == []
    requires forall r :: r in roots' <==> r in roots || r == n
    ensures Links(alive + {n}, roots', kids, parent)
  {
    forall c | c in alive + {n} && 0 <= c < |parent| && parent[c] == NIL ensures c in roots' {
      assert c != n ==> c in roots;
    }
    forall p, c | p in alive + {n} && 0 <= p < |kids| && c in kids[p]
      ensures c in alive + {n} && 0 <= c < |parent| && parent[c] == p
    {
      assert p != n;
    }
  }

  /** A root `n` joining the root list keeps `min` the least root when `min` moves to
      `n` exactly when there was none or `n`'s key is strictly smaller. */
  lemma MinJoin(min: int, roots: seq<int>, key: seq<int>, min': int, roots': seq<int>, n: int)
    requires MinOk(min, roots, key, NIL) && 0 <= n < |key| && (min == NIL || 0 <= min < |key|)
    requires AllIn(roots, |key|)
    requires forall r :: r in roots' <==> r in roots || r == n
    requires min' == if min == NIL || key[n] < key[min] then n else min
    ensures MinOk(min', roots', key, NIL)
  {
    forall r | r in roots' ensures 0 <= min' < |key| && 0 <= r < |key| && key[min'] <= key[r] {
      if r != n {
        assert r in roots;
      }
    }
  }

  /** A node `n` without parent or children joining the live set keeps the degrees
      and the heap order. */
  lemma OrderJoin(alive: set<int>, parent: seq<int>, key: seq<int>, degree: seq<int>, kids: seq<seq<int>>, n: int)
    requires Degrees(alive, NIL, degree, kids) && Ordered(alive, NIL, parent, key)
    requires 0 <= n < |parent| && 0 <= n < |degree| && 0 <= n < |kids| && parent[n] == NIL && kids[n] == [] && degree[n] == 0
    requires |key| == |parent| && forall c :: 0 <= c < |parent| ==> Ref(parent[c], |key|)
    ensures Degrees(alive + {n}, NIL, degree, kids) && Ordered(alive + {n}, NIL, parent, key)
  {
    forall c | c in alive + {n} && 0 <= c < |parent| && parent[c] != NIL
      ensures 0 <= parent[c] < |key| && c < |key| && key[parent[c]] <= key[c]
    {
      assert c in alive && Ref(parent[c], |key|);
    }
  }

  /** Joining a fresh node to the heap keeps it a forest with a correct `min`. */
  lemma JoinForest(g: HeapState, n: int)
    requires Forest(g) && 0 <= n < |g.nodes.key| && n !in g.alive
    requires g.nodes.left[n] == n && g.nodes.right[n] == n
    requires g.nodes.parent[n] == NIL && g.nodes.child[n] == NIL && g.kids[n] == [] && g.nodes.degree[n] == 0
    ensures var t := Join(g, n);
      && Forest(t) && t.alive == g.alive + {n} && t.size == g.size + 1 && n in t.roots
  {
    JoinRings(g, n);
    Joined(g, Join(g, n), n);
  }

  /** The heap `t` that results from `g` when the fresh node `n` joins the root list,
      described by what changes, is a forest with a correct `min`. */
  lemma Joined(g: HeapState, t: HeapState, n: int)
    requires Forest(g) && 0 <= n < |g.nodes.key| && n !in g.alive
    requires g.nodes.parent[n] == NIL && g.nodes.child[n] == NIL && g.kids[n] == [] && g.nodes.degree[n] == 0
    requires Sound(t) && t.nodes.key == g.nodes.key && t.nodes.degree == g.nodes.degree
    requires t.nodes.parent == g.nodes.parent && t.nodes.child == g.nodes.child
    requires t.kids == g.kids && t.rank == g.rank && t.alive == g.alive + {n}
    requires RootRing(t.min, t.roots, t.nodes.left, t.nodes.right)
    requires forall r :: r in t.roots <==> r in g.roots || r == n
    requires t.min == (if g.min == NIL || g.nodes.key[n] < g.nodes.key[g.min] then n else g.min)
    requires KidRings(g.alive, NIL, t.nodes.child, t.kids, t.nodes.left, t.nodes.right)
    ensures Forest(t)
  {
    var a := g.nodes;
    forall p | p in t.alive
      ensures 0 <= p < |t.nodes.child| && p < |t.kids| && KidRing(t.nodes.child[p], t.kids[p], t.nodes.left, t.nodes.right)
    {
      if p != n {
        KidRingAt(g.alive, NIL, t.nodes.child, t.kids, t.nodes.left, t.nodes.right, p);
      }
    }
    LinksJoin(g.alive, g.roots, t.roots, g.kids, a.parent, n);
    MinJoin(g.min, g.roots, a.key, t.min, t.roots, n);
    OrderJoin(g.alive, a.parent, a.key, a.degree, g.kids, n);
  }

  /** insert keeps the heap invariant, and the fresh node is in the heap with the given
      key and data. */
  lemma InsertInv(s: HeapState, k: int, v: int)
    requires Inv(s)
    ensures var t := InsertSpec(s, k, v); var n := |s.nodes.key|;
      && Inv(t) && t.alive == s.alive + {n} && n in t.roots
      && t.nodes.key == s.nodes.key + [k] && t.nodes.data == s.nodes.data + [v]
      && t.nodes.parent[n] == NIL && t.nodes.degree[n] == 0 && !t.nodes.childCut[n]
      && t.min == (if s.min == NIL || k < s.nodes.key[s.min] then n else s.min)
  {
    var n := |s.nodes.key|;
    GrowForest(s, k, v);
    JoinForest(Grow(s, k, v), n);
    OneMore(s.alive, n);
  }

  /** A set gaining an element it lacked grows by one. */
  lemma OneMore(a: set<int>, x: int)
    requires x !in a
    ensures |a + {x}| == |a| + 1
  {
  }
}
