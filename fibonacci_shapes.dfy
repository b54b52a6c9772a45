/** What each pointer operation of FibonacciHeap.java does to the rings: which ring gains
    or loses a member, that it is still a ring, and that the links of every node outside
    the rings it touches are left alone. */
module FibonacciShapes {
  import opened Rings
  import opened FibonacciNodes
  import opened FibonacciModel

  /** mergeWithRootList(x) for a node `x` outside the root list (a ring of its own when
      there is no root list): the root list gains `x`, and `min` becomes `x` exactly when
      there was none or `x`'s key is strictly smaller. */
  lemma MergeRootShape(s: HeapState, x: int)
    requires Sound(s) && RootRing(s.min, s.roots, s.nodes.left, s.nodes.right)
    requires 0 <= x < |s.nodes.key| && x !in s.roots
    requires s.min == NIL ==> s.nodes.left[x] == x && s.nodes.right[x] == x
    ensures var t := MergeRoot(s, x);
      && RootRing(t.min, t.roots, t.nodes.left, t.nodes.right)
      && (forall r :: r in t.roots <==> r in s.roots || r == x)
      && t.min == (if s.min == NIL || s.nodes.key[x] < s.nodes.key[s.min] then x else s.min)
  {
    if s.min != NIL {
      var i := IndexOf(s.roots, s.min);
      RingInsert(s.roots, s.nodes.left, s.nodes.right, i, x);
      InsertAfterMembers(s.roots, i, x);
    }
  }

  /** mergeWithRootList(x) changes only the links of `x` and of roots. */
  lemma MergeRootKept(s: HeapState, x: int)
    requires Sound(s) && RootRing(s.min, s.roots, s.nodes.left, s.nodes.right) && 0 <= x < |s.nodes.key|
    ensures var t := MergeRoot(s, x);
      forall y :: 0 <= y < |s.nodes.key| && y !in s.roots && y != x ==>
        t.nodes.left[y] == s.nodes.left[y] && t.nodes.right[y] == s.nodes.right[y]
  {
    if s.min != NIL {
      RingNeighbours(s.roots, s.nodes.left, s.nodes.right, s.min);
      var t := MergeRoot(s, x);
      forall y | 0 <= y < |s.nodes.key| && y !in s.roots && y != x
        ensures t.nodes.left[y] == s.nodes.left[y] && t.nodes.right[y] == s.nodes.right[y]
      {
        assert y != s.min && y != s.nodes.right[s.min];
      }
    }
  }

  /** removeFromRootList(x) for a root `x`: the root list loses `x` and is empty exactly
      when `x` was its own right neighbour; `min` moves to `x`'s right neighbour when it
      was `x`; `x`'s own links are untouched. */
  lemma RemoveRootShape(s: HeapState, x: int)
    requires Sound(s) && RootRing(s.min, s.roots, s.nodes.left, s.nodes.right) && x in s.roots
    ensures var t := RemoveRoot(s, x);
      && RootRing(t.min, t.roots, t.nodes.left, t.nodes.right)
      && (forall r :: r in t.roots <==> r in s.roots && r != x)
      && t.nodes.right[x] == s.nodes.right[x]
      && (t.min == NIL <==> s.nodes.right[x] == x)
      && (t.min != NIL ==> t.min == if s.min == x then s.nodes.right[x] else s.min)
  {
    var i := IndexOf(s.roots, x);
    var t := RemoveRoot(s, x);
    RingNeighbours(s.roots, s.nodes.left, s.nodes.right, x);
    RemoveAtMembers(s.roots, i);
    assert t.roots == RemoveAt(s.roots, i);
    if s.nodes.right[x] != x {
      RingRemove(s.roots, s.nodes.left, s.nodes.right, i);
      if s.min != x {
        assert s.min in RemoveAt(s.roots, i);
      }
    }
  }

  /** removeFromRootList(x) for a root `x` changes only the links of roots. */
  lemma RemoveRootKept(s: HeapState, x: int)
    requires Sound(s) && RootRing(s.min, s.roots, s.nodes.left, s.nodes.right) && x in s.roots
    ensures var t := RemoveRoot(s, x);
      forall y :: 0 <= y < |s.nodes.key| && y !in s.roots ==>
        t.nodes.left[y] == s.nodes.left[y] && t.nodes.right[y] == s.nodes.right[y]
  {
    RingNeighbours(s.roots, s.nodes.left, s.nodes.right, x);
    var t := RemoveRoot(s, x);
    forall y | 0 <= y < |s.nodes.key| && y !in s.roots
      ensures t.nodes.left[y] == s.nodes.left[y] && t.nodes.right[y] == s.nodes.right[y]
    {
      assert y != x && y != s.nodes.left[x] && y != s.nodes.right[x];
    }
  }

  /** removeFromChildList(p, x) for a child `x` of `p`: the child list of `p` loses `x`
      and is still read from `p`'s `child`, and `x` is left a ring of its own. */
  lemma RemoveChildShape(s: HeapState, p: int, x: int)
    requires Sound(s) && 0 <= p < |s.nodes.key| && x in s.kids[p]
    requires KidRing(s.nodes.child[p], s.kids[p], s.nodes.left, s.nodes.right)
    ensures 0 <= x < |s.nodes.key|
    ensures var t := RemoveChild(s, p, x);
      && KidRing(t.nodes.child[p], t.kids[p], t.nodes.left, t.nodes.right)
      && (forall c :: c in t.kids[p] <==> c in s.kids[p] && c != x)
      && |t.kids[p]| == |s.kids[p]| - 1
      && t.nodes.left[x] == x && t.nodes.right[x] == x
  {
    var a, ks := s.nodes, s.kids[p];
    var i := IndexOf(ks, x);
    RingNeighbours(ks, a.left, a.right, x);
    RemoveAtMembers(ks, i);
    var t := RemoveChild(s, p, x);
    assert t.kids[p] == RemoveAt(ks, i);
    if a.right[x] != x {
      RingDetach(ks, a.left, a.right, i);
      var R := a.right[a.left[x] := a.right[x]];
      var L := a.left[R[x] := a.left[x]];
      assert t.nodes.left == L[x := x] && t.nodes.right == R[x := x];
    } else {
      assert |ks| == 1 && t.nodes.child[p] == NIL;
    }
  }

  /** What removeFromChildList(p, x) leaves alone: the links of nodes outside the child
      list of `p`, and the `child` and the child list of every other node. */
  lemma RemoveChildFrame(s: HeapState, p: int, x: int)
    requires Sound(s) && 0 <= p < |s.nodes.key| && x in s.kids[p]
    requires KidRing(s.nodes.child[p], s.kids[p], s.nodes.left, s.nodes.right)
    ensures 0 <= x < |s.nodes.key|
    ensures var t := RemoveChild(s, p, x);
      && (forall y :: 0 <= y < |s.nodes.key| && y !in s.kids[p] ==>
            t.nodes.left[y] == s.nodes.left[y] && t.nodes.right[y] == s.nodes.right[y])
      && t.nodes.child == s.nodes.child[p := t.nodes.child[p]]
      && t.kids == s.kids[p := t.kids[p]]
  {
    var a, ks := s.nodes, s.kids[p];
    RingNeighbours(ks, a.left, a.right, x);
    var t := RemoveChild(s, p, x);
    forall y | 0 <= y < |a.key| && y !in ks
      ensures t.nodes.left[y] == a.left[y] && t.nodes.right[y] == a.right[y]
    {
      assert y != x && y != a.left[x] && y != a.right[x];
    }
  }

  /** mergeWithChildList(c, y) for a node `y` that is a ring of its own and not in the
      child list `ks` read from `c`: the list gains `y` right after its first member. */
  lemma MergeChildShape(a: Arena, c: int, ks: seq<int>, y: int)
    requires |a.left| == |a.right| && 0 <= y < |a.right| && a.left[y] == y && a.right[y] == y
    requires KidRing(c, ks, a.left, a.right) && y !in ks
    ensures c == NIL || (0 <= c < |a.right| && 0 <= a.right[c] < |a.right|)
    ensures var m := MergeChild(a, c, y);
      var ks' := if c == NIL || ks == [] then [y] else InsertAfter(ks, 0, y);
      && KidRing(m.1, ks', m.0.left, m.0.right)
      && (forall z :: z in ks' <==> z in ks || z == y) && |ks'| == |ks| + 1
  {
    if c != NIL {
      RingInsert(ks, a.left, a.right, 0, y);
      InsertAfterMembers(ks, 0, y);
    }
  }

  /** mergeWithChildList(c, y) changes only the links of `y` and of the members of the
      child list `ks` read from `c`. */
  lemma MergeChildKept(a: Arena, c: int, ks: seq<int>, y: int)
    requires |a.left| == |a.right| && 0 <= y < |a.right|
    requires KidRing(c, ks, a.left, a.right)
    ensures c == NIL || (0 <= c < |a.right| && 0 <= a.right[c] < |a.right|)
    ensures var m := MergeChild(a, c, y);
      && |m.0.left| == |m.0.right| == |a.right|
      && (forall z :: 0 <= z < |a.right| && z !in ks && z != y ==>
            m.0.left[z] == a.left[z] && m.0.right[z] == a.right[z])
  {
    if c != NIL {
      RingNeighbours(ks, a.left, a.right, c);
      var m := MergeChild(a, c, y);
      forall z | 0 <= z < |a.right| && z !in ks && z != y
        ensures m.0.left[z] == a.left[z] && m.0.right[z] == a.right[z]
      {
        assert z != c && z != a.right[c];
      }
    }
  }

  /** The second half of link(y, x), for a node `y` neither a root nor a child of `x`:
      the child list of `x` gains `y` and the root list is untouched. */
  lemma AdoptShape(s: HeapState, y: int, x: int)
    requires Sound(s) && RootRing(s.min, s.roots, s.nodes.left, s.nodes.right)
    requires 0 <= y < |s.nodes.key| && 0 <= x < |s.nodes.key| && y !in s.roots && y !in s.kids[x]
    requires KidRing(s.nodes.child[x], s.kids[x], s.nodes.left, s.nodes.right)
    requires forall c :: c in s.kids[x] ==> c !in s.roots
    ensures var t := Adopt(s, y, x);
      && RootRing(t.min, t.roots, t.nodes.left, t.nodes.right)
      && KidRing(t.nodes.child[x], t.kids[x], t.nodes.left, t.nodes.right)
      && (forall c :: c in t.kids[x] <==> c in s.kids[x] || c == y)
      && |t.kids[x]| == |s.kids[x]| + 1
  {
    AdoptPieces(s, y, x);
    var t := Adopt(s, y, x);
    AdoptRings(s.nodes, s.min, s.roots, s.nodes.child[x], s.kids[x], y,
               t.nodes.left, t.nodes.right, t.nodes.child[x], t.kids[x]);
  }

  /** The pointers of `Adopt(s, y, x)` that the ring lemmas look at. */
  lemma AdoptPieces(s: HeapState, y: int, x: int)
    requires Sound(s) && 0 <= y < |s.nodes.key| && 0 <= x < |s.nodes.key|
    requires KidRing(s.nodes.child[x], s.kids[x], s.nodes.left, s.nodes.right)
    ensures var t := Adopt(s, y, x);
      var a2 := s.nodes.(left := s.nodes.left[y := y], right := s.nodes.right[y := y]);
      var c := s.nodes.child[x];
      && (c == NIL || (0 <= c < |a2.right| && 0 <= a2.right[c] < |a2.right|))
      && var m := MergeChild(a2, c, y);
      && t.nodes.left == m.0.left && t.nodes.right == m.0.right && t.nodes.child[x] == m.1
      && t.kids[x] == (if c == NIL || s.kids[x] == [] then [y] else InsertAfter(s.kids[x], 0, y))
  {
  }

  /** `AdoptShape` on the pointers alone: `y` made a ring of its own and spliced into
      the child ring `ks` read from `c`, giving the links `left'`/`right'` and the child
      `c'` read as `ks'`. */
  lemma AdoptRings(a1: Arena, min: int, roots: seq<int>, c: int, ks: seq<int>, y: int,
                   left': seq<int>, right': seq<int>, c': int, ks': seq<int>)
    requires |a1.left| == |a1.right| && 0 <= y < |a1.right|
    requires RootRing(min, roots, a1.left, a1.right) && y !in roots && y !in ks
    requires KidRing(c, ks, a1.left, a1.right)
    requires forall k :: k in ks ==> k !in roots
    requires var a2 := a1.(left := a1.left[y := y], right := a1.right[y := y]);
      && (c == NIL || (0 <= c < |a2.right| && 0 <= a2.right[c] < |a2.right|))
      && var m := MergeChild(a2, c, y);
      && left' == m.0.left && right' == m.0.right && c' == m.1
      && ks' == (if c == NIL || ks == [] then [y] else InsertAfter(ks, 0, y))
    ensures RootRing(min, roots, left', right')
    ensures KidRing(c', ks', left', right')
    ensures forall k :: k in ks' <==> k in ks || k == y
    ensures |ks'| == |ks| + 1
  {
    var a2 := a1.(left := a1.left[y := y], right := a1.right[y := y]);
    assert KidRing(c, ks, a2.left, a2.right) by {
      if c != NIL {
        RingFrame(ks, a1.left, a1.right, a2.left, a2.right);
      }
    }
    MergeChildShape(a2, c, ks, y);
    MergeChildKept(a2, c, ks, y);
    var m := MergeChild(a2, c, y);
    if min != NIL {
      forall r | r in roots && 0 <= r < |a1.right|
        ensures m.0.left[r] == a1.left[r] && m.0.right[r] == a1.right[r]
      {
        assert r != y && r !in ks;
      }
      RingFrame(roots, a1.left, a1.right, m.0.left, m.0.right);
    }
  }

  /** The second half of link(y, x) leaves the links of nodes other than `y` and the
      children of `x` alone. */
  lemma AdoptKept(s: HeapState, y: int, x: int)
    requires Sound(s) && 0 <= y < |s.nodes.key| && 0 <= x < |s.nodes.key| && y !in s.kids[x]
    requires KidRing(s.nodes.child[x], s.kids[x], s.nodes.left, s.nodes.right)
    ensures var t := Adopt(s, y, x);
      forall z :: 0 <= z < |s.nodes.key| && z != y && z !in s.kids[x] ==>
        t.nodes.left[z] == s.nodes.left[z] && t.nodes.right[z] == s.nodes.right[z]
  {
    var a1 := s.nodes;
    var right := a1.right[y := y];
    var left := a1.left[y := right[y]];
    var a2 := a1.(left := left, right := right);
    var c := a2.child[x];
    assert KidRing(c, s.kids[x], a2.left, a2.right) by {
      if c != NIL {
        RingFrame(s.kids[x], a1.left, a1.right, a2.left, a2.right);
      }
    }
    MergeChildKept(a2, c, s.kids[x], y);
  }

  /** The second half of link(y, x) changes only the `child` and the child list of `x`
      among all `child` fields and child lists, and makes `x` the parent of `y`. */
  lemma AdoptFields(s: HeapState, y: int, x: int)
    requires Sound(s) && 0 <= y < |s.nodes.key| && 0 <= x < |s.nodes.key|
    ensures var t := Adopt(s, y, x);
      && t.nodes.child == s.nodes.child[x := t.nodes.child[x]]
      && t.kids == s.kids[x := t.kids[x]]
      && t.nodes.parent == s.nodes.parent[y := x]
  {
  }

  /** link(y, x) for two distinct roots, the child list of `x` holding no root: the root
      list loses `y`, which joins the child list of `x`; `min` is still a root. */
  lemma LinkShape(s: HeapState, y: int, x: int)
    requires Sound(s) && RootRing(s.min, s.roots, s.nodes.left, s.nodes.right)
    requires y in s.roots && x in s.roots && x != y
    requires 0 <= x < |s.nodes.key| && KidRing(s.nodes.child[x], s.kids[x], s.nodes.left, s.nodes.right)
    requires forall c :: c in s.kids[x] ==> c !in s.roots
    ensures 0 <= y < |s.nodes.key|
    ensures var t := LinkSpec(s, y, x);
      && RootRing(t.min, t.roots, t.nodes.left, t.nodes.right) && t.min != NIL
      && (forall r :: r in t.roots <==> r in s.roots && r != y)
      && (t.min == s.min || s.min == y)
      && KidRing(t.nodes.child[x], t.kids[x], t.nodes.left, t.nodes.right)
      && (forall c :: c in t.kids[x] <==> c in s.kids[x] || c == y)
      && |t.kids[x]| == |s.kids[x]| + 1
  {
    var a := s.nodes;
    var s1 := RemoveRoot(s, y);
    RemoveRootShape(s, y);
    assert a.right[y] != y by {
      RingNeighbours(s.roots, a.left, a.right, y);
    }
    assert KidRing(a.child[x], s.kids[x], s1.nodes.left, s1.nodes.right) by {
      RemoveRootKept(s, y);
      if a.child[x] != NIL {
        RingFrame(s.kids[x], a.left, a.right, s1.nodes.left, s1.nodes.right);
      }
    }
    AdoptShape(s1, y, x);
  }

  /** What link(y, x) leaves alone: the links of nodes neither roots nor children of `x`,
      and the `child` and the child list of every node but `x`; `y`'s parent becomes `x`. */
  lemma LinkKept(s: HeapState, y: int, x: int)
    requires Sound(s) && RootRing(s.min, s.roots, s.nodes.left, s.nodes.right)
    requires y in s.roots && 0 <= x < |s.nodes.key|
    requires KidRing(s.nodes.child[x], s.kids[x], s.nodes.left, s.nodes.right)
    requires forall c :: c in s.kids[x] ==> c !in s.roots
    ensures 0 <= y < |s.nodes.key|
    ensures var t := LinkSpec(s, y, x);
      && (forall z :: 0 <= z < |s.nodes.key| && z !in s.roots && z !in s.kids[x] ==>
            t.nodes.left[z] == s.nodes.left[z] && t.nodes.right[z] == s.nodes.right[z])
      && t.nodes.child == s.nodes.child[x := t.nodes.child[x]]
      && t.kids == s.kids[x := t.kids[x]]
      && t.nodes.parent == s.nodes.parent[y := x]
  {
    var a := s.nodes;
    var s1 := RemoveRoot(s, y);
    RemoveRootKept(s, y);
    assert KidRing(a.child[x], s.kids[x], s1.nodes.left, s1.nodes.right) by {
      if a.child[x] != NIL {
        RingFrame(s.kids[x], a.left, a.right, s1.nodes.left, s1.nodes.right);
      }
    }
    AdoptKept(s1, y, x);
    AdoptFields(s1, y, x);
    var t := LinkSpec(s, y, x);
    forall z | 0 <= z < |a.key| && z !in s.roots && z !in s.kids[x]
      ensures t.nodes.left[z] == a.left[z] && t.nodes.right[z] == a.right[z]
    {
      assert z != y;
    }
  }

  /** cut(x, y) for a child `x` of `y`, the child list of `y` holding no root: the child
      list of `y` loses `x`, which joins the root list and becomes `min` exactly when there
      was none or its key is strictly smaller. */
  lemma CutShape(s: HeapState, x: int, y: int)
    requires Sound(s) && RootRing(s.min, s.roots, s.nodes.left, s.nodes.right)
    requires 0 <= y < |s.nodes.key| && x in s.kids[y]
    requires KidRing(s.nodes.child[y], s.kids[y], s.nodes.left, s.nodes.right)
    requires forall c :: c in s.kids[y] ==> c !in s.roots
    ensures 0 <= x < |s.nodes.key|
    ensures var t := CutSpec(s, x, y);
      && RootRing(t.min, t.roots, t.nodes.left, t.nodes.right)
      && (forall r :: r in t.roots <==> r in s.roots || r == x)
      && t.min == (if s.min == NIL || s.nodes.key[x] < s.nodes.key[s.min] then x else s.min)
      && KidRing(t.nodes.child[y], t.kids[y], t.nodes.left, t.nodes.right)
      && (forall c :: c in t.kids[y] <==> c in s.kids[y] && c != x)
      && |t.kids[y]| == |s.kids[y]| - 1
  {
    var a := s.nodes;
    var s1 := RemoveChild(s, y, x);
    var s2 := s1.(nodes := s1.nodes.(degree := s1.nodes.degree[y := s1.nodes.degree[y] - 1]));
    RemoveChildShape(s, y, x);
    assert RootRing(s2.min, s2.roots, s2.nodes.left, s2.nodes.right) by {
      RemoveChildFrame(s, y, x);
      if s.min != NIL {
        RingFrame(s.roots, a.left, a.right, s2.nodes.left, s2.nodes.right);
      }
    }
    MergeRootShape(s2, x);
    var t := CutSpec(s, x, y);
    assert KidRing(t.nodes.child[y], t.kids[y], t.nodes.left, t.nodes.right) by {
      MergeRootKept(s2, x);
      if s2.nodes.child[y] != NIL {
        RingFrame(s2.kids[y], s2.nodes.left, s2.nodes.right, t.nodes.left, t.nodes.right);
      }
    }
  }

  /** removeFromChildList(y, x) leaves the root ring, and every node outside the child
      list of `y`, as they were. */
  lemma RemoveChildRoots(s: HeapState, x: int, y: int)
    requires Sound(s) && RootRing(s.min, s.roots, s.nodes.left, s.nodes.right)
    requires 0 <= y < |s.nodes.key| && x in s.kids[y]
    requires KidRing(s.nodes.child[y], s.kids[y], s.nodes.left, s.nodes.right)
    requires forall c :: c in s.kids[y] ==> c !in s.roots
    ensures 0 <= x < |s.nodes.key|
    ensures var s1 := RemoveChild(s, y, x);
      && RootRing(s1.min, s1.roots, s1.nodes.left, s1.nodes.right)
      && (forall z :: 0 <= z < |s.nodes.key| && z !in s.kids[y] ==>
            s1.nodes.left[z] == s.nodes.left[z] && s1.nodes.right[z] == s.nodes.right[z])
  {
    var a := s.nodes;
    var s1 := RemoveChild(s, y, x);
    RemoveChildFrame(s, y, x);
    if s.min != NIL {
      forall r | r in s.roots && 0 <= r < |a.right|
        ensures s1.nodes.left[r] == a.left[r] && s1.nodes.right[r] == a.right[r]
      {
        assert r !in s.kids[y];
      }
      RingFrame(s.roots, a.left, a.right, s1.nodes.left, s1.nodes.right);
    }
  }

  /** What cut(x, y) leaves alone: the links of nodes neither roots nor children of `y`. */
  lemma CutKept(s: HeapState, x: int, y: int)
    requires Sound(s) && RootRing(s.min, s.roots, s.nodes.left, s.nodes.right)
    requires 0 <= y < |s.nodes.key| && x in s.kids[y]
    requires KidRing(s.nodes.child[y], s.kids[y], s.nodes.left, s.nodes.right)
    requires forall c :: c in s.kids[y] ==> c !in s.roots
    ensures 0 <= x < |s.nodes.key|
    ensures var t := CutSpec(s, x, y);
      forall z :: 0 <= z < |s.nodes.key| && z !in s.roots && z !in s.kids[y] ==>
        t.nodes.left[z] == s.nodes.left[z] && t.nodes.right[z] == s.nodes.right[z]
  {
    var a := s.nodes;
    RemoveChildRoots(s, x, y);
    var s1 := RemoveChild(s, y, x);
    var s2 := s1.(nodes := s1.nodes.(degree := s1.nodes.degree[y := s1.nodes.degree[y] - 1]));
    MergeRootKept(s2, x);
    var t := CutSpec(s, x, y);
    forall z | 0 <= z < |a.key| && z !in s.roots && z !in s.kids[y]
      ensures t.nodes.left[z] == a.left[z] && t.nodes.right[z] == a.right[z]
    {
      assert z != x;
      assert s2.nodes.left[z] == a.left[z] && s2.nodes.right[z] == a.right[z];
    }
  }

  /** cut(x, y) keeps the `child` and the child list of every node but `y`; `x` loses its
      parent and `y` one degree. */
  lemma CutFields(s: HeapState, x: int, y: int)
    requires Sound(s) && 0 <= y < |s.nodes.key| && x in s.kids[y]
    requires KidRing(s.nodes.child[y], s.kids[y], s.nodes.left, s.nodes.right)
    ensures 0 <= x < |s.nodes.key|
    ensures var t := CutSpec(s, x, y);
      && t.nodes.child == s.nodes.child[y := t.nodes.child[y]]
      && t.kids == s.kids[y := t.kids[y]]
      && t.nodes.parent == s.nodes.parent[x := NIL]
      && t.nodes.degree == s.nodes.degree[y := s.nodes.degree[y] - 1]
  {
    RemoveChildFrame(s, y, x);
  }
}
