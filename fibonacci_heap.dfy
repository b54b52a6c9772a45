/** The Fibonacci heap of FibonacciHeap.java as a class whose fields are the heap's own:
    the `Node` objects (as an arena), `min` and `size`, with the heap's shape kept in ghost
    fields. The private helpers perform the source's pointer writes in the source's order
    and are proved to leave the state their function in FibonacciModel describes; the
    public operations are proved to keep the heap invariant and to behave as a priority
    queue, by the lemmas of FibonacciFacts. */
module Fibonacci {
  import opened Rings
  import opened FibonacciNodes
  import opened FibonacciModel
  import opened FibonacciFacts

  class FibonacciHeap {
    /** The `Node` objects created so far. */
    var nodes: Arena
    var min: int
    var size: int

    /** The root list in `right` order. */
    ghost var roots: seq<int>
    /** The child list of each node, read from its `child`. */
    ghost var kids: seq<seq<int>>
    /** The nodes currently in the heap. */
    ghost var alive: set<int>
    /** A measure that grows strictly from child to parent. */
    ghost var rank: seq<int>

    /** All fields as one value. */
    ghost function State(): HeapState
      reads this
    {
      HeapState(nodes, min, size, roots, kids, alive, rank)
    }

    /** The heap invariant. */
    ghost predicate Valid()
      reads this
    {
      Inv(State())
    }

    /** An empty heap. */
    constructor ()
      ensures Valid() && alive == {} && nodes.key == [] && nodes.data == []
    {
      nodes := Arena([], [], [], [], [], [], [], []);
      min, size := NIL, 0;
      roots, kids, alive, rank := [], [], {}, [];
    }

    /** Creates a node with the given key and data, adds it to the root list and returns it. */
    method Insert(k: int, v: int) returns (node: int)
      requires Valid()
      modifies this
      ensures Valid() && node == old(|nodes.key|) && alive == old(alive) + {node}
      ensures nodes.key == old(nodes.key) + [k] && nodes.data == old(nodes.data) + [v]
      ensures node in roots && nodes.parent[node] == NIL && nodes.degree[node] == 0 && !nodes.childCut[node]
      ensures min == (if old(min) == NIL || k < old(nodes.key[min]) then node else old(min))
    {
      ghost var s0 := State();
      InsertInv(s0, k, v);
      node := NewNode(k, v);
      ghost var g := State();
      AddRoot(node);
      size, alive := size + 1, alive + {node};
      assert State() == Join(g, node) == InsertSpec(s0, k, v);
    }

    /** insert's placement of the new node: it becomes the root list when there is none,
        otherwise it joins the root list and becomes `min` when its key is smaller. */
    method AddRoot(node: int)
      requires Sound(State()) && 0 <= node < |nodes.key|
      modifies this
      ensures State() == MergeRoot(old(State()), node)
    {
      if min == NIL {
        min := node;
        roots := [node];
      } else {
        MergeWithRootList(node);
        min := if nodes.key[node] < nodes.key[min] then node else min;
      }
    }

    /** `new Node(key, value)`: a node with no parent and no child, degree 0, unmarked, a
        ring of its own. */
    method NewNode(k: int, v: int) returns (node: int)
      requires Sound(State())
      modifies this
      ensures node == old(|nodes.key|) && State() == Grow(old(State()), k, v)
    {
      node := |nodes.key|;
      nodes := Arena(nodes.key + [k], nodes.data + [v], nodes.degree + [0], nodes.childCut + [false],
                     nodes.parent + [NIL], nodes.child + [NIL], nodes.left + [node], nodes.right + [node]);
      kids, rank := kids + [[]], rank + [0];
    }

    method MergeWithRootList(node: int)
      requires Sound(State()) && 0 <= node < |nodes.key|
      modifies this
      ensures State() == MergeRoot(old(State()), node)
    {
      ghost var t := MergeRoot(State(), node);
      if min == NIL {
        min := node;
      } else {
        nodes := nodes.(left := nodes.left[node := min]);
        nodes := nodes.(right := nodes.right[node := nodes.right[min]]);
        nodes := nodes.(left := nodes.left[nodes.right[min] := node]);
        nodes := nodes.(right := nodes.right[min := node]);
        if nodes.key[node] < nodes.key[min] {
          min := node;
        }
      }
      roots := t.roots;
    }

    method RemoveFromRootList(node: int)
      requires Sound(State()) && 0 <= node < |nodes.key|
      modifies this
      ensures State() == RemoveRoot(old(State()), node)
    {
      ghost var t := RemoveRoot(State(), node);
      if nodes.right[node] == node {
        min := NIL;
      } else {
        nodes := nodes.(right := nodes.right[nodes.left[node] := nodes.right[node]]);
        nodes := nodes.(left := nodes.left[nodes.right[node] := nodes.left[node]]);
        if min == node {
          min := nodes.right[node];
        }
      }
      roots := t.roots;
    }

    method RemoveFromChildList(parent: int, node: int)
      requires Sound(State()) && 0 <= parent < |nodes.key| && 0 <= node < |nodes.key|
      modifies this
      ensures State() == RemoveChild(old(State()), parent, node)
    {
      ghost var t := RemoveChild(State(), parent, node);
      if nodes.right[node] == node {
        nodes := nodes.(child := nodes.child[parent := NIL]);
      } else {
        if nodes.child[parent] == node {
          nodes := nodes.(child := nodes.child[parent := nodes.right[node]]);
        }
        nodes := nodes.(right := nodes.right[nodes.left[node] := nodes.right[node]]);
        nodes := nodes.(left := nodes.left[nodes.right[node] := nodes.left[node]]);
      }
      nodes := nodes.(right := nodes.right[node := node]);
      nodes := nodes.(left := nodes.left[node := nodes.right[node]]);
      kids := t.kids;
    }

    method MergeWithChildList(child: int, node: int) returns (r: int)
      requires |nodes.left| == |nodes.right| && 0 <= node < |nodes.right|
      requires child == NIL || (0 <= child < |nodes.right| && 0 <= nodes.right[child] < |nodes.right|)
      modifies this
      ensures (nodes, r) == MergeChild(old(nodes), child, node)
      ensures min == old(min) && size == old(size) && roots == old(roots) && kids == old(kids)
      ensures alive == old(alive) && rank == old(rank)
    {
      if child == NIL {
        return node;
      }
      nodes := nodes.(left := nodes.left[node := child]);
      nodes := nodes.(right := nodes.right[node := nodes.right[child]]);
      nodes := nodes.(left := nodes.left[nodes.right[child] := node]);
      nodes := nodes.(right := nodes.right[child := node]);
      r := child;
    }

    /** Removes the node with the smallest key and returns it, or null for an empty heap. */
    method ExtractMin() returns (z: int)
      requires Valid()
      modifies this
      ensures Valid() && z == old(min)
      ensures z == NIL <==> old(alive) == {}
      ensures z != NIL ==> z in old(alive) && 0 <= z < |nodes.key|
      ensures z != NIL ==> forall n :: n in old(alive) ==> 0 <= n < |nodes.key| && nodes.key[z] <= nodes.key[n]
      ensures alive == old(alive) - {z} && nodes.key == old(nodes.key) && nodes.data == old(nodes.data)
    {
      MinIsMinimum(State());
      z := min;
      if z != NIL {
        RemoveMin(z);
      }
    }

    /** extractMin once `z = min` is known to exist: its children become roots, `z` leaves
        the root list, and the rest is consolidated. */
    method RemoveMin(z: int)
      requires Valid() && z == min && z != NIL
      modifies this
      ensures Valid() && alive == old(alive) - {z}
      ensures nodes.key == old(nodes.key) && nodes.data == old(nodes.data)
    {
      PromoteChildren(z);
      DropRoot(z);
    }

    /** extractMin once the children of `z = min` are roots: `z` leaves the root list and
        the heap, and the remaining roots are consolidated. */
    method DropRoot(z: int)
      requires Promoting(State(), z, []) && size == |alive|
      modifies this
      ensures Valid() && alive == old(alive) - {z}
      ensures nodes.key == old(nodes.key) && nodes.data == old(nodes.data)
    {
      ghost var a0 := alive;
      DetachCore(State(), z);
      RemoveFromRootList(z);
      alive := alive - {z};
      if z == nodes.right[z] {
        min := NIL;
        assert Forest(State());
      } else {
        min := nodes.right[z];
        Consolidate();
      }
      size := size - 1;
      assert |alive| == |a0| - 1;
    }

    /** The first loop of extractMin: every child of `z = min` joins the root list, in
        the order of its child list, and loses its parent; `min` stays `z`. */
    method PromoteChildren(z: int)
      requires Forest(State()) && z == min && z != NIL
      modifies this
      ensures Promoting(State(), z, [])
      ensures nodes.key == old(nodes.key) && nodes.data == old(nodes.data)
      ensures alive == old(alive) && size == old(size)
      ensures forall c :: c in old(kids[z]) ==> c in roots && 0 <= c < |nodes.parent| && nodes.parent[c] == NIL
    {
      PromoteStart(State());
      if nodes.child[z] != NIL {
        var list := Iterate(nodes.child[z], kids[z]);
        for i := 0 to |list|
          invariant Promoting(State(), z, list[i..])
          invariant nodes.key == old(nodes.key) && nodes.data == old(nodes.data)
          invariant alive == old(alive) && size == old(size)
          invariant forall j :: 0 <= j < i ==> list[j] in roots
        {
          assert list[i..][0] == list[i] && list[i..][1..] == list[i + 1..];
          ghost var before := roots;
          PromoteChild(z, list[i], list[i..]);
          forall j | 0 <= j <= i ensures list[j] in roots {
            if j < i {
              assert list[j] in before;
            }
          }
        }
        assert list[|list|..] == [];
        RootsUnparented(State(), list);
      } else {
        assert kids[z] == [];
      }
    }

    /** The body of extractMin's first loop, for the child `x` of `z`, the first of the
        children `rest` still to move. */
    method PromoteChild(z: int, x: int, ghost rest: seq<int>)
      requires Promoting(State(), z, rest) && rest != [] && rest[0] == x
      modifies this
      ensures Promoting(State(), z, rest[1..])
      ensures State() == PromoteStep(old(State()), z, rest)
      ensures nodes.key == old(nodes.key) && nodes.data == old(nodes.data)
      ensures alive == old(alive) && size == old(size)
      ensures x in roots && nodes.parent[x] == NIL
      ensures forall c :: c in old(roots) ==> c in roots
    {
      PromoteCore(State(), z, rest);
      ghost var t := PromoteStep(State(), z, rest);
      MergeWithRootList(x);
      nodes := nodes.(parent := nodes.parent[x := NIL]);
      kids := t.kids;
      assert State() == t;
    }

    /** Lowers the key of node `x` to `k`; a `k` above the current key is refused (the
        source throws), `ok` is false and nothing changes. */
    method DecreaseKey(x: int, k: int) returns (ok: bool)
      requires Valid() && x in alive
      modifies this
      ensures ok <==> k <= old(nodes.key[x])
      ensures !ok ==> State() == old(State())
      ensures ok ==> Valid() && nodes.key == old(nodes.key)[x := k]
      ensures nodes.data == old(nodes.data) && alive == old(alive)
      ensures ok ==> old(min) != NIL && min == (if k < old(nodes.key[min]) then x else old(min))
      ensures ok && old(nodes.parent[x]) != NIL && k < old(nodes.key[nodes.parent[x]]) ==>
                x in roots && nodes.parent[x] == NIL && !nodes.childCut[x]
      ensures ok && (old(nodes.parent[x]) == NIL || old(nodes.key[nodes.parent[x]]) <= k) ==>
                nodes.parent == old(nodes.parent) && nodes.childCut == old(nodes.childCut) && roots == old(roots)
    {
      assert 0 <= x < |nodes.key|;
      MinIsMinimum(State());
      if k > nodes.key[x] {
        return false;
      }
      Lower(x, k, nodes.parent[x]);
      ok := true;
    }

    /** decreaseKey once `k` is accepted for `x`, whose parent is `y`: the key is
        written, `x` is cut to the root list when it now breaks the heap order with `y`,
        and `min` moves to `x` when `k` is below min's key. */
    method Lower(x: int, k: int, y: int)
      requires Forest(State()) && x in alive && 0 <= x < |nodes.key| && k <= nodes.key[x] && min != NIL
      requires y == nodes.parent[x] && (y == NIL || 0 <= y < |nodes.key|) && 0 <= min < |nodes.key|
      modifies this
      ensures Forest(State()) && nodes.key == old(nodes.key)[x := k]
      ensures nodes.data == old(nodes.data) && alive == old(alive) && size == old(size)
      ensures min == (if k < old(nodes.key[min]) then x else old(min))
      ensures y != NIL && k < old(nodes.key[y]) ==> x in roots && nodes.parent[x] == NIL && !nodes.childCut[x]
      ensures y == NIL || old(nodes.key[y]) <= k ==>
                nodes.parent == old(nodes.parent) && nodes.childCut == old(nodes.childCut) && roots == old(roots)
    {
      if y != NIL && k < nodes.key[y] {
        LowerCut(x, k, y);
      } else {
        LowerStay(x, k);
      }
    }

    /** decreaseKey when the new key `k` breaks the heap order between `x` and its
        parent `y`. */
    method LowerCut(x: int, k: int, y: int)
      requires Forest(State()) && x in alive && 0 <= x < |nodes.key| && k <= nodes.key[x] && 0 <= min < |nodes.key|
      requires y == nodes.parent[x] && 0 <= y < |nodes.key| && k < nodes.key[y]
      modifies this
      ensures Forest(State()) && nodes.key == old(nodes.key)[x := k]
      ensures nodes.data == old(nodes.data) && alive == old(alive) && size == old(size)
      ensures min == (if k < old(nodes.key[min]) then x else old(min))
      ensures x in roots && nodes.parent[x] == NIL && !nodes.childCut[x]
    {
      assert rank[y] > rank[x];
      WriteKey(x, k);
      CutUp(x, y);
      NewMin(x);
    }

    /** decreaseKey when `x` has no parent or a parent with a key no larger than `k`:
        nothing moves, only `min` may change. */
    method LowerStay(x: int, k: int)
      requires Forest(State()) && x in alive && 0 <= x < |nodes.key| && k <= nodes.key[x] && 0 <= min < |nodes.key|
      requires nodes.parent[x] == NIL || (0 <= nodes.parent[x] < |nodes.key| && nodes.key[nodes.parent[x]] <= k)
      modifies this
      ensures Forest(State()) && nodes.key == old(nodes.key)[x := k]
      ensures nodes.data == old(nodes.data) && alive == old(alive) && size == old(size)
      ensures min == (if k < old(nodes.key[min]) then x else old(min))
      ensures nodes.parent == old(nodes.parent) && nodes.childCut == old(nodes.childCut) && roots == old(roots)
    {
      WriteKey(x, k);
      NewMin(x);
    }

    /** decreaseKey when `x` now breaks the heap order with its parent `y`: `x` is cut to
        the root list and the cut cascades up from `y`. */
    method CutUp(x: int, y: int)
      requires Core(State(), NIL, x) && MinOk(min, roots, nodes.key, x)
      requires x in alive && 0 <= x < |nodes.key| && nodes.parent[x] == y && 0 <= y < |nodes.key| && min != NIL
      modifies this
      ensures Forest(State())
      ensures nodes.key == old(nodes.key) && nodes.data == old(nodes.data)
      ensures alive == old(alive) && size == old(size)
      ensures x in roots && nodes.parent[x] == NIL && !nodes.childCut[x]
      ensures min == (if nodes.key[x] < nodes.key[old(min)] then x else old(min))
    {
      CutForest(State(), x, y);
      CutMarks(State(), x, y);
      Cut(x, y);
      ghost var s1 := State();
      assert s1.rank[x] < s1.rank[y] && s1.nodes.parent[x] == NIL && !s1.nodes.childCut[x];
      CascadeFrame(s1, y);
      CascadingCut(y);
      assert nodes.parent[x] == NIL && !nodes.childCut[x];
    }

    /** `x.key = newKey` for a key no larger than the old one: only the heap order
        between `x` and its parent, and `min` against `x`, can break. */
    method WriteKey(x: int, k: int)
      requires Forest(State()) && x in alive && 0 <= x < |nodes.key| && k <= nodes.key[x]
      modifies this
      ensures Core(State(), NIL, x) && MinOk(min, roots, nodes.key, x)
      ensures old(nodes.parent[x]) == NIL || old(nodes.key[nodes.parent[x]]) <= k ==> Core(State(), NIL, NIL)
      ensures nodes == old(nodes).(key := old(nodes.key)[x := k])
      ensures min == old(min) && roots == old(roots) && alive == old(alive) && size == old(size) && rank == old(rank)
    {
      Lowered(State(), x, k);
      SetKey(x, k);
    }

    /** `x.key = newKey`. */
    method SetKey(x: int, k: int)
      requires 0 <= x < |nodes.key|
      modifies this
      ensures State() == old(State()).(nodes := old(State()).nodes.(key := old(nodes.key)[x := k]))
    {
      nodes := nodes.(key := nodes.key[x := k]);
    }

    /** decreaseKey's last test: `x` becomes `min` when its key is below min's. */
    method NewMin(x: int)
      requires Core(State(), NIL, NIL) && MinOk(min, roots, nodes.key, x) && x in alive && 0 <= x < |nodes.key|
      requires min != NIL
      modifies this`min
      ensures Forest(State())
      ensures min == (if nodes.key[x] < nodes.key[old(min)] then x else old(min))
    {
      ghost var s1 := State();
      MinFix(s1, x);
      if nodes.key[x] < nodes.key[min] {
        min := x;
        assert State() == s1.(min := x);
      }
    }

    method Cut(x: int, y: int)
      requires Sound(State()) && 0 <= x < |nodes.key| && 0 <= y < |nodes.key|
      modifies this
      ensures State() == CutSpec(old(State()), x, y)
    {
      RemoveFromChildList(y, x);
      nodes := nodes.(degree := nodes.degree[y := nodes.degree[y] - 1]);
      MergeWithRootList(x);
      nodes := nodes.(parent := nodes.parent[x := NIL]);
      nodes := nodes.(childCut := nodes.childCut[x := false]);
    }

    /** cascadingCut(y): an unmarked `y` is marked; a marked `y` is cut from its parent,
        which is then treated the same way, up to the first unmarked node or a root. */
    method CascadingCut(y: int)
      requires Forest(State()) && y in alive && 0 <= y < |rank|
      modifies this
      ensures Forest(State())
      ensures State() == Cascade(old(State()), y)
      ensures nodes.key == old(nodes.key) && nodes.data == old(nodes.data)
      ensures alive == old(alive) && size == old(size) && rank == old(rank) && min == old(min)
      ensures old(nodes.parent[y]) != NIL && old(nodes.childCut[y]) ==> y in roots
      decreases MaxOf(rank) - rank[y]
    {
      CascadeCases(State(), y);
      var z := nodes.parent[y];
      if z != NIL {
        if !nodes.childCut[y] {
          nodes := nodes.(childCut := nodes.childCut[y := true]);
        } else {
          MinBelow(State(), y);
          Relax(State(), y);
          CutForest(State(), y, z);
          CutMarks(State(), y, z);
          Cut(y, z);
          CascadingCut(z);
        }
      }
    }

    /** The nodes of the ring read from `head`, in `right` order; none for a null head. */
    method Iterate(head: int, ghost s: seq<int>) returns (list: seq<int>)
      requires (head == NIL && s == []) || (Ring(s, nodes.left, nodes.right) && s[0] == head)
      ensures list == s
    {
      list := [];
      if head == NIL {
        return;
      }
      var current := head;
      list := [current];
      current := nodes.right[current];
      while current != head
        invariant 1 <= |list| <= |s|
        invariant list == s[..|list|]
        invariant current == s[Succ(|s|, |list| - 1)]
        decreases |s| - |list|
      {
        list := list + [current];
        current := nodes.right[current];
      }
      DistinctIndex(s, Succ(|s|, |list| - 1), 0);
    }

    /** consolidate(): every root is placed in a table indexed by degree, linking trees of
        equal degree, and `min` is rebuilt from the table. The heap is left a forest whose
        roots all differ in degree. */
    method Consolidate()
      requires Core(State(), NIL, NIL) && min != NIL
      modifies this
      ensures Forest(State()) && DistinctDegrees(roots, nodes.degree)
      ensures nodes.key == old(nodes.key) && nodes.data == old(nodes.data)
      ensures alive == old(alive) && size == old(size)
    {
      var A := Nils(Log2Floor(size) + 10);
      ConsolidateStart(State(), A);
      var list := Iterate(min, RingFrom(roots, min));
      A := PlaceAll(A, list);
      FinishTable(A);
    }

    /** consolidate once every root is placed: `min` is rebuilt from the table. */
    method FinishTable(A: seq<int>)
      requires Consolidating(State(), A, [])
      modifies this`min
      ensures Forest(State()) && DistinctDegrees(roots, nodes.degree)
    {
      ghost var s1 := State();
      RebuildMin(A);
      assert min in A;
      ConsolidateEnd(s1, A, min);
      assert State() == s1.(min := min);
    }

    /** consolidate's loop over the roots listed at its start. */
    method PlaceAll(A0: seq<int>, list: seq<int>) returns (A: seq<int>)
      requires Consolidating(State(), A0, list)
      modifies this
      ensures Consolidating(State(), A, [])
      ensures nodes.key == old(nodes.key) && nodes.data == old(nodes.data)
      ensures alive == old(alive) && size == old(size)
    {
      A := A0;
      for i := 0 to |list|
        invariant Consolidating(State(), A, list[i..])
        invariant nodes.key == old(nodes.key) && nodes.data == old(nodes.data)
        invariant alive == old(alive) && size == old(size)
      {
        Pick(State(), A, list[i..]);
        assert list[i..][0] == list[i] && list[i..][1..] == list[i + 1..];
        A := PlaceRoot(A, list[i], list[i + 1..]);
      }
      assert list[|list|..] == [];
    }

    /** The body of consolidate's loop over the roots, for the root `w`: while the table
        holds a tree of the current degree, the root with the larger key (the table's tree
        on a tie) is linked below the other and the degree grows; the survivor is then
        stored at its degree. */
    method PlaceRoot(A0: seq<int>, w: int, ghost rest: seq<int>) returns (A: seq<int>)
      requires 0 <= w < |nodes.degree| && Combining(State(), A0, w, nodes.degree[w], rest)
      modifies this
      ensures Consolidating(State(), A, rest)
      ensures nodes.key == old(nodes.key) && nodes.data == old(nodes.data)
      ensures alive == old(alive) && size == old(size)
    {
      A := A0;
      var x := w;
      var d := nodes.degree[x];
      while d < |A| && A[d] != NIL
        invariant Combining(State(), A, x, d, rest)
        invariant nodes.key == old(nodes.key) && nodes.data == old(nodes.data)
        invariant alive == old(alive) && size == old(size)
        decreases |A| - d
      {
        var y := A[d];
        LinkStep(State(), A, x, d, rest);
        if nodes.key[x] > nodes.key[y] {
          x, y := y, x;
        }
        Link(y, x);
        A := A[d := NIL];
        d := d + 1;
      }
      Store(State(), A, x, d, rest);
      if d >= |A| {
        A := A + Nils(d - |A| + 1);
      }
      A := A[d := x];
    }

    /** consolidate's last loop: `min` is rebuilt as the first tree of the table whose key
        is strictly below that of every tree before it. */
    method RebuildMin(A: seq<int>)
      requires Slots(A, |nodes.key|)
      modifies this`min
      ensures min == NIL <==> forall e :: 0 <= e < |A| ==> A[e] == NIL
      ensures min != NIL ==> min in A && 0 <= min < |nodes.key|
      ensures forall e :: 0 <= e < |A| && A[e] != NIL ==> 0 <= min < |nodes.key| && nodes.key[min] <= nodes.key[A[e]]
    {
      min := NIL;
      for i := 0 to |A|
        invariant min == NIL <==> forall e :: 0 <= e < i ==> A[e] == NIL
        invariant min != NIL ==> min in A[..i] && 0 <= min < |nodes.key|
        invariant forall e :: 0 <= e < i && A[e] != NIL ==> 0 <= min < |nodes.key| && nodes.key[min] <= nodes.key[A[e]]
      {
        var node := A[i];
        if node != NIL && (min == NIL || nodes.key[node] < nodes.key[min]) {
          min := node;
        }
      }
    }

    method Link(y: int, x: int)
      requires Sound(State()) && 0 <= y < |nodes.key| && 0 <= x < |nodes.key|
      modifies this
      ensures State() == LinkSpec(old(State()), y, x)
    {
      ghost var t := LinkSpec(State(), y, x);
      RemoveFromRootList(y);
      nodes := nodes.(right := nodes.right[y := y]);
      nodes := nodes.(left := nodes.left[y := nodes.right[y]]);
      var c := MergeWithChildList(nodes.child[x], y);
      nodes := nodes.(child := nodes.child[x := c]);
      nodes := nodes.(parent := nodes.parent[y := x]);
      nodes := nodes.(degree := nodes.degree[x := nodes.degree[x] + 1]);
      nodes := nodes.(childCut := nodes.childCut[y := false]);
      kids, rank := t.kids, t.rank;
    }

    /** Whether the heap holds no node. */
    method IsEmpty() returns (empty: bool)
      requires Valid()
      ensures empty <==> alive == {}
    {
      MinIsMinimum(State());
      empty := min == NIL;
    }
  }
}
