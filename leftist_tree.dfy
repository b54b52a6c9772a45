/** The leftist tree of LeftistTree.java: a meldable min-heap of (vertex, key) nodes.
    A tree is exclusively owned by its heap, so the in-place rewiring of `left`, `right`
    and `npl` that `meld` and `delete` perform is modelled as building the rewired tree
    as a value; the heap object itself holds the `root` it reassigns. */
module Leftist {

  /** What a node carries besides its links: `vertex` is the payload, `key` the priority. */
  datatype Entry = Entry(vertex: int, key: int)

  /** `Leaf` is Java's null; `npl` is the stored null path length field. */
  datatype Tree = Leaf | Node(vertex: int, key: int, left: Tree, right: Tree, npl: int)

  /** `new Node(vertex, key)`: no children, npl 0. */
  function Singleton(vertex: int, key: int): (t: Tree)
    ensures t.Node? && t.left == Leaf && t.right == Leaf
    ensures Elems(t) == multiset{Entry(vertex, key)}
    ensures Leftist(t) && NplExact(t)
  {
    Node(vertex, key, Leaf, Leaf, 0)
  }

  function Size(t: Tree): nat
  {
    match t
    case Leaf => 0
    case Node(_, _, l, r, _) => 1 + Size(l) + Size(r)
  }

  /** The nodes of a tree, as a multiset of entries. */
  ghost function Elems(t: Tree): multiset<Entry>
  {
    match t
    case Leaf => multiset{}
    case Node(v, k, l, r, _) => multiset{Entry(v, k)} + Elems(l) + Elems(r)
  }

  /** How many nodes of `t` carry `vertex`. */
  ghost function Count(t: Tree, vertex: int): nat
  {
    match t
    case Leaf => 0
    case Node(v, _, l, r, _) => (if v == vertex then 1 else 0) + Count(l, vertex) + Count(r, vertex)
  }

  /** Min-heap order: no node has a key smaller than its parent's. */
  ghost predicate HeapOrdered(t: Tree)
  {
    match t
    case Leaf => true
    case Node(_, k, l, r, _) =>
      && (l.Node? ==> k <= l.key)
      && (r.Node? ==> k <= r.key)
      && HeapOrdered(l) && HeapOrdered(r)
  }

  /** The leftist shape: a node without a left child has no right child, and where both
      children exist the left one's npl is at least the right one's. */
  ghost predicate Leftist(t: Tree)
  {
    match t
    case Leaf => true
    case Node(_, _, l, r, _) =>
      && (l == Leaf ==> r == Leaf)
      && (l.Node? && r.Node? ==> l.npl >= r.npl)
      && Leftist(l) && Leftist(r)
  }

  /** The null path length of a tree: the number of edges on a shortest path from the
      root to a node with fewer than two children, and -1 for the empty tree. */
  ghost function NplOf(t: Tree): (n: int)
    ensures n >= -1
    ensures t.Node? ==> n >= 0
  {
    match t
    case Leaf => -1
    case Node(_, _, l, r, _) => 1 + (if NplOf(l) <= NplOf(r) then NplOf(l) else NplOf(r))
  }

  /** Every stored `npl` field holds the node's true null path length. */
  ghost predicate NplExact(t: Tree)
  {
    match t
    case Leaf => true
    case Node(_, _, l, r, n) => n == NplOf(t) && NplExact(l) && NplExact(r)
  }

  /** `meld(h1, h2)`: the root with the smaller key (h1 on a tie) keeps its left subtree and
      takes the meld of its right subtree with the other tree; the children are then
      promoted or swapped and the npl recomputed as LeftistTree.java:57-67 do. */
  function Meld(h1: Tree, h2: Tree): (r: Tree)
    ensures h1 == Leaf ==> r == h2
    ensures h2 == Leaf ==> r == h1
    ensures h1.Node? && h2.Node? && h1.key <= h2.key ==> r.Node? && r.vertex == h1.vertex && r.key == h1.key
    ensures h1.Node? && h2.Node? && h1.key > h2.key ==> r.Node? && r.vertex == h2.vertex && r.key == h2.key
    decreases Size(h1) + Size(h2)
  {
    if h1 == Leaf then h2
    else if h2 == Leaf then h1
    else
      var a := if h1.key > h2.key then h2 else h1;
      var b := if h1.key > h2.key then h1 else h2;
      var merged := Meld(a.right, b);
      if a.left == Leaf then
        Node(a.vertex, a.key, merged, Leaf, a.npl)
      else if merged.Node? && a.left.npl < merged.npl then
        Node(a.vertex, a.key, merged, a.left, a.left.npl + 1)
      else
        Node(a.vertex, a.key, a.left, merged, (if merged.Node? then merged.npl else 0) + 1)
  }

  /** The npl bookkeeping of meld: a root that already had a left child gets
      1 + npl of its new right child (1 when there is none); a root whose left slot was
      empty receives the melded tree on the left and keeps its npl. */
  lemma MeldNpl(h1: Tree, h2: Tree)
    requires h1.Node? && h2.Node?
    ensures var a := if h1.key > h2.key then h2 else h1;
            var r := Meld(h1, h2);
            && (a.left.Node? ==> r.npl == (if r.right.Node? then r.right.npl else 0) + 1)
            && (a.left == Leaf ==> r.right == Leaf && r.npl == a.npl)
  {
  }

  /** One level of meld: the winning root keeps its entry, and its two children are its
      old left subtree and the meld of its old right subtree with the other tree. */
  lemma MeldShape(h1: Tree, h2: Tree)
    requires h1.Node? && h2.Node?
    ensures var a := if h1.key > h2.key then h2 else h1;
            var b := if h1.key > h2.key then h1 else h2;
            var m := Meld(a.right, b);
            var r := Meld(h1, h2);
            && r.Node? && r.vertex == a.vertex && r.key == a.key
            && (a.left == Leaf ==> r.left == m && r.right == Leaf)
            && (a.left.Node? && m.Node? && a.left.npl < m.npl ==> r.left == m && r.right == a.left)
            && (a.left.Node? && !(m.Node? && a.left.npl < m.npl) ==> r.left == a.left && r.right == m)
  {
  }

  lemma ElemsNode(t: Tree)
    requires t.Node?
    ensures Elems(t) == multiset{Entry(t.vertex, t.key)} + Elems(t.left) + Elems(t.right)
  {
  }

  lemma MeldElemsStep(h1: Tree, h2: Tree)
    requires h1.Node? && h2.Node?
    requires var a := if h1.key > h2.key then h2 else h1;
             var b := if h1.key > h2.key then h1 else h2;
             Elems(Meld(a.right, b)) == Elems(a.right) + Elems(b)
    ensures Elems(Meld(h1, h2)) == Elems(h1) + Elems(h2)
  {
    MeldShape(h1, h2);
    ElemsNode(Meld(h1, h2));
    ElemsNode(h1);
    ElemsNode(h2);
  }

  /** Meld neither loses nor invents a node. */
  lemma {:induction false} MeldElems(h1: Tree, h2: Tree)
    ensures Elems(Meld(h1, h2)) == Elems(h1) + Elems(h2)
    decreases Size(h1) + Size(h2)
  {
    if h1.Node? && h2.Node? {
      var a := if h1.key > h2.key then h2 else h1;
      var b := if h1.key > h2.key then h1 else h2;
      MeldElems(a.right, b);
      MeldElemsStep(h1, h2);
    }
  }

  lemma MeldCountStep(h1: Tree, h2: Tree, vertex: int)
    requires h1.Node? && h2.Node?
    requires var a := if h1.key > h2.key then h2 else h1;
             var b := if h1.key > h2.key then h1 else h2;
             Count(Meld(a.right, b), vertex) == Count(a.right, vertex) + Count(b, vertex)
    ensures Count(Meld(h1, h2), vertex) == Count(h1, vertex) + Count(h2, vertex)
  {
    MeldShape(h1, h2);
  }

  lemma {:induction false} MeldCount(h1: Tree, h2: Tree, vertex: int)
    ensures Count(Meld(h1, h2), vertex) == Count(h1, vertex) + Count(h2, vertex)
    decreases Size(h1) + Size(h2)
  {
    if h1.Node? && h2.Node? {
      var a := if h1.key > h2.key then h2 else h1;
      var b := if h1.key > h2.key then h1 else h2;
      MeldCount(a.right, b, vertex);
      MeldCountStep(h1, h2, vertex);
    }
  }

  lemma MeldOrderedStep(h1: Tree, h2: Tree)
    requires h1.Node? && h2.Node? && HeapOrdered(h1) && HeapOrdered(h2)
    requires var a := if h1.key > h2.key then h2 else h1;
             var b := if h1.key > h2.key then h1 else h2;
             HeapOrdered(Meld(a.right, b))
    ensures HeapOrdered(Meld(h1, h2))
  {
    MeldShape(h1, h2);
  }

  /** Meld of two heap-ordered trees is heap-ordered. */
  lemma {:induction false} MeldOrdered(h1: Tree, h2: Tree)
    requires HeapOrdered(h1) && HeapOrdered(h2)
    ensures HeapOrdered(Meld(h1, h2))
    decreases Size(h1) + Size(h2)
  {
    if h1.Node? && h2.Node? {
      var a := if h1.key > h2.key then h2 else h1;
      var b := if h1.key > h2.key then h1 else h2;
      MeldOrdered(a.right, b);
      MeldOrderedStep(h1, h2);
    }
  }

  lemma MeldLeftistStep(h1: Tree, h2: Tree)
    requires h1.Node? && h2.Node? && Leftist(h1) && Leftist(h2)
    requires var a := if h1.key > h2.key then h2 else h1;
             var b := if h1.key > h2.key then h1 else h2;
             Leftist(Meld(a.right, b))
    ensures Leftist(Meld(h1, h2))
  {
  }

  /** Meld of two leftist trees is leftist. */
  lemma {:induction false} MeldLeftist(h1: Tree, h2: Tree)
    requires Leftist(h1) && Leftist(h2)
    ensures Leftist(Meld(h1, h2))
    decreases Size(h1) + Size(h2)
  {
    if h1.Node? && h2.Node? {
      var a := if h1.key > h2.key then h2 else h1;
      var b := if h1.key > h2.key then h1 else h2;
      MeldLeftist(a.right, b);
      MeldLeftistStep(h1, h2);
    }
  }

  lemma MeldNplExactStep(h1: Tree, h2: Tree)
    requires h1.Node? && h2.Node? && Leftist(h1) && Leftist(h2) && NplExact(h1) && NplExact(h2)
    requires var a := if h1.key > h2.key then h2 else h1;
             var b := if h1.key > h2.key then h1 else h2;
             NplExact(Meld(a.right, b))
    ensures NplExact(Meld(h1, h2))
  {
    var a := if h1.key > h2.key then h2 else h1;
    var b := if h1.key > h2.key then h1 else h2;
    var m := Meld(a.right, b);
    var r := Meld(h1, h2);
    assert m.Node? && m.npl == NplOf(m);
    assert NplExact(a.left) && NplExact(a.right);
    MeldShape(h1, h2);
    if a.left == Leaf {
      assert a.right == Leaf && a.npl == 0;
      assert NplOf(r) == 1 + NplOf(Leaf) == 0;
      assert r.npl == a.npl;
    } else if a.left.npl < m.npl {
      assert a.left.npl == NplOf(a.left);
      assert NplOf(r) == 1 + NplOf(a.left);
      assert r.npl == a.left.npl + 1;
    } else {
      assert a.left.npl == NplOf(a.left);
      assert NplOf(r) == 1 + NplOf(m);
      assert r.npl == m.npl + 1;
    }
  }

  /** Meld of two leftist trees whose npl fields are exact keeps every npl field exact:
      the bookkeeping of LeftistTree.java:57-67 computes the true null path length. */
  lemma {:induction false} MeldNplExact(h1: Tree, h2: Tree)
    requires Leftist(h1) && Leftist(h2) && NplExact(h1) && NplExact(h2)
    ensures NplExact(Meld(h1, h2))
    decreases Size(h1) + Size(h2)
  {
    if h1.Node? && h2.Node? {
      var a := if h1.key > h2.key then h2 else h1;
      var b := if h1.key > h2.key then h1 else h2;
      MeldNplExact(a.right, b);
      MeldNplExactStep(h1, h2);
    }
  }

  /** In a heap-ordered tree the root carries a smallest key. */
  lemma {:induction false} RootIsMin(t: Tree)
    requires HeapOrdered(t) && t.Node?
    ensures forall e :: e in Elems(t) ==> t.key <= e.key
  {
    if t.left.Node? { RootIsMin(t.left); }
    if t.right.Node? { RootIsMin(t.right); }
  }

  /** `delete(root, vertex)`: at the first node found carrying `vertex` on each branch the
      node is replaced by the meld of its children; above it the children are rewritten
      in place, with the npl left as it was and no swap. */
  function DeleteFrom(t: Tree, vertex: int): Tree
  {
    match t
    case Leaf => Leaf
    case Node(v, k, l, r, n) =>
      if v == vertex then Meld(l, r)
      else Node(v, k, DeleteFrom(l, vertex), DeleteFrom(r, vertex), n)
  }

  /** Delete only removes nodes carrying `vertex`: every other entry keeps its multiplicity,
      a tree without the vertex comes back unchanged, and one with the vertex loses some. */
  lemma {:induction false} DeleteFromElems(t: Tree, vertex: int)
    ensures Elems(DeleteFrom(t, vertex)) <= Elems(t)
    ensures forall e: Entry :: e.vertex != vertex ==> Elems(DeleteFrom(t, vertex))[e] == Elems(t)[e]
    ensures Count(t, vertex) == 0 ==> DeleteFrom(t, vertex) == t
    ensures Count(t, vertex) > 0 ==> Count(DeleteFrom(t, vertex), vertex) < Count(t, vertex)
  {
    match t
    case Leaf =>
    case Node(v, k, l, r, n) =>
      DeleteFromElems(l, vertex);
      DeleteFromElems(r, vertex);
      if v == vertex {
        MeldElems(l, r);
        MeldCount(l, r, vertex);
      }
  }

  /** A vertex held by a single node is gone after the delete. */
  lemma DeleteFromUnique(t: Tree, vertex: int)
    requires Count(t, vertex) <= 1
    ensures Count(DeleteFrom(t, vertex), vertex) == 0
  {
    DeleteFromElems(t, vertex);
  }

  /** Delete keeps heap order. */
  lemma {:induction false} DeleteFromOrdered(t: Tree, vertex: int)
    requires HeapOrdered(t)
    ensures HeapOrdered(DeleteFrom(t, vertex))
  {
    match t
    case Leaf =>
    case Node(v, k, l, r, n) =>
      if v == vertex {
        MeldOrdered(l, r);
      } else {
        DeleteFromOrdered(l, vertex);
        DeleteFromOrdered(r, vertex);
        RootKeyBound(l, vertex);
        RootKeyBound(r, vertex);
      }
  }

  /** After a delete, the new root's key is still no smaller than the old root's. */
  lemma RootKeyBound(t: Tree, vertex: int)
    requires HeapOrdered(t)
    ensures DeleteFrom(t, vertex).Node? ==> t.Node? && t.key <= DeleteFrom(t, vertex).key
  {
    var d := DeleteFrom(t, vertex);
    if d.Node? {
      DeleteFromElems(t, vertex);
      assert Entry(d.vertex, d.key) in Elems(d);
      RootIsMin(t);
    }
  }

  /** Delete does not maintain the leftist shape: removing the left child of a
      two-child root leaves a right child with no left sibling. */
  lemma DeleteMayBreakLeftist()
    ensures exists t: Tree, vertex: int :: Leftist(t) && HeapOrdered(t) && !Leftist(DeleteFrom(t, vertex))
  {
    var t := Node(0, 0, Singleton(1, 1), Singleton(2, 2), 1);
    assert DeleteFrom(t, 1) == Node(0, 0, Leaf, Singleton(2, 2), 1);
    assert Leftist(t) && HeapOrdered(t) && !Leftist(DeleteFrom(t, 1));
  }

  /** The heap object: `root` is the only field LeftistTree.java updates. */
  class LeftistTree {
    var root: Tree

    ghost predicate Valid()
      reads this
    {
      HeapOrdered(root)
    }

    ghost function Contents(): multiset<Entry>
      reads this
    {
      Elems(root)
    }

    constructor ()
      ensures Valid() && root == Leaf && Contents() == multiset{}
    {
      root := Leaf;
    }

    /** `insert(x)`: root := meld(root, x). */
    method Insert(x: Tree)
      requires Valid() && HeapOrdered(x)
      modifies this
      ensures Valid()
      ensures root == Meld(old(root), x)
      ensures Contents() == old(Contents()) + Elems(x)
      ensures Leftist(old(root)) && Leftist(x) ==> Leftist(root)
      ensures Leftist(old(root)) && NplExact(old(root)) && Leftist(x) && NplExact(x) ==> NplExact(root)
    {
      MeldElems(root, x);
      MeldOrdered(root, x);
      if Leftist(root) && Leftist(x) { MeldLeftist(root, x); }
      if Leftist(root) && NplExact(root) && Leftist(x) && NplExact(x) { MeldNplExact(root, x); }
      root := Meld(root, x);
    }

    /** `deleteMin()`: null on an empty tree; otherwise the old root, whose key is a
        minimum, and the tree becomes the meld of the root's children. */
    method DeleteMin() returns (min: Tree)
      requires Valid()
      modifies this
      ensures Valid()
      ensures old(root) == Leaf ==> min == Leaf && root == Leaf
      ensures old(root).Node? ==> && min == old(root)
                                  && root == Meld(min.left, min.right)
                                  && Contents() == old(Contents()) - multiset{Entry(min.vertex, min.key)}
                                  && Entry(min.vertex, min.key) in old(Contents())
                                  && (forall e :: e in old(Contents()) ==> min.key <= e.key)
      ensures Leftist(old(root)) ==> Leftist(root)
      ensures Leftist(old(root)) && NplExact(old(root)) ==> NplExact(root)
    {
      if root == Leaf {
        return Leaf;
      }
      min := root;
      RootIsMin(min);
      ElemsNode(min);
      MeldElems(min.left, min.right);
      MeldOrdered(min.left, min.right);
      if Leftist(min) { MeldLeftist(min.left, min.right); }
      if Leftist(min) && NplExact(min) { MeldNplExact(min.left, min.right); }
      assert Elems(Meld(min.left, min.right)) == Elems(min) - multiset{Entry(min.vertex, min.key)};
      root := Meld(root.left, root.right);
    }

    method IsEmpty() returns (empty: bool)
      ensures empty <==> root == Leaf
      ensures empty <==> Contents() == multiset{}
    {
      empty := root == Leaf;
      if root.Node? {
        assert Entry(root.vertex, root.key) in Contents();
      }
    }

    /** `delete(vertex)`: root := delete(root, vertex). */
    method Delete(vertex: int)
      requires Valid()
      modifies this
      ensures Valid()
      ensures root == DeleteFrom(old(root), vertex)
      ensures Contents() <= old(Contents())
      ensures forall e: Entry :: e.vertex != vertex ==> Contents()[e] == old(Contents())[e]
      ensures Count(old(root), vertex) == 0 ==> root == old(root)
    {
      DeleteFromElems(root, vertex);
      DeleteFromOrdered(root, vertex);
      root := DeleteFrom(root, vertex);
    }

    /** `decreaseKey(oldNode, newKey)`: delete the node's vertex, then insert a fresh node
        with the new key. Nothing checks that `newKey` is below the old key. */
    method DecreaseKey(oldNode: Tree, newKey: int)
      requires Valid() && oldNode.Node?
      modifies this
      ensures Valid()
      ensures root == Meld(DeleteFrom(old(root), oldNode.vertex), Singleton(oldNode.vertex, newKey))
      ensures Count(old(root), oldNode.vertex) <= 1 ==>
                Count(root, oldNode.vertex) == 1 && Entry(oldNode.vertex, newKey) in Contents()
      ensures forall e: Entry :: e.vertex != oldNode.vertex ==> Contents()[e] == old(Contents())[e]
    {
      ghost var before := root;
      Delete(oldNode.vertex);
      if Count(before, oldNode.vertex) <= 1 { DeleteFromUnique(before, oldNode.vertex); }
      MeldCount(root, Singleton(oldNode.vertex, newKey), oldNode.vertex);
      Insert(Singleton(oldNode.vertex, newKey));
    }
  }
}
